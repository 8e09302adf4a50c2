/**
 * The JavaScript string primitives the migration script relies on:
 * `trim`, `split` on one character, `join`, `startsWith`, `endsWith`,
 * ASCII `toLowerCase`, and the character classes `\s` and "line terminator".
 * Strings are `seq<char>`, one Unicode scalar value per character, where
 * JavaScript counts UTF-16 code units.
 */
module Text {

  /** The characters at which `^`/`$` in multiline mode and `.` stop. */
  predicate IsLineTerminator(c: char) {
    c == '\n' || c == '\r' || c == '\U{2028}' || c == '\U{2029}'
  }

  /** JavaScript white space plus line terminators: the class `\s` and what `trim` removes. */
  predicate IsSpace(c: char) {
    || IsLineTerminator(c)
    || c == ' ' || c == '\t' || c == '\U{000B}' || c == '\U{000C}'
    || c == '\U{00A0}' || c == '\U{FEFF}' || c == '\U{1680}'
    || ('\U{2000}' <= c <= '\U{200A}')
    || c == '\U{202F}' || c == '\U{205F}' || c == '\U{3000}'
  }

  predicate StartsWith(s: string, prefix: string) {
    |prefix| <= |s| && s[..|prefix|] == prefix
  }

  predicate EndsWith(s: string, suffix: string) {
    |suffix| <= |s| && s[|s| - |suffix|..] == suffix
  }

  /** `String.prototype.trimStart`. */
  function TrimStart(s: string): string {
    if s != [] && IsSpace(s[0]) then TrimStart(s[1..]) else s
  }

  /** `String.prototype.trimEnd`. */
  function TrimEnd(s: string): string {
    if s != [] && IsSpace(s[|s| - 1]) then TrimEnd(s[..|s| - 1]) else s
  }

  /** `trimStart` removes exactly the leading white space. */
  lemma {:induction false} TrimStartFacts(s: string)
    ensures EndsWith(s, TrimStart(s))
    ensures TrimStart(s) == [] || !IsSpace(TrimStart(s)[0])
    ensures forall i :: 0 <= i < |s| - |TrimStart(s)| ==> IsSpace(s[i])
  {
    if s != [] && IsSpace(s[0]) {
      var t := TrimStart(s[1..]);
      TrimStartFacts(s[1..]);
      assert TrimStart(s) == t;
      assert s[|s| - |t|..] == s[1..][|s| - 1 - |t|..];
    }
  }

  /** `trimEnd` removes exactly the trailing white space. */
  lemma {:induction false} TrimEndFacts(s: string)
    ensures StartsWith(s, TrimEnd(s))
    ensures TrimEnd(s) == [] || !IsSpace(TrimEnd(s)[|TrimEnd(s)| - 1])
    ensures forall i :: |TrimEnd(s)| <= i < |s| ==> IsSpace(s[i])
  {
    if s != [] && IsSpace(s[|s| - 1]) {
      TrimEndFacts(s[..|s| - 1]);
    }
  }

  /** `String.prototype.trim`. */
  function Trim(s: string): string {
    TrimEnd(TrimStart(s))
  }

  /** `Trim(s)` has no white space at either end and is the infix of `s` that starts after
      its leading white space. */
  lemma TrimFacts(s: string)
    ensures var r := Trim(s);
      r == [] || (!IsSpace(r[0]) && !IsSpace(r[|r| - 1]))
    ensures |TrimStart(s)| <= |s|
    ensures var k := |s| - |TrimStart(s)|;
      k + |Trim(s)| <= |s| && Trim(s) == s[k..k + |Trim(s)|]
  {
    var a := TrimStart(s);
    TrimStartFacts(s);
    TrimEndFacts(a);
    var r := TrimEnd(a);
    var k := |s| - |a|;
    assert a == s[k..];
    assert r == a[..|r|];
    assert r == s[k..k + |r|];
    assert r != [] ==> r[0] == a[0];
  }

  /** The first index at or after `from` holding `c`, or `|s|` when there is none. */
  function Find(s: string, from: nat, c: char): (k: nat)
    requires from <= |s|
    ensures from <= k <= |s|
    ensures k < |s| ==> s[k] == c
    decreases |s| - from
  {
    if from == |s| || s[from] == c then from else Find(s, from + 1, c)
  }

  /** No `c` lies between `from` and what `Find` returns: it is the first one. */
  lemma {:induction false} FindFirst(s: string, from: nat, c: char)
    requires from <= |s|
    ensures forall i :: from <= i < Find(s, from, c) ==> s[i] != c
    decreases |s| - from
  {
    if from < |s| && s[from] != c {
      FindFirst(s, from + 1, c);
    }
  }

  /** `Find` stops at the first `c`. */
  lemma {:induction false} FindAt(s: string, from: nat, c: char, k: nat)
    requires from <= k < |s| && s[k] == c
    requires forall i :: from <= i < k ==> s[i] != c
    ensures Find(s, from, c) == k
    decreases k - from
  {
    if from < k {
      FindAt(s, from + 1, c, k);
    }
  }

  /** `s.split(sep)` for a one-character separator; never empty. */
  function Split(s: string, sep: char): (parts: seq<string>)
    ensures |parts| >= 1
    decreases |s|
  {
    var k := Find(s, 0, sep);
    if k == |s| then [s]
    else
      [s[..k]] + Split(s[k + 1..], sep)
  }

  /** No part of a split holds the separator. */
  lemma {:induction false} SplitParts(s: string, sep: char)
    ensures forall i :: 0 <= i < |Split(s, sep)| ==> sep !in Split(s, sep)[i]
    decreases |s|
  {
    var k := Find(s, 0, sep);
    FindFirst(s, 0, sep);
    if k < |s| {
      SplitParts(s[k + 1..], sep);
      assert s[..k] == s[..k];
      assert sep !in s[..k] by {
        assert forall i :: 0 <= i < k ==> s[..k][i] == s[i];
      }
    } else {
      assert forall i :: 0 <= i < |s| ==> s[i] != sep;
    }
  }

  /** `parts.join(sep)`. */
  function Join(parts: seq<string>, sep: char): string {
    if |parts| == 0 then ""
    else if |parts| == 1 then parts[0]
    else parts[0] + [sep] + Join(parts[1..], sep)
  }

  /** Joining the parts of a split gives back the string. */
  lemma {:induction false} JoinSplit(s: string, sep: char)
    ensures Join(Split(s, sep), sep) == s
    decreases |s|
  {
    var k := Find(s, 0, sep);
    if k < |s| {
      var rest := Split(s[k + 1..], sep);
      var parts := Split(s, sep);
      assert parts == [s[..k]] + rest;
      assert parts[0] == s[..k] && parts[1..] == rest;
      JoinSplit(s[k + 1..], sep);
      calc {
        Join(parts, sep);
        parts[0] + [sep] + Join(parts[1..], sep);
        s[..k] + [sep] + s[k + 1..];
        { assert s[k] == sep; }
        s;
      }
    }
  }

  /** Splitting a join of separator-free parts gives back the parts. */
  lemma {:induction false} SplitJoin(parts: seq<string>, sep: char)
    requires |parts| >= 1
    requires forall i :: 0 <= i < |parts| ==> sep !in parts[i]
    ensures Split(Join(parts, sep), sep) == parts
  {
    if |parts| > 1 {
      assert Join(parts, sep) == parts[0] + [sep] + Join(parts[1..], sep);
      SplitAt(parts[0], sep, Join(parts[1..], sep));
      SplitJoin(parts[1..], sep);
      assert parts == [parts[0]] + parts[1..];
    }
  }

  /** A separator-free head, the separator and a tail split into the head and the tail's parts. */
  lemma SplitAt(head: string, sep: char, tail: string)
    requires sep !in head
    ensures Split(head + [sep] + tail, sep) == [head] + Split(tail, sep)
  {
    var s := head + [sep] + tail;
    assert forall i :: 0 <= i < |head| ==> s[i] == head[i];
    FindAt(s, 0, sep, |head|);
    assert s[..|head|] == head;
    assert s[|head| + 1..] == tail;
  }

  /** A join ends with its last part, and with the separator before it when there are several. */
  lemma {:induction false} JoinShape(parts: seq<string>, sep: char)
    requires |parts| >= 1
    ensures EndsWith(Join(parts, sep), parts[|parts| - 1])
    ensures |parts| > 1 ==> EndsWith(Join(parts, sep), [sep] + parts[|parts| - 1])
  {
    var last := parts[|parts| - 1];
    if |parts| > 1 {
      var rest := Join(parts[1..], sep);
      assert Join(parts, sep) == parts[0] + [sep] + rest;
      assert parts[1..][|parts[1..]| - 1] == last;
      JoinShape(parts[1..], sep);
      if |parts| == 2 {
        assert rest == last;
        EndsWithAppend(parts[0], [sep] + rest, [sep] + last);
      } else {
        EndsWithAppend(parts[0] + [sep], rest, [sep] + last);
      }
      EndsWithTrans(Join(parts, sep), [sep] + last, last);
    }
  }

  /** Concatenation regrouped, for the step of a scan that appends one piece at a time. */
  lemma Regroup<T>(acc: seq<T>, piece: seq<T>, after: seq<T>)
    ensures acc + (piece + after) == (acc + piece) + after
  {
  }

  /** A slice that is a concatenation splits into the two slices. */
  lemma SliceSplit(s: string, a: nat, b: nat, x: string, y: string)
    requires a + |x| + |y| == b <= |s| && s[a..b] == x + y
    ensures s[a..a + |x|] == x && s[a + |x|..b] == y
  {
    assert s[a..a + |x|] == s[a..b][..|x|];
    assert s[a + |x|..b] == s[a..b][|x|..];
  }

  /** A slice equal to `w` holds the characters of `w` at the matching positions. */
  lemma SliceChars(s: string, a: nat, w: string)
    requires a + |w| <= |s| && s[a..a + |w|] == w
    ensures forall i :: 0 <= i < |w| ==> s[a + i] == w[i]
  {
    forall i | 0 <= i < |w|
      ensures s[a + i] == w[i]
    {
      assert s[a..a + |w|][i] == s[a + i];
    }
  }

  /** A suffix of `b` is a suffix of `a + b`. */
  lemma EndsWithAppend(a: string, b: string, u: string)
    requires EndsWith(b, u)
    ensures EndsWith(a + b, u)
  {
    assert (a + b)[|a + b| - |u|..] == b[|b| - |u|..];
  }

  /** A suffix of a suffix is a suffix. */
  lemma EndsWithTrans(s: string, t: string, u: string)
    requires EndsWith(s, t) && EndsWith(t, u)
    ensures EndsWith(s, u)
  {
    assert s[|s| - |u|..] == s[|s| - |t|..][|t| - |u|..];
  }

  /** Lower-cases the ASCII letters (`toLowerCase` on the extensions the script compares). */
  function Lower(s: string): (r: string)
    ensures |r| == |s|
    ensures forall i :: 0 <= i < |s| ==> r[i] == (if 'A' <= s[i] <= 'Z' then (s[i] as int + 32) as char else s[i])
  {
    if s == [] then []
    else [if 'A' <= s[0] <= 'Z' then (s[0] as int + 32) as char else s[0]] + Lower(s[1..])
  }
}
