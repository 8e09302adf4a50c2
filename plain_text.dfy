/**
 * `markdownToPlainText`: a fixed chain of global regular-expression
 * replacements followed by white-space collapse and `trim`. Each replacement
 * is modelled as the left-to-right scan that a global JavaScript `replace`
 * performs: try the pattern at the current position; on a match emit the
 * replacement and continue after the match, otherwise emit one character.
 */
module PlainText {
  import opened Wrappers
  import opened Text

  /** The replacement passes, in the order they run. */
  datatype Pass =
    | InlineLink   // /\[([^\]]*)\]\([^)]*\)/g      -> '$1'
    | ImageLink    // /!\[([^\]]*)\]\([^)]*\)/g     -> '$1'
    | Bold         // /(?:\*\*|__)(.*?)(?:\*\*|__)/g -> '$1'
    | Italic       // /(?:\*|_)(.*?)(?:\*|_)/g       -> '$1'
    | InlineCode   // /`([^`]+)`/g                   -> '$1'
    | HtmlTag      // /<[^>]+>/g                     -> ''

  /** A match that ends just before `end` and is replaced by `replacement`. */
  datatype Hit = Hit(end: nat, replacement: string)

  /** An emphasis marker of width `w` at `k`: `**`/`__` for bold, `*`/`_` for italic. */
  predicate IsMarker(s: string, k: nat, w: nat) {
    && k + w <= |s|
    && if w == 2 then s[k..k + 2] == "**" || s[k..k + 2] == "__"
       else w == 1 && (s[k] == '*' || s[k] == '_')
  }

  /** The lazy `(.*?)` before a closing marker: the first marker at or after `k` that is not
      preceded by a line terminator. */
  function EmphasisClose(s: string, k: nat, w: nat): (c: Option<nat>)
    requires k <= |s|
    ensures c.Some? ==> k <= c.value && c.value + w <= |s|
    decreases |s| - k
  {
    if IsMarker(s, k, w) then Some(k)
    else if k < |s| && !IsLineTerminator(s[k]) then EmphasisClose(s, k + 1, w)
    else None
  }

  /** `[label](url)` after `open` characters of prefix (`[` or `![`), replaced by the label. */
  function BracketLinkAt(s: string, p: nat, open: nat): (h: Option<Hit>)
    requires p < |s| && (open == 1 || open == 2)
    ensures h.Some? ==> p < h.value.end <= |s| && |h.value.replacement| < h.value.end - p
  {
    if !(p + open <= |s| && (open == 2 ==> s[p] == '!') && s[p + open - 1] == '[') then None
    else
      var q := Find(s, p + open, ']');
      if q + 1 < |s| && s[q + 1] == '(' then
        var r := Find(s, q + 2, ')');
        if r < |s| then Some(Hit(r + 1, s[p + open..q])) else None
      else None
  }

  /** A bold (`w == 2`) or italic (`w == 1`) span, replaced by its inside. */
  function EmphasisAt(s: string, p: nat, w: nat): (h: Option<Hit>)
    requires p < |s| && (w == 1 || w == 2)
    ensures h.Some? ==> p < h.value.end <= |s| && |h.value.replacement| < h.value.end - p
  {
    if !IsMarker(s, p, w) then None
    else match EmphasisClose(s, p + w, w)
      case Some(k) => Some(Hit(k + w, s[p + w..k]))
      case None => None
  }

  /** A character `open`, at least one character other than `close`, then `close`. */
  function EnclosedAt(s: string, p: nat, open: char, close: char, keep: bool): (h: Option<Hit>)
    requires p < |s|
    ensures h.Some? ==> p < h.value.end <= |s| && |h.value.replacement| < h.value.end - p
  {
    if s[p] != open then None
    else
      var q := Find(s, p + 1, close);
      if q < |s| && q > p + 1 then Some(Hit(q + 1, if keep then s[p + 1..q] else "")) else None
  }

  /** The match of `pass` that starts at `p`, if any. */
  function MatchAt(pass: Pass, s: string, p: nat): (h: Option<Hit>)
    requires p < |s|
    ensures h.Some? ==> p < h.value.end <= |s| && |h.value.replacement| < h.value.end - p
  {
    match pass
    case InlineLink => BracketLinkAt(s, p, 1)
    case ImageLink => BracketLinkAt(s, p, 2)
    case Bold => EmphasisAt(s, p, 2)
    case Italic => EmphasisAt(s, p, 1)
    case InlineCode => EnclosedAt(s, p, '`', '`', true)
    case HtmlTag => EnclosedAt(s, p, '<', '>', false)
  }

  /** The global replacement of `pass` over `s[p..]`. It never lengthens the text. */
  function ReplaceFrom(pass: Pass, s: string, p: nat): (r: string)
    requires p <= |s|
    ensures |r| <= |s| - p
    decreases |s| - p
  {
    if p == |s| then ""
    else match MatchAt(pass, s, p)
      case Some(h) => h.replacement + ReplaceFrom(pass, s, h.end)
      case None => [s[p]] + ReplaceFrom(pass, s, p + 1)
  }

  function Replace(pass: Pass, s: string): (r: string)
    ensures |r| <= |s|
  {
    ReplaceFrom(pass, s, 0)
  }

  /** The first index at or after `p` that does not hold white space, or `|s|`. */
  function SkipSpaces(s: string, p: nat): (q: nat)
    requires p <= |s|
    ensures p <= q <= |s|
    ensures q < |s| ==> !IsSpace(s[q])
    ensures forall i :: p <= i < q ==> IsSpace(s[i])
    decreases |s| - p
  {
    if p < |s| && IsSpace(s[p]) then SkipSpaces(s, p + 1) else p
  }

  /** No two adjacent characters are both white space. */
  predicate NoDoubleSpace(t: string) {
    forall i :: 0 <= i < |t| - 1 ==> !(IsSpace(t[i]) && IsSpace(t[i + 1]))
  }

  /** `s[p..].replace(/\s+/g, ' ')`: every run of white space becomes one space. */
  function CollapseFrom(s: string, p: nat): (r: string)
    requires p <= |s|
    ensures |r| <= |s| - p
    ensures r != [] ==> p < |s| && r[0] == (if IsSpace(s[p]) then ' ' else s[p])
    ensures NoDoubleSpace(r)
    decreases |s| - p
  {
    if p == |s| then ""
    else if IsSpace(s[p]) then " " + CollapseFrom(s, SkipSpaces(s, p))
    else [s[p]] + CollapseFrom(s, p + 1)
  }

  /** An infix of a string without adjacent white space has none either. */
  lemma NoDoubleSpaceInfix(s: string, k: nat, n: nat)
    requires k + n <= |s| && NoDoubleSpace(s)
    ensures NoDoubleSpace(s[k..k + n])
  {
    var t := s[k..k + n];
    forall i | 0 <= i < |t| - 1 ensures !(IsSpace(t[i]) && IsSpace(t[i + 1])) {
      assert t[i] == s[k + i] && t[i + 1] == s[k + i + 1];
    }
  }

  /** `markdownToPlainText`: empty for empty input; otherwise the passes in order, then collapse and trim.
      The result is never longer than the input, has no white space at either end and no two
      adjacent white-space characters. */
  function ToPlainText(markdown: string): (text: string)
    ensures markdown == "" ==> text == ""
    ensures |text| <= |markdown|
    ensures text == [] || (!IsSpace(text[0]) && !IsSpace(text[|text| - 1]))
    ensures NoDoubleSpace(text)
  {
    if markdown == "" then ""
    else
      var a := Replace(InlineLink, markdown);
      var b := Replace(ImageLink, a);
      var c := Replace(Bold, b);
      var d := Replace(Italic, c);
      var e := Replace(InlineCode, d);
      var f := Replace(HtmlTag, e);
      var g := CollapseFrom(f, 0);
      TrimFacts(g);
      NoDoubleSpaceInfix(g, |g| - |TrimStart(g)|, |Trim(g)|);
      Trim(g)
  }

  /** A link written out as `[text](url)` (or `![text](url)`), with no `]` in the text and no `)` in
      the url, is matched whole and replaced by its text. */
  lemma BracketLinkWritten(s: string, p: nat, open: nat, text: string, url: string)
    requires p < |s| && (open == 1 || open == 2)
    requires var opener := if open == 2 then "![" else "[";
      && p + open + |text| + |url| + 3 <= |s|
      && s[p..p + open + |text| + |url| + 3] == opener + text + "](" + url + ")"
    requires ']' !in text && ')' !in url
    ensures BracketLinkAt(s, p, open) == Some(Hit(p + open + |text| + |url| + 3, text))
  {
    var opener := if open == 2 then "![" else "[";
    var w := opener + text + "](" + url + ")";
    var q := p + open + |text|;
    var r := q + 2 + |url|;
    SliceChars(s, p, w);
    assert s[p + open - 1] == w[open - 1] == '[';
    assert open == 2 ==> s[p] == w[0] == '!';
    assert s[q] == w[q - p] == ']' && s[q + 1] == w[q + 1 - p] == '(';
    assert s[r] == w[r - p] == ')';
    forall i | p + open <= i < q
      ensures s[i] != ']'
    {
      assert s[i] == w[i - p] == text[i - p - open];
    }
    forall i | q + 2 <= i < r
      ensures s[i] != ')'
    {
      assert s[i] == w[i - p] == url[i - q - 2];
    }
    assert s[p + open..q] == text by {
      forall j | 0 <= j < |text|
        ensures s[p + open..q][j] == text[j]
      {
        assert s[p + open + j] == w[open + j];
      }
    }
    BracketLinkFound(s, p, open, q, r);
  }

  /** The link at `p` when its text closes at the first `]` and its url at the first `)`. */
  lemma BracketLinkFound(s: string, p: nat, open: nat, q: nat, r: nat)
    requires (open == 1 || open == 2) && p + open <= q && q + 2 <= r < |s|
    requires (open == 2 ==> s[p] == '!') && s[p + open - 1] == '['
    requires s[q] == ']' && s[q + 1] == '(' && s[r] == ')'
    requires forall i :: p + open <= i < q ==> s[i] != ']'
    requires forall i :: q + 2 <= i < r ==> s[i] != ')'
    ensures BracketLinkAt(s, p, open) == Some(Hit(r + 1, s[p + open..q]))
  {
    FindAt(s, p + open, ']', q);
    FindAt(s, q + 2, ')', r);
  }

  /** Every link match is such a written link: opener, text without `]`, `](`, url without `)`, `)`. */
  lemma BracketLinkShape(s: string, p: nat, open: nat)
    requires p < |s| && (open == 1 || open == 2) && BracketLinkAt(s, p, open).Some?
    ensures var h := BracketLinkAt(s, p, open).value;
      var q := p + open + |h.replacement|;
      && q + 2 < h.end && s[p..p + open] == (if open == 2 then "![" else "[")
      && s[p + open..q] == h.replacement && ']' !in h.replacement
      && s[q] == ']' && s[q + 1] == '(' && s[h.end - 1] == ')' && ')' !in s[q + 2..h.end - 1]
  {
    var q := Find(s, p + open, ']');
    var r := Find(s, q + 2, ')');
    FindFirst(s, p + open, ']');
    FindFirst(s, q + 2, ')');
    var opener := s[p..p + open];
    assert opener[open - 1] == s[p + open - 1] && (open == 2 ==> opener[0] == s[p]);
    assert opener == (if open == 2 then "![" else "[");
    var text, url := s[p + open..q], s[q + 2..r];
    forall i | 0 <= i < |text| ensures text[i] != ']' {
      assert text[i] == s[p + open + i];
    }
    forall i | 0 <= i < |url| ensures url[i] != ')' {
      assert url[i] == s[q + 2 + i];
    }
  }

  /** The closing marker is the first one after the opening marker. */
  lemma {:induction false} EmphasisCloseFirst(s: string, k: nat, w: nat)
    requires k <= |s| && EmphasisClose(s, k, w).Some?
    ensures IsMarker(s, EmphasisClose(s, k, w).value, w)
    ensures forall i :: k <= i < EmphasisClose(s, k, w).value ==> !IsMarker(s, i, w) && !IsLineTerminator(s[i])
    decreases |s| - k
  {
    if !IsMarker(s, k, w) {
      EmphasisCloseFirst(s, k + 1, w);
    }
  }

  lemma {:induction false} EmphasisCloseAt(s: string, k: nat, w: nat, c: nat)
    requires k <= c && IsMarker(s, c, w)
    requires forall i :: k <= i < c ==> !IsMarker(s, i, w) && !IsLineTerminator(s[i])
    ensures EmphasisClose(s, k, w) == Some(c)
    decreases c - k
  {
    if k < c {
      EmphasisCloseAt(s, k + 1, w, c);
    }
  }

  /** A span between two markers, with no line terminator and no marker inside, is matched whole
      and replaced by its inside. */
  lemma EmphasisWritten(s: string, p: nat, w: nat, inner: string)
    requires p < |s| && (w == 1 || w == 2) && IsMarker(s, p, w)
    requires p + w + |inner| + w <= |s| && s[p + w..p + w + |inner|] == inner
    requires IsMarker(s, p + w + |inner|, w)
    requires forall i :: 0 <= i < |inner| ==> !IsLineTerminator(inner[i]) && !IsMarker(s, p + w + i, w)
    ensures EmphasisAt(s, p, w) == Some(Hit(p + w + |inner| + w, inner))
  {
    forall i | p + w <= i < p + w + |inner|
      ensures !IsMarker(s, i, w) && !IsLineTerminator(s[i])
    {
      assert s[i] == inner[i - (p + w)];
    }
    EmphasisCloseAt(s, p + w, w, p + w + |inner|);
  }

  /** Every emphasis match is such a span: the replacement is what lies between the markers. */
  lemma EmphasisShape(s: string, p: nat, w: nat)
    requires p < |s| && (w == 1 || w == 2) && EmphasisAt(s, p, w).Some?
    ensures var h := EmphasisAt(s, p, w).value;
      && p + w <= h.end - w && IsMarker(s, p, w) && IsMarker(s, h.end - w, w)
      && h.replacement == s[p + w..h.end - w]
      && forall i :: p + w <= i < h.end - w ==> !IsMarker(s, i, w) && !IsLineTerminator(s[i])
  {
    EmphasisCloseFirst(s, p + w, w);
  }

  /** A code span or tag written out with a non-empty inside free of the closing character is matched
      whole; code keeps its inside, a tag is removed. */
  lemma EnclosedWritten(s: string, p: nat, open: char, close: char, keep: bool, inner: string)
    requires p + |inner| + 2 <= |s| && s[p] == open && s[p + 1 + |inner|] == close
    requires |inner| >= 1 && s[p + 1..p + 1 + |inner|] == inner && close !in inner
    ensures EnclosedAt(s, p, open, close, keep) == Some(Hit(p + |inner| + 2, if keep then inner else ""))
  {
    forall i | p + 1 <= i < p + 1 + |inner|
      ensures s[i] != close
    {
      assert s[i] == inner[i - (p + 1)];
    }
    FindAt(s, p + 1, close, p + 1 + |inner|);
  }

  /** Every enclosed match is such a span. */
  lemma EnclosedShape(s: string, p: nat, open: char, close: char, keep: bool)
    requires p < |s| && EnclosedAt(s, p, open, close, keep).Some?
    ensures var h := EnclosedAt(s, p, open, close, keep).value;
      && p + 2 < h.end && s[p] == open && s[h.end - 1] == close && close !in s[p + 1..h.end - 1]
      && h.replacement == (if keep then s[p + 1..h.end - 1] else "")
  {
    FindFirst(s, p + 1, close);
    var q := Find(s, p + 1, close);
    var inner := s[p + 1..q];
    forall i | 0 <= i < |inner| ensures inner[i] != close {
      assert inner[i] == s[p + 1 + i];
    }
  }

  /** A pass copies the text before its next match unchanged. */
  lemma {:induction false} ReplaceBefore(pass: Pass, s: string, p: nat, q: nat)
    requires p <= q <= |s|
    requires forall i :: p <= i < q ==> MatchAt(pass, s, i).None?
    ensures ReplaceFrom(pass, s, p) == s[p..q] + ReplaceFrom(pass, s, q)
    decreases q - p
  {
    if p < q {
      var tail := ReplaceFrom(pass, s, q);
      ReplaceBefore(pass, s, p + 1, q);
      assert MatchAt(pass, s, p).None?;
      assert ReplaceFrom(pass, s, p) == [s[p]] + ReplaceFrom(pass, s, p + 1);
      Regroup([s[p]], s[p + 1..q], tail);
      assert s[p..q] == [s[p]] + s[p + 1..q];
    }
  }

  /** A run of characters that are not white space is copied by the collapse. */
  lemma {:induction false} CollapseWord(s: string, p: nat, q: nat)
    requires p <= q <= |s|
    requires forall i :: p <= i < q ==> !IsSpace(s[i])
    ensures CollapseFrom(s, p) == s[p..q] + CollapseFrom(s, q)
    decreases q - p
  {
    if p < q {
      var tail := CollapseFrom(s, q);
      assert !IsSpace(s[p]);
      assert CollapseFrom(s, p) == [s[p]] + CollapseFrom(s, p + 1);
      CollapseWord(s, p + 1, q);
      Regroup([s[p]], s[p + 1..q], tail);
      assert [s[p]] + s[p + 1..q] == s[p..q];
    }
  }

  /** A maximal run of white space becomes one space. */
  lemma CollapseRun(s: string, p: nat, q: nat)
    requires p < q <= |s|
    requires forall i :: p <= i < q ==> IsSpace(s[i])
    requires q == |s| || !IsSpace(s[q])
    ensures CollapseFrom(s, p) == " " + CollapseFrom(s, q)
  {
    assert SkipSpaces(s, p) == q;
  }

  /** No character that can open one of the patterns. */
  predicate HasNoMarkup(s: string) {
    forall i :: 0 <= i < |s| ==> s[i] !in "[*_`<"
  }

  /** Prose already in the output form: single plain spaces, none at the ends. */
  predicate IsNormalised(s: string) {
    && NoDoubleSpace(s)
    && (forall i :: 0 <= i < |s| && IsSpace(s[i]) ==> s[i] == ' ')
    && (s == [] || (!IsSpace(s[0]) && !IsSpace(s[|s| - 1])))
  }

  lemma NoMatchWithoutMarkup(pass: Pass, s: string, p: nat)
    requires p < |s| && HasNoMarkup(s)
    ensures MatchAt(pass, s, p) == None
  {
    assert s[p] !in "[*_`<";
    if pass == ImageLink && p + 1 < |s| {
      assert s[p + 1] !in "[*_`<";
    }
    if pass == Bold && p + 2 <= |s| {
      assert s[p..p + 2][0] == s[p];
    }
  }

  /** A replacement pass leaves text without markup unchanged. */
  lemma {:induction false} ReplaceKeepsPlain(pass: Pass, s: string, p: nat)
    requires p <= |s| && HasNoMarkup(s)
    ensures ReplaceFrom(pass, s, p) == s[p..]
    decreases |s| - p
  {
    if p < |s| {
      NoMatchWithoutMarkup(pass, s, p);
      ReplaceKeepsPlain(pass, s, p + 1);
      assert s[p..] == [s[p]] + s[p + 1..];
    }
  }

  /** The white-space collapse leaves normalised text unchanged. */
  lemma {:induction false} CollapseKeepsNormalised(s: string, p: nat)
    requires p <= |s| && IsNormalised(s)
    ensures CollapseFrom(s, p) == s[p..]
    decreases |s| - p
  {
    if p < |s| {
      CollapseKeepsNormalised(s, p + 1);
      if IsSpace(s[p]) {
        assert p + 1 < |s| ==> !IsSpace(s[p + 1]);
        assert SkipSpaces(s, p) == p + 1;
      }
      assert s[p..] == [s[p]] + s[p + 1..];
    }
  }

  /** `markdownToPlainText` leaves prose that has no markup and is already normalised unchanged. */
  lemma PlainProseUnchanged(s: string)
    requires HasNoMarkup(s) && IsNormalised(s)
    ensures ToPlainText(s) == s
  {
    if s != "" {
      ReplaceKeepsPlain(InlineLink, s, 0);
      ReplaceKeepsPlain(ImageLink, s, 0);
      ReplaceKeepsPlain(Bold, s, 0);
      ReplaceKeepsPlain(Italic, s, 0);
      ReplaceKeepsPlain(InlineCode, s, 0);
      ReplaceKeepsPlain(HtmlTag, s, 0);
      CollapseKeepsNormalised(s, 0);
      assert s[0..] == s;
      assert TrimStart(s) == s;
      assert TrimEnd(s) == s;
    }
  }
}
