/**
 * `extractFrontMatter`: splits a post into its front-matter block and its body.
 * The first line whose trimmed text is `+++` or `---` opens the block and fixes
 * the delimiter; the next line whose trimmed text is that same delimiter closes
 * it. A line holding the other delimiter inside the block is data. Lines before
 * the opener and after the closer form the body.
 */
module FrontMatter {
  import opened Wrappers
  import opened Text

  datatype Format = Toml | Yaml

  /** The three results of `extractFrontMatter`; `None` stands for `null`. */
  datatype Extracted = Extracted(frontmatter: Option<string>, body: string, format: Option<Format>)

  const TomlDelimiter := "+++"
  const YamlDelimiter := "---"

  predicate IsDelimiter(t: string) {
    t == TomlDelimiter || t == YamlDelimiter
  }

  /** The index of the first delimiter line at or after `from`, or `|lines|`. */
  function FindOpener(lines: seq<string>, from: nat): (k: nat)
    requires from <= |lines|
    ensures from <= k <= |lines|
    ensures k < |lines| ==> IsDelimiter(Trim(lines[k]))
    decreases |lines| - from
  {
    if from == |lines| || IsDelimiter(Trim(lines[from])) then from
    else FindOpener(lines, from + 1)
  }

  /** The index of the first line at or after `from` whose trimmed text is `d`, or `|lines|`. */
  function FindCloser(lines: seq<string>, d: string, from: nat): (k: nat)
    requires from <= |lines|
    ensures from <= k <= |lines|
    ensures k < |lines| ==> Trim(lines[k]) == d
    decreases |lines| - from
  {
    if from == |lines| || Trim(lines[from]) == d then from
    else FindCloser(lines, d, from + 1)
  }

  /** What `extractFrontMatter` returns for `content`. */
  function Extract(content: string): (r: Extracted)
    ensures r.frontmatter.None? <==> r.format.None?
    ensures r.frontmatter.None? ==> r.body == content
    ensures r.frontmatter.Some? ==> |r.frontmatter.value| > 0 && r.frontmatter.value[|r.frontmatter.value| - 1] == '\n'
  {
    var lines := Split(content, '\n');
    var i := FindOpener(lines, 0);
    if i == |lines| then Extracted(None, content, None)
    else
      var d := Trim(lines[i]);
      var j := FindCloser(lines, d, i + 1);
      if j == |lines| then Extracted(None, content, None)
      else
        Extracted(Some(Join(lines[i + 1..j], '\n') + "\n"),
                  Join(lines[..i] + lines[j + 1..], '\n'),
                  Some(if d == TomlDelimiter then Toml else Yaml))
  }

  /** No line before `k` is a delimiter line. */
  ghost predicate NoDelimiterBefore(lines: seq<string>, k: nat) {
    forall m :: 0 <= m < k && m < |lines| ==> !IsDelimiter(Trim(lines[m]))
  }

  /** No line strictly between `a` and `b` closes a block opened by `d`. */
  ghost predicate NoCloserBetween(lines: seq<string>, d: string, a: nat, b: nat) {
    forall m :: a < m < b && m < |lines| ==> Trim(lines[m]) != d
  }

  /** The search for the opener stops at the first delimiter line. */
  lemma {:induction false} OpenerFrom(lines: seq<string>, from: nat, i: nat)
    requires from <= i <= |lines|
    requires forall m :: from <= m < i ==> !IsDelimiter(Trim(lines[m]))
    requires i < |lines| ==> IsDelimiter(Trim(lines[i]))
    ensures FindOpener(lines, from) == i
    decreases i - from
  {
    if from < i {
      OpenerFrom(lines, from + 1, i);
    }
  }

  /** The search for the closer stops at the first line equal to the delimiter. */
  lemma {:induction false} CloserFrom(lines: seq<string>, d: string, from: nat, j: nat)
    requires from <= j <= |lines|
    requires forall m :: from <= m < j ==> Trim(lines[m]) != d
    requires j < |lines| ==> Trim(lines[j]) == d
    ensures FindCloser(lines, d, from) == j
    decreases j - from
  {
    if from < j {
      CloserFrom(lines, d, from + 1, j);
    }
  }

  /** No line the closer search passes over equals the delimiter. */
  lemma {:induction false} CloserFirst(lines: seq<string>, d: string, from: nat)
    requires from <= |lines|
    ensures forall m :: from <= m < FindCloser(lines, d, from) ==> Trim(lines[m]) != d
    decreases |lines| - from
  {
    if from < |lines| && Trim(lines[from]) != d {
      CloserFirst(lines, d, from + 1);
    }
  }

  lemma OpenerAt(lines: seq<string>, i: nat)
    requires i <= |lines| && NoDelimiterBefore(lines, i)
    requires i < |lines| ==> IsDelimiter(Trim(lines[i]))
    ensures FindOpener(lines, 0) == i
  {
    OpenerFrom(lines, 0, i);
  }

  lemma CloserAt(lines: seq<string>, d: string, i: nat, j: nat)
    requires i < j <= |lines| && NoCloserBetween(lines, d, i, j)
    requires j < |lines| ==> Trim(lines[j]) == d
    ensures FindCloser(lines, d, i + 1) == j
  {
    CloserFrom(lines, d, i + 1, j);
  }

  /** What the loop of `extractFrontMatter` knows after it has looked at `lines[..k]`. */
  ghost predicate Scanned(lines: seq<string>, k: nat, foundFirstDelimiter: bool, inFrontMatter: bool,
                          delimiter: string, opener: nat, closer: nat,
                          frontmatter: seq<string>, body: seq<string>)
  {
    && k <= |lines|
    && (!foundFirstDelimiter ==>
        && !inFrontMatter && NoDelimiterBefore(lines, k)
        && frontmatter == [] && body == lines[..k])
    && (foundFirstDelimiter ==>
        && opener < k && delimiter == Trim(lines[opener])
        && IsDelimiter(delimiter) && NoDelimiterBefore(lines, opener))
    && (foundFirstDelimiter && inFrontMatter ==>
        && NoCloserBetween(lines, delimiter, opener, k)
        && frontmatter == lines[opener + 1..k] && body == lines[..opener])
    && (foundFirstDelimiter && !inFrontMatter ==>
        && opener < closer < k && Trim(lines[closer]) == delimiter
        && NoCloserBetween(lines, delimiter, opener, closer)
        && frontmatter == lines[opener + 1..closer] && body == lines[..opener] + lines[closer + 1..k])
  }

  /** The first delimiter line opens the block. */
  lemma ScanOpener(lines: seq<string>, k: nat, frontmatter: seq<string>, body: seq<string>)
    requires k < |lines| && IsDelimiter(Trim(lines[k]))
    requires Scanned(lines, k, false, false, "", 0, 0, frontmatter, body)
    ensures Scanned(lines, k + 1, true, true, Trim(lines[k]), k, 0, frontmatter, body)
  {
  }

  /** The delimiter line that opened the block closes it. */
  lemma ScanCloser(lines: seq<string>, k: nat, delimiter: string, opener: nat,
                   frontmatter: seq<string>, body: seq<string>)
    requires k < |lines| && Trim(lines[k]) == delimiter
    requires Scanned(lines, k, true, true, delimiter, opener, 0, frontmatter, body)
    ensures Scanned(lines, k + 1, true, false, delimiter, opener, k, frontmatter, body)
  {
  }

  /** Any other line is appended to the buffer of the current region. */
  lemma ScanData(lines: seq<string>, k: nat, foundFirstDelimiter: bool, inFrontMatter: bool,
                 delimiter: string, opener: nat, closer: nat, frontmatter: seq<string>, body: seq<string>)
    requires k < |lines|
    requires !foundFirstDelimiter ==> !IsDelimiter(Trim(lines[k]))
    requires inFrontMatter ==> Trim(lines[k]) != delimiter
    requires Scanned(lines, k, foundFirstDelimiter, inFrontMatter, delimiter, opener, closer, frontmatter, body)
    ensures inFrontMatter ==>
      Scanned(lines, k + 1, foundFirstDelimiter, inFrontMatter, delimiter, opener, closer, frontmatter + [lines[k]], body)
    ensures !inFrontMatter ==>
      Scanned(lines, k + 1, foundFirstDelimiter, inFrontMatter, delimiter, opener, closer, frontmatter, body + [lines[k]])
  {
    if !foundFirstDelimiter {
      assert lines[..k + 1] == lines[..k] + [lines[k]];
    } else if inFrontMatter {
      assert lines[opener + 1..k + 1] == lines[opener + 1..k] + [lines[k]];
    } else {
      assert lines[closer + 1..k + 1] == lines[closer + 1..k] + [lines[k]];
    }
  }

  /** The loop of `extractFrontMatter`, with its flags and the two line buffers. */
  method ExtractFrontMatter(content: string) returns (r: Extracted)
    ensures r == Extract(content)
  {
    var lines := Split(content, '\n');
    var frontmatter: seq<string> := [];
    var body: seq<string> := [];
    var inFrontMatter := false;
    var foundFirstDelimiter := false;
    var delimiter := "";
    ghost var opener := 0;
    ghost var closer := 0;

    for k := 0 to |lines|
      invariant Scanned(lines, k, foundFirstDelimiter, inFrontMatter, delimiter, opener, closer, frontmatter, body)
      invariant !foundFirstDelimiter ==> delimiter == "" && opener == 0 && closer == 0
      invariant inFrontMatter ==> closer == 0
    {
      var line := lines[k];
      var trimmedLine := Trim(line);
      if trimmedLine == TomlDelimiter || trimmedLine == YamlDelimiter {
        if !foundFirstDelimiter {
          ScanOpener(lines, k, frontmatter, body);
          delimiter := trimmedLine;
          foundFirstDelimiter := true;
          inFrontMatter := true;
          opener := k;
          continue;
        } else if inFrontMatter && trimmedLine == delimiter {
          ScanCloser(lines, k, delimiter, opener, frontmatter, body);
          inFrontMatter := false;
          closer := k;
          continue;
        }
        // A different delimiter inside the block is only reported; the line stays data.
      }
      ScanData(lines, k, foundFirstDelimiter, inFrontMatter, delimiter, opener, closer, frontmatter, body);
      if inFrontMatter {
        frontmatter := frontmatter + [line];
      } else {
        body := body + [line];
      }
    }

    if foundFirstDelimiter && !inFrontMatter {
      ScanClosed(content, lines, delimiter, opener, closer, frontmatter, body);
      var format := if delimiter == TomlDelimiter then Toml else Yaml;
      r := Extracted(Some(Join(frontmatter, '\n') + "\n"), Join(body, '\n'), Some(format));
    } else {
      ScanUnclosed(content, lines, foundFirstDelimiter, delimiter, opener, frontmatter, body);
      r := Extracted(None, content, None);
    }
  }

  /** A block opened by the first delimiter line and closed by the next line equal to it splits the
      content as `Extract` does: the scan's front matter buffer holds the lines between the
      delimiters, its body buffer the lines around them. */
  lemma ScanClosed(content: string, lines: seq<string>, delimiter: string, opener: nat, closer: nat,
                   frontmatter: seq<string>, body: seq<string>)
    requires lines == Split(content, '\n')
    requires Scanned(lines, |lines|, true, false, delimiter, opener, closer, frontmatter, body)
    ensures frontmatter == lines[opener + 1..closer] && body == lines[..opener] + lines[closer + 1..]
    ensures Extract(content) == Extracted(Some(Join(frontmatter, '\n') + "\n"), Join(body, '\n'),
                                          Some(if delimiter == TomlDelimiter then Toml else Yaml))
  {
    assert lines[closer + 1..|lines|] == lines[closer + 1..];
    OpenerAt(lines, opener);
    CloserAt(lines, delimiter, opener, closer);
    ExtractClosed(content, lines, opener, closer);
  }

  /** A scan that found no delimiter, or a block that never closed, leaves the content whole, as
      `Extract` does. */
  lemma ScanUnclosed(content: string, lines: seq<string>, foundFirstDelimiter: bool, delimiter: string,
                     opener: nat, frontmatter: seq<string>, body: seq<string>)
    requires lines == Split(content, '\n')
    requires Scanned(lines, |lines|, foundFirstDelimiter, foundFirstDelimiter, delimiter, opener, 0, frontmatter, body)
    ensures Extract(content) == Extracted(None, content, None)
  {
    if foundFirstDelimiter {
      OpenerAt(lines, opener);
      CloserAt(lines, delimiter, opener, |lines|);
    } else {
      OpenerAt(lines, |lines|);
    }
  }

  /** Content in which no line trims to `+++` or `---` comes back whole as the body. */
  lemma {:induction false} NoDelimiterKeepsContent(content: string)
    requires var lines := Split(content, '\n');
      forall m :: 0 <= m < |lines| ==> !IsDelimiter(Trim(lines[m]))
    ensures Extract(content) == Extracted(None, content, None)
  {
    assert forall m :: 0 <= m < |Split(content, '\n')| ==> !IsDelimiter(Trim(Split(content, '\n')[m]));
    var lines := Split(content, '\n');
    OpenerAt(lines, |lines|);
  }

  /** When no later line repeats the first delimiter line, the block never closes and the content
      comes back whole as the body. */
  lemma UnclosedKeepsContent(content: string, i: nat)
    requires var lines := Split(content, '\n');
      && i < |lines| && IsDelimiter(Trim(lines[i]))
      && (forall m :: 0 <= m < i ==> !IsDelimiter(Trim(lines[m])))
      && (forall m :: i < m < |lines| ==> Trim(lines[m]) != Trim(lines[i]))
    ensures Extract(content) == Extracted(None, content, None)
  {
    var lines := Split(content, '\n');
    assert NoDelimiterBefore(lines, i);
    assert NoCloserBetween(lines, Trim(lines[i]), i, |lines|);
    OpenerAt(lines, i);
    CloserAt(lines, Trim(lines[i]), i, |lines|);
  }

  /** A closed block: the delimiter lines at `i` and `j` are dropped, the lines between them are the
      front matter, everything else (before and after, in order) is the body, and the format is TOML
      exactly when the opener was `+++`. */
  lemma ClosedBlock(content: string, i: nat, j: nat)
    requires var lines := Split(content, '\n');
      && i < j < |lines|
      && IsDelimiter(Trim(lines[i]))
      && (forall m :: 0 <= m < i ==> !IsDelimiter(Trim(lines[m])))
      && Trim(lines[j]) == Trim(lines[i])
      && (forall m :: i < m < j ==> Trim(lines[m]) != Trim(lines[i]))
    ensures var lines := Split(content, '\n');
      && content == Join(lines[..i] + [lines[i]] + lines[i + 1..j] + [lines[j]] + lines[j + 1..], '\n')
      && Extract(content).frontmatter == Some(Join(lines[i + 1..j], '\n') + "\n")
      && Extract(content).body == Join(lines[..i] + lines[j + 1..], '\n')
      && (Extract(content).format == Some(Toml) <==> Trim(lines[i]) == TomlDelimiter)
  {
    var lines := Split(content, '\n');
    OpenerAt(lines, i);
    CloserAt(lines, Trim(lines[i]), i, j);
    JoinSplit(content, '\n');
    Reassemble(lines, i, j);
  }

  /** Cutting a sequence at two indices and gluing the pieces back gives the sequence. */
  lemma Reassemble<T>(s: seq<T>, i: nat, j: nat)
    requires i < j < |s|
    ensures s[..i] + [s[i]] + s[i + 1..j] + [s[j]] + s[j + 1..] == s
  {
    assert s[..i] + [s[i]] == s[..i + 1];
    assert s[..i + 1] + s[i + 1..j] == s[..j];
    assert s[..j] + [s[j]] == s[..j + 1];
    assert s[..j + 1] + s[j + 1..] == s;
  }

  /** Inside a block, a line holding the other delimiter is front-matter data: it is the other
      delimiter, and it is one of the lines of the front matter handed to the parser. */
  lemma MismatchedDelimiterIsData(content: string, i: nat, m: nat, j: nat)
    requires var lines := Split(content, '\n');
      && i < m < j < |lines|
      && IsDelimiter(Trim(lines[i]))
      && (forall k :: 0 <= k < i ==> !IsDelimiter(Trim(lines[k])))
      && Trim(lines[j]) == Trim(lines[i])
      && (forall k :: i < k < j ==> Trim(lines[k]) != Trim(lines[i]))
      && IsDelimiter(Trim(lines[m]))
    ensures var lines := Split(content, '\n');
      Trim(lines[m]) == if Trim(lines[i]) == TomlDelimiter then YamlDelimiter else TomlDelimiter
    ensures var lines := Split(content, '\n');
      var fm := Extract(content).frontmatter;
      && fm.Some? && |fm.value| > 0 && fm.value[|fm.value| - 1] == '\n'
      && lines[m] in Split(fm.value[..|fm.value| - 1], '\n')
  {
    var lines := Split(content, '\n');
    ClosedBlock(content, i, j);
    var inner := lines[i + 1..j];
    var fm := Join(inner, '\n') + "\n";
    assert fm[..|fm| - 1] == Join(inner, '\n');
    SplitParts(content, '\n');
    assert forall k :: 0 <= k < |inner| ==> '\n' !in inner[k] by {
      forall k | 0 <= k < |inner| ensures '\n' !in inner[k] { assert inner[k] == lines[i + 1 + k]; }
    }
    SplitJoin(inner, '\n');
    assert inner[m - i - 1] == lines[m];
  }

  /** When the opened block closes, the front matter is the lines strictly between the delimiters,
      the body the lines around them, and the format the one the opener names. */
  lemma ExtractClosed(content: string, lines: seq<string>, i: nat, j: nat)
    requires lines == Split(content, '\n') && i < j < |lines|
    requires FindOpener(lines, 0) == i && FindCloser(lines, Trim(lines[i]), i + 1) == j
    ensures Extract(content) == Extracted(Some(Join(lines[i + 1..j], '\n') + "\n"), Join(lines[..i] + lines[j + 1..], '\n'),
                                          Some(if Trim(lines[i]) == TomlDelimiter then Toml else Yaml))
  {
  }
}
