/**
 * The three global replacements `convertMarkdown` applies to a post's body, in
 * order: rooted image references are relocated next to the post (collecting
 * the files to copy), rooted links lose their leading directory, and headings
 * are demoted by one level.
 */
module BodyRewrite {
  import opened Wrappers
  import opened Text
  import opened References

  /** A file to copy: `source` below the old assets root, `destination` below the post's new directory. */
  datatype CopyTask = CopyTask(source: string, destination: string)

  /** Where an image reference now points, and the copy that makes it resolve. */
  datatype Relocation = Relocation(path: string, task: Option<CopyTask>)

  /** The image callback. An image directly below the assets root, or in the directory of another
      post, is copied next to this post under its file name; an image in this post's own directory
      keeps its path below that directory and needs no copy here (the directory is copied whole). */
  function RelocateImage(src: string, dirName: string): (r: Relocation)
    ensures EndsWith(src, r.path)
    ensures r.task.None? <==> |PathParts(src)| > 1 && PathParts(src)[0] == dirName
    ensures r.task.None? ==> dirName + "/" + r.path == StripAssetsPrefix(src)
    ensures r.task.Some? ==> && r.task.value.destination == r.path
                             && '/' !in r.path
                             && r.task.value.source == StripAssetsPrefix(src)
                             && (r.task.value.source == r.path || EndsWith(r.task.value.source, "/" + r.path))
  {
    var parts := PathParts(src);
    var stripped := StripAssetsPrefix(src);
    JoinShape(parts, '/');
    SplitParts(stripped, '/');
    if |parts| == 1 then
      EndsWithTrans(src, stripped, parts[0]);
      Relocation(parts[0], Some(CopyTask(parts[0], parts[0])))
    else if parts[0] != dirName then
      var last := parts[|parts| - 1];
      EndsWithTrans(src, stripped, last);
      Relocation(last, Some(CopyTask(stripped, last)))
    else
      var rest := Join(parts[1..], '/');
      assert EndsWith(stripped, rest) by {
        assert stripped == parts[0] + "/" + rest;
        assert stripped[|stripped| - |rest|..] == rest;
      }
      EndsWithTrans(src, stripped, rest);
      Relocation(rest, None)
  }

  /** The copy a relocation schedules, if any. */
  function TaskList(rel: Relocation): seq<CopyTask> {
    if rel.task.Some? then [rel.task.value] else []
  }

  /** A copy keeps the file name: the destination is the source's last path segment. */
  predicate KeepsFileName(t: CopyTask) {
    '/' !in t.destination && (t.source == t.destination || EndsWith(t.source, "/" + t.destination))
  }

  /** A rewritten text and the copies scheduled while rewriting it. */
  datatype Rewrite = Rewrite(text: string, tasks: seq<CopyTask>)

  /** The image pass from index `p` on: each rooted image reference is replaced by its relocated
      form, every other character is kept, and the scan resumes after each replacement. */
  function ImagesFrom(s: string, p: nat, dirName: string): (r: Rewrite)
    requires p <= |s|
    ensures |r.text| <= |s| - p
    decreases |s| - p
  {
    if p == |s| then Rewrite("", [])
    else
      var m := RefAt(s, p, true, true);
      if m.Some? then
        var rel := RelocateImage(m.value.src, dirName);
        var rest := ImagesFrom(s, m.value.end, dirName);
        RefText(s, p, true, true);
        Rewrite("![" + m.value.text + "](" + rel.path + ")" + rest.text, TaskList(rel) + rest.tasks)
      else
        var rest := ImagesFrom(s, p + 1, dirName);
        Rewrite([s[p]] + rest.text, rest.tasks)
  }

  /** Every copy the image pass schedules keeps the image's file name. */
  lemma {:induction false} ImagesKeepFileNames(s: string, p: nat, dirName: string)
    requires p <= |s|
    ensures forall t :: t in ImagesFrom(s, p, dirName).tasks ==> KeepsFileName(t)
    decreases |s| - p
  {
    if p < |s| {
      var m := RefAt(s, p, true, true);
      if m.Some? {
        ImagesKeepFileNames(s, m.value.end, dirName);
      } else {
        ImagesKeepFileNames(s, p + 1, dirName);
      }
    }
  }

  /** At a rooted image reference the pass writes the same alt text with the relocated path in place of
      the source, and carries on after the reference. */
  lemma ImageKeepsAlt(s: string, p: nat, dirName: string)
    requires p < |s| && RefAt(s, p, true, true).Some?
    ensures var ref := RefAt(s, p, true, true).value;
      var path := RelocateImage(ref.src, dirName).path;
      && s[p..ref.end] == "![" + ref.text + "](" + ref.src + ")"
      && ImagesFrom(s, p, dirName).text == ("![" + ref.text + "](" + path + ")") + ImagesFrom(s, ref.end, dirName).text
  {
    RefText(s, p, true, true);
  }

  /** A rooted image reference is replaced and its copy task collected before the rest. */
  lemma ImagesHit(s: string, p: nat, dirName: string)
    requires p < |s| && RefAt(s, p, true, true).Some?
    ensures var ref := RefAt(s, p, true, true).value;
      var rel := RelocateImage(ref.src, dirName);
      var rest := ImagesFrom(s, ref.end, dirName);
      ImagesFrom(s, p, dirName) == Rewrite("![" + ref.text + "](" + rel.path + ")" + rest.text, TaskList(rel) + rest.tasks)
  {
  }

  /** A character that does not open a rooted image reference is copied. */
  lemma ImagesSkip(s: string, p: nat, dirName: string)
    requires p < |s| && RefAt(s, p, true, true).None?
    ensures ImagesFrom(s, p, dirName).text == [s[p]] + ImagesFrom(s, p + 1, dirName).text
    ensures ImagesFrom(s, p, dirName).tasks == ImagesFrom(s, p + 1, dirName).tasks
  {
  }

  /** Text without a rooted image reference is passed through unchanged up to the next one. */
  lemma {:induction false} ImagesBefore(s: string, p: nat, q: nat, dirName: string)
    requires p <= q <= |s|
    requires forall i :: p <= i < q ==> RefAt(s, i, true, true).None?
    ensures ImagesFrom(s, p, dirName).text == s[p..q] + ImagesFrom(s, q, dirName).text
    ensures ImagesFrom(s, p, dirName).tasks == ImagesFrom(s, q, dirName).tasks
    decreases q - p
  {
    if p < q {
      var tail := ImagesFrom(s, q, dirName).text;
      ImagesSkip(s, p, dirName);
      ImagesBefore(s, p + 1, q, dirName);
      Regroup([s[p]], s[p + 1..q], tail);
      assert [s[p]] + s[p + 1..q] == s[p..q];
    }
  }

  /** Without a rooted image reference the image pass changes nothing and copies nothing. */
  lemma {:induction false} NoImagesUnchanged(s: string, p: nat, dirName: string)
    requires p <= |s|
    requires forall q :: p <= q < |s| ==> RefAt(s, q, true, true).None?
    ensures ImagesFrom(s, p, dirName) == Rewrite(s[p..], [])
    decreases |s| - p
  {
    if p < |s| {
      NoImagesUnchanged(s, p + 1, dirName);
      assert s[p..] == [s[p]] + s[p + 1..];
    }
  }

  /** One step of the image replacement: the text written for position `p` (a relocated reference or
      the character itself), the copies its callback collects, and where the scan resumes. */
  method ImageStep(body: string, p: nat, dirName: string) returns (piece: string, tasks: seq<CopyTask>, next: nat)
    requires p < |body|
    ensures p < next <= |body|
    ensures var rest := ImagesFrom(body, next, dirName);
      ImagesFrom(body, p, dirName) == Rewrite(piece + rest.text, tasks + rest.tasks)
  {
    var m := RefAt(body, p, true, true);
    if m.Some? {
      var rel := RelocateImage(m.value.src, dirName);
      ImagesHit(body, p, dirName);
      piece, tasks, next := "![" + m.value.text + "](" + rel.path + ")", TaskList(rel), m.value.end;
    } else {
      ImagesSkip(body, p, dirName);
      piece, tasks, next := [body[p]], [], p + 1;
    }
  }

  /** The image replacement with its callback: `imageCopyTasks` receives the copies in match order. */
  method RewriteImages(body: string, dirName: string) returns (updatedBody: string, imageCopyTasks: seq<CopyTask>)
    ensures Rewrite(updatedBody, imageCopyTasks) == ImagesFrom(body, 0, dirName)
  {
    updatedBody := "";
    imageCopyTasks := [];
    var p := 0;
    while p < |body|
      invariant p <= |body|
      invariant ImagesFrom(body, 0, dirName).text == updatedBody + ImagesFrom(body, p, dirName).text
      invariant ImagesFrom(body, 0, dirName).tasks == imageCopyTasks + ImagesFrom(body, p, dirName).tasks
      decreases |body| - p
    {
      var piece, tasks, next := ImageStep(body, p, dirName);
      ghost var after := ImagesFrom(body, next, dirName);
      Regroup(updatedBody, piece, after.text);
      Regroup(imageCopyTasks, tasks, after.tasks);
      updatedBody, imageCopyTasks, p := updatedBody + piece, imageCopyTasks + tasks, next;
    }
  }

  /** The link callback: `src.replace(/^\/?(?:images\/posts\/)?[^\/]*\//, '')` on a rooted `src`.
      What it removes is `/`, optionally `images/posts/`, one directory name and its `/`; when no
      second `/` follows, only the leading `/` goes. */
  function LinkTarget(src: string): (r: string)
    requires |src| >= 1 && src[0] == '/'
    ensures EndsWith(src, r) && |r| < |src| && src[|src| - |r| - 1] == '/'
    ensures var cut := src[..|src| - |r|];
      || cut == "/"
      || '/' !in cut[1..|cut| - 1]
      || (|cut| > |AssetsRoot| + 1 && StartsWith(cut, "/" + AssetsRoot) && '/' !in cut[|AssetsRoot| + 1..|cut| - 1])
  {
    var j := if StartsWith(src[1..], AssetsRoot) then Find(src, |AssetsRoot| + 1, '/') else |src|;
    if j < |src| then
      var cut := src[..j + 1];
      assert cut[..|AssetsRoot| + 1] == "/" + AssetsRoot by {
        assert src[1..][..|AssetsRoot|] == AssetsRoot;
      }
      FindFirst(src, |AssetsRoot| + 1, '/');
      SegmentSlash(src, |AssetsRoot| + 1, j);
      src[j + 1..]
    else
      var k := Find(src, 1, '/');
      if k < |src| then
        FindFirst(src, 1, '/');
        SegmentSlash(src, 1, k);
        src[k + 1..]
      else
        assert src[..1] == "/";
        src[1..]
  }

  /** The greedy cut of the link callback below the assets root: `/images/posts/`, one directory
      name and its `/` go. */
  lemma LinkTargetUnderRoot(d: string, rest: string)
    requires '/' !in d
    ensures LinkTarget("/" + AssetsRoot + d + "/" + rest) == rest
  {
    var src := "/" + AssetsRoot + d + "/" + rest;
    var a := |AssetsRoot| + 1;
    assert src[1..][..|AssetsRoot|] == AssetsRoot;
    forall i | a <= i < a + |d|
      ensures src[i] != '/'
    {
      assert src[i] == d[i - a];
    }
    assert src[a + |d|] == '/';
    FindAt(src, a, '/', a + |d|);
    assert src[a + |d| + 1..] == rest;
  }

  /** Elsewhere the cut is the leading `/`, the first directory name and its `/`. */
  lemma LinkTargetOneDir(d: string, rest: string)
    requires '/' !in d
    requires d != "images" || !StartsWith(rest, "posts/") || '/' !in rest[6..]
    ensures LinkTarget("/" + d + "/" + rest) == rest
  {
    var src := "/" + d + "/" + rest;
    var a := |AssetsRoot| + 1;
    forall i | 1 <= i < 1 + |d|
      ensures src[i] != '/'
    {
      assert src[i] == d[i - 1];
    }
    assert src[1 + |d|] == '/';
    FindAt(src, 1, '/', 1 + |d|);
    if StartsWith(src[1..], AssetsRoot) {
      assert src[1..][..|AssetsRoot|] == AssetsRoot;
      assert forall i :: 1 <= i < a ==> src[i] == AssetsRoot[i - 1];
      assert src[7] == AssetsRoot[6] == '/';
      assert |d| <= 6;
      assert AssetsRoot[|d|] == src[1 + |d|] == '/';
      assert |d| == 6;
      assert d == src[1..7] == "images";
      assert rest == src[8..];
      assert StartsWith(rest, "posts/") by {
        assert rest[..6] == src[8..14] == "posts/";
      }
    }
    assert src[1 + |d| + 1..] == rest;
  }

  /** With no second `/`, only the leading `/` goes. */
  lemma LinkTargetFile(name: string)
    requires '/' !in name
    ensures LinkTarget("/" + name) == name
  {
    var src := "/" + name;
    var a := |AssetsRoot| + 1;
    assert src[1..] == name;
  }

  /** No `/` lies strictly inside a segment that `Find` delimits. */
  lemma SegmentSlash(src: string, a: nat, j: nat)
    requires 1 <= a <= j < |src|
    requires forall i :: a <= i < j ==> src[i] != '/'
    ensures '/' !in src[..j + 1][a..j]
  {
    var seg := src[..j + 1][a..j];
    assert forall i :: 0 <= i < |seg| ==> seg[i] == src[a + i];
  }

  /** The link pass from index `p` on. */
  function LinksFrom(s: string, p: nat): (r: string)
    requires p <= |s|
    ensures |r| <= |s| - p
    decreases |s| - p
  {
    if p == |s| then ""
    else
      var m := RefAt(s, p, false, true);
      if m.Some? then
        RefText(s, p, false, true);
        "[" + m.value.text + "](" + LinkTarget(m.value.src) + ")" + LinksFrom(s, m.value.end)
      else [s[p]] + LinksFrom(s, p + 1)
  }

  /** At a rooted link the pass writes the same link text with the shortened target in place of the
      source, and carries on after the link. */
  lemma LinkKeepsText(s: string, p: nat)
    requires p < |s| && RefAt(s, p, false, true).Some?
    ensures var ref := RefAt(s, p, false, true).value;
      && s[p..ref.end] == "[" + ref.text + "](" + ref.src + ")"
      && LinksFrom(s, p) == "[" + ref.text + "](" + LinkTarget(ref.src) + ")" + LinksFrom(s, ref.end)
  {
    RefText(s, p, false, true);
  }

  /** Without a rooted link the link pass changes nothing. */
  lemma {:induction false} NoLinksUnchanged(s: string, p: nat)
    requires p <= |s|
    requires forall q :: p <= q < |s| ==> RefAt(s, q, false, true).None?
    ensures LinksFrom(s, p) == s[p..]
    decreases |s| - p
  {
    if p < |s| {
      NoLinksUnchanged(s, p + 1);
      assert s[p..] == [s[p]] + s[p + 1..];
    }
  }

  /** No line terminator occurs in `line`. */
  predicate OneLine(line: string) {
    forall i :: 0 <= i < |line| ==> !IsLineTerminator(line[i])
  }

  /** The index of the first line terminator at or after `from`, or `|s|`. */
  function LineEnd(s: string, from: nat): (k: nat)
    requires from <= |s|
    ensures from <= k <= |s|
    ensures k < |s| ==> IsLineTerminator(s[k])
    ensures forall i :: from <= i < k ==> !IsLineTerminator(s[i])
    decreases |s| - from
  {
    if from == |s| || IsLineTerminator(s[from]) then from else LineEnd(s, from + 1)
  }

  /** The lines of `s` as `^` and `$` in multiline mode see them: split at every line terminator. */
  function Lines(s: string): (lines: seq<string>)
    ensures |lines| >= 1
    ensures forall i :: 0 <= i < |lines| ==> OneLine(lines[i])
    decreases |s|
  {
    var k := LineEnd(s, 0);
    if k == |s| then [s] else [s[..k]] + Lines(s[k + 1..])
  }

  /** The line terminators of `s`, in order. */
  function Breaks(s: string): (b: string)
    ensures forall i :: 0 <= i < |b| ==> IsLineTerminator(b[i])
    decreases |s|
  {
    var k := LineEnd(s, 0);
    if k == |s| then "" else [s[k]] + Breaks(s[k + 1..])
  }

  /** The number of `#` that open `line`. */
  function HeadingLevel(line: string): (n: nat)
    ensures n <= |line|
    ensures forall i :: 0 <= i < n ==> line[i] == '#'
    ensures n < |line| ==> line[n] != '#'
  {
    if line != [] && line[0] == '#' then 1 + HeadingLevel(line[1..]) else 0
  }

  /** A line `^(#+) (.*)$` matches: one or more `#`, then a space. */
  predicate IsHeading(line: string) {
    var n := HeadingLevel(line);
    1 <= n < |line| && line[n] == ' '
  }

  /** The heading callback on one line: below level 6 a heading gains a `#`; anything else is kept. */
  function DemoteLine(line: string): (r: string)
    ensures OneLine(line) ==> OneLine(r)
    ensures IsHeading(r) == IsHeading(line)
    ensures IsHeading(line) && HeadingLevel(line) < 6 ==>
      HeadingLevel(r) == HeadingLevel(line) + 1 && r[HeadingLevel(r)..] == line[HeadingLevel(line)..]
    ensures !IsHeading(line) || HeadingLevel(line) >= 6 ==> r == line
  {
    if IsHeading(line) && HeadingLevel(line) < 6 then
      assert ("#" + line)[1..] == line;
      "#" + line
    else line
  }

  /** The heading pass: every line is passed through `DemoteLine`, the terminators are kept. */
  function HeadingPass(s: string): (r: string)
    decreases |s|
  {
    var k := LineEnd(s, 0);
    if k == |s| then DemoteLine(s) else DemoteLine(s[..k]) + [s[k]] + HeadingPass(s[k + 1..])
  }

  /** The lines of one line followed by a terminator and more text. */
  lemma LinesCons(a: string, t: char, rest: string)
    requires OneLine(a) && IsLineTerminator(t)
    ensures Lines(a + [t] + rest) == [a] + Lines(rest)
    ensures Breaks(a + [t] + rest) == [t] + Breaks(rest)
  {
    var s := a + [t] + rest;
    assert LineEnd(s, 0) == |a| by {
      LineEndAt(s, 0, |a|);
    }
    assert s[..|a|] == a && s[|a| + 1..] == rest;
  }

  /** `LineEnd` stops at the first terminator. */
  lemma {:induction false} LineEndAt(s: string, from: nat, k: nat)
    requires from <= k < |s| && IsLineTerminator(s[k])
    requires forall i :: from <= i < k ==> !IsLineTerminator(s[i])
    ensures LineEnd(s, from) == k
    decreases k - from
  {
    if from < k {
      LineEndAt(s, from + 1, k);
    }
  }

  /** A text without terminators is one line. */
  lemma SingleLine(a: string)
    requires OneLine(a)
    ensures Lines(a) == [a] && Breaks(a) == ""
  {
    assert LineEnd(a, 0) == |a|;
  }

  /** The heading pass keeps every line terminator and the number of lines, and turns line `i` into
      `DemoteLine` of line `i`. */
  lemma {:induction false} HeadingPassLines(s: string)
    ensures Breaks(HeadingPass(s)) == Breaks(s)
    ensures |Lines(HeadingPass(s))| == |Lines(s)|
    ensures forall i :: 0 <= i < |Lines(s)| ==> Lines(HeadingPass(s))[i] == DemoteLine(Lines(s)[i])
    decreases |s|
  {
    var k := LineEnd(s, 0);
    if k == |s| {
      assert OneLine(s);
      SingleLine(DemoteLine(s));
    } else {
      var a := s[..k];
      var rest := s[k + 1..];
      assert OneLine(a);
      HeadingPassLines(rest);
      LinesCons(DemoteLine(a), s[k], HeadingPass(rest));
      assert Lines(s) == [a] + Lines(rest);
    }
  }
}
