/**
 * Keys derived from a post's file name (`extractMetadataFromFileName`) and
 * the media-extension filter, over Node's POSIX `path.extname` and
 * `path.basename(name, ext)`.
 */
module FileName {
  import opened Text

  /** Extensions, lower-cased, of the image and video files that are copied. */
  const ImageExtensions: seq<string> := [".jpg", ".jpeg", ".png", ".gif", ".webp", ".mp4"]

  /** The last index of `c` in `s`, or -1. */
  function LastIndex(s: string, c: char): (k: int)
    ensures -1 <= k < |s|
    ensures k >= 0 ==> s[k] == c
    ensures forall i :: k < i < |s| ==> s[i] != c
  {
    if s == [] then -1
    else if s[|s| - 1] == c then |s| - 1
    else LastIndex(s[..|s| - 1], c)
  }

  function TrimTrailingSlashes(p: string): (r: string)
    ensures StartsWith(p, r)
    ensures r == [] || r[|r| - 1] != '/'
    ensures forall i :: |r| <= i < |p| ==> p[i] == '/'
  {
    if p != [] && p[|p| - 1] == '/' then TrimTrailingSlashes(p[..|p| - 1]) else p
  }

  /** The part of a path after its last `/`. */
  function LastSegment(p: string): (seg: string)
    ensures '/' !in seg
    ensures EndsWith(p, seg)
  {
    var k := LastIndex(p, '/');
    p[k + 1..]
  }

  /** `path.extname` of one segment: from its last dot, unless that dot opens the name or the name is `..`. */
  function SegmentExtension(seg: string): (e: string)
    requires '/' !in seg
    ensures e == [] || (EndsWith(seg, e) && |e| < |seg| && e[0] == '.' && '.' !in e[1..])
  {
    var dot := LastIndex(seg, '.');
    if dot <= 0 || seg == ".." then ""
    else
      assert forall i :: 1 <= i < |seg[dot..]| ==> seg[dot..][i] == seg[dot + i];
      seg[dot..]
  }

  /** Node's POSIX `path.extname`: trailing slashes are ignored, then the last segment decides. */
  function ExtName(path: string): (e: string)
    ensures e == [] || (e[0] == '.' && '.' !in e[1..] && '/' !in e)
    ensures EndsWith(TrimTrailingSlashes(path), e)
  {
    SegmentExtension(LastSegment(TrimTrailingSlashes(path)))
  }

  /** A segment has no extension exactly when it is `..` or its only dot, if any, opens it. */
  lemma SegmentExtensionEmpty(seg: string)
    requires '/' !in seg
    ensures SegmentExtension(seg) == [] <==> seg == ".." || forall i :: 0 < i < |seg| ==> seg[i] != '.'
  {
    var dot := LastIndex(seg, '.');
    if dot > 0 && seg != ".." {
      assert seg[dot] == '.';
    }
  }

  /** `path.extname` is empty exactly when the last segment, after trailing slashes are dropped, is
      `..` or has no dot past its first character. */
  lemma ExtNameEmpty(path: string)
    ensures var seg := LastSegment(TrimTrailingSlashes(path));
      ExtName(path) == [] <==> seg == ".." || forall i :: 0 < i < |seg| ==> seg[i] != '.'
  {
    SegmentExtensionEmpty(LastSegment(TrimTrailingSlashes(path)));
  }

  /** Node's POSIX `path.basename(name, suffix)` for a name without `/`. */
  function BaseName(name: string, suffix: string): (b: string)
    requires '/' !in name
    ensures |suffix| > 0 && EndsWith(name, suffix) && suffix != name ==> b + suffix == name
    ensures |suffix| > 0 && suffix == name ==> b == ""
    ensures |suffix| == 0 || !EndsWith(name, suffix) ==> b == name
  {
    if |suffix| == 0 || |suffix| > |name| then name
    else if suffix == name then ""
    else if EndsWith(name, suffix) then
      assert name == name[..|name| - |suffix|] + suffix;
      name[..|name| - |suffix|]
    else name
  }

  predicate IsDigit(c: char) { '0' <= c <= '9' }

  /** The prefix `^\d{4}-\d{2}-\d{2}-`. */
  predicate HasDatePrefix(s: string) {
    && |s| >= 11
    && IsDigit(s[0]) && IsDigit(s[1]) && IsDigit(s[2]) && IsDigit(s[3]) && s[4] == '-'
    && IsDigit(s[5]) && IsDigit(s[6]) && s[7] == '-'
    && IsDigit(s[8]) && IsDigit(s[9]) && s[10] == '-'
  }

  /** `s.replace(/^\d{4}-\d{2}-\d{2}-/, '')`. */
  function StripDatePrefix(s: string): (r: string)
    ensures EndsWith(s, r)
    ensures HasDatePrefix(s) ==> s == s[..11] + r
    ensures !HasDatePrefix(s) ==> r == s
  {
    if HasDatePrefix(s) then
      assert s == s[..11] + s[11..];
      s[11..]
    else s
  }

  /** The join key between the text and the file-system halves of the migration. */
  datatype Keys = Keys(slug: string, dirName: string)

  /** `extractMetadataFromFileName`, for a directory entry name (which never holds a separator). */
  function ExtractKeys(fileName: string): (k: Keys)
    requires '/' !in fileName
    ensures EndsWith(k.dirName, k.slug)
    ensures k.slug == StripDatePrefix(k.dirName)
    ensures k.dirName == BaseName(fileName, Lower(ExtName(fileName)))
  {
    var ext := Lower(ExtName(fileName));
    var baseName := BaseName(fileName, ext);
    Keys(StripDatePrefix(baseName), baseName)
  }

  /** With a lower-case extension the directory name is the file name minus that extension;
      with an extension holding an upper-case letter the case-sensitive removal leaves the name whole. */
  lemma DirNameDropsExtension(fileName: string)
    requires '/' !in fileName
    ensures var e := ExtName(fileName);
      && (e != "" && Lower(e) == e ==> ExtractKeys(fileName).dirName + e == fileName)
      && (Lower(e) != e || e == "" ==> ExtractKeys(fileName).dirName == fileName)
  {
    BareExtName(fileName);
    var e := ExtName(fileName);
    var le := Lower(e);
    if e != "" {
      assert EndsWith(fileName, e) && |e| < |fileName|;
      if EndsWith(fileName, le) {
        assert le == fileName[|fileName| - |e|..] == e;
      }
    }
  }

  /** Line 115/357 filter: the lower-cased extension is an image or video extension. */
  predicate IsMedia(name: string) {
    Lower(ExtName(name)) in ImageExtensions
  }

  /** For a name without separators `path.extname` looks at the whole name. */
  lemma BareExtName(name: string)
    requires '/' !in name
    ensures ExtName(name) == SegmentExtension(name)
  {
    assert TrimTrailingSlashes(name) == name by {
      if name != [] {
        assert name[|name| - 1] in name;
      }
    }
    assert LastIndex(name, '/') == -1;
    assert name[0..] == name;
  }

  /** The extension of stem + ext, when ext holds the only dot after a non-empty stem, is ext. */
  lemma SegmentExtensionOf(stem: string, ext: string)
    requires stem != "" && '/' !in stem + ext
    requires |ext| >= 1 && ext[0] == '.' && '.' !in ext[1..]
    requires stem + ext != ".."
    ensures SegmentExtension(stem + ext) == ext
  {
    var name := stem + ext;
    var dot := LastIndex(name, '.');
    assert name[|stem|] == '.';
    assert dot == |stem|;
    assert name[dot..] == ext;
  }

  /** A file named stem + ext is copied exactly when ext, in any letter case, is a media extension. */
  lemma MediaByExtension(stem: string, ext: string)
    requires stem != "" && '/' !in stem && '/' !in ext
    requires |ext| >= 1 && ext[0] == '.' && '.' !in ext[1..]
    requires stem + ext != ".."
    ensures IsMedia(stem + ext) <==> Lower(ext) in ImageExtensions
  {
    var name := stem + ext;
    assert '/' !in name by {
      forall i | 0 <= i < |name| ensures name[i] != '/' {
        if i < |stem| { assert name[i] == stem[i]; } else { assert name[i] == ext[i - |stem|]; }
      }
    }
    BareExtName(name);
    SegmentExtensionOf(stem, ext);
  }
}
