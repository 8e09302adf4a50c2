/**
 * Markdown references `[label](src)` and `![label](src)` as the script's
 * regular expressions find them, and the path prefix they strip.
 *
 * The label group is a lazy `(.*?)`: it is the shortest run, without a line
 * terminator, after which `](` and an acceptable `src` follow. The `src`
 * group runs to the first `)`, holds at least one character and, for the
 * rewriting passes, starts with `/` and holds at least one more character.
 */
module References {
  import opened Wrappers
  import opened Text

  /** A reference ending just before `end`. */
  datatype Ref = Ref(text: string, src: string, end: nat)

  /** Where the `src` group that starts at `a` closes (the index of its `)`), if it is acceptable. */
  function SrcClose(s: string, a: nat, rooted: bool): (r: Option<nat>)
    requires a <= |s|
    ensures r.Some? ==> a < r.value < |s| && s[r.value] == ')'
    ensures r.Some? && rooted ==> s[a] == '/' && r.value > a + 1
  {
    var r := Find(s, a, ')');
    if r < |s| && r > a && (rooted ==> s[a] == '/' && r > a + 1) then Some(r)
    else None
  }

  /** The lazy label starting at `k`: the index of the first `](` reachable without a line
      terminator and followed by an acceptable `src`. */
  function LabelClose(s: string, k: nat, rooted: bool): (r: Option<nat>)
    requires k <= |s|
    ensures r.Some? ==> k <= r.value && r.value + 1 < |s| && s[r.value] == ']' && s[r.value + 1] == '('
    decreases |s| - k
  {
    if k + 1 < |s| && s[k] == ']' && s[k + 1] == '(' && SrcClose(s, k + 2, rooted).Some? then Some(k)
    else if k < |s| && !IsLineTerminator(s[k]) then LabelClose(s, k + 1, rooted)
    else None
  }

  /** The label is followed by an acceptable source. */
  lemma {:induction false} LabelCloseSrc(s: string, k: nat, rooted: bool)
    requires k <= |s| && LabelClose(s, k, rooted).Some?
    ensures SrcClose(s, LabelClose(s, k, rooted).value + 2, rooted).Some?
    decreases |s| - k
  {
    if LabelClose(s, k, rooted) != Some(k) {
      LabelCloseSrc(s, k + 1, rooted);
    }
  }

  /** The label runs over no line terminator. */
  lemma {:induction false} LabelOnOneLine(s: string, k: nat, rooted: bool)
    requires k <= |s| && LabelClose(s, k, rooted).Some?
    ensures forall i :: k <= i < LabelClose(s, k, rooted).value ==> !IsLineTerminator(s[i])
    decreases |s| - k
  {
    if LabelClose(s, k, rooted) != Some(k) {
      LabelOnOneLine(s, k + 1, rooted);
    }
  }

  /** The `src` group closes at the first `)` after `a` whenever what lies before it is acceptable. */
  lemma SrcCloseAt(s: string, a: nat, rooted: bool, r: nat)
    requires a < r < |s| && s[r] == ')'
    requires forall i :: a <= i < r ==> s[i] != ')'
    requires rooted ==> s[a] == '/' && r > a + 1
    ensures SrcClose(s, a, rooted) == Some(r)
  {
    FindAt(s, a, ')', r);
  }

  /** A `](` at `k` after which an acceptable `src` follows. */
  predicate Closes(s: string, k: nat, rooted: bool) {
    k + 1 < |s| && s[k] == ']' && s[k + 1] == '(' && SrcClose(s, k + 2, rooted).Some?
  }

  /** The lazy label is the shortest: no earlier position closes it. */
  lemma {:induction false} LabelCloseFirst(s: string, k: nat, rooted: bool)
    requires k <= |s| && LabelClose(s, k, rooted).Some?
    ensures Closes(s, LabelClose(s, k, rooted).value, rooted)
    ensures forall i :: k <= i < LabelClose(s, k, rooted).value ==> !Closes(s, i, rooted)
    decreases |s| - k
  {
    LabelCloseSrc(s, k, rooted);
    if LabelClose(s, k, rooted) != Some(k) {
      LabelCloseFirst(s, k + 1, rooted);
    }
  }

  /** The label closes at the first position that closes it, when no line terminator comes before. */
  lemma {:induction false} LabelCloseAt(s: string, k: nat, rooted: bool, c: nat)
    requires k <= c && Closes(s, c, rooted)
    requires forall i :: k <= i < c ==> !IsLineTerminator(s[i]) && !Closes(s, i, rooted)
    ensures LabelClose(s, k, rooted) == Some(c)
    decreases c - k
  {
    if k < c {
      LabelCloseAt(s, k + 1, rooted, c);
    }
  }

  /** The reference that starts at `p`: `![` when `bang`, `[` otherwise. */
  function RefAt(s: string, p: nat, bang: bool, rooted: bool): (r: Option<Ref>)
    requires p < |s|
    ensures r.Some? ==> p < r.value.end <= |s| && |r.value.src| >= 1
    ensures r.Some? && rooted ==> r.value.src[0] == '/' && |r.value.src| >= 2
  {
    var open := if bang then 2 else 1;
    if !(p + open <= |s| && (bang ==> s[p] == '!') && s[p + open - 1] == '[') then None
    else
      var c := LabelClose(s, p + open, rooted);
      if c.None? then None
      else
        var k := c.value;
        LabelCloseSrc(s, p + open, rooted);
        var r := SrcClose(s, k + 2, rooted).value;
        assert p + open <= k && k + 2 < r < |s|;
        var src := s[k + 2..r];
        assert |src| == r - (k + 2) && (rooted ==> src[0] == s[k + 2] == '/' && |src| >= 2);
        Some(Ref(s[p + open..k], src, r + 1))
  }

  /** The reference at `p` when its label closes at `k` and its source at `r`. */
  lemma RefAtBuilt(s: string, p: nat, bang: bool, rooted: bool, k: nat, r: nat)
    requires p < |s|
    requires var open := if bang then 2 else 1;
      p + open <= |s| && (bang ==> s[p] == '!') && s[p + open - 1] == '['
      && LabelClose(s, p + open, rooted) == Some(k) && SrcClose(s, k + 2, rooted) == Some(r)
    ensures RefAt(s, p, bang, rooted) == Some(Ref(s[p + (if bang then 2 else 1)..k], s[k + 2..r], r + 1))
  {
  }

  /** A reference found at `p` has an opener there, a label closing at some `k` and a source
      closing at some `r`. */
  lemma RefAtParts(s: string, p: nat, bang: bool, rooted: bool) returns (k: nat, r: nat)
    requires p < |s| && RefAt(s, p, bang, rooted).Some?
    ensures var open := if bang then 2 else 1;
      && p + open <= k && k + 2 < r < |s|
      && s[p..p + open] == (if bang then "![" else "[")
      && LabelClose(s, p + open, rooted) == Some(k) && SrcClose(s, k + 2, rooted) == Some(r)
      && RefAt(s, p, bang, rooted) == Some(Ref(s[p + open..k], s[k + 2..r], r + 1))
  {
    var open := if bang then 2 else 1;
    k := LabelClose(s, p + open, rooted).value;
    LabelCloseSrc(s, p + open, rooted);
    r := SrcClose(s, k + 2, rooted).value;
    assert p + open <= |s| && (bang ==> s[p] == '!') && s[p + open - 1] == '[';
    if bang {
      assert s[p..p + open] == [s[p], s[p + 1]] == "![";
    } else {
      assert s[p..p + open] == [s[p]] == "[";
    }
    RefAtBuilt(s, p, bang, rooted, k, r);
  }

  /** The text a reference matches is exactly its opener, its label, `](`, its source and `)`. */
  lemma RefText(s: string, p: nat, bang: bool, rooted: bool)
    requires p < |s| && RefAt(s, p, bang, rooted).Some?
    ensures var ref := RefAt(s, p, bang, rooted).value;
      s[p..ref.end] == (if bang then "![" else "[") + ref.text + "](" + ref.src + ")"
  {
    var open := if bang then 2 else 1;
    var k, r := RefAtParts(s, p, bang, rooted);
    assert s[p..r + 1] == (if bang then "![" else "[") + s[p + open..k] + "](" + s[k + 2..r] + ")" by {
      Pieces(s, p, p + open, k, r);
    }
  }

  /** Every well-formed reference is found, with the first `](` that an acceptable source follows
      closing its label and the first `)` after it closing its source. */
  lemma RefAtFound(s: string, p: nat, bang: bool, rooted: bool, k: nat, r: nat)
    requires var open := if bang then 2 else 1;
      && p + open <= k < r < |s|
      && s[p..p + open] == (if bang then "![" else "[")
      && (forall i :: p + open <= i < k ==> !IsLineTerminator(s[i]) && !Closes(s, i, rooted))
      && s[k] == ']' && s[k + 1] == '(' && k + 2 < r && s[r] == ')'
      && (forall i :: k + 2 <= i < r ==> s[i] != ')')
      && (rooted ==> s[k + 2] == '/' && r > k + 3)
    ensures RefAt(s, p, bang, rooted) == Some(Ref(s[p + (if bang then 2 else 1)..k], s[k + 2..r], r + 1))
  {
    var open := if bang then 2 else 1;
    assert s[p + open - 1] == s[p..p + open][open - 1];
    assert bang ==> s[p] == s[p..p + open][0];
    SrcCloseAt(s, k + 2, rooted, r);
    LabelCloseAt(s, p + open, rooted, k);
    RefAtBuilt(s, p, bang, rooted, k, r);
  }

  /** A reference written out as opener, label, `](`, source and `)` is matched as exactly that, when
      its label holds neither `]` nor a line terminator and its source is acceptable and holds no `)`. */
  lemma RefAtWritten(s: string, p: nat, bang: bool, rooted: bool, text: string, src: string)
    requires var opener := if bang then "![" else "[";
      && p + |opener| + |text| + |src| + 3 <= |s|
      && s[p..p + |opener| + |text| + |src| + 3] == opener + text + "](" + src + ")"
    requires forall i :: 0 <= i < |text| ==> text[i] != ']' && !IsLineTerminator(text[i])
    requires |src| >= 1 && ')' !in src
    requires rooted ==> src[0] == '/' && |src| >= 2
    ensures var opener := if bang then "![" else "[";
      RefAt(s, p, bang, rooted) == Some(Ref(text, src, p + |opener| + |text| + |src| + 3))
  {
    var open := if bang then 2 else 1;
    var k := p + open + |text|;
    var r := k + 2 + |src|;
    WrittenChars(s, p, bang, text, src);
    forall i | p + open <= i < k
      ensures !IsLineTerminator(s[i]) && !Closes(s, i, rooted)
    {
      assert s[i] != ']';
    }
    RefAtFound(s, p, bang, rooted, k, r);
  }

  /** The characters of a reference written out in `s` at `p`. */
  lemma WrittenChars(s: string, p: nat, bang: bool, text: string, src: string)
    requires var opener := if bang then "![" else "[";
      && p + |opener| + |text| + |src| + 3 <= |s|
      && s[p..p + |opener| + |text| + |src| + 3] == opener + text + "](" + src + ")"
    requires forall i :: 0 <= i < |text| ==> text[i] != ']' && !IsLineTerminator(text[i])
    requires |src| >= 1 && ')' !in src
    ensures var open := if bang then 2 else 1;
      var k := p + open + |text|;
      var r := k + 2 + |src|;
      && s[p..p + open] == (if bang then "![" else "[")
      && (forall i :: p + open <= i < k ==> s[i] != ']' && !IsLineTerminator(s[i]))
      && s[k] == ']' && s[k + 1] == '(' && s[k + 2] == src[0] && s[r] == ')'
      && (forall i :: k + 2 <= i < r ==> s[i] != ')')
      && s[p + open..k] == text && s[k + 2..r] == src
  {
    var open := if bang then 2 else 1;
    var k := p + open + |text|;
    var r := k + 2 + |src|;
    WrittenPieces(s, p, if bang then "![" else "[", text, src);
    assert s[k + 2] == s[k + 2..r][0];
    forall i | k + 2 <= i < r
      ensures s[i] != ')'
    {
      assert s[i] == src[i - (k + 2)] && src[i - (k + 2)] in src;
    }
    forall i | p + open <= i < k
      ensures s[i] != ']' && !IsLineTerminator(s[i])
    {
      assert s[i] == text[i - (p + open)];
    }
  }

  /** The pieces of `opener + text + "](" + src + ")"` written in `s` at `p`. */
  lemma WrittenPieces(s: string, p: nat, opener: string, text: string, src: string)
    requires p + |opener| + |text| + |src| + 3 <= |s|
    requires s[p..p + |opener| + |text| + |src| + 3] == opener + text + "](" + src + ")"
    ensures var k := p + |opener| + |text|;
      var r := k + 2 + |src|;
      && s[p..p + |opener|] == opener && s[p + |opener|..k] == text
      && s[k] == ']' && s[k + 1] == '(' && s[k + 2..r] == src && s[r] == ')'
  {
    var k := p + |opener| + |text|;
    var r := k + 2 + |src|;
    SliceSplit(s, p, r + 1, opener + text + "](" + src, ")");
    SliceSplit(s, p, r, opener + text + "](", src);
    SliceSplit(s, p, k + 2, opener + text, "](");
    SliceSplit(s, p, k, opener, text);
    assert s[r] == s[r..r + 1][0];
    assert s[k] == s[k..k + 2][0] && s[k + 1] == s[k..k + 2][1];
  }

  /** The label of a reference holds no line terminator and its source no `)`. */
  lemma RefChars(s: string, p: nat, bang: bool, rooted: bool)
    requires p < |s| && RefAt(s, p, bang, rooted).Some?
    ensures var ref := RefAt(s, p, bang, rooted).value;
      ')' !in ref.src && forall i :: 0 <= i < |ref.text| ==> !IsLineTerminator(ref.text[i])
  {
    var open := if bang then 2 else 1;
    var k, r := RefAtParts(s, p, bang, rooted);
    LabelOnOneLine(s, p + open, rooted);
    FindFirst(s, k + 2, ')');
    PieceChars(s, p + open, k, r);
  }

  /** A reference's text, cut at its opener, its `](` and its closing `)`. */
  lemma Pieces(s: string, p: nat, a: nat, k: nat, r: nat)
    requires p <= a <= k && k + 2 <= r < |s|
    requires s[k] == ']' && s[k + 1] == '(' && s[r] == ')'
    ensures s[p..r + 1] == s[p..a] + s[a..k] + "](" + s[k + 2..r] + ")"
  {
    assert s[p..k] == s[p..a] + s[a..k];
    assert s[k..k + 2] == "](";
    assert s[p..k + 2] == s[p..k] + s[k..k + 2];
    assert s[p..r] == s[p..k + 2] + s[k + 2..r];
    assert s[p..r + 1] == s[p..r] + [s[r]];
  }

  /** The label between `a` and `k` inherits the absence of line terminators, and the source between
      `k + 2` and `r` the absence of `)`. */
  lemma PieceChars(s: string, a: nat, k: nat, r: nat)
    requires a <= k && k + 2 <= r <= |s|
    requires forall i :: a <= i < k ==> !IsLineTerminator(s[i])
    requires forall i :: k + 2 <= i < r ==> s[i] != ')'
    ensures ')' !in s[k + 2..r]
    ensures forall i :: 0 <= i < |s[a..k]| ==> !IsLineTerminator(s[a..k][i])
  {
    var text := s[a..k];
    assert forall i :: 0 <= i < |text| ==> text[i] == s[a + i];
    var src := s[k + 2..r];
    assert forall i :: 0 <= i < |src| ==> src[i] == s[k + 2 + i];
  }

  /** The first reference at or after `p` (`String.prototype.match` without the global flag). */
  function FirstRef(s: string, p: nat, bang: bool, rooted: bool): Option<Ref>
    requires p <= |s|
    decreases |s| - p
  {
    if p == |s| then None
    else if RefAt(s, p, bang, rooted).Some? then RefAt(s, p, bang, rooted)
    else FirstRef(s, p + 1, bang, rooted)
  }

  /** `FirstRef` finds a reference exactly when some position holds one, and then one that some
      position holds. */
  lemma {:induction false} FirstRefFinds(s: string, p: nat, bang: bool, rooted: bool)
    requires p <= |s|
    ensures var r := FirstRef(s, p, bang, rooted);
      r.Some? ==> exists q :: p <= q < |s| && RefAt(s, q, bang, rooted) == r
    ensures FirstRef(s, p, bang, rooted).None? <==> forall q :: p <= q < |s| ==> RefAt(s, q, bang, rooted).None?
    decreases |s| - p
  {
    if p < |s| && RefAt(s, p, bang, rooted).None? {
      FirstRefFinds(s, p + 1, bang, rooted);
      assert (forall q :: p + 1 <= q < |s| ==> RefAt(s, q, bang, rooted).None?)
         <==> (forall q :: p <= q < |s| ==> RefAt(s, q, bang, rooted).None?);
    }
  }

  /** A rooted source is an acceptable source, closing at the same `)`. */
  lemma RootedSrcIsSrc(s: string, a: nat)
    requires a <= |s| && SrcClose(s, a, true).Some?
    ensures SrcClose(s, a, false) == SrcClose(s, a, true)
  {
  }

  /** A rooted label closes only where an unrestricted one can, so no earlier than it. */
  lemma {:induction false} LabelCloseEarlier(s: string, k: nat)
    requires k <= |s| && LabelClose(s, k, true).Some?
    ensures LabelClose(s, k, false).Some? && LabelClose(s, k, false).value <= LabelClose(s, k, true).value
    decreases |s| - k
  {
    if k + 1 < |s| && s[k] == ']' && s[k + 1] == '(' && SrcClose(s, k + 2, true).Some? {
      RootedSrcIsSrc(s, k + 2);
    } else if k + 1 < |s| && s[k] == ']' && s[k + 1] == '(' && SrcClose(s, k + 2, false).Some? {
      assert LabelClose(s, k, false) == Some(k);
    } else {
      LabelCloseEarlier(s, k + 1);
    }
  }

  /** When the unrestricted label is followed by a rooted source, the rooted label closes there too. */
  lemma {:induction false} LabelCloseSame(s: string, k: nat, c: nat)
    requires k <= |s| && LabelClose(s, k, false) == Some(c)
    requires c + 2 <= |s| && SrcClose(s, c + 2, true).Some?
    ensures LabelClose(s, k, true) == Some(c)
    decreases |s| - k
  {
    var closesHere := k + 1 < |s| && s[k] == ']' && s[k + 1] == '(';
    if closesHere && SrcClose(s, k + 2, false).Some? {
      assert c == k;
    } else {
      assert k < |s| && !IsLineTerminator(s[k]) && LabelClose(s, k + 1, false) == Some(c);
      assert !(closesHere && SrcClose(s, k + 2, true).Some?);
      LabelCloseSame(s, k + 1, c);
    }
  }

  /** Every rooted reference is a reference. */
  lemma RootedIsRef(s: string, p: nat, bang: bool)
    requires p < |s| && RefAt(s, p, bang, true).Some?
    ensures RefAt(s, p, bang, false).Some?
  {
    var open := if bang then 2 else 1;
    LabelCloseEarlier(s, p + open);
  }

  /** A reference whose source is rooted is also the rooted reference at its position. */
  lemma RefWithRootedSrc(s: string, p: nat, bang: bool)
    requires p < |s| && RefAt(s, p, bang, false).Some?
    requires RefAt(s, p, bang, false).value.src[0] == '/' && |RefAt(s, p, bang, false).value.src| >= 2
    ensures RefAt(s, p, bang, true) == RefAt(s, p, bang, false)
  {
    var open := if bang then 2 else 1;
    var k, r := RefAtParts(s, p, bang, false);
    RootedAt(s, k, r);
    LabelCloseSame(s, p + open, k);
    RefAtBuilt(s, p, bang, true, k, r);
  }

  lemma RootedAt(s: string, k: nat, r: nat)
    requires k + 2 <= |s| && SrcClose(s, k + 2, false) == Some(r)
    requires s[k + 2..r][0] == '/' && |s[k + 2..r]| >= 2
    ensures SrcClose(s, k + 2, true) == Some(r)
  {
    assert s[k + 2..r][0] == s[k + 2];
  }


  /** The first reference is the one at the first position that holds one. */
  lemma {:induction false} FirstRefAt(s: string, p: nat, q: nat, bang: bool, rooted: bool)
    requires p <= q < |s| && RefAt(s, q, bang, rooted).Some?
    requires forall i :: p <= i < q ==> RefAt(s, i, bang, rooted).None?
    ensures FirstRef(s, p, bang, rooted) == RefAt(s, q, bang, rooted)
    decreases q - p
  {
    if p < q {
      FirstRefAt(s, p + 1, q, bang, rooted);
    }
  }

  const AssetsRoot := "images/posts/"

  /** `src.replace(/^\/?(?:images\/posts\/)?/, '')`: drops one leading `/`, then `images/posts/`. */
  function StripAssetsPrefix(src: string): (r: string)
    ensures EndsWith(src, r)
    ensures var cut := src[..|src| - |r|];
      cut in ["", "/", AssetsRoot, "/" + AssetsRoot]
  {
    var a := if |src| > 0 && src[0] == '/' then src[1..] else src;
    assert EndsWith(src, a);
    assert src[..|src| - |a|] == "" || src[..|src| - |a|] == "/" by {
      if |src| > 0 && src[0] == '/' { assert src[..1] == "/"; }
    }
    if StartsWith(a, AssetsRoot) then
      assert src[..|src| - |a[13..]|] == src[..|src| - |a|] + AssetsRoot;
      a[13..]
    else a
  }

  /** The prefix regular expression is greedy: `/images/posts/` goes whole, then `images/posts/`,
      then a lone `/`; any other source is kept. */
  lemma StripAssetsPrefixCases(src: string)
    ensures StartsWith(src, "/" + AssetsRoot) ==> StripAssetsPrefix(src) == src[|AssetsRoot| + 1..]
    ensures StartsWith(src, AssetsRoot) ==> StripAssetsPrefix(src) == src[|AssetsRoot|..]
    ensures StartsWith(src, "/") && !StartsWith(src, "/" + AssetsRoot) ==> StripAssetsPrefix(src) == src[1..]
    ensures !StartsWith(src, "/") && !StartsWith(src, AssetsRoot) ==> StripAssetsPrefix(src) == src
  {
    if StartsWith(src, "/") {
      assert src[0] == src[..1][0];
      if StartsWith(src, "/" + AssetsRoot) {
        assert src[1..][..|AssetsRoot|] == src[..|AssetsRoot| + 1][1..];
      }
    }
  }

  /** The `/`-separated parts of a reference's path below the assets root. */
  function PathParts(src: string): (parts: seq<string>)
    ensures |parts| >= 1
    ensures Join(parts, '/') == StripAssetsPrefix(src)
  {
    JoinSplit(StripAssetsPrefix(src), '/');
    Split(StripAssetsPrefix(src), '/')
  }
}
