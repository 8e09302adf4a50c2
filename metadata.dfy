/**
 * The metadata half of `convertMarkdown`: the decoded front matter is
 * back-filled with the four required fields and then projected into the
 * record written as the new post's front matter.
 *
 * Decoding itself (TOML or YAML) is a parameter of the pipeline; what it
 * yields is a JavaScript value, modelled by `Value`.
 */
module Metadata {
  import opened Wrappers
  import opened Text
  import opened References
  import opened BodyRewrite

  /** A JavaScript value as the decoders produce it. Numbers are integers here. */
  datatype Value =
    | Undefined
    | Null
    | Bool(b: bool)
    | Num(n: int)
    | Str(s: string)
    | Date(iso: string)
    | Arr(items: seq<Value>)
    | Obj(fields: map<string, Value>)

  /** JavaScript truthiness. */
  predicate Truthy(v: Value) {
    match v
    case Undefined => false
    case Null => false
    case Bool(b) => b
    case Num(n) => n != 0
    case Str(s) => s != ""
    case _ => true
  }

  /** `a || b`. */
  function Or(a: Value, b: Value): Value {
    if Truthy(a) then a else b
  }

  /** Reading `m[key]`: a missing key reads as `undefined`. */
  function Field(m: map<string, Value>, key: string): Value {
    if key in m then m[key] else Undefined
  }

  /** Reading `v.key` on a value that is not `undefined` or `null`: only plain objects carry the
      keys the script reads. */
  function Get(v: Value, key: string): Value {
    if v.Obj? then Field(v.fields, key) else Undefined
  }

  /** A value whose properties cannot be written: assignments to them are silently dropped. */
  predicate IsPrimitive(v: Value) {
    v.Bool? || v.Num? || v.Str?
  }

  /** The record used when there is no front matter or it does not decode. */
  function Defaults(slug: string, now: string): map<string, Value> {
    map["title" := Str(slug), "slug" := Str(slug), "date" := Str(now), "tags" := Arr([])]
  }

  /** The fields the front matter supplies: those of a decoded mapping, none otherwise. */
  function Supplied(decoded: Option<Value>): map<string, Value> {
    if decoded.Some? && decoded.value.Obj? then decoded.value.fields else map[]
  }

  /** The four fields the back-fill guarantees. */
  predicate IsRequired(key: string) {
    key == "title" || key == "slug" || key == "date" || key == "tags"
  }

  /** The back-fill of lines 224-227, starting from the decoded record (`None` when there is no front
      matter or it fails to decode). Every required field keeps a truthy decoded value and otherwise
      falls back: `title` and `slug` to the file-name slug, `date` to `now`, `tags` to `[]`; every other
      field is the decoded one. A decoded value that is not a mapping is treated like a missing front
      matter (see `BackFillAsWritten` for what the script does with it). */
  method BackFill(decoded: Option<Value>, slug: string, now: string) returns (metadata: map<string, Value>)
    ensures var m := Supplied(decoded);
      && (Truthy(Field(m, "title")) ==> Field(metadata, "title") == Field(m, "title"))
      && (!Truthy(Field(m, "title")) ==> Field(metadata, "title") == Str(slug))
      && (Truthy(Field(m, "slug")) ==> Field(metadata, "slug") == Field(m, "slug"))
      && (!Truthy(Field(m, "slug")) ==> Field(metadata, "slug") == Str(slug))
      && (Truthy(Field(m, "date")) ==> Field(metadata, "date") == Field(m, "date"))
      && (!Truthy(Field(m, "date")) ==> Field(metadata, "date") == Str(now))
      && (Truthy(Field(m, "tags")) ==> Field(metadata, "tags") == Field(m, "tags"))
      && (!Truthy(Field(m, "tags")) ==> Field(metadata, "tags") == Arr([]))
    ensures forall key :: !IsRequired(key) ==> Field(metadata, key) == Field(Supplied(decoded), key)
    ensures Truthy(Field(metadata, "tags"))
    ensures slug != "" ==> Truthy(Field(metadata, "title")) && Truthy(Field(metadata, "slug"))
    ensures now != "" ==> Truthy(Field(metadata, "date"))
  {
    if decoded.Some? && decoded.value.Obj? {
      metadata := decoded.value.fields;
    } else {
      metadata := Defaults(slug, now);
    }
    metadata := metadata["title" := Or(Field(metadata, "title"), Str(slug))];
    metadata := metadata["slug" := Or(Field(metadata, "slug"), Str(slug))];
    metadata := metadata["date" := Or(Field(metadata, "date"), Str(now))];
    metadata := metadata["tags" := Or(Field(metadata, "tags"), Arr([]))];
  }

  /** The back-fill as the script performs it on whatever the decoder returned. Reading a property of
      `undefined` or `null` throws (the post is then abandoned); writing a property of a primitive is
      silently dropped, so the primitive comes back unchanged; arrays and dates take the properties
      like an empty object. */
  function BackFillAsWritten(decoded: Option<Value>, slug: string, now: string): (r: Result<Value>)
    ensures r.Err? <==> decoded == Some(Undefined) || decoded == Some(Null)
    ensures decoded.Some? && IsPrimitive(decoded.value) ==> r == Ok(decoded.value)
    ensures r.Ok? && !(decoded.Some? && IsPrimitive(decoded.value)) ==>
      r.value.Obj? && forall key :: IsRequired(key) ==> key in r.value.fields
  {
    if decoded == Some(Undefined) || decoded == Some(Null) then
      Err("TypeError: Cannot read properties of " + (if decoded == Some(Null) then "null" else "undefined"))
    else if decoded.Some? && IsPrimitive(decoded.value) then Ok(decoded.value)
    else
      var m := if decoded.None? then Defaults(slug, now) else Supplied(decoded);
      var m := m["title" := Or(Field(m, "title"), Str(slug))];
      var m := m["slug" := Or(Field(m, "slug"), Str(slug))];
      var m := m["date" := Or(Field(m, "date"), Str(now))];
      var m := m["tags" := Or(Field(m, "tags"), Arr([]))];
      Ok(Obj(m))
  }

  /** A front matter that decodes to something other than a mapping either abandons the post or
      leaves it without any of the required fields. */
  lemma NonMappingLosesRequired(v: Value, slug: string, now: string, key: string)
    requires !v.Obj? && !v.Arr? && !v.Date?
    requires IsRequired(key)
    ensures var r := BackFillAsWritten(Some(v), slug, now);
      r.Err? || Get(r.value, key) == Undefined
  {
  }

  /** The image of the new front matter. */
  datatype ImageInfo = ImageInfo(filename: string, caption: Option<Value>)

  /** The new front matter, fields in the order they are written. */
  datatype PostMetadata = PostMetadata(
    title: Value,
    slug: Value,
    summary: string,
    date: Value,
    math: Value,
    authors: Value,
    tags: Value,
    image: Option<ImageInfo>,
    draft: Value)

  /** `metadata.image` names the image: a string that is not blank. */
  predicate NamesImage(v: Value) {
    v.Str? && Trim(v.s) != ""
  }

  /** The file name taken from a `metadata.image` string: the assets prefix is stripped and then, when
      a `/` follows a non-empty first segment, that segment goes too. */
  function MetadataImageFilename(image: string): (f: string)
    ensures EndsWith(StripAssetsPrefix(image), f)
    ensures var rel := StripAssetsPrefix(image);
      || f == rel
      || (|f| < |rel| && rel == rel[..|rel| - |f| - 1] + "/" + f && rel[..|rel| - |f| - 1] != "" && '/' !in rel[..|rel| - |f| - 1])
    ensures var rel := StripAssetsPrefix(image);
      f == rel ==> '/' !in rel || rel[0] == '/'
  {
    var rel := StripAssetsPrefix(image);
    var k := Find(rel, 0, '/');
    FindFirst(rel, 0, '/');
    if 0 < k < |rel| then
      assert rel == rel[..k] + "/" + rel[k + 1..];
      assert '/' !in rel[..k];
      rel[k + 1..]
    else
      assert k == 0 || k == |rel|;
      rel
  }

  /** The first image of the body, for `image.filename`: the first `![..](src)` with any non-empty
      `src`, relocated as the image pass relocates it. */
  function FirstImagePath(body: string, dirName: string): (r: Option<string>)
    ensures r.Some? <==> exists q :: 0 <= q < |body| && RefAt(body, q, true, false).Some?
    ensures r.Some? ==>
      exists q :: 0 <= q < |body| && RefAt(body, q, true, false).Some? && EndsWith(RefAt(body, q, true, false).value.src, r.value)
  {
    var m := FirstRef(body, 0, true, false);
    FirstRefFinds(body, 0, true, false);
    if m.Some? then
      assert exists q :: 0 <= q < |body| && RefAt(body, q, true, false) == m;
      var q :| 0 <= q < |body| && RefAt(body, q, true, false) == m;
      Some(RelocateImage(m.value.src, dirName).path)
    else None
  }

  /** The path taken from the body is that of the first image reference in it: the one at the least
      position where an image reference matches, relocated under the post's directory. */
  lemma FirstImagePathAt(body: string, dirName: string, q: nat)
    requires q < |body| && RefAt(body, q, true, false).Some?
    requires forall i :: 0 <= i < q ==> RefAt(body, i, true, false).None?
    ensures FirstImagePath(body, dirName) == Some(RelocateImage(RefAt(body, q, true, false).value.src, dirName).path)
  {
    FirstRefAt(body, 0, q, true, false);
  }

  /** When the body's first image has a rooted source, the file name taken from the body is the path
      the image pass writes into that same reference, and the body before it is left as it is. */
  lemma FirstImageIsRewritten(body: string, dirName: string, q: nat)
    requires q < |body| && RefAt(body, q, true, false).Some?
    requires forall i :: 0 <= i < q ==> RefAt(body, i, true, false).None?
    requires var src := RefAt(body, q, true, false).value.src; src[0] == '/' && |src| >= 2
    ensures var ref := RefAt(body, q, true, false).value;
      var path := RelocateImage(ref.src, dirName).path;
      && FirstImagePath(body, dirName) == Some(path)
      && ImagesFrom(body, 0, dirName).text == body[..q] + ("![" + ref.text + "](" + path + ")") + ImagesFrom(body, ref.end, dirName).text
  {
    FirstRefAt(body, 0, q, true, false);
    RefWithRootedSrc(body, q, true);
    RootedPassStartsAt(body, dirName, q);
  }

  /** The image pass leaves the body unchanged up to the first position holding any image reference,
      and rewrites the reference there when it is rooted. */
  lemma RootedPassStartsAt(body: string, dirName: string, q: nat)
    requires q < |body| && RefAt(body, q, true, true).Some?
    requires forall i :: 0 <= i < q ==> RefAt(body, i, true, false).None?
    ensures var ref := RefAt(body, q, true, true).value;
      ImagesFrom(body, 0, dirName).text
        == body[..q] + ("![" + ref.text + "](" + RelocateImage(ref.src, dirName).path + ")") + ImagesFrom(body, ref.end, dirName).text
  {
    forall i | 0 <= i < q
      ensures RefAt(body, i, true, true).None?
    {
      if RefAt(body, i, true, true).Some? {
        RootedIsRef(body, i, true);
      }
    }
    var ref := RefAt(body, q, true, true).value;
    var replacement := "![" + ref.text + "](" + RelocateImage(ref.src, dirName).path + ")";
    var tail := ImagesFrom(body, ref.end, dirName).text;
    ImagesBefore(body, 0, q, dirName);
    ImageKeepsAlt(body, q, dirName);
    calc {
      ImagesFrom(body, 0, dirName).text;
      body[0..q] + ImagesFrom(body, q, dirName).text;
      { assert body[0..q] == body[..q]; }
      body[..q] + (replacement + tail);
      body[..q] + replacement + tail;
    }
  }

  /** The projection of lines 245-255 and the image choice of lines 291-303. */
  method Project(metadata: map<string, Value>, plainSummary: string, firstImagePath: Option<string>)
    returns (newMetadata: PostMetadata)
    ensures && newMetadata.title == Field(metadata, "title")
            && newMetadata.slug == Field(metadata, "slug")
            && newMetadata.summary == plainSummary
            && newMetadata.date == Field(metadata, "date")
            && newMetadata.tags == Field(metadata, "tags")
    ensures Field(metadata, "math") != Undefined ==> newMetadata.math == Field(metadata, "math")
    ensures Field(metadata, "math") == Undefined ==> newMetadata.math == Bool(false)
    ensures Field(metadata, "draft") != Undefined ==> newMetadata.draft == Field(metadata, "draft")
    ensures Field(metadata, "draft") == Undefined ==> newMetadata.draft == Bool(false)
    ensures Truthy(Field(metadata, "authors")) ==> newMetadata.authors == Field(metadata, "authors")
    ensures !Truthy(Field(metadata, "authors")) ==> newMetadata.authors == Arr([Str("admin")])
    ensures var image := Field(metadata, "image");
      && (NamesImage(image) ==>
            newMetadata.image.Some? && newMetadata.image.value.filename == MetadataImageFilename(image.s))
      && (!NamesImage(image) ==>
            (newMetadata.image.Some? <==> firstImagePath.Some? && firstImagePath.value != "") &&
            (newMetadata.image.Some? ==> newMetadata.image.value.filename == firstImagePath.value))
    ensures newMetadata.image.Some? ==>
      var image := Field(metadata, "image");
      (newMetadata.image.value.caption.Some? <==> Truthy(image) && Truthy(Get(image, "caption"))) &&
      (newMetadata.image.value.caption.Some? ==> newMetadata.image.value.caption.value == Get(image, "caption"))
  {
    newMetadata := PostMetadata(
      Field(metadata, "title"),
      Field(metadata, "slug"),
      plainSummary,
      Field(metadata, "date"),
      if Field(metadata, "math") != Undefined then Field(metadata, "math") else Bool(false),
      Or(Field(metadata, "authors"), Arr([Str("admin")])),
      Field(metadata, "tags"),
      None,
      if Field(metadata, "draft") != Undefined then Field(metadata, "draft") else Bool(false));
    var image := Field(metadata, "image");
    if NamesImage(image) {
      newMetadata := newMetadata.(image := Some(ImageInfo(MetadataImageFilename(image.s), None)));
    } else if firstImagePath.Some? && firstImagePath.value != "" {
      newMetadata := newMetadata.(image := Some(ImageInfo(firstImagePath.value, None)));
    }
    if newMetadata.image.Some? && Truthy(image) && Truthy(Get(image, "caption")) {
      newMetadata := newMetadata.(image := Some(newMetadata.image.value.(caption := Some(Get(image, "caption")))));
    }
  }
}
