/**
 * `convertMarkdown` for one post: the front matter is split off and decoded,
 * back-filled and projected; the summary is taken from the body; the body is
 * rewritten; the copies and the mirrored image directory are decided; and the
 * new document is assembled. Decoding, serialising, the clock and the file
 * system are parameters.
 */
module Migrate {
  import opened Wrappers
  import opened Text
  import opened FileName
  import opened FrontMatter
  import opened Summary
  import opened PlainText
  import opened References
  import opened BodyRewrite
  import opened Metadata
  import opened Assets

  /** What the migration produces for a post. */
  datatype Post = Post(
    dirName: string,            // the post's new directory, below the new content root
    metadata: PostMetadata,     // the new front matter
    document: string,           // the new `index.md`
    copies: seq<CopyTask>,      // single image files copied next to the post
    mirrored: Option<string>)   // the old image directory whose media tree is mirrored, if any

  /** The rewritten body: images relocated, rooted links shortened, headings demoted. */
  function RewrittenBody(body: string, dirName: string): string {
    HeadingPass(LinksFrom(ImagesFrom(body, 0, dirName).text, 0))
  }

  /** What the decoder made of the post's front matter block; `None` when there is no block or the
      parser throws. */
  function DecodedFrontMatter(content: string, decode: (Format, string) -> Option<Value>): Option<Value> {
    var extracted := Extract(content);
    if extracted.frontmatter.Some? then decode(extracted.format.value, extracted.frontmatter.value) else None
  }

  /** The new document: the serialised front matter between `---` lines, a blank line, the body. */
  function Document(yaml: string, body: string): (d: string)
    ensures StartsWith(d, "---\n") && EndsWith(d, "---\n\n" + body)
    ensures |d| == |yaml| + |body| + 9 && d[4..4 + |yaml|] == yaml
  {
    assert ("---\n" + yaml + "---\n\n" + body)[..4] == "---\n";
    "---\n" + yaml + ("---\n\n" + body)
  }

  /** The front matter as decoded, back-filled and projected onto the new metadata. `metadata` is the
      back-filled map, whose `image` field also decides the mirrored directory. */
  method NewMetadata(decoded: Option<Value>, slug: string, now: string, plainSummary: string,
                     firstImagePath: Option<string>)
    returns (metadata: map<string, Value>, newMetadata: PostMetadata)
    ensures Field(metadata, "image") == Field(Supplied(decoded), "image")
    ensures var m := Supplied(decoded);
      && newMetadata.title == Or(Field(m, "title"), Str(slug))
      && newMetadata.slug == Or(Field(m, "slug"), Str(slug))
      && newMetadata.date == Or(Field(m, "date"), Str(now))
      && newMetadata.tags == Or(Field(m, "tags"), Arr([]))
      && newMetadata.authors == Or(Field(m, "authors"), Arr([Str("admin")]))
      && newMetadata.summary == plainSummary
      && (Field(m, "math") != Undefined ==> newMetadata.math == Field(m, "math"))
      && (Field(m, "math") == Undefined ==> newMetadata.math == Bool(false))
      && (Field(m, "draft") != Undefined ==> newMetadata.draft == Field(m, "draft"))
      && (Field(m, "draft") == Undefined ==> newMetadata.draft == Bool(false))
    ensures var image := Field(Supplied(decoded), "image");
      && (NamesImage(image) ==>
            newMetadata.image.Some? && newMetadata.image.value.filename == MetadataImageFilename(image.s))
      && (!NamesImage(image) ==>
            (newMetadata.image.Some? <==> firstImagePath.Some? && firstImagePath.value != "") &&
            (newMetadata.image.Some? ==> newMetadata.image.value.filename == firstImagePath.value))
    ensures var image := Field(Supplied(decoded), "image");
      newMetadata.image.Some? ==>
      && (newMetadata.image.value.caption.Some? <==> Truthy(image) && Truthy(Get(image, "caption")))
      && (newMetadata.image.value.caption.Some? ==> newMetadata.image.value.caption.value == Get(image, "caption"))
    ensures var md := newMetadata;
      && Truthy(md.tags) && Truthy(md.authors) && md.math != Undefined && md.draft != Undefined
      && (slug != "" ==> Truthy(md.title) && Truthy(md.slug))
      && (now != "" ==> Truthy(md.date))
  {
    metadata := BackFill(decoded, slug, now);
    ghost var m := Supplied(decoded);
    assert !IsRequired("authors") && !IsRequired("math") && !IsRequired("draft") && !IsRequired("image");
    assert Field(metadata, "title") == Or(Field(m, "title"), Str(slug));
    assert Field(metadata, "slug") == Or(Field(m, "slug"), Str(slug));
    assert Field(metadata, "date") == Or(Field(m, "date"), Str(now));
    assert Field(metadata, "tags") == Or(Field(m, "tags"), Arr([]));
    newMetadata := Project(metadata, plainSummary, firstImagePath);
  }

  /** One post through the whole migration. `decode` returns `None` when the parser throws; `dump`
      is the YAML serialiser; `now` the current time as an ISO string; `probe` the file system's
      answer for a directory below the old assets root. */
  method ConvertPost(fileName: string, content: string, decode: (Format, string) -> Option<Value>,
                     now: string, dump: PostMetadata -> string, probe: string -> Probe)
    returns (post: Post)
    requires '/' !in fileName
    ensures var keys := ExtractKeys(fileName);
      && post.dirName == keys.dirName
      && post.document == Document(dump(post.metadata), RewrittenBody(Extract(content).body, keys.dirName))
      && post.copies == MediaTasks(ImagesFrom(Extract(content).body, 0, keys.dirName).tasks)
    ensures forall t :: t in post.copies ==> KeepsFileName(t) && IsMedia(t.destination)
    ensures post.mirrored.Some? ==> probe(post.mirrored.value) == Present
    ensures post.mirrored == Some(post.dirName) <==> probe(post.dirName) == Present
    ensures post.mirrored == ResolveSourceDir(post.dirName, Field(Supplied(DecodedFrontMatter(content, decode)), "image"), probe)
    ensures var m := post.metadata;
      && Truthy(m.tags) && Truthy(m.authors) && m.math != Undefined && m.draft != Undefined
      && (ExtractKeys(fileName).slug != "" ==> Truthy(m.title) && Truthy(m.slug))
      && (now != "" ==> Truthy(m.date))
    ensures var m := Supplied(DecodedFrontMatter(content, decode));
      var slug := ExtractKeys(fileName).slug;
      var md := post.metadata;
      && md.title == Or(Field(m, "title"), Str(slug))
      && md.slug == Or(Field(m, "slug"), Str(slug))
      && md.date == Or(Field(m, "date"), Str(now))
      && md.tags == Or(Field(m, "tags"), Arr([]))
      && md.authors == Or(Field(m, "authors"), Arr([Str("admin")]))
      && (Field(m, "math") != Undefined ==> md.math == Field(m, "math"))
      && (Field(m, "math") == Undefined ==> md.math == Bool(false))
      && (Field(m, "draft") != Undefined ==> md.draft == Field(m, "draft"))
      && (Field(m, "draft") == Undefined ==> md.draft == Bool(false))
    ensures var image := Field(Supplied(DecodedFrontMatter(content, decode)), "image");
      var first := FirstImagePath(Extract(content).body, ExtractKeys(fileName).dirName);
      && (NamesImage(image) ==>
            post.metadata.image.Some? && post.metadata.image.value.filename == MetadataImageFilename(image.s))
      && (!NamesImage(image) ==>
            (post.metadata.image.Some? <==> first.Some? && first.value != "") &&
            (post.metadata.image.Some? ==> post.metadata.image.value.filename == first.value))
      && (post.metadata.image.Some? ==>
            && (post.metadata.image.value.caption.Some? <==> Truthy(image) && Truthy(Get(image, "caption")))
            && (post.metadata.image.value.caption.Some? ==>
                  post.metadata.image.value.caption.value == Get(image, "caption")))
    ensures Extract(content).frontmatter.None? ==>
      var slug := ExtractKeys(fileName).slug;
      post.metadata.title == Str(slug) && post.metadata.slug == Str(slug) && post.metadata.date == Str(now)
    ensures var lines := Split(Extract(content).body, '\n');
      && (NoProse(lines) ==> post.metadata.summary == ToPlainText(NoSummary))
      && (forall i :: FirstProseAt(lines, i) ==> post.metadata.summary == ToPlainText(Trim(lines[i])))
  {
    var extracted := ExtractFrontMatter(content);
    var keys := ExtractKeys(fileName);
    var decoded: Option<Value> := None;
    if extracted.frontmatter.Some? {
      decoded := decode(extracted.format.value, extracted.frontmatter.value);
    }
    assert decoded == DecodedFrontMatter(content, decode);
    var rawSummary := RawSummary(extracted.body);
    var plainSummary := ToPlainText(rawSummary);
    var metadata, newMetadata := NewMetadata(decoded, keys.slug, now, plainSummary, FirstImagePath(extracted.body, keys.dirName));
    var imagesDone, imageCopyTasks := RewriteImages(extracted.body, keys.dirName);
    var updatedBody := HeadingPass(LinksFrom(imagesDone, 0));
    ImagesKeepFileNames(extracted.body, 0, keys.dirName);
    var copies := CopyImages(imageCopyTasks);
    var document := Document(dump(newMetadata), updatedBody);
    var mirrored := ResolveSourceDir(keys.dirName, Field(metadata, "image"), probe);
    post := Post(keys.dirName, newMetadata, document, copies, mirrored);
  }
}
