# hugo-migrate in Dafny

A model of `migrate.js`, the one-shot script that moves a Hugo blog from the
old content layout (`content/post/<date>-<name>.md` plus images under
`static/images/posts/`) to page bundles (`content/post/<date>-<name>/index.md`
with the images beside it). For one post the script:

- derives the post's keys from its file name: `dirName` is the base name without
  the extension, and `slug` is `dirName` without a leading `YYYY-MM-DD-`;
- splits the front matter off with a line scanner. The first `+++` or `---` line
  opens the block and fixes the format. The next line equal to that delimiter
  closes it;
- back-fills `title`, `slug`, `date` and `tags`, then projects the record onto the
  fixed output record `title, slug, summary, date, math, authors, tags, image, draft`;
- takes the summary from the first non-blank, non-heading line, reduced to plain
  text by a fixed chain of global replacements;
- rewrites the body in three passes:
  - rooted image references are relocated, and copies are collected for images that
    live outside the post's own image directory;
  - rooted link targets lose their leading directory;
  - headings go down one level, with level 6 as the cap;
- copies the collected images whose extension is a media extension;
- mirrors the post's old image directory, or one named by `metadata.image`.

The regular-expression passes are modelled as JavaScript runs them:
- A global `replace` scans left to right. At each position it tries the pattern.
  On a match it emits the replacement and resumes after the match; otherwise it
  emits one character and moves on.
- A lazy `(.*?)` stops at line terminators, but `[^)]` does not.
- `^`/`$` with the `m` flag see lines split at `\n`, `\r`, U+2028 and U+2029.

The parts of the script that change state step by step are methods with loops or
updates, proved against specification functions:
- the front-matter scanner;
- the summary loop;
- the back-fill of the metadata record;
- the image pass that pushes copy tasks;
- the copy loop.

The rest are functions. The pipeline for one post is `Migrate.ConvertPost`.

Modules and files:
- `wrappers.dfy`: `Option`, `Result`.
- `text.dfy`: `trim`, `split`, `join`, `startsWith`, `endsWith`, ASCII `toLowerCase`.
- `file_name.dfy`: `path.extname`, `path.basename`, the keys, the media filter.
- `front_matter.dfy`: `extractFrontMatter`.
- `summary.dfy`: the summary loop.
- `plain_text.dfy`: `markdownToPlainText`.
- `references.dfy`: how the reference patterns match, and the assets prefix.
- `body_rewrite.dfy`: the three body passes.
- `metadata.dfy`: the JavaScript values, the back-fill, the projection and the image choice.
- `assets.dfy`: the directory resolution and the copy filter.
- `migrate.dfy`: `convertMarkdown` for one post.

The library decoders, the YAML serialiser, the clock and the file system are
parameters of `ConvertPost`:
- `decode` returns `None` when the parser throws;
- `dump` is the serialiser;
- `now` is the ISO time string;
- `probe` answers `fs.access` for a directory below the old assets root.

## Model

| member | source | states |
|---|---|---|
| Text.TrimFacts | migrate.js:56 | `trim` leaves no white space at either end and returns the infix that starts after the leading white space |
| Text.JoinSplit | migrate.js:48 | joining the parts of `split(sep)` with `sep` gives back the string |
| Text.SplitJoin | migrate.js:82 | splitting a join of separator-free parts gives back the parts |
| Text.SplitParts | migrate.js:48 | no part of `split(sep)` contains `sep` |
| FileName.ExtName | migrate.js:16 | `path.extname` ends the path once trailing slashes are dropped; it is empty, or starts with its only dot and holds no `/` |
| FileName.ExtNameEmpty | migrate.js:16 | `path.extname` is empty exactly when the last segment is `..` or has no dot after its first character |
| FileName.BaseName | migrate.js:17 | `path.basename(name, ext)`: for a non-empty `ext` that ends the name and is not all of it, the result followed by `ext` is the name; for `ext` equal to the name the result is empty; for an empty `ext`, or one that does not end the name, the result is the name |
| FileName.StripDatePrefix | migrate.js:19 | the result is a suffix of the input: without a `YYYY-MM-DD-` prefix it is the input itself, with one it is the input minus exactly those 11 characters |
| FileName.ExtractKeys | migrate.js:15-23 | `slug` is a suffix of `dirName` and is `dirName` with the date prefix stripped; `dirName` is the base name with the lower-cased extension removed |
| FileName.DirNameDropsExtension | migrate.js:16-21 | with a lower-case extension, `dirName` plus that extension is the file name; with no extension, or one holding an upper-case letter, `dirName` is the whole file name |
| FileName.MediaByExtension | migrate.js:357 | a file named stem + ext is copied exactly when `ext`, lower-cased, is one of `.jpg .jpeg .png .gif .webp .mp4` (line 12) |
| FrontMatter.Extract | migrate.js:47-89 | frontmatter is `null` exactly when format is; without front matter the body is the whole content; front-matter text always ends in `\n` |
| FrontMatter.ExtractFrontMatter | migrate.js:47-89 | the scanning loop, with its flags and two buffers, returns `Extract(content)` |
| FrontMatter.ScanOpener | migrate.js:57-63 | the first delimiter line fixes the delimiter and opens the block without being recorded; the loop invariant is kept |
| FrontMatter.ScanCloser | migrate.js:64-67 | the opened delimiter closes the block without being recorded; the loop invariant is kept |
| FrontMatter.ScanData | migrate.js:68-77 | any other line, a mismatched delimiter included, goes to the buffer of the current region; the loop invariant is kept |
| FrontMatter.ScanClosed | migrate.js:80-85 | when the scan opened a block at the first delimiter line and closed it at the next line equal to it, its front-matter buffer holds the lines between, its body buffer the lines before and after, and these joined with the opener's format are what `Extract` returns |
| FrontMatter.ScanUnclosed | migrate.js:87-88 | a scan with no delimiter, or with a block never closed, returns `(null, content, null)` |
| FrontMatter.NoDelimiterKeepsContent | migrate.js:55-88 | when no line of the content trims to `+++` or `---`, the result is `(null, content, null)` |
| FrontMatter.UnclosedKeepsContent | migrate.js:55-88 | when no line after the first delimiter line trims to that same delimiter, the block never closes and the result is `(null, content, null)` |
| FrontMatter.ClosedBlock | migrate.js:57-85 | for a closed block at lines i and j: the content is those lines rejoined in order; the front matter is lines i+1..j-1 plus `\n`; the body is the lines before i and after j; the format is TOML exactly when the opener was `+++` |
| FrontMatter.MismatchedDelimiterIsData | migrate.js:68-74 | given the block by its input lines (first delimiter line, first later line with the same delimiter), a line between them holding a delimiter is the other one, and it is one of the lines of the front matter handed to the parser |
| Summary.RawSummary | migrate.js:230-239 | the summary source is the trimmed first line that is non-blank and not a heading, or `No summary available` when there is none; it never starts with white space or `#` |
| PlainText.BracketLinkAt | migrate.js:30-32 | a `[label](url)` or `![label](url)` match is non-empty and its replacement is shorter than it; what it matches is stated by `BracketLinkWritten` and `BracketLinkShape` |
| PlainText.BracketLinkWritten | migrate.js:30-32 | `[text](url)` (or `![text](url)`) written at a position, with no `]` in the text and no `)` in the url, is matched whole and replaced by the text |
| PlainText.BracketLinkFound | migrate.js:30-32 | an opener whose text runs to the first `]`, followed by `(` and a url running to the first `)`, is matched up to that `)` and replaced by the text |
| PlainText.BracketLinkShape | migrate.js:30-32 | every link match is the opener, a text without `]`, `](`, a url without `)`, and `)`; the replacement is that text |
| PlainText.EmphasisAt | migrate.js:34-36 | a bold or italic span match is non-empty and its replacement is shorter than it; what it matches is stated by `EmphasisWritten` and `EmphasisShape` |
| PlainText.EmphasisCloseFirst | migrate.js:34-36 | the lazy span closes at a marker, and no earlier position holds a marker or a line terminator |
| PlainText.EmphasisCloseAt | migrate.js:34-36 | the lazy span closes at the first marker when no line terminator comes before it |
| PlainText.EmphasisWritten | migrate.js:34-36 | a span between two markers, with no marker and no line terminator inside, is matched whole and replaced by its inside |
| PlainText.EmphasisShape | migrate.js:34-36 | every emphasis match is a marker, an inside with no marker and no line terminator, and a marker; the replacement is the inside |
| PlainText.EnclosedAt | migrate.js:38-40 | a code span or HTML tag match is non-empty and its replacement is shorter than it; what it matches is stated by `EnclosedWritten` and `EnclosedShape` |
| PlainText.EnclosedWritten | migrate.js:38-40 | a code span or tag written out with a non-empty inside free of the closing character is matched whole; a code span is replaced by its inside, a tag by nothing |
| PlainText.EnclosedShape | migrate.js:38-40 | every code-span or tag match is the opening character, a non-empty inside without the closing character, and the closing character; the replacement is the inside for code and empty for tags |
| PlainText.ReplaceFrom | migrate.js:30-40 | a global replacement pass never lengthens the text; what it copies is stated by `ReplaceBefore` |
| PlainText.ReplaceBefore | migrate.js:30-40 | a pass copies the text before its next match unchanged and carries on from there |
| PlainText.CollapseFrom | migrate.js:42 | `replace(/\s+/g, ' ')` leaves no two adjacent white-space characters, and starts with a space exactly where the input starts with white space; what it writes is stated by `CollapseWord` and `CollapseRun` |
| PlainText.CollapseWord | migrate.js:42 | a run of characters that are not white space is copied unchanged |
| PlainText.CollapseRun | migrate.js:42 | a maximal run of white space becomes exactly one space |
| PlainText.ToPlainText | migrate.js:26-44 | empty input gives `''`; the result is never longer than the input, has no white space at either end and no two adjacent white-space characters |
| PlainText.ReplaceKeepsPlain | migrate.js:30-40 | each replacement pass leaves text with no `[ * _ ` < ` unchanged |
| PlainText.CollapseKeepsNormalised | migrate.js:42 | the white-space collapse leaves already normalised text unchanged |
| PlainText.PlainProseUnchanged | migrate.js:26-44 | plain, normalised prose goes through `markdownToPlainText` unchanged |
| References.SrcClose | migrate.js:310 | an accepted `src` group closes at a `)` after at least one character; a rooted one starts with `/` and holds at least two characters; where it closes is stated by `SrcCloseAt` |
| References.SrcCloseAt | migrate.js:310 | the `src` group closes at the first `)` whenever what lies before it is acceptable (non-empty; rooted: `/` plus at least one character) |
| References.LabelClose | migrate.js:310 | the lazy label closes at a `](` inside the text; which one is stated by `LabelCloseFirst` and `LabelCloseAt` |
| References.LabelCloseFirst | migrate.js:310 | the lazy label closes at a `](` followed by an acceptable `src`, and no earlier position is such a `](` |
| References.LabelCloseAt | migrate.js:310 | the lazy label closes at the first `](` followed by an acceptable `src`, when no line terminator comes before it |
| References.LabelOnOneLine | migrate.js:310 | the lazy label crosses no line terminator |
| References.RefAt | migrate.js:263 | a reference match ends after its start and has a non-empty `src`; a rooted one has a `src` of `/` plus at least one character; what it matches is stated by `RefAtFound`, `RefAtWritten` and `RefText` |
| References.RefAtFound | migrate.js:263 | an opener, a label with no line terminator and no earlier closing `](`, a `](`, and an acceptable `src` running to the first `)` are matched as exactly that reference |
| References.RefAtWritten | migrate.js:263 | a reference written out as opener, label, `](`, `src` and `)`, with no `]` or line terminator in the label, no `)` in the `src`, and a rooted `src` where the pattern needs one, is matched as exactly that label and `src` |
| References.WrittenChars | migrate.js:263 | a reference written out at a position places its opener, label, `](`, `src` and `)` at the matching positions |
| References.RefText | migrate.js:310 | the matched text is exactly the opener, the label, `](`, the `src` and `)` |
| References.RefChars | migrate.js:310 | the matched label holds no line terminator and the matched `src` no `)` |
| References.FirstRefFinds | migrate.js:263 | `match` without the global flag finds a reference exactly when some position holds one, and then one that some position holds |
| References.FirstRefAt | migrate.js:263 | the first match is the reference at the first position that holds one |
| References.RootedIsRef | migrate.js:263 | every reference the image pass matches is also matched by the first-image pattern |
| References.RefWithRootedSrc | migrate.js:263 | a first-image match whose `src` is rooted is the very match of the image pass at that position |
| References.StripAssetsPrefix | migrate.js:266 | `replace(/^\/?(?:images\/posts\/)?/, '')` removes one of `""`, `/`, `images/posts/`, `/images/posts/` and keeps the rest; which one is stated by `StripAssetsPrefixCases` |
| References.StripAssetsPrefixCases | migrate.js:266 | the cut is greedy: `/images/posts/` when the text starts with it, else `images/posts/`, else `/`, else nothing |
| References.PathParts | migrate.js:312 | there is at least one part, and the parts joined with `/` give back the stripped `src` |
| BodyRewrite.RelocateImage | migrate.js:312-336 | the new path ends the `src`. There is no copy exactly when there are several parts and the first is `dirName`; the path is then the stripped `src` minus `dirName/`. Otherwise the copy goes from the stripped `src` to the path, which is its last segment (its only one when there is one part) |
| BodyRewrite.ImagesFrom | migrate.js:309-341 | the image pass never lengthens the text |
| BodyRewrite.ImagesKeepFileNames | migrate.js:322-331 | every copy the image pass collects has a destination without `/` that is the last segment of its source |
| BodyRewrite.ImageKeepsAlt | migrate.js:340 | at a rooted image reference the pass writes `![alt](path)` with the same alt text and the relocated path, then resumes after the reference |
| BodyRewrite.ImagesBefore | migrate.js:310 | text before the next rooted image reference is copied unchanged and collects no copy |
| BodyRewrite.NoImagesUnchanged | migrate.js:310 | without a rooted image reference the image pass changes nothing and collects nothing |
| BodyRewrite.ImageStep | migrate.js:309-341 | one step of the replacement writes a relocated reference or copies one character, collects that reference's copy, and moves past what it consumed |
| BodyRewrite.RewriteImages | migrate.js:308-341 | the replacement with its callback returns the rewritten body and the copy tasks in match order |
| BodyRewrite.LinkTarget | migrate.js:344 | the link target ends the `src` and is shorter than it. The removed prefix ends in `/` and is one of: `/` alone; `/` plus one directory name; or `/images/posts/` plus one directory name; which one is stated by the three lemmas below |
| BodyRewrite.LinkTargetUnderRoot | migrate.js:344 | for `/images/posts/<dir>/<rest>` the target is `<rest>` |
| BodyRewrite.LinkTargetOneDir | migrate.js:344 | for `/<dir>/<rest>`, unless it is `/images/posts/...` with a further `/`, the target is `<rest>` |
| BodyRewrite.LinkTargetFile | migrate.js:344 | for `/<name>` with no further `/` only the leading `/` goes |
| BodyRewrite.LinksFrom | migrate.js:342-347 | the link pass never lengthens the text |
| BodyRewrite.LinkKeepsText | migrate.js:346 | at a rooted link the pass writes `[text](target)` with the same link text, then resumes after the link |
| BodyRewrite.NoLinksUnchanged | migrate.js:342 | without a rooted link the link pass changes nothing |
| BodyRewrite.DemoteLine | migrate.js:348-353 | a heading below level 6 gains one `#` and keeps its content; any other line, level-6 headings included, is unchanged; heading-ness is kept |
| BodyRewrite.HeadingPassLines | migrate.js:348 | the heading pass keeps every line terminator and the line count, and turns each line into its demoted form |
| Metadata.BackFill | migrate.js:195-227 | every required field keeps a truthy decoded value, and otherwise `title`/`slug` fall back to the slug, `date` to `now` and `tags` to `[]`; other fields are the decoded ones; `tags` is always set, and so are `title`/`slug` for a non-empty slug and `date` for a non-empty `now` |
| Metadata.BackFillAsWritten | migrate.js:209-227 | on the raw decoded value: `undefined`/`null` throws, a primitive comes back unchanged, and anything else gets all four required fields |
| Metadata.NonMappingLosesRequired | migrate.js:224-227 | a front matter that decodes to a non-mapping either throws or leaves every required field undefined |
| Metadata.MetadataImageFilename | migrate.js:290-291 | the file name ends the stripped image path: it is what follows a non-empty, slash-free first segment and its `/`, or else the whole path, which then has no `/` unless it starts with one |
| Metadata.FirstImagePath | migrate.js:262-285 | a first-image path exists exactly when some image reference does, and it ends the `src` of one; which one is stated by `FirstImagePathAt` |
| Metadata.FirstImagePathAt | migrate.js:262-285 | the path is that of the image reference at the least position that holds one, relocated as the image pass relocates it |
| Metadata.FirstImageIsRewritten | migrate.js:262-340 | when the first image's `src` is rooted, `image.filename` from the body is the path the image pass writes into that same reference, and the body before it is unchanged |
| Metadata.RootedPassStartsAt | migrate.js:310 | the image pass leaves the body unchanged up to the first image reference and rewrites a rooted one there |
| Metadata.Project | migrate.js:245-305 | the output record takes title, slug, date and tags over, with the summary. `math` and `draft` default to `false` only when undefined, and `authors` to `['admin']` when falsy. `image.filename` comes from a non-blank `metadata.image` string, else from a non-empty body image. A caption is set exactly when `metadata.image.caption` is truthy |
| Assets.ResolveSourceDir | migrate.js:132-171 | a mirrored directory is always one the probe finds present. The post's own directory is mirrored exactly when it is present, and an access error on it mirrors nothing. Any other choice is the first of at least two path parts of a non-blank `metadata.image` string, taken after the own directory was missing, and that fallback is mirrored whenever it is present |
| Assets.MediaTasksMembers | migrate.js:356-357 | a collected copy is carried out exactly when its destination is a media file |
| Assets.CopyImages | migrate.js:356-368 | the copy loop attempts exactly the collected copies whose destination has a media extension, in order |
| Migrate.Document | migrate.js:372 | the new document starts with `---\n`, holds the serialised front matter right after it, and ends with `---\n\n` and the body |
| Migrate.NewMetadata | migrate.js:195-305 | the decoded front matter, back-filled and projected: title and slug are the decoded truthy value or the slug, date the decoded truthy value or `now`, tags the decoded truthy value or `[]`, authors the decoded truthy value or `['admin']`, math and draft the decoded value unless undefined, else `false`; the image file name follows `Project`, and a caption is set exactly when both `metadata.image` and its `caption` are truthy, and it is that caption |
| Migrate.ConvertPost | migrate.js:178-386 | the corrected pipeline for one post: it back-fills with `Metadata.BackFill`, as the Findings row says, not as lines 209-227 are written. The keys, the document built from the serialised record and the rewritten body, and the copies (which keep file names and are media) are as the parts above state. Every field of the new record is pinned to the decoded front matter as `NewMetadata` states, including the image file name from `metadata.image` or the first body image, and the image caption. The mirrored directory is `ResolveSourceDir` of the post's directory and the decoded `metadata.image`: the post's own when present, else the directory `metadata.image` names when present. The summary is the plain text of the first prose line |

## Left out

- File-system effects are left out: reading and writing files, `mkdir`, `copyFile`, the recursive directory walk and the `main` loop over the old content directory (migrate.js:92-129, 375-410). The model keeps only the decisions: which directory is mirrored, and which copies are attempted.
- The TOML and YAML libraries are parameters, not models. `decode` returns a value or `None` for a parse error, and `dump` is an opaque serialiser. The output document is `"---\n" + yaml + "---\n\n" + body`.
- The clock is the parameter `now`. At most one read happens per post: line 200 when there is no front matter, line 217 when it fails to parse, otherwise line 226 only when the decoded `date` is falsy. The model's corrected back-fill also uses `now` for the defaults of a front matter that does not decode to a mapping.
- Logging, the debug dump of the first ten lines and the async ordering are left out.
- Paths are `/`-separated strings below the old assets root or the post's new directory. Windows separators and `path.join` normalisation (`.`, `..` and empty segments) are not modelled.
- `toLowerCase` is modelled on ASCII letters only.
- Strings are sequences of Unicode scalar values, while JavaScript counts UTF-16 code units. A character outside the Basic Multilingual Plane counts once in the model and twice in the script. This matters only for lengths and positions; the characters the patterns look for are all ASCII.
- Numbers are integers, so `NaN` and `-0` are not modelled in truthiness.
- Prototype properties are ignored: a string's `caption` reads as `undefined`.
- `Metadata.BackFillAsWritten`: arrays and dates are treated as empty objects, so their own properties are not modelled.
- `PlainText.BracketLinkAt`, `PlainText.EmphasisAt`, `PlainText.EnclosedAt`: their own contracts state only that a match is non-empty and shrinks; the exact match is stated by the `...Written` and `...Shape` lemmas beside them, to keep these pervasive functions cheap to unfold.
- `PlainText.ReplaceFrom`, `PlainText.CollapseFrom`: their own contracts state only lengths and spacing; what they copy is stated by `ReplaceBefore`, `CollapseWord` and `CollapseRun`.
- `References.SrcClose`, `References.LabelClose`, `References.RefAt`: their own contracts state soundness only; which `)` and `](` they pick is stated by `SrcCloseAt`, `LabelCloseFirst`, `LabelCloseAt`, `RefAtFound` and `RefAtWritten`.
- `References.StripAssetsPrefix`, `BodyRewrite.LinkTarget`: their own contracts list the possible cuts; which cut is taken is stated by `StripAssetsPrefixCases` and the three `LinkTarget...` lemmas.
- `Metadata.FirstImagePath`: its own contract says a path exists exactly when a reference does; which reference it comes from is stated by `FirstImagePathAt`.
- `FileName.BaseName` is modelled for names without a separator, since directory entries never contain one.
- The image-to-alt pass of `markdownToPlainText` (line 32) is modelled as written. No property is claimed for it, because the link pass before it has already consumed `[alt](url)`.
- Lines before the opener stay in the body; the scanner does not require the opener on the first line (`UnclosedKeepsContent`, `ScanClosed`).

## Findings

| source | as written | input that shows it | evidently intended | confidence | as-written member | corrected member |
|---|---|---|---|---|---|---|
| migrate.js:209-227 | the value returned by `yaml.load` is used directly as the metadata record | an empty YAML block (`---` then `---`) makes `yaml.load` return `undefined`, so `metadata.title` throws and the post is abandoned; a scalar block such as `hello` gives a string on which the writes are dropped, so `title`, `slug`, `date` and `tags` stay undefined | a front matter that does not decode to a mapping is treated like a missing one: the default record, then the back-fill | not executed | Metadata.BackFillAsWritten | Metadata.BackFill |
