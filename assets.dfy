/**
 * The file-system decisions of the migration, with the file system replaced
 * by an oracle: which old image directory is mirrored into the post's new
 * directory (`moveImagesForPost`), and which of the copies collected by the
 * image pass are carried out (the loop after the replacements).
 */
module Assets {
  import opened Wrappers
  import opened Text
  import opened FileName
  import opened References
  import opened BodyRewrite
  import opened Metadata

  /** What `fs.access` reports for a directory below the old assets root. */
  datatype Probe = Present | Missing | Inaccessible

  /** The directory below the old assets root whose tree is mirrored for the post. The post's own
      directory wins when present; an access error other than absence gives up; on absence a
      `metadata.image` with at least two path segments names a fallback directory, its first segment. */
  function ResolveSourceDir(dirName: string, image: Value, probe: string -> Probe): (r: Option<string>)
    ensures r.Some? ==> probe(r.value) == Present
    ensures r == Some(dirName) <==> probe(dirName) == Present
    ensures probe(dirName) == Inaccessible ==> r.None?
    ensures r.Some? && r.value != dirName ==>
      && probe(dirName) == Missing
      && NamesImage(image)
      && |PathParts(image.s)| > 1
      && r.value == PathParts(image.s)[0]
    ensures (probe(dirName) == Missing && NamesImage(image) && |PathParts(image.s)| > 1
             && probe(PathParts(image.s)[0]) == Present) ==> r == Some(PathParts(image.s)[0])
  {
    match probe(dirName)
    case Present => Some(dirName)
    case Inaccessible => None
    case Missing =>
      if NamesImage(image) then
        var parts := PathParts(image.s);
        if |parts| == 1 then None
        else if probe(parts[0]) == Present then Some(parts[0])
        else None
      else None
  }

  /** The copies whose destination has a media extension, in order. */
  function MediaTasks(tasks: seq<CopyTask>): seq<CopyTask> {
    if tasks == [] then []
    else
      var last := tasks[|tasks| - 1];
      MediaTasks(tasks[..|tasks| - 1]) + if IsMedia(last.destination) then [last] else []
  }

  /** A copy is carried out exactly when it was collected and its destination is a media file. */
  lemma {:induction false} MediaTasksMembers(tasks: seq<CopyTask>)
    ensures forall t :: t in MediaTasks(tasks) <==> t in tasks && IsMedia(t.destination)
  {
    if tasks != [] {
      var init, last := tasks[..|tasks| - 1], tasks[|tasks| - 1];
      assert tasks == init + [last];
      MediaTasksMembers(init);
      if IsMedia(last.destination) {
        assert MediaTasks(tasks) == MediaTasks(init) + [last];
      } else {
        assert MediaTasks(tasks) == MediaTasks(init);
      }
    }
  }

  /** The copy loop of lines 356-368: each collected copy is attempted when its destination has a
      media extension. Returns the copies attempted, in order. */
  method CopyImages(imageCopyTasks: seq<CopyTask>) returns (copied: seq<CopyTask>)
    ensures copied == MediaTasks(imageCopyTasks)
    ensures forall t :: t in copied <==> t in imageCopyTasks && IsMedia(t.destination)
  {
    copied := [];
    for i := 0 to |imageCopyTasks|
      invariant copied == MediaTasks(imageCopyTasks[..i])
    {
      var task := imageCopyTasks[i];
      assert imageCopyTasks[..i + 1][..i] == imageCopyTasks[..i];
      if IsMedia(task.destination) {
        copied := copied + [task];
      }
    }
    assert imageCopyTasks[..|imageCopyTasks|] == imageCopyTasks;
    MediaTasksMembers(imageCopyTasks);
  }
}
