/**
 * The object key `uploadToSpaces` writes to: `yt-dlp/` followed by the last
 * `/`-separated segment of the local path (`filePath.split("/").pop()`),
 * or an error when that segment is empty.
 */
module StorageKey {
  import opened Wrappers
  import opened JsText

  const KEY_PREFIX := "yt-dlp/"
  const INVALID_PATH := "Invalid file path, unable to determine file name."

  /** `path.split("/").pop()`: never undefined, since a split has at least one part. */
  function FileName(path: string): string {
    var parts := Split(path, '/');
    parts[|parts| - 1]
  }

  /**
   * The key is the prefix and then the tail of the path after its last `/`
   * (all of it when it has none); it fails exactly when that tail is empty:
   * an empty path or one ending in `/`.
   */
  function ObjectKey(path: string): (r: Result<string, string>)
    ensures r.Err? <==> path == [] || path[|path| - 1] == '/'
    ensures r.Err? ==> r.error == INVALID_PATH
    ensures r.Ok? ==> |KEY_PREFIX| < |r.value| && r.value[..|KEY_PREFIX|] == KEY_PREFIX
    ensures r.Ok? ==>
      var name := r.value[|KEY_PREFIX|..];
      '/' !in name && |name| <= |path| && name == path[|path| - |name|..] &&
      (|name| == |path| || path[|path| - |name| - 1] == '/')
    ensures path != [] && '/' !in path ==> r == Ok(KEY_PREFIX + path)
  {
    var name := FileName(path);
    LastPartIsTail(path, '/');
    if name == [] then Err(INVALID_PATH)
    else
      assert (KEY_PREFIX + name)[|KEY_PREFIX|..] == name;
      Ok(KEY_PREFIX + name)
  }
}
