/**
 * The filesystem as the controller observes it: `realpath` as a partial
 * map from a path string to its canonical form, and `is_file` as the key
 * set of a map holding each regular file's modification time and bytes.
 */
module FileSystem {
  import opened Wrappers

  newtype byte = b: int | 0 <= b < 256

  type Bytes = seq<byte>

  /** What `filemtime` and `file_get_contents` return for a regular file; `filesize` is the content's length. */
  datatype FileInfo = FileInfo(mtime: int, content: Bytes)

  datatype Fs = Fs(realpath: map<string, string>, files: map<string, FileInfo>)

  /** `realpath($p)`, with PHP's `false` as `None`. */
  function RealPath(realpath: map<string, string>, p: string): (r: Option<string>)
    ensures r.Some? <==> p in realpath
    ensures r.Some? ==> r.value == realpath[p]
  {
    if p in realpath then Some(realpath[p]) else None
  }
}
