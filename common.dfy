/**
 * Shared vocabulary of the agent: identifiers, paths, timestamps, the error
 * values that stand for the C++ exceptions, the path splitting of
 * std::filesystem, and the host filesystem as a map from path to bytes.
 */
module Common {

  /** Row id of the `files` table (uint64 in the source). */
  type FileId = nat

  /** A filesystem path, as the string std::filesystem::path holds. */
  type Path = string

  /** A content checksum (size_t in the source; CRC-32 values fit 32 bits). */
  type Hash = nat

  /** A steady_clock time point, in milliseconds, as it is bound into SQLite. */
  type Time = int

  newtype byte = x: int | 0 <= x < 256

  /** File contents and snapshots: std::string used as a byte string. */
  type Bytes = seq<byte>

  datatype Option<+T> = None | Some(value: T)

  /**
   * What can be thrown (or is undefined) on the way through the agent:
   *  - ResolutionFailed: read_symlink of a /proc link failed (process exited, fd gone);
   *  - PathMissing: a path was dereferenced for an id the files table no longer has;
   *  - ConstraintViolated: SQLite refused a statement (PRIMARY KEY / UNIQUE);
   *  - WhitelistedBinary: the runtime_error thrown by Ban and Kill for a whitelisted binary.
   */
  datatype Error = ResolutionFailed | PathMissing | ConstraintViolated | WhitelistedBinary

  datatype Result<+T> = Ok(value: T) | Err(error: Error)

  /** Outcome of an operation that returns nothing but may throw. */
  datatype Outcome = Done | Failed(error: Error)

  /** Index of the last '/' in `p`, or -1 when there is none. */
  function LastSlash(p: Path): (k: int)
    ensures -1 <= k < |p|
    ensures k >= 0 ==> p[k] == '/'
    ensures forall i :: k < i < |p| ==> p[i] != '/'
  {
    if p == [] then -1
    else if p[|p| - 1] == '/' then |p| - 1
    else LastSlash(p[..|p| - 1])
  }

  /** std::filesystem::path::parent_path for a path without a root name. */
  function ParentPath(p: Path): (r: Path)
    ensures |r| <= |p|
    ensures LastSlash(p) > 0 ==> r == p[..LastSlash(p)]
  {
    var k := LastSlash(p);
    if k < 0 then "" else if k == 0 then "/" else p[..k]
  }

  /** std::filesystem::path::filename: everything after the last separator. */
  function FileName(p: Path): (r: Path)
    ensures |r| <= |p|
    ensures '/' !in r
  {
    var k := LastSlash(p);
    var r := p[k + 1..];
    forall j | 0 <= j < |r| ensures r[j] != '/' {
      assert r[j] == p[k + 1 + j];
    }
    r
  }

  /** A path with a separator after its first character is its parent, a '/', and its file name. */
  lemma {:induction false} SplitPath(p: Path)
    requires LastSlash(p) > 0
    ensures p == ParentPath(p) + "/" + FileName(p)
  {
    var k := LastSlash(p);
    assert p == p[..k] + [p[k]] + p[k + 1..];
  }

  /** What reading a whole file yields: its bytes, or nothing for a missing file. */
  function FileBytes(files: map<Path, Bytes>, p: Path): Bytes
  {
    if p in files then files[p] else []
  }

  /**
   * The host filesystem, as far as the agent touches it: reading a whole file
   * (an unreadable or missing file reads as empty, which is what streaming a
   * failed ifstream's buffer yields) and overwriting a whole file.
   */
  class Disk {
    var files: map<Path, Bytes>

    constructor(files: map<Path, Bytes>)
      ensures this.files == files
    {
      this.files := files;
    }

    method Read(p: Path) returns (content: Bytes)
      ensures content == FileBytes(files, p)
      ensures p in files ==> content == files[p]
      ensures p !in files ==> content == []
    {
      content := if p in files then files[p] else [];
    }

    method Write(p: Path, content: Bytes)
      modifies this
      ensures files == old(files)[p := content]
    {
      files := files[p := content];
    }
  }
}
