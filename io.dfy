/**
 * The slice of the operating system the fingerprinter talks to: regular
 * files with their bytes, `File::open`, `Read::read`, `Seek::seek` with
 * `SeekFrom::Current`, and `std::fs::metadata`.
 *
 * What the real OS decides on its own (whether an open or a metadata query
 * is refused, how many bytes a read hands back, which call fails with an
 * I/O error) is fixed per file in an `Inode`, so that every run of the
 * fingerprinter on a given file is one deterministic function of it.
 */
module Io {

  type Byte = bv8

  /** Lengths are reported as `u64`, so no file holds 2^64 bytes or more. */
  type Content = s: seq<Byte> | |s| < 0x1_0000_0000_0000_0000

  type U64 = x: int | 0 <= x < 0x1_0000_0000_0000_0000

  type Path = string

  /** The causes a `std::io::Error` can carry in this model. */
  datatype IoError =
    | NotFound          // the path names no regular file (any more)
    | PermissionDenied  // `File::open` refused
    | ReadFailed        // a `read` call reported an error
    | SeekFailed        // a `seek` call reported an error
    | InvalidSeek       // a seek to a position before the start of the file
    | MetadataFailed    // `std::fs::metadata` refused

  datatype Result<T> = Ok(value: T) | Err(error: IoError)

  datatype Option<T> = None | Some(value: T)

  /**
   * A regular file as the OS presents it.
   *  - `chunk(k)`: how many bytes the OS is willing to hand back on the
   *    k-th call (0-based) issued on an open handle; a read returns at
   *    least one and at most what the buffer and the file allow.
   *  - `faultAt`: the index of the call on the handle that fails, if any.
   *    A failed call ends every caller here, so one index covers every run.
   */
  datatype Inode = Inode(
    content: Content,
    openFails: bool,
    metadataFails: bool,
    chunk: nat -> nat,
    faultAt: Option<nat>)

  type FileSystem = map<Path, Inode>

  function Min(a: int, b: int): int { if a < b then a else b }

  function Max(a: int, b: int): int { if a < b then b else a }

  /**
   * The number of bytes the `call`-th call returns when it reads into a
   * buffer of `capacity` bytes with `remaining` bytes left before the end
   * of the file (negative once the cursor lies past the end).
   */
  function ReadLen(chunk: nat -> nat, call: nat, capacity: nat, remaining: int): (n: nat)
    ensures n == 0 <==> remaining <= 0 || capacity == 0
    ensures n <= capacity && n <= Max(remaining, 0)
    ensures chunk(call) >= capacity && remaining > 0 ==> n == Min(capacity, remaining)
  {
    if remaining <= 0 || capacity == 0 then 0
    else Min(Max(chunk(call), 1), Min(capacity, remaining))
  }

  /** `std::fs::metadata(path)?.len()` */
  function Metadata(fs: FileSystem, path: Path): (r: Result<U64>)
    ensures r.Ok? <==> path in fs && !fs[path].metadataFails
    ensures r.Ok? ==> r.value == |fs[path].content|
    ensures r.Err? ==> r.error == (if path in fs then MetadataFailed else NotFound)
  {
    if path !in fs then Err(NotFound)
    else if fs[path].metadataFails then Err(MetadataFailed)
    else Ok(|fs[path].content|)
  }

  /** An open read-only handle on a regular file. */
  class File {
    const inode: Inode
    /** The cursor; seeking may leave it past the end of the content. */
    var pos: nat
    /** How many read and seek calls were issued on this handle. */
    var calls: nat

    /** `File::open` once the OS has granted access. */
    constructor Open(inode: Inode)
      ensures this.inode == inode && pos == 0 && calls == 0
    {
      this.inode := inode;
      pos := 0;
      calls := 0;
    }

    /**
     * `Read::read(&mut buf)`: copies the next bytes at the cursor into the
     * front of `buf`, leaves the rest of `buf` alone, and returns how many
     * it copied; 0 means end of file.
     */
    method Read(buf: array<Byte>) returns (r: Result<nat>)
      modifies this, buf
      ensures calls == old(calls) + 1
      ensures r.Ok? <==> inode.faultAt != Some(old(calls))
      ensures r.Err? ==> r.error == ReadFailed && pos == old(pos) && buf[..] == old(buf[..])
      ensures r.Ok? ==> r.value == ReadLen(inode.chunk, old(calls), buf.Length, |inode.content| - old(pos))
      ensures r.Ok? ==> pos == old(pos) + r.value
      ensures r.Ok? && r.value > 0 ==> buf[..r.value] == inode.content[old(pos)..pos]
      ensures r.Ok? ==> buf[r.value..] == old(buf[r.value..])
    {
      if inode.faultAt == Some(calls) {
        calls := calls + 1;
        return Err(ReadFailed);
      }
      var n := ReadLen(inode.chunk, calls, buf.Length, |inode.content| - pos);
      forall i | 0 <= i < n {
        buf[i] := inode.content[pos + i];
      }
      pos, calls := pos + n, calls + 1;
      r := Ok(n);
    }

    /** `Seek::seek(SeekFrom::Current(offset))`: returns the new position. */
    method Seek(offset: int) returns (r: Result<nat>)
      modifies this
      ensures calls == old(calls) + 1
      ensures r == if inode.faultAt == Some(old(calls)) then Err(SeekFailed)
                   else if old(pos) + offset < 0 then Err(InvalidSeek)
                   else Ok(old(pos) + offset)
      ensures pos == if r.Ok? then r.value else old(pos)
    {
      calls := calls + 1;
      if inode.faultAt == Some(calls - 1) {
        r := Err(SeekFailed);
      } else if pos + offset < 0 {
        r := Err(InvalidSeek);
      } else {
        pos := pos + offset;
        r := Ok(pos);
      }
    }
  }
}
