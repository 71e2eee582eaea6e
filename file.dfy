/**
 * The fingerprinter of src/file.rs: `hash_file`, `FileEntry::from_path`
 * and the `FileStats` value they build.
 *
 * `hash_file` reads 4096 bytes at a time and streams them into an XXH3-128
 * digest, seeking forward by `seek_distance` after every non-empty read and
 * halving `seek_distance`. As `seek_distance` starts at 1, at most one byte
 * is ever skipped: the one right after the first non-empty read, when the
 * file extends past it.
 *
 * The digest is a parameter `xxh3` applied to everything written to the
 * streaming hasher; streaming writes compose by concatenation.
 */
module FileHash {
  import opened Io

  type U128 = x: int | 0 <= x < 0x1_0000_0000_0000_0000_0000_0000_0000_0000

  /** The size of the buffer `hash_file` reads into. */
  const BufferSize: nat := 4096

  /** The fingerprint: compared field by field, so the size must match too. */
  datatype FileStats = FileStats(hash: U128, size: U64)

  datatype FileEntry = FileEntry(path: Path, stats: FileStats)

  /** Bytes not yet read when the cursor stands at `pos`. */
  function Unread(c: Content, pos: nat): nat
  {
    if pos < |c| then |c| - pos else 0
  }

  /**
   * The rest of `hash_file`'s loop from a state of its own: the cursor
   * `pos`, the number `call` of calls already issued on the handle, the
   * current `seekDistance` and the bytes `digest` written to the hasher
   * so far. Gives the bytes written in total, or the error that ends it.
   * It ends in an error only on a failing read or seek.
   */
  function Run(f: Inode, pos: nat, call: nat, seekDistance: nat, digest: seq<Byte>): (r: Result<seq<Byte>>)
    ensures r.Err? ==> r.error == ReadFailed || r.error == SeekFailed
    decreases Unread(f.content, pos)
  {
    if f.faultAt == Some(call) then Err(ReadFailed)
    else
      var n := ReadLen(f.chunk, call, BufferSize, |f.content| - pos);
      if n == 0 then Ok(digest)
      else if f.faultAt == Some(call + 1) then Err(SeekFailed)
      else Run(f, pos + n + seekDistance, call + 2, seekDistance / 2, digest + f.content[pos..pos + n])
  }

  /** How many read and seek calls the loop issues from a state when none of them fails. */
  function Calls(f: Inode, pos: nat, call: nat, seekDistance: nat): nat
    decreases Unread(f.content, pos)
  {
    var n := ReadLen(f.chunk, call, BufferSize, |f.content| - pos);
    if n == 0 then 1 else 2 + Calls(f, pos + n + seekDistance, call + 2, seekDistance / 2)
  }

  /** The length of the first read on a fresh handle. */
  function FirstRead(f: Inode): nat
  {
    ReadLen(f.chunk, 0, BufferSize, |f.content|)
  }

  /** `c` without its byte at index `k` (unchanged when there is none). */
  function Sampled(c: seq<Byte>, k: nat): (s: seq<Byte>)
    ensures |s| == if k < |c| then |c| - 1 else |c|
    ensures forall i :: 0 <= i < |s| ==> s[i] == c[if i < k then i else i + 1]
  {
    if k < |c| then c[..k] + c[k + 1..] else c
  }

  /** The error a failing call at index `k` reports: even calls read, odd calls seek. */
  function FaultKind(k: nat): IoError
  {
    if k % 2 == 0 then ReadFailed else SeekFailed
  }

  /**
   * What the loop of `hash_file` writes to the digest, in closed form: every
   * byte but the one after the first read, unless one of the calls it makes
   * fails.
   */
  function Sample(f: Inode): (r: Result<seq<Byte>>)
    ensures r.Err? <==> f.faultAt.Some? && f.faultAt.value < Calls(f, 0, 0, 1)
    ensures r.Err? ==> r.error == (if f.faultAt.value % 2 == 0 then ReadFailed else SeekFailed)
    ensures r.Ok? ==> |r.value| == |f.content| - (if FirstRead(f) < |f.content| then 1 else 0)
    ensures r.Ok? ==> forall i :: 0 <= i < |r.value| ==> r.value[i] == f.content[if i < FirstRead(f) then i else i + 1]
  {
    if f.faultAt.Some? && f.faultAt.value < Calls(f, 0, 0, 1) then Err(FaultKind(f.faultAt.value))
    else Ok(Sampled(f.content, FirstRead(f)))
  }

  /**
   * `hash_file(path)`, in closed form. It never reports a metadata error or
   * a seek before the start, as it only queries the handle and seeks forward.
   */
  function HashOf(fs: FileSystem, path: Path, xxh3: seq<Byte> -> U128): (r: Result<U128>)
    ensures r.Ok? <==> path in fs && !fs[path].openFails && Sample(fs[path]).Ok?
    ensures r.Ok? ==> r.value == xxh3(Sampled(fs[path].content, FirstRead(fs[path])))
    ensures r.Err? ==> r.error != MetadataFailed && r.error != InvalidSeek
  {
    if path !in fs then Err(NotFound)
    else if fs[path].openFails then Err(PermissionDenied)
    else match Sample(fs[path])
      case Err(e) => Err(e)
      case Ok(bytes) => Ok(xxh3(bytes))
  }

  /** True when every read hands back as many bytes as the buffer and the file allow. */
  ghost predicate FullReads(f: Inode)
  {
    forall k :: f.chunk(k) >= BufferSize
  }

  // ---------------------------------------------------------------------
  // The loop, step by step, against its closed form.
  // ---------------------------------------------------------------------

  /** Once `seekDistance` is 0, the loop hashes every byte from the cursor on. */
  lemma {:induction false} RunContiguous(f: Inode, pos: nat, call: nat, digest: seq<Byte>)
    requires f.faultAt == None
    ensures Run(f, pos, call, 0, digest) == Ok(digest + f.content[Min(pos, |f.content|)..])
    decreases Unread(f.content, pos)
  {
    var c := f.content;
    var n := ReadLen(f.chunk, call, BufferSize, |c| - pos);
    if n == 0 {
      assert pos >= |c|;
      assert digest + c[Min(pos, |c|)..] == digest;
    } else {
      RunContiguous(f, pos + n, call + 2, digest + c[pos..pos + n]);
      assert Run(f, pos, call, 0, digest) == Run(f, pos + n, call + 2, 0, digest + c[pos..pos + n]);
      assert c[pos..pos + n] + c[Min(pos + n, |c|)..] == c[pos..];
      assert digest + c[pos..pos + n] + c[Min(pos + n, |c|)..] == digest + c[Min(pos, |c|)..];
    }
  }

  /** Without faults, the loop writes exactly `Sampled(content, FirstRead)`. */
  lemma {:induction false} RunSkipsOneByte(f: Inode)
    requires f.faultAt == None
    ensures Run(f, 0, 0, 1, []) == Ok(Sampled(f.content, FirstRead(f)))
  {
    var c := f.content;
    var n := FirstRead(f);
    if n > 0 {
      RunContiguous(f, n + 1, 2, c[0..n]);
      assert Run(f, 0, 0, 1, []) == Run(f, n + 1, 2, 0, [] + c[0..n]);
      assert [] + c[0..n] == c[0..n];
      if n < |c| {
        assert c[0..n] + c[Min(n + 1, |c|)..] == c[..n] + c[n + 1..];
      } else {
        assert c[0..n] + c[Min(n + 1, |c|)..] == c;
      }
    }
  }

  /**
   * A fault at call `k` ends the run with that call's error exactly when the
   * fault-free run would have issued call `k`; otherwise it changes nothing.
   */
  lemma {:induction false} RunFault(f: Inode, pos: nat, call: nat, seekDistance: nat, digest: seq<Byte>)
    requires f.faultAt.Some? && call % 2 == 0
    ensures Run(f, pos, call, seekDistance, digest) ==
      if call <= f.faultAt.value < call + Calls(f, pos, call, seekDistance) then Err(FaultKind(f.faultAt.value))
      else Run(f.(faultAt := None), pos, call, seekDistance, digest)
    decreases Unread(f.content, pos)
  {
    var clean, k := f.(faultAt := None), f.faultAt.value;
    var n := ReadLen(f.chunk, call, BufferSize, |f.content| - pos);
    if k != call && n != 0 && k != call + 1 {
      var pos', call', digest' := pos + n + seekDistance, call + 2, digest + f.content[pos..pos + n];
      RunFault(f, pos', call', seekDistance / 2, digest');
      assert Run(clean, pos, call, seekDistance, digest) == Run(clean, pos', call', seekDistance / 2, digest');
      assert Calls(f, pos, call, seekDistance) == 2 + Calls(f, pos', call', seekDistance / 2);
    }
  }

  /**
   * The loop only appends: the bytes written so far stay a prefix of
   * everything it writes, and it writes no more than the bytes still unread.
   */
  lemma {:induction false} RunExtends(f: Inode, pos: nat, call: nat, seekDistance: nat, digest: seq<Byte>)
    ensures Run(f, pos, call, seekDistance, digest).Ok? ==>
      && digest <= Run(f, pos, call, seekDistance, digest).value
      && |Run(f, pos, call, seekDistance, digest).value| <= |digest| + Unread(f.content, pos)
    decreases Unread(f.content, pos)
  {
    var n := ReadLen(f.chunk, call, BufferSize, |f.content| - pos);
    if f.faultAt != Some(call) && n != 0 && f.faultAt != Some(call + 1) {
      var digest' := digest + f.content[pos..pos + n];
      RunExtends(f, pos + n + seekDistance, call + 2, seekDistance / 2, digest');
      assert digest <= digest';
    }
  }

  /** The loop, run from its initial state, produces the closed form `Sample`. */
  lemma RunFromStart(f: Inode)
    ensures Run(f, 0, 0, 1, []) == Sample(f)
  {
    var clean := f.(faultAt := None);
    RunSkipsOneByte(clean);
    if f.faultAt.Some? {
      RunFault(f, 0, 0, 1, []);
      assert Calls(f, 0, 0, 1) == Calls(clean, 0, 0, 1) by {
        CallsIgnoreFaults(f, clean, 0, 0, 1);
      }
    }
  }

  /** The fault-free call count `Calls` does not depend on the fault index (a helper for `RunFromStart`). */
  lemma {:induction false} CallsIgnoreFaults(f: Inode, g: Inode, pos: nat, call: nat, seekDistance: nat)
    requires f.content == g.content && f.chunk == g.chunk
    ensures Calls(f, pos, call, seekDistance) == Calls(g, pos, call, seekDistance)
    decreases Unread(f.content, pos)
  {
    var n := ReadLen(f.chunk, call, BufferSize, |f.content| - pos);
    if n > 0 {
      CallsIgnoreFaults(f, g, pos + n + seekDistance, call + 2, seekDistance / 2);
    }
  }

  /**
   * Without a failing call the loop terminates: it issues an odd number of
   * calls (pairs of a non-empty read and a seek, then the read that returns
   * 0), at most two per unread byte plus one.
   */
  lemma {:induction false} CallsBound(f: Inode, pos: nat, call: nat, seekDistance: nat)
    ensures Calls(f, pos, call, seekDistance) % 2 == 1
    ensures Calls(f, pos, call, seekDistance) <= 2 * Unread(f.content, pos) + 1
    decreases Unread(f.content, pos)
  {
    var n := ReadLen(f.chunk, call, BufferSize, |f.content| - pos);
    if n > 0 {
      CallsBound(f, pos + n + seekDistance, call + 2, seekDistance / 2);
    }
  }

  /** One turn of the loop: a read of `n > 0` bytes and a seek that both succeed. */
  lemma RunStep(f: Inode, pos: nat, call: nat, seekDistance: nat, digest: seq<Byte>, n: nat)
    requires f.faultAt != Some(call) && f.faultAt != Some(call + 1)
    requires n == ReadLen(f.chunk, call, BufferSize, |f.content| - pos) && n > 0
    ensures Run(f, pos, call, seekDistance, digest) ==
      Run(f, pos + n + seekDistance, call + 2, seekDistance / 2, digest + f.content[pos..pos + n])
  {
  }

  // ---------------------------------------------------------------------
  // hash_file and FileEntry::from_path
  // ---------------------------------------------------------------------

  /**
   * `hash_file`: open the file, stream its sampled bytes into the digest and
   * finish it; an error from the open or from any call on the handle is
   * passed on.
   */
  method HashFile(fs: FileSystem, path: Path, xxh3: seq<Byte> -> U128) returns (r: Result<U128>)
    ensures r == HashOf(fs, path, xxh3)
  {
    if path !in fs {
      return Err(NotFound);
    }
    var inode := fs[path];
    if inode.openFails {
      return Err(PermissionDenied);
    }
    var file := new File.Open(inode);
    var bytes := SampleBytes(file);
    r := match bytes
      case Err(e) => Err(e)
      case Ok(digest) => Ok(xxh3(digest));
  }

  /**
   * The loop of `hash_file` on a fresh handle: read up to 4096 bytes into a
   * fresh zeroed buffer, stop on 0, write exactly the bytes read to the
   * digest, seek forward by `seekDistance`, halve it. Returns everything
   * written to the digest.
   */
  method SampleBytes(file: File) returns (r: Result<seq<Byte>>)
    requires file.pos == 0 && file.calls == 0
    modifies file
    ensures r == Sample(file.inode)
    ensures r.Ok? ==> file.pos >= |file.inode.content|
  {
    ghost var inode := file.inode;
    var digest: seq<Byte> := [];
    var seekDistance: nat := 1;
    RunFromStart(inode);
    ghost var sample := Sample(inode);
    while true
      invariant seekDistance == if file.calls == 0 then 1 else 0
      invariant Run(inode, file.pos, file.calls, seekDistance, digest) == sample
      decreases Unread(inode.content, file.pos)
    {
      ghost var pos, call, before, skip := file.pos, file.calls, digest, seekDistance;
      var buffer := new Byte[BufferSize](_ => 0);
      var read := file.Read(buffer);
      if read.Err? {
        return Err(read.error);
      }
      var n := read.value;
      if n == 0 {
        break;
      }
      digest := digest + buffer[..n];
      assert digest == before + inode.content[pos..pos + n];
      var sought := file.Seek(seekDistance);
      if sought.Err? {
        return Err(sought.error);
      }
      seekDistance := seekDistance / 2;
      RunStep(inode, pos, call, skip, before, n);
      assert file.pos == pos + n + skip && file.calls == call + 2;
    }
    r := Ok(digest);
  }

  /**
   * `FileEntry::from_path`: the entry for `path`, with the digest of its
   * sampled bytes and the length that the metadata reports.
   */
  function Fingerprint(fs: FileSystem, path: Path, xxh3: seq<Byte> -> U128): (r: Result<FileEntry>)
    ensures r.Ok? <==>
      && path in fs
      && !fs[path].openFails
      && !fs[path].metadataFails
      && Sample(fs[path]).Ok?
    ensures r.Ok? ==>
      r.value == FileEntry(path, FileStats(xxh3(Sampled(fs[path].content, FirstRead(fs[path]))), |fs[path].content|))
    ensures HashOf(fs, path, xxh3).Err? ==> r == Err(HashOf(fs, path, xxh3).error)
    ensures HashOf(fs, path, xxh3).Ok? && r.Err? ==> r.error == MetadataFailed
  {
    match HashOf(fs, path, xxh3)
    case Err(e) => Err(e)
    case Ok(hash) =>
      match Metadata(fs, path)
      case Err(e) => Err(e)
      case Ok(size) => Ok(FileEntry(path, FileStats(hash, size)))
  }

  /** `FileEntry::from_path` as it runs: `hash_file` first, then the metadata query. */
  method FromPath(fs: FileSystem, path: Path, xxh3: seq<Byte> -> U128) returns (r: Result<FileEntry>)
    ensures r == Fingerprint(fs, path, xxh3)
  {
    var hash := HashFile(fs, path, xxh3);
    if hash.Err? {
      return Err(hash.error);
    }
    var size := Metadata(fs, path);
    if size.Err? {
      return Err(size.error);
    }
    r := Ok(FileEntry(path, FileStats(hash.value, size.value)));
  }

  // ---------------------------------------------------------------------
  // What callers can rely on, and what they cannot
  // ---------------------------------------------------------------------

  /**
   * With full reads the byte at index 4096 is the only one left out, and
   * only when the file is longer than 4096 bytes.
   */
  lemma FullReadsSkipIndex4096(f: Inode)
    requires FullReads(f) && f.faultAt == None
    ensures Run(f, 0, 0, 1, []) ==
      Ok(if |f.content| <= BufferSize then f.content else f.content[..BufferSize] + f.content[BufferSize + 1..])
  {
    RunSkipsOneByte(f);
  }

  /** A file of at most 4096 bytes read in full has all of its content hashed. */
  lemma SmallFileFullyHashed(fs: FileSystem, path: Path, xxh3: seq<Byte> -> U128)
    requires path in fs && FullReads(fs[path]) && |fs[path].content| <= BufferSize
    requires !fs[path].openFails && !fs[path].metadataFails && fs[path].faultAt == None
    ensures Fingerprint(fs, path, xxh3) == Ok(FileEntry(path, FileStats(xxh3(fs[path].content), |fs[path].content|)))
  {
    FullReadsSkipIndex4096(fs[path]);
    RunFromStart(fs[path]);
  }

  /**
   * Two files of one length that differ only in the byte after the first
   * read get the same fingerprint: the fingerprint is a likely, not a
   * certain, sign of identical content.
   */
  lemma SkippedByteCollision(fs: FileSystem, p: Path, q: Path, xxh3: seq<Byte> -> U128)
    requires p in fs && q in fs
    requires !fs[p].openFails && !fs[p].metadataFails && fs[p].faultAt == None
    requires !fs[q].openFails && !fs[q].metadataFails && fs[q].faultAt == None
    requires |fs[p].content| == |fs[q].content|
    requires FirstRead(fs[p]) == FirstRead(fs[q])
    requires forall i :: 0 <= i < |fs[p].content| && i != FirstRead(fs[p]) ==> fs[p].content[i] == fs[q].content[i]
    ensures Fingerprint(fs, p, xxh3).Ok? && Fingerprint(fs, q, xxh3).Ok?
    ensures Fingerprint(fs, p, xxh3).value.stats == Fingerprint(fs, q, xxh3).value.stats
  {
    var k := FirstRead(fs[p]);
    var s, t := Sampled(fs[p].content, k), Sampled(fs[q].content, k);
    assert s == t;
  }

  /** The same collision for full reads, where the skipped byte is the one at index 4096. */
  lemma FullReadsCollideAt4096(fs: FileSystem, p: Path, q: Path, xxh3: seq<Byte> -> U128)
    requires p in fs && q in fs && FullReads(fs[p]) && FullReads(fs[q])
    requires !fs[p].openFails && !fs[p].metadataFails && fs[p].faultAt == None
    requires !fs[q].openFails && !fs[q].metadataFails && fs[q].faultAt == None
    requires |fs[p].content| == |fs[q].content| > BufferSize
    requires forall i :: 0 <= i < |fs[p].content| && i != BufferSize ==> fs[p].content[i] == fs[q].content[i]
    ensures Fingerprint(fs, p, xxh3).Ok? && Fingerprint(fs, q, xxh3).Ok?
    ensures Fingerprint(fs, p, xxh3).value.stats == Fingerprint(fs, q, xxh3).value.stats
  {
    SkippedByteCollision(fs, p, q, xxh3);
  }

  /**
   * The size is the metadata length, not the number of bytes hashed: a file
   * of 4096 bytes and the same file with one more byte write the same bytes
   * to the digest, and only their sizes tell their fingerprints apart.
   */
  lemma SizeSeparatesEqualDigests(fs: FileSystem, p: Path, q: Path, xxh3: seq<Byte> -> U128)
    requires p in fs && q in fs && FullReads(fs[p]) && FullReads(fs[q])
    requires !fs[p].openFails && !fs[p].metadataFails && fs[p].faultAt == None
    requires !fs[q].openFails && !fs[q].metadataFails && fs[q].faultAt == None
    requires |fs[p].content| == BufferSize && |fs[q].content| == BufferSize + 1
    requires fs[q].content[..BufferSize] == fs[p].content
    ensures Fingerprint(fs, p, xxh3).Ok? && Fingerprint(fs, q, xxh3).Ok?
    ensures Fingerprint(fs, p, xxh3).value.stats.hash == Fingerprint(fs, q, xxh3).value.stats.hash
    ensures Fingerprint(fs, p, xxh3).value.stats != Fingerprint(fs, q, xxh3).value.stats
  {
    assert Sampled(fs[q].content, FirstRead(fs[q])) == fs[p].content;
  }
}
