# fscmp: a verified model of the duplicate-file fingerprinter and grouper

fscmp walks a directory tree and reports groups of files that are likely to be
duplicates. Every regular file gets a fingerprint, `FileStats`. It is a pair of
an XXH3-128 digest of a sparse sample of the file's bytes and the file's
length as the metadata reports it. Files whose fingerprints are equal field by
field are grouped together.

The project has three modules:

- `Io` (io.dfy): the part of the operating system the fingerprinter uses.
  - A file is its content and a few fixed decisions: whether `open` or
    `metadata` is refused, how many bytes each read call hands back, and
    which call on the handle fails.
  - The class `File` is an open handle. It has a cursor and a call counter.
  - `Read` copies into an `array` buffer. `Seek` moves relative to the
    cursor, and may move past the end of the file.
- `FileHash` (file.dfy): `hash_file`, `FileEntry::from_path` and `FileStats`.
  - `HashFile` and `SampleBytes` are the imperative loop. It reads into a
    fresh 4096-byte buffer, writes exactly the bytes read to the digest,
    seeks by `seekDistance`, and halves it.
  - `Run` is the loop as a step function.
  - `Sample` is the closed form: the content without the byte right after
    the first non-empty read (if there is one), or the error of the first
    failing call. The lemmas prove that `Run` computes `Sample` for every
    read-length schedule and every fault position.
  - `Fingerprint` is `from_path` as a function. The digest is a parameter
    `xxh3`, applied to the concatenation of everything written to the
    streaming hasher.
- `Duplicates` (main.dfy): `hash_directory` and `find_duplicates`.
  - `HashDirectory` is the filter chain over the walk's results.
  - `GroupByStats` is the loop that pushes each entry onto the bucket of its
    own `stats`. It is proved to build `BucketOf`, a stable filter of the
    entries.
  - `FindDuplicates` keeps the buckets with more than one member. These are
    exactly the fingerprints carried by two or more entries.

`seek_distance` starts at 1 and is shifted right by one after every non-empty
read, so it is 0 from the second turn on. The loop therefore skips at most one
byte: the one right after the first non-empty read, when the file extends past
it. With full reads that is the byte at index 4096, and a file of at most 4096
bytes is hashed in full (`FullReadsSkipIndex4096`, `SmallFileFullyHashed`).
The stride never grows, so no later gap follows. Two files of equal length
that differ only in the skipped byte get equal fingerprints
(`SkippedByteCollision`). A short first read moves the skipped byte into the
file, so a small file is hashed in full only when its first read returns all
of it.

## Model

| member | source | states |
|---|---|---|
| Io.ReadLen | src/file.rs:41-42 | a read returns 0 exactly at or past the end of the file; otherwise at least 1 and at most the buffer size and the bytes remaining, and all of them when the OS hands back a full chunk |
| Io.File.Open | src/file.rs:34 | a fresh handle on the file, with the cursor at 0 and no calls issued |
| Io.File.Read | src/file.rs:39-43 | the read either fails with nothing changed, or copies the next `n` content bytes into the front of the buffer, leaves the rest of the buffer alone and advances the cursor by `n` |
| Io.File.Seek | src/file.rs:46 | a seek relative to the cursor fails, is refused when it would go before the start, or moves the cursor by the offset, possibly past the end |
| Io.Metadata | src/file.rs:27 | the metadata query succeeds exactly when the file exists and the query is not refused, and then reports the full content length; otherwise NotFound or MetadataFailed |
| FileHash.Run | src/file.rs:38-48 | the loop from any state ends in an error only on a failing read or seek; from the initial state it equals `Sample` (`RunFromStart`) |
| FileHash.RunExtends | src/file.rs:43 | the loop only appends: the bytes already written stay a prefix of the result, which grows by at most the bytes still unread |
| FileHash.Sample | src/file.rs:36-48 | the bytes written are the content without the byte at index `FirstRead`, index by index and with the exact length; it fails exactly when the failing call is among those the loop issues, with a read error on an even call and a seek error on an odd one |
| FileHash.HashOf | src/file.rs:33-51 | `hash_file` succeeds exactly when the open succeeds and `Sample` does, with the digest of the sampled bytes; it never reports a metadata error or a seek before the start |
| FileHash.Sampled | src/file.rs:38-48 | the sampled bytes are the content with the one byte at index `k` left out, index by index, and the length shrinks by one exactly when that byte exists |
| FileHash.RunContiguous | src/file.rs:38-48 | without faults, once the seek distance is 0, the loop writes every byte from the cursor to the end of the file |
| FileHash.RunSkipsOneByte | src/file.rs:36-48 | without faults, the loop writes the whole content except the byte right after the first read, when the file has one, for every read-length schedule |
| FileHash.RunFault | src/file.rs:41-46 | a failing call ends the loop with that call's error (read or seek) exactly when the fault-free loop would have issued it; otherwise the fault changes nothing |
| FileHash.CallsBound | src/file.rs:38-48 | without a failing call, the loop terminates after an odd number of calls, at most two per byte plus the final empty read |
| FileHash.RunFromStart | src/file.rs:35-48 | the loop from its initial state (empty digest, seek distance 1) writes exactly the closed form `Sample` |
| FileHash.HashFile | src/file.rs:33-51 | `hash_file` fails with NotFound or PermissionDenied when the open fails, with the first failing call's error, or returns the digest of the content without the byte after the first read |
| FileHash.SampleBytes | src/file.rs:36-48 | the loop on a fresh handle returns exactly the closed form `Sample`: every byte but the one after the first non-empty read, or the error of the first failing read or seek; its invariant keeps the seek distance at 1 before the first turn and 0 after it; on success the cursor ends at or past the end of the file |
| FileHash.Fingerprint | src/file.rs:22-30 | an entry exists exactly when the open, every read and seek, and the metadata query succeed; it carries the input path, the digest of the sampled bytes and the full content length; a hashing error is passed on unchanged, and after a successful hash only a refused metadata query fails, with MetadataFailed |
| FileHash.FromPath | src/file.rs:22-30 | hashing first and the metadata query second gives exactly `Fingerprint` |
| FileHash.FullReadsSkipIndex4096 | src/file.rs:38-48 | with full reads and no fault, the bytes written are the whole content when it has at most 4096 bytes, and otherwise every byte except index 4096 |
| FileHash.SmallFileFullyHashed | src/file.rs:41-46 | a file of at most 4096 bytes read in full gets the digest of its entire content and its length as size |
| FileHash.SkippedByteCollision | src/file.rs:36-50 | two files of equal length that differ only in the byte after the first read get equal `FileStats` |
| FileHash.FullReadsCollideAt4096 | src/file.rs:36-50 | with full reads, two files of equal length above 4096 that differ only at index 4096 get equal `FileStats` |
| FileHash.SizeSeparatesEqualDigests | src/file.rs:25-28 | with full reads, a 4096-byte file and the same bytes plus one more get equal digests but different `FileStats`, because the size is the metadata length and not the number of bytes hashed |
| Duplicates.Admit | src/main.rs:20-35 | a walk item yields an entry exactly when it is not a walk error, is a regular file and can be fingerprinted; the entry keeps the walked path |
| Duplicates.HashDirectory | src/main.rs:30-36 | the entries are exactly those of the admitted walk items, never more than the walk has |
| Duplicates.HashDirectoryAppend | src/main.rs:30-36 | each walk item is handled on its own: the entries of a concatenated walk are the concatenation of the entries |
| Duplicates.FailingItemIsolated | src/main.rs:20-35 | a walk item that fails is dropped and the other items give the same entries as without it |
| Duplicates.BucketOf | src/main.rs:43-47 | a bucket holds only entries carrying its key, and each such entry as many times as the input does (buckets partition the entries) |
| Duplicates.BucketOfAppend | src/main.rs:43-46 | buckets keep the input order: the bucket of a concatenation is the concatenation of the buckets |
| Duplicates.BucketNonEmpty | src/main.rs:44-46 | a bucket is non-empty exactly when some entry carries its key |
| Duplicates.BucketedPush | src/main.rs:44-46 | pushing an entry onto the bucket of its own key, created empty on first use, buckets one more entry |
| Duplicates.BucketAtLeastTwo | src/main.rs:49-51 | a bucket has two or more members exactly when two different entries carry its key |
| Duplicates.GroupByStats | src/main.rs:41-47 | after the loop, the keys are exactly the fingerprints that occur, each mapped to the entries carrying it, in input order |
| Duplicates.FindDuplicates | src/main.rs:39-52 | a fingerprint is a key of the result exactly when two or more entries carry it; its group is all those entries in order, with at least two members; no entries give no groups |

## Left out

- The XXH3-128 algorithm is not modelled. The digest is a parameter `xxh3`, a function of the concatenated bytes written.
- Real file I/O is replaced by an `Inode` that fixes the file's behaviour in advance. It records:
  - whether `open` and `metadata` are refused;
  - how many bytes each read returns;
  - which single call on the handle fails.
  A file changed while it is being fingerprinted, and the exact `std::io::Error` kinds, are not modelled.
- Rayon parallelism (`par_bridge`, `into_par_iter`) is modelled sequentially. The real order in which `hash_directory` collects entries is not fixed. The model uses walk order, so the order within a group is the model's order. The membership and multiplicity of each group do not depend on it.
- The `walkdir` traversal is a given sequence of walk results, each a path with a regular-file flag or an error.
- CLI parsing (src/args.rs), the printing in `main` (src/main.rs:54-68) and the `eprintln!` of `run` (src/main.rs:24) are not modelled. They are output formatting.
- The capacity hint of `HashMap::with_capacity` is not modelled. It does not affect the result.
- `seek_distance` is an `i64` in the program. The model uses an unbounded `nat`. It only ever holds 1 or 0, and a cursor moved past `u64` is out of reach for files shorter than 2^64 bytes.
- FileHash.SmallFileFullyHashed: assumes every read returns a full chunk. With a short first read, a file of at most 4096 bytes still loses the byte after that read.
