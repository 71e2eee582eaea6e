/**
 * The grouper of src/main.rs: `hash_directory` fingerprints every regular
 * file the directory walk yields, and `find_duplicates` buckets the entries
 * by `FileStats` and keeps the buckets with more than one member.
 *
 * The walk is given as the sequence of results it yields. Parallel
 * execution is modelled sequentially: group membership does not depend on
 * the order in which files are fingerprinted.
 */
module Duplicates {
  import opened Io
  import opened FileHash

  /** What the walk knows of an entry: its path and whether it is a regular file. */
  datatype DirEntry = DirEntry(path: Path, isFile: bool)

  /** One item of the walk: an entry, or an error (permission denied, a broken link, ...). */
  datatype WalkResult = Walked(entry: DirEntry) | WalkError

  type Groups = map<FileStats, seq<FileEntry>>

  /**
   * One walk item through the chain of `hash_directory`: dropped if it is
   * an error or not a regular file, or if `run` cannot fingerprint it.
   */
  function Admit(w: WalkResult, fs: FileSystem, xxh3: seq<Byte> -> U128): (r: Option<FileEntry>)
    ensures r.Some? <==> w.Walked? && w.entry.isFile && Fingerprint(fs, w.entry.path, xxh3).Ok?
    ensures r.Some? ==> r.value.path == w.entry.path && r.value == Fingerprint(fs, w.entry.path, xxh3).value
  {
    match w
    case WalkError => None
    case Walked(d) =>
      if !d.isFile then None
      else match Fingerprint(fs, d.path, xxh3)
        case Ok(e) => Some(e)
        case Err(_) => None
  }

  /** `hash_directory`: the entries of the walk that survive `Admit`, in walk order. */
  function HashDirectory(walk: seq<WalkResult>, fs: FileSystem, xxh3: seq<Byte> -> U128): (entries: seq<FileEntry>)
    ensures |entries| <= |walk|
    ensures forall e :: e in entries <==> exists i :: 0 <= i < |walk| && Admit(walk[i], fs, xxh3) == Some(e)
  {
    if walk == [] then []
    else
      var rest := HashDirectory(walk[1..], fs, xxh3);
      assert forall i :: 1 <= i < |walk| ==> walk[i] == walk[1..][i - 1];
      match Admit(walk[0], fs, xxh3)
      case Some(e) => [e] + rest
      case None => rest
  }

  /** The walk items fingerprint independently: the chain distributes over concatenation. */
  lemma {:induction false} HashDirectoryAppend(a: seq<WalkResult>, b: seq<WalkResult>, fs: FileSystem, xxh3: seq<Byte> -> U128)
    ensures HashDirectory(a + b, fs, xxh3) == HashDirectory(a, fs, xxh3) + HashDirectory(b, fs, xxh3)
  {
    if a == [] {
      assert a + b == b;
    } else {
      assert (a + b)[0] == a[0] && (a + b)[1..] == a[1..] + b;
      HashDirectoryAppend(a[1..], b, fs, xxh3);
    }
  }

  /**
   * A walk item that fails (a walk error, an entry that is not a regular
   * file, a file that cannot be fingerprinted) is dropped and nothing else
   * changes: the other items give the same entries as without it.
   */
  lemma FailingItemIsolated(walk: seq<WalkResult>, i: nat, fs: FileSystem, xxh3: seq<Byte> -> U128)
    requires i < |walk| && Admit(walk[i], fs, xxh3) == None
    ensures HashDirectory(walk, fs, xxh3) == HashDirectory(walk[..i] + walk[i + 1..], fs, xxh3)
  {
    assert walk == walk[..i] + ([walk[i]] + walk[i + 1..]);
    HashDirectoryAppend(walk[..i], [walk[i]] + walk[i + 1..], fs, xxh3);
    HashDirectoryAppend([walk[i]], walk[i + 1..], fs, xxh3);
    HashDirectoryAppend(walk[..i], walk[i + 1..], fs, xxh3);
  }

  /** The entries carrying `key`, in their order in `entries`. */
  function BucketOf(entries: seq<FileEntry>, key: FileStats): (bucket: seq<FileEntry>)
    ensures forall e :: e in bucket ==> e.stats == key
    ensures forall e: FileEntry {:trigger multiset(bucket)[e]} :: e.stats == key ==> multiset(bucket)[e] == multiset(entries)[e]
  {
    if entries == [] then []
    else
      assert entries == [entries[0]] + entries[1..];
      (if entries[0].stats == key then [entries[0]] else []) + BucketOf(entries[1..], key)
  }

  /** Buckets keep the order of `entries`: the bucket of a concatenation is the concatenation of the buckets. */
  lemma {:induction false} BucketOfAppend(a: seq<FileEntry>, b: seq<FileEntry>, key: FileStats)
    ensures BucketOf(a + b, key) == BucketOf(a, key) + BucketOf(b, key)
  {
    if a == [] {
      assert a + b == b;
    } else {
      assert (a + b)[0] == a[0] && (a + b)[1..] == a[1..] + b;
      BucketOfAppend(a[1..], b, key);
    }
  }

  /** `key` is carried by entries at two different positions. */
  ghost predicate OccursTwice(entries: seq<FileEntry>, key: FileStats)
  {
    exists i, j :: 0 <= i < j < |entries| && entries[i].stats == key && entries[j].stats == key
  }

  /** A bucket is non-empty exactly when some entry carries its key. */
  lemma BucketNonEmpty(entries: seq<FileEntry>, key: FileStats)
    ensures BucketOf(entries, key) != [] <==> exists j :: 0 <= j < |entries| && entries[j].stats == key
  {
    var b := BucketOf(entries, key);
    if b != [] {
      assert multiset(b)[b[0]] >= 1;
      assert b[0] in entries;
    }
    if j :| 0 <= j < |entries| && entries[j].stats == key {
      assert multiset(entries)[entries[j]] >= 1;
      assert multiset(b)[entries[j]] >= 1;
    }
  }

  /** A bucket has two or more members exactly when its key occurs at two positions. */
  lemma {:induction false} BucketAtLeastTwo(entries: seq<FileEntry>, key: FileStats)
    ensures |BucketOf(entries, key)| >= 2 <==> OccursTwice(entries, key)
  {
    if entries != [] {
      var x, t := entries[0], entries[1..];
      assert BucketOf(entries, key) == (if x.stats == key then [x] else []) + BucketOf(t, key);
      BucketAtLeastTwo(t, key);
      BucketNonEmpty(t, key);
      if x.stats == key {
        calc {
          |BucketOf(entries, key)| >= 2;
        ==
          BucketOf(t, key) != [];
        ==
          exists j :: 0 <= j < |t| && t[j].stats == key;
        == { OccursTwiceAtHead(entries, key); }
          OccursTwice(entries, key);
        }
      } else {
        OccursTwiceInTail(entries, key);
      }
    }
  }

  lemma OccursTwiceAtHead(entries: seq<FileEntry>, key: FileStats)
    requires entries != [] && entries[0].stats == key
    ensures OccursTwice(entries, key) <==> exists j :: 0 <= j < |entries[1..]| && entries[1..][j].stats == key
  {
    var t := entries[1..];
    if j :| 0 <= j < |t| && t[j].stats == key {
      assert entries[0].stats == key && entries[j + 1].stats == key;
    }
    if OccursTwice(entries, key) {
      var i, j :| 0 <= i < j < |entries| && entries[i].stats == key && entries[j].stats == key;
      assert t[j - 1].stats == key;
    }
  }

  lemma OccursTwiceInTail(entries: seq<FileEntry>, key: FileStats)
    requires entries != [] && entries[0].stats != key
    ensures OccursTwice(entries, key) <==> OccursTwice(entries[1..], key)
  {
    var t := entries[1..];
    if OccursTwice(t, key) {
      var i, j :| 0 <= i < j < |t| && t[i].stats == key && t[j].stats == key;
      assert entries[i + 1].stats == key && entries[j + 1].stats == key;
    }
    if OccursTwice(entries, key) {
      var i, j :| 0 <= i < j < |entries| && entries[i].stats == key && entries[j].stats == key;
      assert t[i - 1].stats == key && t[j - 1].stats == key;
    }
  }

  /** `hashes` holds, under each key, the bucket of `entries` for it, and no empty bucket. */
  ghost predicate Bucketed(hashes: Groups, entries: seq<FileEntry>)
  {
    forall key :: (key in hashes <==> BucketOf(entries, key) != [])
               && (key in hashes ==> hashes[key] == BucketOf(entries, key))
  }

  /** Pushing an entry onto the bucket of its own key buckets one more entry. */
  lemma BucketedPush(hashes: Groups, entries: seq<FileEntry>, entry: FileEntry)
    requires Bucketed(hashes, entries)
    ensures Bucketed(hashes[entry.stats := (if entry.stats in hashes then hashes[entry.stats] else []) + [entry]],
                     entries + [entry])
  {
    forall key
      ensures BucketOf(entries + [entry], key) == BucketOf(entries, key) + (if entry.stats == key then [entry] else [])
    {
      BucketOfAppend(entries, [entry], key);
      assert [entry][1..] == [];
    }
  }

  /**
   * The loop of `find_duplicates` that fills `hashes`: each entry is pushed
   * onto the bucket of its own `stats`, created empty on first use.
   */
  method GroupByStats(entries: seq<FileEntry>) returns (hashes: Groups)
    ensures forall key :: key in hashes <==> BucketOf(entries, key) != []
    ensures forall key :: key in hashes ==> hashes[key] == BucketOf(entries, key)
  {
    hashes := map[];
    for i := 0 to |entries|
      invariant Bucketed(hashes, entries[..i])
    {
      var entry := entries[i];
      BucketedPush(hashes, entries[..i], entry);
      var bucket := if entry.stats in hashes then hashes[entry.stats] else [];
      hashes := hashes[entry.stats := bucket + [entry]];
      assert entries[..i + 1] == entries[..i] + [entry];
    }
    assert entries[..|entries|] == entries;
  }

  /**
   * `find_duplicates`: the fingerprints carried by two or more of the
   * entries `hash_directory` produces, each with all the entries carrying it.
   */
  method FindDuplicates(walk: seq<WalkResult>, fs: FileSystem, xxh3: seq<Byte> -> U128) returns (groups: Groups)
    ensures forall key :: key in groups <==> OccursTwice(HashDirectory(walk, fs, xxh3), key)
    ensures forall key :: key in groups ==> groups[key] == BucketOf(HashDirectory(walk, fs, xxh3), key)
    ensures forall key :: key in groups ==> |groups[key]| >= 2
    ensures HashDirectory(walk, fs, xxh3) == [] ==> groups == map[]
  {
    var entries := HashDirectory(walk, fs, xxh3);
    var hashes := GroupByStats(entries);
    groups := map key | key in hashes && |hashes[key]| > 1 :: hashes[key];
    forall key
      ensures key in groups <==> OccursTwice(entries, key)
    {
      BucketAtLeastTwo(entries, key);
    }
  }
}
