/**
 * The parse cache of src/cache.rs: a format version plus a map from the
 * canonical path of a Makefile to the hash of its content, its timestamp
 * and the targets parsed from it. `compute_hash` (SHA-256, hex encoded) is
 * a parameter `hash`; the file system is a `FileSystem` value.
 */
module ParseCache {
  import opened Wrappers
  import opened Files
  import opened Targets

  /** A hex-encoded content hash. */
  type Digest = string

  /** `Cache::CURRENT_VERSION`. */
  const CurrentVersion: nat := 1

  datatype CacheEntry = CacheEntry(contentHash: Digest, modifiedTime: nat, targets: seq<Target>)

  /** `CacheStats`. */
  datatype CacheStats = CacheStats(entryCount: nat, totalTargets: nat)

  /** What `Cache::load` finds on disk, after its own I/O and JSON decoding. */
  datatype Stored =
    | NoCacheDir                                                  // `dirs::cache_dir` gave nothing
    | Absent                                                      // the cache file does not exist
    | Unreadable                                                  // reading the file failed
    | Malformed                                                   // it is not a cache in JSON
    | Decoded(version: nat, entries: map<string, CacheEntry>)

  /** Why `Cache::load` fails. */
  datatype LoadError = NoDirectory | ReadError | DecodeError

  type Entries = map<string, CacheEntry>

  /** `is_entry_valid`: the file reads and its content still hashes to the stored hash. */
  predicate EntryValid(fs: FileSystem, hash: Content -> Digest, p: Path, entry: CacheEntry) {
    p in fs.contents && hash(fs.contents[p]) == entry.contentHash
  }

  /** `get`: the cached targets of `p`, if its entry exists and is still valid. */
  function Lookup(entries: Entries, fs: FileSystem, hash: Content -> Digest, p: Path): (r: Option<seq<Target>>)
    ensures p !in fs.canonical ==> r == None
    ensures p in fs.canonical && fs.canonical[p] !in entries ==> r == None
    ensures p !in fs.contents ==> r == None
    ensures (p in fs.canonical && fs.canonical[p] in entries && p in fs.contents &&
             hash(fs.contents[p]) != entries[fs.canonical[p]].contentHash) ==> r == None
    ensures r.Some? ==> p in fs.canonical && fs.canonical[p] in entries && r.value == entries[fs.canonical[p]].targets
    ensures p in fs.canonical && fs.canonical[p] in entries && EntryValid(fs, hash, p, entries[fs.canonical[p]]) ==>
              r == Some(entries[fs.canonical[p]].targets)
  {
    if p !in fs.canonical then None
    else
      var key := fs.canonical[p];
      if key !in entries then None
      else if EntryValid(fs, hash, p, entries[key]) then Some(entries[key].targets)
      else None
  }

  /** The timestamp `set` records: the file's modification time, or 0 without metadata. */
  function ModifiedTime(fs: FileSystem, p: Path): (t: nat)
    ensures p !in fs.mtimes ==> t == 0
    ensures p in fs.mtimes ==> t == fs.mtimes[p]
  {
    if p in fs.mtimes then fs.mtimes[p] else 0
  }

  /** `set`: the entries with the one at `p`'s canonical path replaced, or the error that stops it. */
  function Upsert(entries: Entries, fs: FileSystem, hash: Content -> Digest, p: Path, targets: seq<Target>): (r: Result<Entries, IoError>)
    ensures r.Ok? <==> p in fs.canonical && p in fs.contents
    ensures p !in fs.canonical ==> r == Err(CanonicalizeFailed(p))
    ensures p in fs.canonical && p !in fs.contents ==> r == Err(ReadFailed(p))
  {
    if p !in fs.canonical then Err(CanonicalizeFailed(p))
    else
      match Read(fs, p)
      case Err(e) => Err(e)
      case Ok(content) =>
        Ok(entries[fs.canonical[p] := CacheEntry(hash(content), ModifiedTime(fs, p), targets)])
  }

  /** `invalidate`: the entries without `p`'s canonical path, or unchanged when it has none. */
  function Remove(entries: Entries, fs: FileSystem, p: Path): (r: Entries)
    ensures p !in fs.canonical ==> r == entries
    ensures p in fs.canonical ==> fs.canonical[p] !in r
    ensures forall k :: k in r <==> k in entries && (p !in fs.canonical || k != fs.canonical[p])
    ensures forall k :: k in r ==> r[k] == entries[k]
  {
    if p in fs.canonical then entries - {fs.canonical[p]} else entries
  }

  /** `prune`: the entries whose path still exists. */
  function Pruned(entries: Entries, existing: set<Path>): (r: Entries)
    ensures r.Keys == entries.Keys * existing
    ensures forall k :: k in r ==> r[k] == entries[k]
  {
    map k | k in entries && k in existing :: entries[k]
  }

  /** The number of targets over all entries, `entries.values().map(|e| e.targets.len()).sum()`. */
  ghost function SumTargets(entries: Entries): nat
    decreases entries.Keys
  {
    if entries == map[] then 0
    else
      var k :| k in entries;
      |entries[k].targets| + SumTargets(entries - {k})
  }

  /** The sum does not depend on the order the entries are visited in. */
  lemma {:induction false} SumTargetsPick(entries: Entries, k: string)
    requires k in entries
    ensures SumTargets(entries) == |entries[k].targets| + SumTargets(entries - {k})
    decreases entries.Keys
  {
    var j :| j in entries && SumTargets(entries) == |entries[j].targets| + SumTargets(entries - {j});
    if j != k {
      var both := entries - {j} - {k};
      SumTargetsPick(entries - {j}, k);
      SumTargetsPick(entries - {k}, j);
      assert entries - {k} - {j} == both;
    }
  }

  /** Storing an entry adds its targets to the total, less those of the entry it replaces. */
  lemma {:induction false} SumTargetsUpdate(entries: Entries, k: string, e: CacheEntry)
    ensures SumTargets(entries[k := e]) + (if k in entries then |entries[k].targets| else 0)
            == SumTargets(entries) + |e.targets|
  {
    var updated := entries[k := e];
    SumTargetsPick(updated, k);
    assert updated - {k} == entries - {k};
    if k in entries {
      SumTargetsPick(entries, k);
    } else {
      assert entries - {k} == entries;
    }
  }

  /** `set` followed by `get` on an unchanged file returns the targets just stored. */
  lemma {:induction false} SetThenGet(entries: Entries, fs: FileSystem, hash: Content -> Digest, p: Path, targets: seq<Target>)
    requires Upsert(entries, fs, hash, p, targets).Ok?
    ensures Lookup(Upsert(entries, fs, hash, p, targets).value, fs, hash, p) == Some(targets)
  {
  }

  /**
   * Once the file's content changes to one with a different hash, `get`
   * misses. The hash is only assumed to tell these two contents apart.
   */
  lemma {:induction false} ChangedContentMisses(entries: Entries, fs: FileSystem, fs': FileSystem, hash: Content -> Digest, p: Path, targets: seq<Target>)
    requires Upsert(entries, fs, hash, p, targets).Ok?
    requires fs'.canonical == fs.canonical
    requires p in fs'.contents ==> hash(fs'.contents[p]) != hash(fs.contents[p])
    ensures Lookup(Upsert(entries, fs, hash, p, targets).value, fs', hash, p) == None
  {
  }

  /** `set` stores exactly one entry, under `p`'s canonical path, and keeps every other one. */
  lemma {:induction false} UpsertFrame(entries: Entries, fs: FileSystem, hash: Content -> Digest, p: Path, targets: seq<Target>)
    requires Upsert(entries, fs, hash, p, targets).Ok?
    ensures var r := Upsert(entries, fs, hash, p, targets).value;
            var key := fs.canonical[p];
            && r.Keys == entries.Keys + {key}
            && r[key] == CacheEntry(hash(fs.contents[p]), ModifiedTime(fs, p), targets)
            && forall k :: k in entries && k != key ==> r[k] == entries[k]
  {
  }

  /** A lookup only reads the entry under the path's own canonical key. */
  lemma {:induction false} LookupLocal(e1: Entries, e2: Entries, fs: FileSystem, hash: Content -> Digest, q: Path)
    requires q in fs.canonical ==> (fs.canonical[q] in e1 <==> fs.canonical[q] in e2)
    requires q in fs.canonical && fs.canonical[q] in e1 ==> e1[fs.canonical[q]] == e2[fs.canonical[q]]
    ensures Lookup(e1, fs, hash, q) == Lookup(e2, fs, hash, q)
  {
  }

  /** `set` on `p` does not change what `get` answers for a path with another canonical key. */
  lemma {:induction false} UpsertLeavesOthers(entries: Entries, fs: FileSystem, hash: Content -> Digest, p: Path, targets: seq<Target>, q: Path)
    requires Upsert(entries, fs, hash, p, targets).Ok?
    requires q in fs.canonical && fs.canonical[q] != fs.canonical[p]
    ensures Lookup(Upsert(entries, fs, hash, p, targets).value, fs, hash, q) == Lookup(entries, fs, hash, q)
  {
    UpsertFrame(entries, fs, hash, p, targets);
    LookupLocal(Upsert(entries, fs, hash, p, targets).value, entries, fs, hash, q);
  }

  /** After `invalidate`, `get` misses on that path and answers as before on paths with other keys. */
  lemma {:induction false} InvalidateThenGet(entries: Entries, fs: FileSystem, hash: Content -> Digest, p: Path, q: Path)
    ensures Lookup(Remove(entries, fs, p), fs, hash, p) == None
    ensures q in fs.canonical && (p in fs.canonical ==> fs.canonical[q] != fs.canonical[p]) ==>
              Lookup(Remove(entries, fs, p), fs, hash, q) == Lookup(entries, fs, hash, q)
  {
    if q in fs.canonical && (p in fs.canonical ==> fs.canonical[q] != fs.canonical[p]) {
      LookupLocal(Remove(entries, fs, p), entries, fs, hash, q);
    }
  }

  /** Pruning twice is pruning once. */
  lemma {:induction false} PruneIdempotent(entries: Entries, existing: set<Path>)
    ensures Pruned(Pruned(entries, existing), existing) == Pruned(entries, existing)
  {
  }

  /** The version check of `Cache::load`: a decoded cache of another version is discarded. */
  function LoadedState(stored: Stored): (r: Result<(nat, Entries), LoadError>)
    ensures r.Ok? <==> stored.Absent? || stored.Decoded?
    ensures stored.NoCacheDir? ==> r == Err(NoDirectory)
    ensures stored.Unreadable? ==> r == Err(ReadError)
    ensures stored.Malformed? ==> r == Err(DecodeError)
    ensures r.Ok? ==> r.value.0 == CurrentVersion
    ensures r.Ok? && stored.Decoded? && stored.version == CurrentVersion ==> r.value.1 == stored.entries
    ensures r.Ok? && !(stored.Decoded? && stored.version == CurrentVersion) ==> r.value.1 == map[]
  {
    match stored
    case NoCacheDir => Err(NoDirectory)
    case Absent => Ok((CurrentVersion, map[]))
    case Unreadable => Err(ReadError)
    case Malformed => Err(DecodeError)
    case Decoded(version, entries) =>
      if version != CurrentVersion then Ok((CurrentVersion, map[])) else Ok((version, entries))
  }

  class Cache {
    var version: nat
    var entries: Entries

    /** `Cache::new`. */
    constructor ()
      ensures version == CurrentVersion && entries == map[]
    {
      version := CurrentVersion;
      entries := map[];
    }

    /** `Cache::load`, from what its I/O found. */
    static method Load(stored: Stored) returns (r: Result<Cache, LoadError>)
      ensures r.Err? <==> LoadedState(stored).Err?
      ensures r.Err? ==> r.error == LoadedState(stored).error
      ensures r.Ok? ==> fresh(r.value) && (r.value.version, r.value.entries) == LoadedState(stored).value
    {
      match stored {
        case NoCacheDir => return Err(NoDirectory);
        case Absent =>
          var c := new Cache();
          return Ok(c);
        case Unreadable => return Err(ReadError);
        case Malformed => return Err(DecodeError);
        case Decoded(version, entries) =>
          if version != CurrentVersion {
            var c := new Cache();
            return Ok(c);
          }
          var c := new Cache();
          c.version, c.entries := version, entries;
          return Ok(c);
      }
    }

    /** `get`: the cached targets of `p` while its entry is valid. */
    method Get(fs: FileSystem, hash: Content -> Digest, p: Path) returns (r: Option<seq<Target>>)
      ensures r == Lookup(entries, fs, hash, p)
    {
      if p !in fs.canonical {
        return None;
      }
      var key := fs.canonical[p];
      if key !in entries {
        return None;
      }
      var entry := entries[key];
      var valid := IsEntryValid(fs, hash, p, entry);
      if valid {
        return Some(entry.targets);
      }
      return None;
    }

    /** `is_entry_valid`. */
    method IsEntryValid(fs: FileSystem, hash: Content -> Digest, p: Path, entry: CacheEntry) returns (valid: bool)
      ensures valid <==> EntryValid(fs, hash, p, entry)
    {
      var content := Read(fs, p);
      if content.Ok? {
        var currentHash := hash(content.value);
        return currentHash == entry.contentHash;
      }
      return false;
    }

    /** `set`: store `targets` with the current hash and timestamp of `p`; on error nothing changes. */
    method Set(fs: FileSystem, hash: Content -> Digest, p: Path, targets: seq<Target>) returns (r: Result<(), IoError>)
      modifies this
      ensures version == old(version)
      ensures r.Ok? <==> Upsert(old(entries), fs, hash, p, targets).Ok?
      ensures r.Ok? ==> entries == Upsert(old(entries), fs, hash, p, targets).value
      ensures r.Err? ==> r.error == Upsert(old(entries), fs, hash, p, targets).error && entries == old(entries)
    {
      if p !in fs.canonical {
        return Err(CanonicalizeFailed(p));
      }
      var absPath := fs.canonical[p];
      var content := Read(fs, p);
      if content.Err? {
        return Err(content.error);
      }
      var contentHash := hash(content.value);
      var modifiedTime := if p in fs.mtimes then fs.mtimes[p] else 0;
      var entry := CacheEntry(contentHash, modifiedTime, targets);
      entries := entries[absPath := entry];
      return Ok(());
    }

    /** `invalidate`. */
    method Invalidate(fs: FileSystem, p: Path)
      modifies this
      ensures version == old(version) && entries == Remove(old(entries), fs, p)
    {
      if p in fs.canonical {
        entries := entries - {fs.canonical[p]};
      }
    }

    /** `clear`. */
    method Clear()
      modifies this
      ensures version == old(version) && entries == map[]
    {
      entries := map[];
    }

    /** `prune`: keep the entries whose path exists. */
    method Prune(fs: FileSystem)
      modifies this
      ensures version == old(version) && entries == Pruned(old(entries), fs.existing)
    {
      entries := map k | k in entries && k in fs.existing :: entries[k];
    }

    /** `stats`: the number of entries and the number of targets over all of them. */
    method Stats() returns (s: CacheStats)
      ensures s.entryCount == |entries| && s.totalTargets == SumTargets(entries)
    {
      var rest := entries;
      var total := 0;
      while rest != map[]
        invariant total + SumTargets(rest) == SumTargets(entries)
        decreases rest.Keys
      {
        var k :| k in rest;
        SumTargetsPick(rest, k);
        total := total + |rest[k].targets|;
        rest := rest - {k};
      }
      s := CacheStats(|entries|, total);
    }
  }
}
