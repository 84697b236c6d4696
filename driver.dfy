/**
 * The target-list driver of src/main.rs: `get_targets` walks the discovered
 * Makefiles, taking each file's targets from the parse cache when its entry
 * is valid and parsing (then caching) it otherwise, merges them with the
 * first file winning each name, decides whether to save the cache, and
 * sorts by name; `get_targets_for_file` does the same for one file.
 */
module Driver {
  import opened Wrappers
  import opened Files
  import opened Targets
  import opened TargetList
  import opened Makefile
  import opened ParseCache

  /** Why `get_targets` fails. */
  datatype DriverError =
    | FileNotFound(path: Path)              // `--file` names a path that does not exist
    | NoMakefileIn                          // discovery found no Makefile
    | ParseFailed(parseError: ParseError)   // `parse_makefile` failed on a file
    | CacheSetFailed(ioError: IoError)      // `Cache::set` failed on a file

  /** The targets of one file, the cache entries after it, and whether `set` stored them. */
  datatype Fetched = Fetched(targets: seq<Target>, entries: Entries, stored: bool)

  /** Where the walk over the files stands: each file's targets so far, the cache, `cache_modified`. */
  datatype Progress = Progress(lists: seq<seq<Target>>, entries: Entries, modified: bool)

  /** The outcome of `get_targets` and whether it tried to save the cache. */
  datatype Answer = Answer(result: Result<seq<Target>, DriverError>, saveAttempted: bool)

  /** The entries the cache starts from: none with `--no-cache` or when loading fails. */
  function InitialEntries(noCache: bool, stored: Stored): (e: Entries)
    ensures noCache ==> e == map[]
    ensures !noCache && LoadedState(stored).Err? ==> e == map[]
  {
    if noCache then map[]
    else
      match LoadedState(stored)
      case Ok(state) => state.1
      case Err(_) => map[]
  }

  /**
   * One file of the loop: parse it directly with `--no-cache`; otherwise use
   * a valid cached entry verbatim, or parse it and `set` the result.
   */
  function Fetch(fs: FileSystem, hash: Content -> Digest, opts: ParseOptions, noCache: bool, entries: Entries, p: Path)
    : (r: Result<Fetched, DriverError>)
    ensures r.Ok? ==> (r.value.stored <==> !noCache && Lookup(entries, fs, hash, p).None?)
    ensures r.Ok? && !r.value.stored ==> r.value.entries == entries
    ensures !noCache && Lookup(entries, fs, hash, p).Some? ==>
              r == Ok(Fetched(Lookup(entries, fs, hash, p).value, entries, false))
    ensures (noCache || Lookup(entries, fs, hash, p).None?) && ParseFile(fs, p, opts).Err? ==>
              r == Err(ParseFailed(ParseFile(fs, p, opts).error))
    ensures noCache && ParseFile(fs, p, opts).Ok? ==> r.Ok? && r.value.targets == ParseFile(fs, p, opts).value
    ensures !noCache && Lookup(entries, fs, hash, p).None? && ParseFile(fs, p, opts).Ok? ==>
              var u := Upsert(entries, fs, hash, p, ParseFile(fs, p, opts).value);
              && (u.Err? ==> r == Err(CacheSetFailed(u.error)))
              && (u.Ok? ==> r.Ok? && r.value.targets == ParseFile(fs, p, opts).value && r.value.entries == u.value)
  {
    if noCache then
      match ParseFile(fs, p, opts)
      case Err(e) => Err(ParseFailed(e))
      case Ok(ts) => Ok(Fetched(ts, entries, false))
    else
      match Lookup(entries, fs, hash, p)
      case Some(ts) => Ok(Fetched(ts, entries, false))
      case None =>
        match ParseFile(fs, p, opts)
        case Err(e) => Err(ParseFailed(e))
        case Ok(ts) =>
          match Upsert(entries, fs, hash, p, ts)
          case Err(e) => Err(CacheSetFailed(e))
          case Ok(updated) => Ok(Fetched(ts, updated, true))
  }

  /** The loop of `get_targets` over `files`, stopping at the first error. */
  function Walk(fs: FileSystem, hash: Content -> Digest, opts: ParseOptions, noCache: bool, entries: Entries, files: seq<Path>)
    : (r: Result<Progress, DriverError>)
    ensures r.Ok? ==> |r.value.lists| == |files|
    decreases |files|
  {
    if files == [] then Ok(Progress([], entries, false))
    else
      match Walk(fs, hash, opts, noCache, entries, files[..|files| - 1])
      case Err(e) => Err(e)
      case Ok(pr) =>
        match Fetch(fs, hash, opts, noCache, pr.entries, files[|files| - 1])
        case Err(e) => Err(e)
        case Ok(f) => Ok(Progress(pr.lists + [f.targets], f.entries, pr.modified || f.stored))
  }

  /** `get_targets_for_file`: a hit returns the cached targets; a miss parses, sets and saves. */
  function ForFile(fs: FileSystem, hash: Content -> Digest, opts: ParseOptions, noCache: bool, stored: Stored, p: Path): Answer {
    match Fetch(fs, hash, opts, noCache, InitialEntries(noCache, stored), p)
    case Err(e) => Answer(Err(e), false)
    case Ok(f) => Answer(Ok(f.targets), f.stored)
  }

  /** `get_targets`. */
  function GetTargetsAnswer(fs: FileSystem, hash: Content -> Digest, opts: ParseOptions, noCache: bool, stored: Stored,
                            file: Option<Path>, makefiles: seq<Path>): Answer
  {
    match file
    case Some(p) =>
      if p !in fs.existing then Answer(Err(FileNotFound(p)), false)
      else ForFile(fs, hash, opts, noCache, stored, p)
    case None =>
      if makefiles == [] then Answer(Err(NoMakefileIn), false)
      else
        match Walk(fs, hash, opts, noCache, InitialEntries(noCache, stored), makefiles)
        case Err(e) => Answer(Err(e), false)
        case Ok(pr) => Answer(Ok(SortByName(MergeAll(pr.lists))), pr.modified && !noCache)
  }

  // ---------------------------------------------------------------------
  // The cache is transparent
  // ---------------------------------------------------------------------

  /** Every entry the cache would hand out holds what parsing the file now yields. */
  ghost predicate Sound(entries: Entries, fs: FileSystem, hash: Content -> Digest, opts: ParseOptions) {
    forall p :: Lookup(entries, fs, hash, p).Some? ==> ParseFile(fs, p, opts) == Ok(Lookup(entries, fs, hash, p).value)
  }

  /** No two paths canonicalise to the same key. */
  ghost predicate CanonicalInjective(fs: FileSystem) {
    forall p, q :: p in fs.canonical && q in fs.canonical && fs.canonical[p] == fs.canonical[q] ==> p == q
  }

  /** An empty cache hands nothing out, so it is sound. */
  lemma {:induction false} EmptySound(fs: FileSystem, hash: Content -> Digest, opts: ParseOptions)
    ensures Sound(map[], fs, hash, opts)
  {
    forall p ensures Lookup(map[], fs, hash, p).None? {
    }
  }

  /** Caching a file's fresh parse keeps the cache sound. */
  lemma {:induction false} UpsertKeepsSound(entries: Entries, fs: FileSystem, hash: Content -> Digest, opts: ParseOptions, p: Path)
    requires Sound(entries, fs, hash, opts) && CanonicalInjective(fs)
    requires ParseFile(fs, p, opts).Ok? && Upsert(entries, fs, hash, p, ParseFile(fs, p, opts).value).Ok?
    ensures Sound(Upsert(entries, fs, hash, p, ParseFile(fs, p, opts).value).value, fs, hash, opts)
  {
    var ts := ParseFile(fs, p, opts).value;
    var updated := Upsert(entries, fs, hash, p, ts).value;
    forall q | Lookup(updated, fs, hash, q).Some?
      ensures ParseFile(fs, q, opts) == Ok(Lookup(updated, fs, hash, q).value)
    {
      if fs.canonical[q] == fs.canonical[p] {
        SetThenGet(entries, fs, hash, p, ts);
      } else {
        UpsertLeavesOthers(entries, fs, hash, p, ts, q);
      }
    }
  }

  /**
   * With a sound cache, one step yields exactly what parsing the file
   * yields, and the cache stays sound, as long as the file canonicalises
   * whenever the cache is in use.
   */
  lemma {:induction false} FetchMatchesParse(fs: FileSystem, hash: Content -> Digest, opts: ParseOptions, noCache: bool, entries: Entries, p: Path)
    requires Sound(entries, fs, hash, opts) && CanonicalInjective(fs)
    requires noCache || p in fs.canonical
    ensures var r := Fetch(fs, hash, opts, noCache, entries, p);
            var direct := ParseFile(fs, p, opts);
            && (r.Ok? <==> direct.Ok?)
            && (r.Ok? ==> r.value.targets == direct.value && Sound(r.value.entries, fs, hash, opts))
            && (r.Err? ==> r.error == ParseFailed(direct.error))
  {
    var direct := ParseFile(fs, p, opts);
    if !noCache && Lookup(entries, fs, hash, p).None? && direct.Ok? {
      UpsertKeepsSound(entries, fs, hash, opts, p);
    }
  }

  /**
   * With a sound cache, the loop yields each file's parsed targets, exactly
   * as parsing every file directly does, and fails with the same error.
   */
  lemma {:induction false} WalkMatchesParse(fs: FileSystem, hash: Content -> Digest, opts: ParseOptions, noCache: bool, entries: Entries, files: seq<Path>)
    requires Sound(entries, fs, hash, opts) && CanonicalInjective(fs)
    requires noCache || forall k :: 0 <= k < |files| ==> files[k] in fs.canonical
    ensures var w := Walk(fs, hash, opts, noCache, entries, files);
            var direct := ParseEach(FileParser(fs, opts), files);
            && (w.Ok? <==> direct.Ok?)
            && (w.Ok? ==> w.value.lists == direct.value && Sound(w.value.entries, fs, hash, opts))
            && (w.Err? ==> w.error == ParseFailed(direct.error))
    decreases |files|
  {
    if files != [] {
      var front, last := files[..|files| - 1], files[|files| - 1];
      assert noCache || forall k :: 0 <= k < |front| ==> front[k] in fs.canonical by {
        if !noCache {
          forall k | 0 <= k < |front| ensures front[k] in fs.canonical { assert front[k] == files[k]; }
        }
      }
      WalkMatchesParse(fs, hash, opts, noCache, entries, front);
      var w := Walk(fs, hash, opts, noCache, entries, front);
      if w.Ok? {
        FetchMatchesParse(fs, hash, opts, noCache, w.value.entries, last);
        assert FileParser(fs, opts)(last) == ParseFile(fs, last, opts);
      }
    }
  }

  /** With `--no-cache` the loop never changes the cache and never marks it modified. */
  lemma {:induction false} WalkNoCache(fs: FileSystem, hash: Content -> Digest, opts: ParseOptions, entries: Entries, files: seq<Path>)
    ensures var w := Walk(fs, hash, opts, true, entries, files);
            w.Ok? ==> w.value.entries == entries && !w.value.modified
    decreases |files|
  {
    if files != [] {
      WalkNoCache(fs, hash, opts, entries, files[..|files| - 1]);
    }
  }

  /**
   * Over discovered files, `get_targets` answers what `parse_all_makefiles`
   * answers, given a sound cache (and files that canonicalise when the cache
   * is in use); it saves only when the cache is in use.
   */
  lemma {:induction false} GetTargetsMatchesParseAll(fs: FileSystem, hash: Content -> Digest, opts: ParseOptions, noCache: bool,
                                                    stored: Stored, makefiles: seq<Path>)
    requires Sound(InitialEntries(noCache, stored), fs, hash, opts) && CanonicalInjective(fs)
    requires noCache || forall k :: 0 <= k < |makefiles| ==> makefiles[k] in fs.canonical
    ensures var a := GetTargetsAnswer(fs, hash, opts, noCache, stored, None, makefiles);
            var direct := ParseAll(fs, makefiles, opts);
            && (a.result.Ok? <==> direct.Ok?)
            && (a.result.Ok? ==> a.result.value == direct.value)
            && (makefiles == [] ==> a.result == Err(NoMakefileIn))
            && (makefiles != [] && a.result.Err? ==> a.result.error == ParseFailed(direct.error))
            && (a.saveAttempted ==> !noCache)
  {
    WalkMatchesParse(fs, hash, opts, noCache, InitialEntries(noCache, stored), makefiles);
  }

  /** File `k` missed the cache at its turn: the walk reached it and `get` found no valid entry. */
  ghost predicate MissAt(fs: FileSystem, hash: Content -> Digest, opts: ParseOptions, noCache: bool, entries: Entries, files: seq<Path>, k: nat)
    requires k < |files|
  {
    var w := Walk(fs, hash, opts, noCache, entries, files[..k]);
    w.Ok? && Lookup(w.value.entries, fs, hash, files[k]).None?
  }

  /** A file's turn depends only on the files before it. */
  lemma MissAtPrefix(fs: FileSystem, hash: Content -> Digest, opts: ParseOptions, noCache: bool, entries: Entries, files: seq<Path>, k: nat)
    requires k < |files| - 1
    ensures MissAt(fs, hash, opts, noCache, entries, files, k) == MissAt(fs, hash, opts, noCache, entries, files[..|files| - 1], k)
  {
    assert files[..|files| - 1][..k] == files[..k];
  }

  /**
   * With the cache on, a walk that succeeds marks the cache modified exactly
   * when some file missed the cache at its turn (and was then parsed and set).
   */
  lemma {:induction false} WalkModified(fs: FileSystem, hash: Content -> Digest, opts: ParseOptions, entries: Entries, files: seq<Path>)
    requires Walk(fs, hash, opts, false, entries, files).Ok?
    ensures Walk(fs, hash, opts, false, entries, files).value.modified <==>
              exists k :: 0 <= k < |files| && MissAt(fs, hash, opts, false, entries, files, k)
    decreases |files|
  {
    if files != [] {
      var n := |files| - 1;
      var front := files[..n];
      WalkModified(fs, hash, opts, entries, front);
      forall k | 0 <= k < n
        ensures MissAt(fs, hash, opts, false, entries, files, k) == MissAt(fs, hash, opts, false, entries, front, k)
      {
        MissAtPrefix(fs, hash, opts, false, entries, files, k);
      }
      assert files[..n] == front;
      var pr := Walk(fs, hash, opts, false, entries, front).value;
      assert MissAt(fs, hash, opts, false, entries, files, n) <==> Lookup(pr.entries, fs, hash, files[n]).None?;
      if Walk(fs, hash, opts, false, entries, files).value.modified {
        if !Lookup(pr.entries, fs, hash, files[n]).None? {
          var k :| 0 <= k < n && MissAt(fs, hash, opts, false, entries, front, k);
          assert MissAt(fs, hash, opts, false, entries, files, k);
        }
      }
    }
  }

  /**
   * `get_targets` over discovered files attempts a save exactly when it
   * succeeds, the cache is on, and some file missed the cache.
   */
  lemma GetTargetsSaveDecision(fs: FileSystem, hash: Content -> Digest, opts: ParseOptions, noCache: bool,
                               stored: Stored, makefiles: seq<Path>)
    requires makefiles != []
    ensures var a := GetTargetsAnswer(fs, hash, opts, noCache, stored, None, makefiles);
            a.saveAttempted <==>
              && a.result.Ok? && !noCache
              && exists k :: 0 <= k < |makefiles| && MissAt(fs, hash, opts, false, InitialEntries(false, stored), makefiles, k)
  {
    var w := Walk(fs, hash, opts, noCache, InitialEntries(noCache, stored), makefiles);
    if w.Ok? && !noCache {
      WalkModified(fs, hash, opts, InitialEntries(noCache, stored), makefiles);
    }
  }

  /**
   * `get_targets_for_file` saves exactly when it succeeds after the file
   * missed the cache with the cache on, and then returns the fresh parse.
   */
  lemma ForFileSaveDecision(fs: FileSystem, hash: Content -> Digest, opts: ParseOptions, noCache: bool, stored: Stored, p: Path)
    ensures var a := ForFile(fs, hash, opts, noCache, stored, p);
            var miss := !noCache && Lookup(InitialEntries(noCache, stored), fs, hash, p).None?;
            && (a.saveAttempted <==> a.result.Ok? && miss)
            && (a.saveAttempted ==> a.result.value == ParseFile(fs, p, opts).value)
  {
  }

  /** With `--no-cache`, nothing is ever saved. */
  lemma {:induction false} NoCacheNeverSaves(fs: FileSystem, hash: Content -> Digest, opts: ParseOptions, stored: Stored,
                                            file: Option<Path>, makefiles: seq<Path>)
    ensures !GetTargetsAnswer(fs, hash, opts, true, stored, file, makefiles).saveAttempted
  {
    WalkNoCache(fs, hash, opts, map[], makefiles);
  }

  /**
   * For `--file`, the answer is that file's own parse in line order (no
   * sort), or its parse error, given a sound cache; a missing file is
   * reported first.
   */
  lemma {:induction false} ForFileMatchesParse(fs: FileSystem, hash: Content -> Digest, opts: ParseOptions, noCache: bool,
                                              stored: Stored, p: Path)
    requires Sound(InitialEntries(noCache, stored), fs, hash, opts) && CanonicalInjective(fs)
    requires noCache || p in fs.canonical
    ensures var a := GetTargetsAnswer(fs, hash, opts, noCache, stored, Some(p), []);
            var direct := ParseFile(fs, p, opts);
            && (p !in fs.existing ==> a == Answer(Err(FileNotFound(p)), false))
            && (p in fs.existing ==>
                  && (a.result.Ok? <==> direct.Ok?)
                  && (a.result.Ok? ==> a.result.value == direct.value)
                  && (a.result.Err? ==> a.result.error == ParseFailed(direct.error)))
  {
    FetchMatchesParse(fs, hash, opts, noCache, InitialEntries(noCache, stored), p);
  }

  // ---------------------------------------------------------------------
  // The imperative driver
  // ---------------------------------------------------------------------

  /** Once a prefix of the files fails, the whole walk fails the same way. */
  lemma {:induction false} WalkErrorSticks(fs: FileSystem, hash: Content -> Digest, opts: ParseOptions, noCache: bool, entries: Entries,
                                          files: seq<Path>, i: nat)
    requires i <= |files| && Walk(fs, hash, opts, noCache, entries, files[..i]).Err?
    ensures Walk(fs, hash, opts, noCache, entries, files) == Walk(fs, hash, opts, noCache, entries, files[..i])
    decreases |files| - i
  {
    if i < |files| {
      var front := files[..|files| - 1];
      assert front[..i] == files[..i];
      WalkErrorSticks(fs, hash, opts, noCache, entries, front, i);
    } else {
      assert files[..i] == files;
    }
  }

  /** After a successful walk over a prefix, the next file either fails the walk or extends it by its targets. */
  lemma WalkSnoc(fs: FileSystem, hash: Content -> Digest, opts: ParseOptions, noCache: bool, entries: Entries, files: seq<Path>, i: nat)
    requires i < |files| && Walk(fs, hash, opts, noCache, entries, files[..i]).Ok?
    ensures var pr := Walk(fs, hash, opts, noCache, entries, files[..i]).value;
            var f := Fetch(fs, hash, opts, noCache, pr.entries, files[i]);
            && (f.Err? ==> Walk(fs, hash, opts, noCache, entries, files[..i + 1]) == Err(f.error))
            && (f.Ok? ==> Walk(fs, hash, opts, noCache, entries, files[..i + 1])
                          == Ok(Progress(pr.lists + [f.value.targets], f.value.entries, pr.modified || f.value.stored)))
  {
    assert files[..i + 1][..i] == files[..i];
  }

  /** `Cache::load().unwrap_or_else(|_| Cache::new())`, or a fresh cache with `--no-cache`. */
  method OpenCache(noCache: bool, stored: Stored) returns (cache: Cache)
    ensures fresh(cache) && cache.entries == InitialEntries(noCache, stored)
  {
    if noCache {
      cache := new Cache();
      return;
    }
    var loaded := Cache.Load(stored);
    if loaded.Ok? {
      cache := loaded.value;
    } else {
      cache := new Cache();
    }
  }

  /** One file of the loop, on the cache object. */
  method FetchInto(cache: Cache, fs: FileSystem, hash: Content -> Digest, opts: ParseOptions, noCache: bool, p: Path)
      returns (r: Result<seq<Target>, DriverError>, stored: bool)
    modifies cache
    ensures var f := Fetch(fs, hash, opts, noCache, old(cache.entries), p);
            && (r.Ok? <==> f.Ok?)
            && (r.Ok? ==> r.value == f.value.targets && cache.entries == f.value.entries && stored == f.value.stored)
            && (r.Err? ==> r.error == f.error)
  {
    stored := false;
    if noCache {
      var parsed := ParseMakefile(fs, p, opts);
      if parsed.Err? {
        return Err(ParseFailed(parsed.error)), false;
      }
      return Ok(parsed.value), false;
    }
    var cached := cache.Get(fs, hash, p);
    if cached.Some? {
      return Ok(cached.value), false;
    }
    var parsed := ParseMakefile(fs, p, opts);
    if parsed.Err? {
      return Err(ParseFailed(parsed.error)), false;
    }
    var setResult := cache.Set(fs, hash, p, parsed.value);
    if setResult.Err? {
      return Err(CacheSetFailed(setResult.error)), false;
    }
    return Ok(parsed.value), true;
  }

  /** `get_targets_for_file`. */
  method GetTargetsForFile(fs: FileSystem, hash: Content -> Digest, opts: ParseOptions, noCache: bool, stored: Stored, p: Path)
      returns (a: Answer)
    ensures a == ForFile(fs, hash, opts, noCache, stored, p)
  {
    var cache := OpenCache(noCache, stored);
    var r, saved := FetchInto(cache, fs, hash, opts, noCache, p);
    return Answer(r, r.Ok? && saved);
  }

  /**
   * The loop of `get_targets` over the discovered makefiles on an open
   * cache: it stops at the first file that fails, and otherwise merges the
   * per-file lists (first file wins a name) and reports whether any file
   * was stored in the cache.
   */
  method FetchAll(cache: Cache, fs: FileSystem, hash: Content -> Digest, opts: ParseOptions, noCache: bool, makefiles: seq<Path>)
      returns (r: Result<(seq<Target>, bool), DriverError>)
    modifies cache
    ensures var w := Walk(fs, hash, opts, noCache, old(cache.entries), makefiles);
            && (r.Ok? <==> w.Ok?)
            && (r.Ok? ==> r.value == (MergeAll(w.value.lists), w.value.modified))
            && (r.Err? ==> r.error == w.error)
  {
    ghost var entries0 := cache.entries;
    var allTargets: seq<Target> := [];
    var seenNames: set<string> := {};
    var cacheModified := false;
    ghost var lists: seq<seq<Target>> := [];
    for i := 0 to |makefiles|
      invariant Walk(fs, hash, opts, noCache, entries0, makefiles[..i]) == Ok(Progress(lists, cache.entries, cacheModified))
      invariant allTargets == MergeAll(lists) && seenNames == Names(allTargets)
    {
      WalkSnoc(fs, hash, opts, noCache, entries0, makefiles, i);
      var targets, stored := FetchInto(cache, fs, hash, opts, noCache, makefiles[i]);
      if targets.Err? {
        WalkErrorSticks(fs, hash, opts, noCache, entries0, makefiles, i + 1);
        return Err(targets.error);
      }
      cacheModified := cacheModified || stored;
      allTargets, seenNames := AppendNew(allTargets, seenNames, targets.value);
      MergeAllSnoc(lists, targets.value);
      lists := lists + [targets.value];
    }
    assert makefiles[..|makefiles|] == makefiles;
    return Ok((allTargets, cacheModified));
  }

  /** `get_targets`. */
  method GetTargets(fs: FileSystem, hash: Content -> Digest, opts: ParseOptions, noCache: bool, stored: Stored,
                    file: Option<Path>, makefiles: seq<Path>)
      returns (a: Answer)
    ensures a == GetTargetsAnswer(fs, hash, opts, noCache, stored, file, makefiles)
  {
    if file.Some? {
      if file.value !in fs.existing {
        return Answer(Err(FileNotFound(file.value)), false);
      }
      a := GetTargetsForFile(fs, hash, opts, noCache, stored, file.value);
      return;
    }
    if |makefiles| == 0 {
      return Answer(Err(NoMakefileIn), false);
    }
    var cache := OpenCache(noCache, stored);
    var r := FetchAll(cache, fs, hash, opts, noCache, makefiles);
    if r.Err? {
      return Answer(Err(r.error), false);
    }
    var allTargets := SortByName(r.value.0);
    return Answer(Ok(allTargets), r.value.1 && !noCache);
  }
}
