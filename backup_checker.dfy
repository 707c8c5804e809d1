/**
  main.py: builds a digest map per tree (or reuses the tree's `hash.json`),
  reports which source files have no copy in the backup by content, and on
  request deletes the source files that do.
*/
module BackupChecker {
  import opened Wrappers
  import opened PosixPath
  import opened DigestMaps
  import opened FileTree

  /** Why a run stops early: json.load or open(..., 'w') raised on a cache file. */
  datatype Failure = CacheUnreadable(path: Path) | CacheUnwritable(path: Path)

  /** The digest map that hashing `walk` would build in the given state of the tree. */
  function Fresh(env: Environment, files: set<Path>, walk: seq<Path>): DigestMap
  {
    DigestMapOf(WithoutCache(walk), HashWith(env, files))
  }

  /**
    hash_files_in_directory: collects the walk, hashes it into a digest map and
    writes that map to the root's `hash.json`, replacing what was there.
  */
  method HashFilesInDirectory(fs: FileSystem, root: Path, walk: seq<Path>) returns (r: Result<DigestMap, Failure>)
    requires fs.Valid()
    modifies fs
    ensures fs.Valid()
    ensures r == if Writable(fs.env, CachePath(root)) then Success(Fresh(fs.env, old(fs.files), walk))
                 else Failure(CacheUnwritable(CachePath(root)))
    ensures fs.files == if r.Success? then old(fs.files) + {CachePath(root)} else old(fs.files)
    ensures fs.caches == if r.Success? then old(fs.caches)[CachePath(root) := r.value] else old(fs.caches)
  {
    var allFiles := CollectFiles(walk);
    var hashMap := BuildDigestMap(allFiles, HashWith(fs.env, fs.files));
    DigestOrderDistinct(allFiles, HashWith(fs.env, fs.files));
    var ok := fs.WriteCache(root, hashMap);
    r := if ok then Success(hashMap) else Failure(CacheUnwritable(CachePath(root)));
  }

  /** Where a root's digest map comes from. */
  datatype Plan = LoadCache | Rehash

  /**
    The per-root decision: the cache is loaded unless it is absent or the
    stripped, lower-cased answer to "update hash map?" is exactly "y".
  */
  function PlanFor(cacheExists: bool, answer: string): Plan
  {
    if cacheExists && Normalise(answer) != "y" then LoadCache else Rehash
  }

  /**
    The first phase for one root: Some(map) when the cache is loaded, None when
    the tree must be rehashed later, or the failure of json.load.
  */
  function Acquired(env: Environment, files: set<Path>, caches: map<Path, DigestMap>, root: Path, answer: string)
    : Result<Option<DigestMap>, Failure>
  {
    var cp := CachePath(root);
    match PlanFor(Exists(env, files, cp), answer)
    case Rehash => Success(None)
    case LoadCache => if cp in caches then Success(Some(caches[cp])) else Failure(CacheUnreadable(cp))
  }

  /** The map a root ends up with once its first phase succeeded: the loaded cache, or a fresh hash. */
  function MapFor(settled: Option<DigestMap>, env: Environment, files: set<Path>, walk: seq<Path>): DigestMap
  {
    if settled.Some? then settled.value else Fresh(env, files, walk)
  }

  /**
    The second phase of find_unbacked_files, given each root's first-phase
    outcome (None: rehash): the backup tree is rehashed first if needed, then
    the source tree; the first cache that cannot be written stops the run.
  */
  function Resolved(env: Environment, files: set<Path>, backupRoot: Path, sourceRoot: Path,
                    backupWalk: seq<Path>, sourceWalk: seq<Path>,
                    backupSettled: Option<DigestMap>, sourceSettled: Option<DigestMap>): Result<(DigestMap, DigestMap), Failure>
  {
    if backupSettled.None? && !Writable(env, CachePath(backupRoot)) then Failure(CacheUnwritable(CachePath(backupRoot)))
    else if sourceSettled.None? && !Writable(env, CachePath(sourceRoot)) then Failure(CacheUnwritable(CachePath(sourceRoot)))
    else Success((MapFor(backupSettled, env, files, backupWalk), MapFor(sourceSettled, env, files, sourceWalk)))
  }

  /**
    The two maps find_unbacked_files ends up with (backup, source), or the
    first failure: both decisions and loads come first, then the rehashing.
  */
  function Obtained(env: Environment, files: set<Path>, caches: map<Path, DigestMap>,
                    backupRoot: Path, sourceRoot: Path, backupWalk: seq<Path>, sourceWalk: seq<Path>,
                    backupAnswer: string, sourceAnswer: string): Result<(DigestMap, DigestMap), Failure>
  {
    var b := Acquired(env, files, caches, backupRoot, backupAnswer);
    var s := Acquired(env, files, caches, sourceRoot, sourceAnswer);
    if b.Failure? then Failure(b.error)
    else if s.Failure? then Failure(s.error)
    else Resolved(env, files, backupRoot, sourceRoot, backupWalk, sourceWalk, b.value, s.value)
  }

  /** Whether a root is rehashed (and its `hash.json` rewritten) once the first phase is over. */
  predicate Rehashes(env: Environment, files: set<Path>, caches: map<Path, DigestMap>, root: Path, answer: string)
  {
    Acquired(env, files, caches, root, answer) == Success(None)
  }

  /**
    Whether find_unbacked_files writes the backup's `hash.json`: both first
    phases succeed, the backup is to be rehashed, and its cache is writable.
  */
  predicate WritesBackup(env: Environment, files: set<Path>, caches: map<Path, DigestMap>,
                         backupRoot: Path, sourceRoot: Path, backupAnswer: string, sourceAnswer: string)
  {
    && Rehashes(env, files, caches, backupRoot, backupAnswer)
    && Acquired(env, files, caches, sourceRoot, sourceAnswer).Success?
    && Writable(env, CachePath(backupRoot))
  }

  /**
    A root's map is the stored cache, verbatim, exactly when `hash.json` exists
    at the root and the normalised answer is not "y"; otherwise it is the fresh
    digest map of the root's walk. An unreadable cache that is chosen stops the run.
  */
  lemma CacheOrRehash(env: Environment, files: set<Path>, caches: map<Path, DigestMap>,
                      root: Path, walk: seq<Path>, answer: string)
    ensures Acquired(env, files, caches, root, answer).Failure? <==>
      Exists(env, files, CachePath(root)) && Normalise(answer) != "y" && CachePath(root) !in caches
    ensures Acquired(env, files, caches, root, answer).Success? && Exists(env, files, CachePath(root)) && Normalise(answer) != "y" ==>
      MapFor(Acquired(env, files, caches, root, answer).value, env, files, walk) == caches[CachePath(root)]
    ensures !(Exists(env, files, CachePath(root)) && Normalise(answer) != "y") ==>
      MapFor(Acquired(env, files, caches, root, answer).value, env, files, walk) == Fresh(env, files, walk)
  {
  }

  lemma NormalisedYesLength()
    ensures |Normalise("yes")| == 3
  {
    assert TrimStart("yes") == "yes";
    assert TrimEnd("yes") == "yes";
  }

  lemma NormalisedPaddedY()
    ensures Normalise(" Y\n") == "y"
  {
    assert TrimStart(" Y\n") == "Y\n" by {
      assert " Y\n"[1..] == "Y\n";
    }
    assert TrimEnd("Y\n") == "Y" by {
      assert "Y\n"[..1] == "Y";
    }
  }

  /**
    Only an answer that normalises to exactly "y" asks for a rehash: "yes"
    keeps the existing cache, while " Y" followed by a newline rehashes.
  */
  lemma YesKeepsCache()
    ensures PlanFor(true, "yes") == LoadCache
    ensures PlanFor(true, " Y\n") == Rehash
  {
    NormalisedYesLength();
    NormalisedPaddedY();
  }

  /** The decision and cache load for one root, the first phase of find_unbacked_files. */
  method SettleRoot(fs: FileSystem, root: Path, answer: string) returns (r: Result<Option<DigestMap>, Failure>)
    ensures r == Acquired(fs.env, fs.files, fs.caches, root, answer)
  {
    r := Success(None);
    var hashPath := CachePath(root);
    if Exists(fs.env, fs.files, hashPath) {
      var response := Normalise(answer);
      if response != "y" {
        var loaded := fs.LoadCache(hashPath);
        r := if loaded.Some? then Success(loaded) else Failure(CacheUnreadable(hashPath));
      }
    }
  }

  /** The cache file at `p` is present, readable and holding the same map in the second state iff it was in the first. */
  ghost predicate CacheKept(p: Path, files0: set<Path>, caches0: map<Path, DigestMap>,
                            files1: set<Path>, caches1: map<Path, DigestMap>)
  {
    && (p in files1 <==> p in files0)
    && (p in caches1 <==> p in caches0)
    && (p in caches1 ==> caches1[p] == caches0[p])
  }

  /**
    The rehashing phase of find_unbacked_files: each root whose first phase
    gave no map is hashed afresh and its `hash.json` rewritten.
  */
  method ResolveMaps(fs: FileSystem, backupRoot: Path, sourceRoot: Path,
                     backupWalk: seq<Path>, sourceWalk: seq<Path>,
                     backupSettled: Option<DigestMap>, sourceSettled: Option<DigestMap>)
    returns (r: Result<(DigestMap, DigestMap), Failure>)
    requires fs.Valid()
    modifies fs
    ensures fs.Valid()
    ensures r == Resolved(fs.env, old(fs.files), backupRoot, sourceRoot, backupWalk, sourceWalk, backupSettled, sourceSettled)
    ensures old(fs.files) <= fs.files <= old(fs.files) + {CachePath(backupRoot), CachePath(sourceRoot)}
    ensures forall p :: p != CachePath(backupRoot) && p != CachePath(sourceRoot) ==>
      CacheKept(p, old(fs.files), old(fs.caches), fs.files, fs.caches)
    // The backup's cache is written iff it is rehashed and writable; the source's iff it is rehashed and the run succeeds.
    ensures !(backupSettled.None? && Writable(fs.env, CachePath(backupRoot))) && !(r.Success? && sourceSettled.None?) ==>
      fs.files == old(fs.files) && fs.caches == old(fs.caches)
    ensures CachePath(backupRoot) != CachePath(sourceRoot) && !(backupSettled.None? && Writable(fs.env, CachePath(backupRoot))) ==>
      CacheKept(CachePath(backupRoot), old(fs.files), old(fs.caches), fs.files, fs.caches)
    ensures CachePath(backupRoot) != CachePath(sourceRoot) && !(r.Success? && sourceSettled.None?) ==>
      CacheKept(CachePath(sourceRoot), old(fs.files), old(fs.caches), fs.files, fs.caches)
    ensures (backupSettled.None? && Writable(fs.env, CachePath(backupRoot))
             && (CachePath(backupRoot) != CachePath(sourceRoot) || sourceSettled.Some?)) ==>
      CachePath(backupRoot) in fs.caches && fs.caches[CachePath(backupRoot)] == Fresh(fs.env, old(fs.files), backupWalk)
    ensures r.Success? && sourceSettled.None? ==>
      CachePath(sourceRoot) in fs.caches && fs.caches[CachePath(sourceRoot)] == r.value.1
  {
    ghost var files0 := fs.files;
    var backupFinal: DigestMap;
    if backupSettled.Some? {
      backupFinal := backupSettled.value;
    } else {
      var hashed := HashFilesInDirectory(fs, backupRoot, backupWalk);
      if hashed.Failure? {
        r := Failure(hashed.error);
        return;
      }
      backupFinal := hashed.value;
    }
    var sourceFinal: DigestMap;
    if sourceSettled.Some? {
      sourceFinal := sourceSettled.value;
    } else {
      ghost var files1 := fs.files;
      var hashed := HashFilesInDirectory(fs, sourceRoot, sourceWalk);
      if hashed.Failure? {
        r := Failure(hashed.error);
        return;
      }
      CachePathName(backupRoot);
      FreshIgnoresCacheFiles(fs.env, files1, files0, sourceWalk);
      sourceFinal := hashed.value;
    }
    r := Success((backupFinal, sourceFinal));
  }

  /**
    find_unbacked_files: settles each root's map (cache or rehash), then
    classifies every source path as missing from or present in the backup by
    digest. The ghost results are the two maps the classification used.
  */
  method FindUnbackedFiles(fs: FileSystem, backupRoot: Path, sourceRoot: Path,
                           backupWalk: seq<Path>, sourceWalk: seq<Path>,
                           backupAnswer: string, sourceAnswer: string)
    returns (r: Result<(seq<Path>, seq<Path>), Failure>, ghost backupMap: DigestMap, ghost sourceMap: DigestMap)
    requires fs.Valid()
    modifies fs
    ensures fs.Valid()
    ensures var o := Obtained(fs.env, old(fs.files), old(fs.caches), backupRoot, sourceRoot,
                              backupWalk, sourceWalk, backupAnswer, sourceAnswer);
      && (o.Failure? ==> r == Failure(o.error))
      && (o.Success? ==> (backupMap, sourceMap) == o.value
                         && r == Success((MissingOf(sourceMap, backupMap), BackedUpOf(sourceMap, backupMap))))
    // Only the two cache files may appear, and no other cache changes.
    ensures old(fs.files) <= fs.files <= old(fs.files) + {CachePath(backupRoot), CachePath(sourceRoot)}
    ensures forall p :: p != CachePath(backupRoot) && p != CachePath(sourceRoot) ==>
      CacheKept(p, old(fs.files), old(fs.caches), fs.files, fs.caches)
    // The backup's cache is written iff both first phases succeed, the backup is rehashed and the
    // cache is writable; the source's iff the source is rehashed and the run succeeds.
    ensures !WritesBackup(fs.env, old(fs.files), old(fs.caches), backupRoot, sourceRoot, backupAnswer, sourceAnswer)
            && !(r.Success? && Rehashes(fs.env, old(fs.files), old(fs.caches), sourceRoot, sourceAnswer)) ==>
      fs.files == old(fs.files) && fs.caches == old(fs.caches)
    ensures CachePath(backupRoot) != CachePath(sourceRoot)
            && !WritesBackup(fs.env, old(fs.files), old(fs.caches), backupRoot, sourceRoot, backupAnswer, sourceAnswer) ==>
      CacheKept(CachePath(backupRoot), old(fs.files), old(fs.caches), fs.files, fs.caches)
    ensures CachePath(backupRoot) != CachePath(sourceRoot)
            && !(r.Success? && Rehashes(fs.env, old(fs.files), old(fs.caches), sourceRoot, sourceAnswer)) ==>
      CacheKept(CachePath(sourceRoot), old(fs.files), old(fs.caches), fs.files, fs.caches)
    // A rehashed tree's cache holds its fresh map, the map the classification used.
    ensures (WritesBackup(fs.env, old(fs.files), old(fs.caches), backupRoot, sourceRoot, backupAnswer, sourceAnswer)
             && (CachePath(backupRoot) != CachePath(sourceRoot)
                 || !Rehashes(fs.env, old(fs.files), old(fs.caches), sourceRoot, sourceAnswer))) ==>
      CachePath(backupRoot) in fs.caches && fs.caches[CachePath(backupRoot)] == Fresh(fs.env, old(fs.files), backupWalk)
    ensures (r.Success? && Rehashes(fs.env, old(fs.files), old(fs.caches), sourceRoot, sourceAnswer)) ==>
      CachePath(sourceRoot) in fs.caches && fs.caches[CachePath(sourceRoot)] == sourceMap
  {
    backupMap, sourceMap := [], [];

    // Backup hash decision, then source hash decision.
    var backupHashes := SettleRoot(fs, backupRoot, backupAnswer);
    if backupHashes.Failure? {
      r := Failure(backupHashes.error);
      return;
    }
    var sourceHashes := SettleRoot(fs, sourceRoot, sourceAnswer);
    if sourceHashes.Failure? {
      r := Failure(sourceHashes.error);
      return;
    }

    // Slow operations, only where needed.
    var maps := ResolveMaps(fs, backupRoot, sourceRoot, backupWalk, sourceWalk, backupHashes.value, sourceHashes.value);
    if maps.Failure? {
      r := Failure(maps.error);
      return;
    }
    backupMap, sourceMap := maps.value.0, maps.value.1;
    var missing, backedUp := Classify(maps.value.1, maps.value.0);
    r := Success((missing, backedUp));
  }

  /**
    The deletion step of the script for `--delete_backed`: nothing is attempted
    unless the normalised confirmation is exactly "confirm"; then every
    backed-up path is attempted once, in order, and a failed removal does not
    stop the rest. outcomes[i] says whether the i-th removal succeeded.
  */
  method DeleteBackedUp(fs: FileSystem, backedUp: seq<Path>, answer: string) returns (outcomes: seq<bool>)
    requires fs.Valid()
    modifies fs
    ensures fs.Valid()
    ensures Normalise(answer) != "confirm" ==>
      outcomes == [] && fs.files == old(fs.files) && fs.caches == old(fs.caches)
    ensures Normalise(answer) == "confirm" ==>
      && |outcomes| == |backedUp|
      && (forall i :: 0 <= i < |backedUp| ==>
            outcomes[i] == (Removable(fs.env, old(fs.files), backedUp[i]) && backedUp[i] !in backedUp[..i]))
      && fs.files == old(fs.files) - (set p | p in backedUp && p !in fs.env.locked)
      && fs.caches == old(fs.caches) - (set p | p in backedUp && p !in fs.env.locked)
  {
    outcomes := [];
    var confirm := Normalise(answer);
    if confirm == "confirm" {
      var i := 0;
      while i < |backedUp|
        invariant 0 <= i <= |backedUp|
        invariant fs.Valid()
        invariant |outcomes| == i
        invariant forall k :: 0 <= k < i ==>
          outcomes[k] == (Removable(fs.env, old(fs.files), backedUp[k]) && backedUp[k] !in backedUp[..k])
        invariant fs.files == old(fs.files) - (set p | p in backedUp[..i] && p !in fs.env.locked)
        invariant fs.caches == old(fs.caches) - (set p | p in backedUp[..i] && p !in fs.env.locked)
      {
        var file := backedUp[i];
        var ok := fs.DeleteFile(file);
        assert backedUp[..i + 1] == backedUp[..i] + [file];
        outcomes := outcomes + [ok];
        i := i + 1;
      }
      assert backedUp[..i] == backedUp;
    }
  }
}
