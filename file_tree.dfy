/**
  The part of the operating system the two scripts touch: which paths exist,
  what hashing a file yields, removing a file, and the `hash.json` cache file
  that keeps a digest map between runs. The directory walk itself is an input.
*/
module FileTree {
  import opened Wrappers
  import opened PosixPath
  import opened DigestMaps

  /**
    What stays fixed during one run: the directories, the paths the process may
    neither remove nor write (permissions, read-only media, a missing parent
    directory), and the hash that reading each regular file in full would give
    (None when reading fails).
  */
  datatype Environment = Environment(dirs: set<Path>, locked: set<Path>, content: Path -> Option<Digest>)

  /** os.path.exists: a regular file or a directory. */
  predicate Exists(env: Environment, files: set<Path>, p: Path)
  {
    p in files || p in env.dirs
  }

  /** compute_hash: the file's digest, or None when the path is not a readable regular file. */
  function HashOf(env: Environment, files: set<Path>, p: Path): Option<Digest>
  {
    if p in files then env.content(p) else None
  }

  /** compute_hash as a function of the path alone, for one state of the tree. */
  function HashWith(env: Environment, files: set<Path>): Path -> Option<Digest>
  {
    p => HashOf(env, files, p)
  }

  /** Whether os.remove succeeds. */
  predicate Removable(env: Environment, files: set<Path>, p: Path)
  {
    p in files && p !in env.locked
  }

  /** Whether open(p, 'w') succeeds. */
  predicate Writable(env: Environment, p: Path)
  {
    p !in env.dirs && p !in env.locked
  }

  /** The cache file of a root: os.path.join(root, "hash.json"). */
  function CachePath(root: Path): Path
  {
    Join(root, CacheName)
  }

  /** The cache file of a root is named `hash.json`, so no walk ever collects it. */
  lemma CachePathName(root: Path)
    ensures Basename(CachePath(root)) == CacheName
  {
    BasenameOfJoin(root, CacheName);
  }

  /** The walked paths that are not named `hash.json`, in walk order. */
  function WithoutCache(walk: seq<Path>): seq<Path>
  {
    if walk == [] then []
    else
      var p := walk[|walk| - 1];
      WithoutCache(walk[..|walk| - 1]) + (if Basename(p) == CacheName then [] else [p])
  }

  /**
    The collection loop of both scripts: keeps every walked path except those
    whose basename is `hash.json`, at any depth, in walk order.
  */
  method CollectFiles(walk: seq<Path>) returns (all: seq<Path>)
    ensures all == WithoutCache(walk)
    ensures forall p :: p in all <==> p in walk && Basename(p) != CacheName
  {
    all := [];
    var i := 0;
    while i < |walk|
      invariant 0 <= i <= |walk|
      invariant all == WithoutCache(walk[..i])
    {
      var fullPath := walk[i];
      assert walk[..i + 1][..i] == walk[..i];
      if Basename(fullPath) != CacheName {
        all := all + [fullPath];
      }
      i := i + 1;
    }
    assert walk[..i] == walk;
    forall p ensures p in all <==> p in walk && Basename(p) != CacheName {
      WithoutCacheMembers(walk, p);
    }
  }

  /** A path is collected exactly when it was walked and is not named `hash.json`. */
  lemma {:induction false} WithoutCacheMembers(walk: seq<Path>, p: Path)
    ensures p in WithoutCache(walk) <==> p in walk && Basename(p) != CacheName
  {
    if walk != [] {
      var init := walk[..|walk| - 1];
      WithoutCacheMembers(init, p);
      assert walk == init + [walk[|walk| - 1]];
    }
  }

  /** Collecting keeps distinct walks distinct. */
  lemma {:induction false} WithoutCacheDistinct(walk: seq<Path>)
    requires Distinct(walk)
    ensures Distinct(WithoutCache(walk))
  {
    if walk != [] {
      var init := walk[..|walk| - 1];
      assert Distinct(init);
      WithoutCacheDistinct(init);
      WithoutCacheMembers(init, walk[|walk| - 1]);
    }
  }

  /**
    Hashing a tree is blind to cache files: two states of the tree that differ
    only in files named `hash.json` give the same digest map for the same walk.
  */
  lemma {:induction false} FreshIgnoresCacheFiles(env: Environment, f1: set<Path>, f2: set<Path>, walk: seq<Path>)
    requires forall p :: Basename(p) != CacheName ==> (p in f1 <==> p in f2)
    ensures DigestMapOf(WithoutCache(walk), HashWith(env, f1)) == DigestMapOf(WithoutCache(walk), HashWith(env, f2))
  {
    forall p | p in WithoutCache(walk)
      ensures HashWith(env, f1)(p) == HashWith(env, f2)(p)
    {
      WithoutCacheMembers(walk, p);
    }
    SameHashSameMap(WithoutCache(walk), HashWith(env, f1), HashWith(env, f2));
  }

  lemma {:induction false} SameHashSameMap(files: seq<Path>, h1: Path -> Option<Digest>, h2: Path -> Option<Digest>)
    requires forall p :: p in files ==> h1(p) == h2(p)
    ensures DigestMapOf(files, h1) == DigestMapOf(files, h2)
  {
    if files != [] {
      var init := files[..|files| - 1];
      var p := files[|files| - 1];
      assert files == init + [p];
      SameHashSameMap(init, h1, h2);
      RecordStep(init, h1, p);
      RecordStep(init, h2, p);
    }
  }

  /**
    The file system as the scripts see it. `files` are the regular files;
    `caches` holds the digest map stored in each `hash.json` that json.load can
    read back (json.dump followed by json.load gives the same dict, keys in the
    same order), so a cache file missing from `caches` is unreadable.
  */
  class FileSystem {
    var files: set<Path>
    var caches: map<Path, DigestMap>
    const env: Environment

    /**
      Cached maps belong to existing files, and, being dictionaries read back
      from JSON, never hold a digest twice.
    */
    ghost predicate Valid()
      reads this
    {
      && caches.Keys <= files
      && files !! env.dirs
      && (forall p :: p in caches ==> Distinct(Keys(caches[p])))
    }

    constructor (env: Environment, files: set<Path>, caches: map<Path, DigestMap>)
      requires caches.Keys <= files && files !! env.dirs
      requires forall p :: p in caches ==> Distinct(Keys(caches[p]))
      ensures Valid()
      ensures this.env == env && this.files == files && this.caches == caches
    {
      this.env := env;
      this.files := files;
      this.caches := caches;
    }

    /**
      delete_file: os.remove, with a failure reported rather than raised.
      Only `p` can disappear; nothing else changes.
    */
    method DeleteFile(p: Path) returns (ok: bool)
      requires Valid()
      modifies this
      ensures Valid()
      ensures ok <==> Removable(env, old(files), p)
      ensures files == if ok then old(files) - {p} else old(files)
      ensures caches == if ok then old(caches) - {p} else old(caches)
    {
      ok := Removable(env, files, p);
      if ok {
        files := files - {p};
        caches := caches - {p};
      }
    }

    /** json.load of a cache file: the stored map, or None when it cannot be read back. */
    method LoadCache(p: Path) returns (r: Option<DigestMap>)
      ensures r.Some? <==> p in caches
      ensures r.Some? ==> r.value == caches[p]
    {
      r := if p in caches then Some(caches[p]) else None;
    }

    /** json.dump of a digest map into the cache file of `root`, overwriting what was there. */
    method WriteCache(root: Path, m: DigestMap) returns (ok: bool)
      requires Valid() && Distinct(Keys(m))
      modifies this
      ensures Valid()
      ensures ok <==> Writable(env, CachePath(root))
      ensures files == if ok then old(files) + {CachePath(root)} else old(files)
      ensures caches == if ok then old(caches)[CachePath(root) := m] else old(caches)
    {
      var p := CachePath(root);
      ok := Writable(env, p);
      if ok {
        files := files + {p};
        caches := caches[p := m];
      }
    }
  }
}
