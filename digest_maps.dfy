/**
  The digest map of main.py: a Python dict from hex digest to the list of paths
  with that content, kept here as its entries in insertion order, because the
  order of a dict's items decides the order of the reports built from it.
*/
module DigestMaps {
  import opened Wrappers
  import opened PosixPath

  /** A hex-encoded SHA-256 digest, as hashlib's hexdigest returns it. */
  type Digest = string

  /** One item of a digest map: a digest and the paths recorded under it. */
  datatype Entry = Entry(digest: Digest, paths: seq<Path>)

  /** A dict from digest to path list, as its items in insertion order. */
  type DigestMap = seq<Entry>

  /** Python truthiness of a hash result (`if file_hash:`): neither None nor the empty string. */
  predicate Truthy(h: Option<Digest>)
  {
    h.Some? && h.value != ""
  }

  predicate Distinct<T(==)>(s: seq<T>)
  {
    forall i, j :: 0 <= i < j < |s| ==> s[i] != s[j]
  }

  /** The keys of a dict, in insertion order. */
  function Keys(m: DigestMap): seq<Digest>
  {
    seq(|m|, j requires 0 <= j < |m| => m[j].digest)
  }

  /** The position of `d` in `ks`, or |ks| when it is absent. */
  function IndexOf(ks: seq<Digest>, d: Digest): (k: nat)
    ensures k <= |ks|
    ensures k < |ks| ==> ks[k] == d
    ensures forall j :: 0 <= j < k ==> ks[j] != d
  {
    if ks == [] then 0 else if ks[0] == d then 0 else 1 + IndexOf(ks[1..], d)
  }

  /** All paths of a dict's lists, item after item. */
  function Flatten(m: DigestMap): seq<Path>
  {
    if m == [] then [] else Flatten(m[..|m| - 1]) + m[|m| - 1].paths
  }

  // ---------------------------------------------------------------------------
  // What hashing a walk should produce, stated without the loop.

  /** The walked paths whose hash succeeded, in walk order. */
  function Hashed(files: seq<Path>, hash: Path -> Option<Digest>): seq<Path>
  {
    if files == [] then []
    else
      var p := files[|files| - 1];
      Hashed(files[..|files| - 1], hash) + (if Truthy(hash(p)) then [p] else [])
  }

  /** The walked paths whose hash succeeded with digest `d`, in walk order. */
  function Bucket(files: seq<Path>, hash: Path -> Option<Digest>, d: Digest): seq<Path>
  {
    if files == [] then []
    else
      var p := files[|files| - 1];
      Bucket(files[..|files| - 1], hash, d) + (if Truthy(hash(p)) && hash(p).value == d then [p] else [])
  }

  /** The digests met in the walk, each once, in the order they were first met. */
  function DigestOrder(files: seq<Path>, hash: Path -> Option<Digest>): seq<Digest>
  {
    if files == [] then []
    else
      var ks := DigestOrder(files[..|files| - 1], hash);
      var h := hash(files[|files| - 1]);
      if Truthy(h) && h.value !in ks then ks + [h.value] else ks
  }

  /** The digest map of a walk: one item per digest met, holding that digest's bucket. */
  function DigestMapOf(files: seq<Path>, hash: Path -> Option<Digest>): DigestMap
  {
    var ks := DigestOrder(files, hash);
    seq(|ks|, j requires 0 <= j < |ks| => Entry(ks[j], Bucket(files, hash, ks[j])))
  }

  /** One iteration of the hashing loop: the dict update for the path `p` with hash result `h`. */
  function Record(m: DigestMap, h: Option<Digest>, p: Path): DigestMap
  {
    if !Truthy(h) then m
    else
      var k := IndexOf(Keys(m), h.value);
      if k == |m| then m + [Entry(h.value, [p])]
      else m[k := Entry(h.value, m[k].paths + [p])]
  }

  // ---------------------------------------------------------------------------
  // The hashing loop of hash_files_in_directory.

  /**
    Hashes every collected path and files it under its digest; a path whose
    hash failed is left out. The result is the digest map of the walk.
  */
  method BuildDigestMap(files: seq<Path>, hash: Path -> Option<Digest>) returns (m: DigestMap)
    ensures m == DigestMapOf(files, hash)
    ensures Keys(m) == DigestOrder(files, hash)
  {
    m := [];
    var i := 0;
    while i < |files|
      invariant 0 <= i <= |files|
      invariant m == DigestMapOf(files[..i], hash)
    {
      var p := files[i];
      var fileHash := hash(p);
      RecordStep(files[..i], hash, p);
      assert files[..i + 1] == files[..i] + [p];
      if Truthy(fileHash) {
        var k := IndexOf(Keys(m), fileHash.value);
        if k == |m| {
          m := m + [Entry(fileHash.value, [])];
        }
        m := m[k := Entry(fileHash.value, m[k].paths + [p])];
      }
      i := i + 1;
    }
    assert files[..i] == files;
  }

  // ---------------------------------------------------------------------------
  // Facts about the specification functions.

  lemma {:induction false} BucketOfUnmet(files: seq<Path>, hash: Path -> Option<Digest>, d: Digest)
    requires d !in DigestOrder(files, hash)
    ensures Bucket(files, hash, d) == []
  {
    if files != [] {
      BucketOfUnmet(files[..|files| - 1], hash, d);
    }
  }

  /** Extending the walk by one path changes the digest map exactly as one loop iteration does. */
  lemma RecordStep(files: seq<Path>, hash: Path -> Option<Digest>, p: Path)
    ensures DigestMapOf(files + [p], hash) == Record(DigestMapOf(files, hash), hash(p), p)
  {
    var s := files + [p];
    assert s[..|s| - 1] == files;
    var m := DigestMapOf(files, hash);
    var m' := DigestMapOf(s, hash);
    var ks := DigestOrder(files, hash);
    var h := hash(p);
    assert Keys(m) == ks;
    forall d | !(Truthy(h) && h.value == d)
      ensures Bucket(s, hash, d) == Bucket(files, hash, d)
    {
    }
    if Truthy(h) {
      var k := IndexOf(Keys(m), h.value);
      assert Bucket(s, hash, h.value) == Bucket(files, hash, h.value) + [p];
      if k == |m| {
        assert h.value !in ks;
        BucketOfUnmet(files, hash, h.value);
        var r := m + [Entry(h.value, [p])];
        assert |m'| == |r|;
        forall j | 0 <= j < |r| ensures m'[j] == r[j] {
          if j < |m| {
            DigestOrderDistinct(s, hash);
          }
        }
      } else {
        var r := m[k := Entry(h.value, m[k].paths + [p])];
        assert DigestOrder(s, hash) == ks;
        assert |m'| == |r|;
        forall j | 0 <= j < |r| ensures m'[j] == r[j] {
          if j != k {
            DigestOrderDistinct(files, hash);
          }
        }
      }
    } else {
      assert DigestOrder(s, hash) == ks;
      assert |m'| == |m|;
      forall j | 0 <= j < |m| ensures m'[j] == m[j] {
      }
    }
  }

  /** Every key of a walk's digest map holds a non-empty list. */
  lemma {:induction false} BucketsNonEmpty(files: seq<Path>, hash: Path -> Option<Digest>)
    ensures forall e :: e in DigestMapOf(files, hash) ==> e.paths != []
  {
    if files != [] {
      var init := files[..|files| - 1];
      BucketsNonEmpty(init, hash);
      forall e | e in DigestMapOf(files, hash) ensures e.paths != [] {
        var ks := DigestOrder(files, hash);
        var j :| 0 <= j < |ks| && e == Entry(ks[j], Bucket(files, hash, ks[j]));
        if ks[j] in DigestOrder(init, hash) {
          var i :| 0 <= i < |DigestOrder(init, hash)| && DigestOrder(init, hash)[i] == ks[j];
          assert DigestMapOf(init, hash)[i] in DigestMapOf(init, hash);
        }
      }
    }
  }

  /** A dict never holds the same key twice. */
  lemma {:induction false} DigestOrderDistinct(files: seq<Path>, hash: Path -> Option<Digest>)
    ensures Distinct(DigestOrder(files, hash))
  {
    if files != [] {
      DigestOrderDistinct(files[..|files| - 1], hash);
    }
  }

  /** A path lies in the bucket of `d` exactly when it was walked and hashed to `d`. */
  lemma {:induction false} BucketMembers(files: seq<Path>, hash: Path -> Option<Digest>, d: Digest, p: Path)
    ensures p in Bucket(files, hash, d) <==> p in files && Truthy(hash(p)) && hash(p).value == d
  {
    if files != [] {
      var init := files[..|files| - 1];
      BucketMembers(init, hash, d, p);
      assert files == init + [files[|files| - 1]];
    }
  }

  /** A digest is a key exactly when some walked path hashed to it. */
  lemma {:induction false} DigestOrderMembers(files: seq<Path>, hash: Path -> Option<Digest>, d: Digest)
    ensures d in DigestOrder(files, hash) <==> exists p :: p in files && Truthy(hash(p)) && hash(p).value == d
  {
    if files != [] {
      var init := files[..|files| - 1];
      DigestOrderMembers(init, hash, d);
      assert files == init + [files[|files| - 1]];
    }
  }

  lemma {:induction false} FlattenAppend(m: DigestMap, e: Entry)
    ensures Flatten(m + [e]) == Flatten(m) + e.paths
  {
    assert (m + [e])[..|m|] == m;
  }

  lemma {:induction false} FlattenExtend(m: DigestMap, k: nat, p: Path)
    requires k < |m|
    ensures multiset(Flatten(m[k := Entry(m[k].digest, m[k].paths + [p])])) == multiset(Flatten(m)) + multiset{p}
  {
    var m' := m[k := Entry(m[k].digest, m[k].paths + [p])];
    if k == |m| - 1 {
      assert m'[..|m'| - 1] == m[..|m| - 1];
    } else {
      var init := m[..|m| - 1];
      FlattenExtend(init, k, p);
      assert m'[..|m'| - 1] == init[k := Entry(init[k].digest, init[k].paths + [p])];
    }
  }

  /**
    The lists of a walk's digest map hold, between them, exactly the paths whose
    hash succeeded: no failed path, none twice, none lost.
  */
  lemma {:induction false} FlattenIsHashed(files: seq<Path>, hash: Path -> Option<Digest>)
    ensures multiset(Flatten(DigestMapOf(files, hash))) == multiset(Hashed(files, hash))
  {
    if files != [] {
      var init := files[..|files| - 1];
      var p := files[|files| - 1];
      assert files == init + [p];
      FlattenIsHashed(init, hash);
      RecordStep(init, hash, p);
      var m := DigestMapOf(init, hash);
      var h := hash(p);
      if Truthy(h) {
        var k := IndexOf(Keys(m), h.value);
        if k == |m| {
          FlattenAppend(m, Entry(h.value, [p]));
        } else {
          FlattenExtend(m, k, p);
        }
      }
    }
  }

  lemma {:induction false} HashedMembers(files: seq<Path>, hash: Path -> Option<Digest>, p: Path)
    ensures multiset(Hashed(files, hash))[p] == if Truthy(hash(p)) then multiset(files)[p] else 0
  {
    if files != [] {
      var init := files[..|files| - 1];
      HashedMembers(init, hash, p);
      assert files == init + [files[|files| - 1]];
    }
  }

  lemma {:induction false} DistinctCount(files: seq<Path>, p: Path)
    requires Distinct(files) && p in files
    ensures multiset(files)[p] == 1
  {
    var init := files[..|files| - 1];
    assert files == init + [files[|files| - 1]];
    if p == files[|files| - 1] {
      assert p !in init;
    } else {
      DistinctCount(init, p);
    }
  }

  /**
    Over a walk of distinct paths: each path whose hash succeeded appears exactly
    once in the whole map, and only in the list of its own digest; a path whose
    hash failed appears in none.
  */
  lemma EachPathOnce(files: seq<Path>, hash: Path -> Option<Digest>, p: Path)
    requires Distinct(files) && p in files
    ensures Truthy(hash(p)) ==> multiset(Flatten(DigestMapOf(files, hash)))[p] == 1
    ensures !Truthy(hash(p)) ==> p !in Flatten(DigestMapOf(files, hash))
    ensures forall e :: e in DigestMapOf(files, hash) && p in e.paths ==> Truthy(hash(p)) && e.digest == hash(p).value
  {
    FlattenIsHashed(files, hash);
    HashedMembers(files, hash, p);
    DistinctCount(files, p);
    forall e | e in DigestMapOf(files, hash) && p in e.paths
      ensures Truthy(hash(p)) && e.digest == hash(p).value
    {
      BucketMembers(files, hash, e.digest, p);
    }
  }

  /** The total length of all lists is the number of successful hashes. */
  lemma TotalLength(files: seq<Path>, hash: Path -> Option<Digest>)
    ensures |Flatten(DigestMapOf(files, hash))| == |Hashed(files, hash)|
  {
    FlattenIsHashed(files, hash);
    assert |multiset(Flatten(DigestMapOf(files, hash)))| == |multiset(Hashed(files, hash))|;
  }

  lemma {:induction false} BucketPrefix(files: seq<Path>, hash: Path -> Option<Digest>, d: Digest, x: nat)
    requires x < |files| && Truthy(hash(files[x])) && hash(files[x]).value == d
    ensures Bucket(files[..x + 1], hash, d) == Bucket(files[..x], hash, d) + [files[x]]
  {
    assert files[..x + 1][..x] == files[..x];
  }

  lemma {:induction false} BucketGrows(files: seq<Path>, hash: Path -> Option<Digest>, d: Digest, x: nat, y: nat)
    requires x <= y <= |files|
    ensures |Bucket(files[..x], hash, d)| <= |Bucket(files[..y], hash, d)|
    ensures Bucket(files[..y], hash, d)[..|Bucket(files[..x], hash, d)|] == Bucket(files[..x], hash, d)
  {
    if x < y {
      BucketGrows(files, hash, d, x, y - 1);
      assert files[..y][..y - 1] == files[..y - 1];
    }
  }

  /**
    Within one digest's list the paths keep walk order: if the walk met files[x]
    before files[y] and both hashed to `d`, files[x] sits at an earlier position
    of the bucket than files[y]; the position of files[x] is the number of
    earlier paths that hashed to `d`.
  */
  lemma BucketKeepsWalkOrder(files: seq<Path>, hash: Path -> Option<Digest>, d: Digest, x: nat, y: nat)
    requires x < y < |files|
    requires Truthy(hash(files[x])) && hash(files[x]).value == d
    requires Truthy(hash(files[y])) && hash(files[y]).value == d
    ensures |Bucket(files[..x], hash, d)| < |Bucket(files[..y], hash, d)| < |Bucket(files, hash, d)|
    ensures Bucket(files, hash, d)[|Bucket(files[..x], hash, d)|] == files[x]
    ensures Bucket(files, hash, d)[|Bucket(files[..y], hash, d)|] == files[y]
  {
    BucketPrefix(files, hash, d, x);
    BucketPrefix(files, hash, d, y);
    BucketGrows(files, hash, d, x + 1, y);
    BucketGrows(files, hash, d, y + 1, |files|);
    BucketGrows(files, hash, d, x + 1, |files|);
    assert files[..|files|] == files;
  }

  // ---------------------------------------------------------------------------
  // The output loop of find_unbacked_files.

  /** Whether `d` is a key of the backup dict (`file_hash in backup_hashes`). */
  predicate InBackup(backup: DigestMap, d: Digest)
  {
    d in Keys(backup)
  }

  /** The source paths whose digest is not a key of the backup, item after item. */
  function MissingOf(source: DigestMap, backup: DigestMap): seq<Path>
  {
    if source == [] then []
    else
      var e := source[|source| - 1];
      MissingOf(source[..|source| - 1], backup) + (if InBackup(backup, e.digest) then [] else e.paths)
  }

  /** The source paths whose digest is a key of the backup, item after item. */
  function BackedUpOf(source: DigestMap, backup: DigestMap): seq<Path>
  {
    if source == [] then []
    else
      var e := source[|source| - 1];
      BackedUpOf(source[..|source| - 1], backup) + (if InBackup(backup, e.digest) then e.paths else [])
  }

  /**
    Walks the source map item by item and path by path, sending each path to
    `missing` or `backedUp` by whether its digest is a key of the backup map.
  */
  method Classify(source: DigestMap, backup: DigestMap) returns (missing: seq<Path>, backedUp: seq<Path>)
    ensures missing == MissingOf(source, backup)
    ensures backedUp == BackedUpOf(source, backup)
    ensures multiset(missing) + multiset(backedUp) == multiset(Flatten(source))
  {
    missing, backedUp := [], [];
    var i := 0;
    while i < |source|
      invariant 0 <= i <= |source|
      invariant missing == MissingOf(source[..i], backup)
      invariant backedUp == BackedUpOf(source[..i], backup)
    {
      var e := source[i];
      var j := 0;
      while j < |e.paths|
        invariant 0 <= j <= |e.paths|
        invariant missing == MissingOf(source[..i], backup) + (if InBackup(backup, e.digest) then [] else e.paths[..j])
        invariant backedUp == BackedUpOf(source[..i], backup) + (if InBackup(backup, e.digest) then e.paths[..j] else [])
      {
        if e.digest !in Keys(backup) {
          missing := missing + [e.paths[j]];
        } else {
          backedUp := backedUp + [e.paths[j]];
        }
        assert e.paths[..j + 1] == e.paths[..j] + [e.paths[j]];
        j := j + 1;
      }
      assert source[..i + 1][..i] == source[..i];
      assert e.paths[..j] == e.paths;
      i := i + 1;
    }
    assert source[..i] == source;
    Partition(source, backup);
  }

  /**
    Every path of every source list lands in exactly one of the two outputs:
    together they are the source map's paths, counted with multiplicity.
  */
  lemma {:induction false} Partition(source: DigestMap, backup: DigestMap)
    ensures multiset(MissingOf(source, backup)) + multiset(BackedUpOf(source, backup)) == multiset(Flatten(source))
    ensures |MissingOf(source, backup)| + |BackedUpOf(source, backup)| == |Flatten(source)|
  {
    if source != [] {
      Partition(source[..|source| - 1], backup);
    }
    assert |multiset(MissingOf(source, backup)) + multiset(BackedUpOf(source, backup))| == |multiset(Flatten(source))|;
  }

  /** A path is reported missing exactly when it is listed under a source digest that the backup lacks. */
  lemma {:induction false} MissingByDigest(source: DigestMap, backup: DigestMap, p: Path)
    ensures p in MissingOf(source, backup) <==>
      exists j :: 0 <= j < |source| && p in source[j].paths && !InBackup(backup, source[j].digest)
  {
    if source != [] {
      var init := source[..|source| - 1];
      MissingByDigest(init, backup, p);
      if p in MissingOf(init, backup) {
        var j :| 0 <= j < |init| && p in init[j].paths && !InBackup(backup, init[j].digest);
        assert source[j] == init[j];
      }
      if exists j :: 0 <= j < |source| && p in source[j].paths && !InBackup(backup, source[j].digest) {
        var j :| 0 <= j < |source| && p in source[j].paths && !InBackup(backup, source[j].digest);
        if j < |init| { assert init[j] == source[j]; }
      }
    }
  }

  /** A path is reported backed up exactly when it is listed under a source digest that the backup has. */
  lemma {:induction false} BackedUpByDigest(source: DigestMap, backup: DigestMap, p: Path)
    ensures p in BackedUpOf(source, backup) <==>
      exists j :: 0 <= j < |source| && p in source[j].paths && InBackup(backup, source[j].digest)
  {
    if source != [] {
      var init := source[..|source| - 1];
      BackedUpByDigest(init, backup, p);
      if p in BackedUpOf(init, backup) {
        var j :| 0 <= j < |init| && p in init[j].paths && InBackup(backup, init[j].digest);
        assert source[j] == init[j];
      }
      if exists j :: 0 <= j < |source| && p in source[j].paths && InBackup(backup, source[j].digest) {
        var j :| 0 <= j < |source| && p in source[j].paths && InBackup(backup, source[j].digest);
        if j < |init| { assert init[j] == source[j]; }
      }
    }
  }

  /**
    Only the backup's digests matter, never its paths: two backup maps with the
    same keys classify every source map alike.
  */
  lemma {:induction false} OnlyBackupDigestsMatter(source: DigestMap, b1: DigestMap, b2: DigestMap)
    requires forall d :: InBackup(b1, d) <==> InBackup(b2, d)
    ensures MissingOf(source, b1) == MissingOf(source, b2)
    ensures BackedUpOf(source, b1) == BackedUpOf(source, b2)
  {
    if source != [] {
      OnlyBackupDigestsMatter(source[..|source| - 1], b1, b2);
    }
  }

  /**
    For a freshly hashed source tree: a walked path is missing
    exactly when its hash succeeded with a digest the backup lacks, backed up
    exactly when its hash succeeded with a digest the backup has, and never both.
  */
  lemma FreshClassification(files: seq<Path>, hash: Path -> Option<Digest>, backup: DigestMap, p: Path)
    ensures p in MissingOf(DigestMapOf(files, hash), backup) <==>
      p in files && Truthy(hash(p)) && !InBackup(backup, hash(p).value)
    ensures p in BackedUpOf(DigestMapOf(files, hash), backup) <==>
      p in files && Truthy(hash(p)) && InBackup(backup, hash(p).value)
    ensures !(p in MissingOf(DigestMapOf(files, hash), backup) && p in BackedUpOf(DigestMapOf(files, hash), backup))
  {
    var m := DigestMapOf(files, hash);
    MissingByDigest(m, backup, p);
    BackedUpByDigest(m, backup, p);
    forall j | 0 <= j < |m| && p in m[j].paths
      ensures p in files && Truthy(hash(p)) && m[j].digest == hash(p).value
    {
      BucketMembers(files, hash, m[j].digest, p);
    }
    if p in files && Truthy(hash(p)) {
      var d := hash(p).value;
      DigestOrderMembers(files, hash, d);
      var ks := DigestOrder(files, hash);
      var j :| 0 <= j < |ks| && ks[j] == d;
      BucketMembers(files, hash, d, p);
      assert p in m[j].paths;
    }
  }
}
