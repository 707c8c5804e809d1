/**
  remove_duplicates.py: in one tree, a file whose name ends in a copy number
  such as "photo (1).jpg" is deleted when a sibling without the number
  ("photo.jpg") exists and hashing both gives the same result.
*/
module DuplicateRemover {
  import opened Wrappers
  import opened PosixPath
  import opened DigestMaps
  import opened FileTree

  /** The ASCII digits, which are what `\d` matches in the names modelled here. */
  predicate IsDigit(c: char)
  {
    '0' <= c <= '9'
  }

  /**
    A file name (without extension) cut around its copy number: the name is
    base + " (" + number + ")" + tail, where the tail is empty or a single
    final newline (the regex anchor `$` also matches just before one).
  */
  datatype CopySuffix = CopySuffix(base: string, number: string, tail: string)

  function Spell(c: CopySuffix): string
  {
    c.base + " (" + c.number + ")" + c.tail
  }

  /** The shapes the pattern ` \(\d+\)$` can cut out: a non-empty digit run and an allowed tail. */
  predicate WellFormed(c: CopySuffix)
  {
    && c.number != []
    && (forall k :: 0 <= k < |c.number| ==> IsDigit(c.number[k]))
    && (c.tail == "" || c.tail == "\n")
  }

  /** The length of the run of digits at the end of s. */
  function DigitRun(s: string): (n: nat)
    ensures n <= |s|
  {
    if s == [] || !IsDigit(s[|s| - 1]) then 0 else DigitRun(s[..|s| - 1]) + 1
  }

  /** The digit run really is made of digits and cannot be extended to the left. */
  lemma {:induction false} DigitRunShape(s: string)
    ensures forall k :: |s| - DigitRun(s) <= k < |s| ==> IsDigit(s[k])
    ensures DigitRun(s) < |s| ==> !IsDigit(s[|s| - DigitRun(s) - 1])
  {
    if s != [] && IsDigit(s[|s| - 1]) {
      DigitRunShape(s[..|s| - 1]);
    }
  }

  /** Digits appended after a non-digit form exactly the final digit run. */
  lemma {:induction false} DigitRunOf(a: string, n: string)
    requires a != [] && !IsDigit(a[|a| - 1])
    requires forall k :: 0 <= k < |n| ==> IsDigit(n[k])
    ensures DigitRun(a + n) == |n|
  {
    if n == [] {
      assert a + n == a;
    } else {
      var init := n[..|n| - 1];
      assert (a + n)[..|a + n| - 1] == a + init;
      DigitRunOf(a, init);
    }
  }

  /**
    re.search(r" \(\d+\)$", filename): the copy number the name ends with, if
    any. Only one place can match: the ")" must be last (or just before a final
    newline) and the "(" must sit right before the digits that precede it.
  */
  function FindCopySuffix(stem: string): Option<CopySuffix>
  {
    if |stem| > 0 && stem[|stem| - 1] == '\n' then MatchBody(stem[..|stem| - 1], "\n")
    else MatchBody(stem, "")
  }

  /** The match in the name without its tail: a final ")" after the copy number. */
  function MatchBody(body: string, tail: string): Option<CopySuffix>
  {
    if |body| > 0 && body[|body| - 1] == ')' then MatchDigits(body[..|body| - 1], tail) else None
  }

  /** The match before the ")": the final digit run, preceded by " (". */
  function MatchDigits(digits: string, tail: string): Option<CopySuffix>
  {
    var n := DigitRun(digits);
    if n > 0 && |digits| - n >= 2 && digits[|digits| - n - 2] == ' ' && digits[|digits| - n - 1] == '(' then
      Some(CopySuffix(digits[..|digits| - n - 2], digits[|digits| - n..], tail))
    else None
  }

  lemma MatchDigitsSound(digits: string, tail: string)
    requires tail == "" || tail == "\n"
    ensures MatchDigits(digits, tail).Some? ==>
      && WellFormed(MatchDigits(digits, tail).value)
      && MatchDigits(digits, tail).value.base + " (" + MatchDigits(digits, tail).value.number == digits
      && MatchDigits(digits, tail).value.tail == tail
  {
    if MatchDigits(digits, tail).Some? {
      DigitRunShape(digits);
      var c := MatchDigits(digits, tail).value;
      assert digits == c.base + " (" + c.number;
    }
  }

  /** What the pattern cuts out is a copy number, and the pieces spell the name back. */
  lemma FindCopySuffixSound(stem: string)
    ensures FindCopySuffix(stem).Some? ==> WellFormed(FindCopySuffix(stem).value) && Spell(FindCopySuffix(stem).value) == stem
  {
    if |stem| > 0 && stem[|stem| - 1] == '\n' {
      MatchBodySound(stem[..|stem| - 1], "\n");
      assert stem == stem[..|stem| - 1] + "\n";
    } else {
      MatchBodySound(stem, "");
      assert stem == stem + "";
    }
  }

  lemma MatchBodySound(body: string, tail: string)
    requires tail == "" || tail == "\n"
    ensures MatchBody(body, tail).Some? ==>
      WellFormed(MatchBody(body, tail).value) && Spell(MatchBody(body, tail).value) == body + tail
  {
    if |body| > 0 && body[|body| - 1] == ')' {
      var digits := body[..|body| - 1];
      MatchDigitsSound(digits, tail);
      assert body == digits + ")";
    }
  }

  /**
    The pattern finds every copy number: a name spelled with one is always
    recognised and cut at exactly that place, so FindCopySuffix gives None only
    for names that carry no copy number at all.
  */
  lemma FindsEveryCopySuffix(c: CopySuffix)
    requires WellFormed(c)
    ensures FindCopySuffix(Spell(c)) == Some(c)
    ensures StripCopySuffix(Spell(c)) == Some(c.base + c.tail)
  {
    var stem := Spell(c);
    var body := c.base + " (" + c.number + ")";
    var digits := c.base + " (" + c.number;
    assert stem == body + c.tail;
    assert body == digits + ")";
    if c.tail == "\n" {
      assert stem[..|stem| - 1] == body;
    } else {
      assert stem == body;
    }
    assert body[..|body| - 1] == digits;
    FindsEveryCopyNumber(c);
  }

  lemma FindsEveryCopyNumber(c: CopySuffix)
    requires WellFormed(c)
    ensures MatchDigits(c.base + " (" + c.number, c.tail) == Some(c)
  {
    var digits := c.base + " (" + c.number;
    var open := c.base + " (";
    assert digits == open + c.number;
    DigitRunOf(open, c.number);
    var n := |c.number|;
    assert digits[|digits| - n - 2] == ' ';
    assert digits[|digits| - n - 1] == '(';
    assert digits[..|digits| - n - 2] == c.base;
    assert digits[|digits| - n..] == c.number;
  }

  /** re.sub(r" \(\d+\)$", '', filename): the name without its copy number, if it had one. */
  function StripCopySuffix(stem: string): Option<string>
  {
    match FindCopySuffix(stem)
    case None => None
    case Some(c) => Some(c.base + c.tail)
  }

  /**
    The sibling a path is compared with: same directory, the name with its copy
    number removed, same extension. None when the name has no copy number.
  */
  function Target(p: Path): Option<Path>
  {
    TargetIn(Dirname(p), Basename(p))
  }

  /**
    The compared sibling lies in the same directory and is never the file
    itself: its name is shorter by the copy number.
  */
  lemma TargetIsSibling(p: Path)
    ensures Target(p).Some? ==> Dirname(Target(p).value) == Dirname(p) && Target(p).value != p
  {
    var found := StrippedName(Basename(p));
    if found.Some? {
      var name := found.value;
      BasenameShape(p);
      StrippedNameShape(Basename(p));
      DirnameShape(p);
      DirnameOfJoin(Dirname(p), name);
      BasenameOfJoin(Dirname(p), name);
    }
  }

  /** The stripped name is a plain name again, and shorter by the copy number. */
  lemma StrippedNameShape(name: string)
    requires '/' !in name
    ensures StrippedName(name).Some? ==> '/' !in StrippedName(name).value && |StrippedName(name).value| < |name|
  {
    var parts := SplitExt(name);
    if FindCopySuffix(parts.0).Some? {
      var c := FindCopySuffix(parts.0).value;
      SplitExtParts(name);
      FindCopySuffixSound(parts.0);
      assert name == c.base + (" (" + c.number + ")") + c.tail + parts.1;
    }
  }

  /** RFind on a string that ends with the character sought. */
  lemma RFindLast(s: string, c: char)
    ensures RFind(s + [c], c) == |s|
  {
  }

  /** A character that is no part of a copy number and absent from the base is absent from the spelled name. */
  lemma NotInSpell(c: CopySuffix, ch: char)
    requires WellFormed(c) && c.tail == ""
    requires ch !in c.base && ch != ' ' && ch != '(' && ch != ')' && !IsDigit(ch)
    ensures ch !in Spell(c)
  {
    assert ch !in c.number;
    assert Spell(c) == c.base + (" (" + c.number + ")");
  }

  /** splitext of "base (n).ext": the extension is cut off the copy-numbered name. */
  lemma SplitCopyName(c: CopySuffix, ext: string)
    requires WellFormed(c) && c.tail == "" && IsExtension(ext)
    requires '/' !in c.base && (ext == [] ==> '.' !in c.base)
    ensures SplitExt(Spell(c) + ext) == (Spell(c), ext)
  {
    var name := Spell(c);
    var full := name + ext;
    if ext == [] {
      NotInSpell(c, '.');
      assert full == name;
      SplitExtNoDot(full);
    } else {
      NotInSpell(c, '/');
      var rest := ext[1..];
      assert full == (name + ['.']) + rest;
      RFindAppend(name + ['.'], rest, '.');
      RFindLast(name, '.');
      assert full[|c.base|] == ' ';
      SplitExtAtDot(full, |c.base|);
      assert full[..|name|] == name && full[|name|..] == ext;
    }
  }

  /** The name the compared sibling has: the copy number removed, the extension kept. */
  function StrippedName(name: string): Option<string>
  {
    var parts := SplitExt(name);
    match StripCopySuffix(parts.0)
    case None => None
    case Some(stem) => Some(stem + parts.1)
  }

  /** The compared sibling, given the directory and the file name. */
  function TargetIn(dir: Path, name: string): Option<Path>
  {
    match StrippedName(name)
    case None => None
    case Some(sibling) => Some(Join(dir, sibling))
  }

  /** In a named directory, "base (n).ext" targets "base.ext". */
  lemma CopyTargetIn(d: Path, c: CopySuffix, ext: string)
    requires WellFormed(c) && c.tail == "" && IsExtension(ext)
    requires '/' !in c.base && (ext == [] ==> '.' !in c.base)
    ensures TargetIn(d, Spell(c) + ext) == Some(Join(d, c.base + ext))
  {
    SplitCopyName(c, ext);
    FindsEveryCopySuffix(c);
    assert c.base + c.tail == c.base;
  }

  /**
    "photo (1).jpg" is compared with "photo.jpg" in the same directory: a
    copy-numbered name under any directory Dirname can return targets the same
    name without the number.
  */
  lemma CopyTarget(d: Path, c: CopySuffix, ext: string)
    requires IsDirname(d) && WellFormed(c) && c.tail == "" && IsExtension(ext)
    requires '/' !in c.base && (ext == [] ==> '.' !in c.base)
    ensures Target(Join(d, Spell(c) + ext)) == Some(Join(d, c.base + ext))
  {
    var name := Spell(c) + ext;
    NotInSpell(c, '/');
    assert '/' !in name;
    BasenameOfJoin(d, name);
    DirnameOfJoin(d, name);
    CopyTargetIn(d, c, ext);
  }

  /**
    The test the loop makes for one path in the current state of the tree: the
    path has a copy number, its sibling exists, and the two hash results are
    equal, as Python compares them (two failed hashes are equal).
  */
  predicate CallsDelete(env: Environment, files: set<Path>, p: Path)
  {
    match Target(p)
    case None => false
    case Some(t) => Exists(env, files, t) && HashOf(env, files, p) == HashOf(env, files, t)
  }

  /** The tree after a sweep, and the paths delete_file was called on, in order. */
  datatype Swept = Swept(files: set<Path>, attempted: seq<Path>)

  /** One turn of the loop: the tree and the attempts after testing p. */
  function Step(env: Environment, s: Swept, p: Path): Swept
  {
    if CallsDelete(env, s.files, p) then
      Swept(if Removable(env, s.files, p) then s.files - {p} else s.files, s.attempted + [p])
    else s
  }

  /**
    The loop of remove_duplicates over the collected paths: each path is
    tested against the tree as earlier deletions left it.
  */
  function Sweep(env: Environment, files: set<Path>, paths: seq<Path>): Swept
  {
    if paths == [] then Swept(files, [])
    else Step(env, Sweep(env, files, paths[..|paths| - 1]), paths[|paths| - 1])
  }

  lemma SweepLast(env: Environment, files: set<Path>, paths: seq<Path>, p: Path)
    ensures Sweep(env, files, paths + [p]) == Step(env, Sweep(env, files, paths), p)
  {
    assert (paths + [p])[..|paths|] == paths;
  }

  /**
    A sweep only deletes: every path that disappears was handed to delete_file,
    was not locked, and carries a copy number; every attempt is a swept path.
    So a file whose name has no copy number is never deleted.
  */
  lemma {:induction false} SweepDeletesOnlyCopies(env: Environment, files: set<Path>, paths: seq<Path>)
    ensures Sweep(env, files, paths).files <= files
    ensures forall q :: q in files - Sweep(env, files, paths).files ==>
      q in Sweep(env, files, paths).attempted && q !in env.locked
    ensures forall q :: q in Sweep(env, files, paths).attempted ==> q in paths && Target(q).Some?
  {
    if paths != [] {
      SweepDeletesOnlyCopies(env, files, paths[..|paths| - 1]);
    }
  }

  /** Over a walk without repeats, delete_file is called at most once per path. */
  lemma {:induction false} SweepAttemptsOnce(env: Environment, files: set<Path>, paths: seq<Path>)
    requires Distinct(paths)
    ensures Distinct(Sweep(env, files, paths).attempted)
  {
    if paths != [] {
      var init := paths[..|paths| - 1];
      assert Distinct(init);
      SweepAttemptsOnce(env, files, init);
      SweepDeletesOnlyCopies(env, files, init);
    }
  }

  /**
    One turn of the loop of remove_duplicates: the copy-number test, the
    existence test and the hash comparison, then delete_file when all pass.
  */
  method VisitPath(fs: FileSystem, fullPath: Path) returns (called: bool)
    requires fs.Valid()
    modifies fs
    ensures fs.Valid()
    ensures called == CallsDelete(fs.env, old(fs.files), fullPath)
    ensures fs.files == if called && Removable(fs.env, old(fs.files), fullPath) then old(fs.files) - {fullPath} else old(fs.files)
    ensures fs.caches == if called && Removable(fs.env, old(fs.files), fullPath) then old(fs.caches) - {fullPath} else old(fs.caches)
  {
    called := false;
    var fileHash := HashOf(fs.env, fs.files, fullPath);
    var newPath := Target(fullPath);
    if newPath.Some? && Exists(fs.env, fs.files, newPath.value) {
      var newHash := HashOf(fs.env, fs.files, newPath.value);
      if fileHash == newHash {
        var _ := fs.DeleteFile(fullPath);
        called := true;
      }
    }
  }

  /** The caches that survive are exactly those of the surviving files, unchanged. */
  ghost predicate CachesOfSurvivors(caches: map<Path, DigestMap>, before: map<Path, DigestMap>, files: set<Path>)
  {
    && (forall q :: q in caches <==> q in before && q in files)
    && (forall q :: q in caches ==> caches[q] == before[q])
  }

  /** The loop of remove_duplicates: every collected path is visited once, in order. */
  method SweepPaths(fs: FileSystem, all: seq<Path>) returns (attempted: seq<Path>)
    requires fs.Valid()
    modifies fs
    ensures fs.Valid()
    ensures Swept(fs.files, attempted) == Sweep(fs.env, old(fs.files), all)
    ensures CachesOfSurvivors(fs.caches, old(fs.caches), fs.files)
  {
    attempted := [];
    var i := 0;
    while i < |all|
      invariant 0 <= i <= |all|
      invariant fs.Valid()
      invariant Swept(fs.files, attempted) == Sweep(fs.env, old(fs.files), all[..i])
      invariant fs.files <= old(fs.files)
      invariant CachesOfSurvivors(fs.caches, old(fs.caches), fs.files)
    {
      ghost var before := Swept(fs.files, attempted);
      assert all[..i + 1] == all[..i] + [all[i]];
      SweepLast(fs.env, old(fs.files), all[..i], all[i]);
      var called := VisitPath(fs, all[i]);
      if called {
        attempted := attempted + [all[i]];
      }
      assert Swept(fs.files, attempted) == Step(fs.env, before, all[i]);
      i := i + 1;
    }
    assert all[..i] == all;
  }

  /**
    Deletions are seen by later tests, so the outcome depends on the walk order:
    when a copy and the sibling it is compared with are both deletable copies,
    visiting the copy first deletes it, while visiting the sibling first
    deletes the sibling and leaves the copy without anything to compare with.
  */
  lemma VisitOrderMatters(env: Environment, files: set<Path>, p: Path, q: Path)
    requires files !! env.dirs
    requires Target(p) == Some(q)
    requires CallsDelete(env, files, p) && Removable(env, files, p)
    requires CallsDelete(env, files, q) && Removable(env, files, q)
    ensures p in Sweep(env, files, [p, q]).attempted && p !in Sweep(env, files, [p, q]).files
    ensures p !in Sweep(env, files, [q, p]).attempted && q !in Sweep(env, files, [q, p]).files
  {
    CopyFirst(env, files, p, q);
    TargetIsSibling(p);
    SiblingFirst(env, files, p, q);
  }

  lemma CopyFirst(env: Environment, files: set<Path>, p: Path, q: Path)
    requires CallsDelete(env, files, p) && Removable(env, files, p)
    ensures p in Sweep(env, files, [p, q]).attempted && p !in Sweep(env, files, [p, q]).files
  {
    SweepLast(env, files, [], p);
    assert [] + [p] == [p];
    SweepLast(env, files, [p], q);
    assert [p] + [q] == [p, q];
  }

  lemma SiblingFirst(env: Environment, files: set<Path>, p: Path, q: Path)
    requires files !! env.dirs && p != q
    requires Target(p) == Some(q)
    requires CallsDelete(env, files, q) && Removable(env, files, q)
    ensures p !in Sweep(env, files, [q, p]).attempted && q !in Sweep(env, files, [q, p]).files
  {
    SweepLast(env, files, [], q);
    assert [] + [q] == [q];
    var first := Sweep(env, files, [q]);
    assert first == Swept(files - {q}, [q]);
    assert !CallsDelete(env, first.files, p);
    SweepLast(env, files, [q], p);
    assert [q] + [p] == [q, p];
  }

  /**
    remove_duplicates: collects every walked path not named `hash.json`, then
    sweeps them in walk order. The result lists the paths delete_file was
    called on; removals that fail leave the tree as it was.
  */
  method RemoveDuplicates(fs: FileSystem, walk: seq<Path>) returns (attempted: seq<Path>)
    requires fs.Valid()
    modifies fs
    ensures fs.Valid()
    ensures Swept(fs.files, attempted) == Sweep(fs.env, old(fs.files), WithoutCache(walk))
    ensures CachesOfSurvivors(fs.caches, old(fs.caches), fs.files)
    ensures forall q :: q in old(fs.files) - fs.files ==>
      q in attempted && q in walk && Basename(q) != CacheName && Target(q).Some? && q !in fs.env.locked
    ensures Distinct(walk) ==> Distinct(attempted)
  {
    var all := CollectFiles(walk);
    ghost var files0 := fs.files;
    attempted := SweepPaths(fs, all);
    SweepDeletesOnlyCopies(fs.env, files0, all);
    if Distinct(walk) {
      WithoutCacheDistinct(walk);
      SweepAttemptsOnce(fs.env, files0, all);
    }
  }

  /**
    As written, the equality test passes when both hashes fail: a copy-numbered
    file that cannot be read, next to a sibling that is a directory (or another
    unreadable file), is handed to delete_file although no content was compared.
  */
  lemma FailedHashesMatch(env: Environment, files: set<Path>, p: Path)
    requires files !! env.dirs
    requires p in files && env.content(p) == None
    requires Target(p).Some? && Target(p).value in env.dirs
    ensures CallsDelete(env, files, p)
    ensures HashOf(env, files, p) == None && Target(p).value !in files
  {
  }

  /** The evidently intended test: both hashes succeed and agree. */
  predicate CallsDeleteChecked(env: Environment, files: set<Path>, p: Path)
  {
    match Target(p)
    case None => false
    case Some(t) => Exists(env, files, t) && HashOf(env, files, p).Some? && HashOf(env, files, p) == HashOf(env, files, t)
  }

  /**
    With the intended test a file is only deleted when its content is known to
    survive: a different regular file in the same directory has the same digest.
  */
  lemma CheckedDeletionKeepsContent(env: Environment, files: set<Path>, p: Path)
    requires CallsDeleteChecked(env, files, p)
    ensures CallsDelete(env, files, p)
    ensures var t := Target(p).value;
      && p in files && t in files && t != p && Dirname(t) == Dirname(p)
      && env.content(t).Some? && env.content(t) == env.content(p)
  {
    TargetIsSibling(p);
  }
}
