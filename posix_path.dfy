/**
  The path and text helpers of Python that the two scripts rely on, on a POSIX
  system: os.path.basename, os.path.dirname, os.path.join (two arguments),
  os.path.splitext, and str.strip/str.lower as used to normalise console answers.
*/
module PosixPath {

  type Path = string

  /** Name of the digest cache file kept at the top of each scanned tree. */
  const CacheName: string := "hash.json"

  /** Index of the last occurrence of `c` in `s`, or -1 (Python's str.rfind). */
  function RFind(s: string, c: char): (i: int)
    ensures -1 <= i < |s|
  {
    if |s| == 0 then -1
    else if s[|s| - 1] == c then |s| - 1
    else RFind(s[..|s| - 1], c)
  }

  /** RFind finds `c` when it answers an index, and no `c` follows that index. */
  lemma {:induction false} RFindShape(s: string, c: char)
    ensures RFind(s, c) >= 0 ==> s[RFind(s, c)] == c
    ensures forall k :: RFind(s, c) < k < |s| ==> s[k] != c
  {
    if |s| > 0 && s[|s| - 1] != c {
      RFindShape(s[..|s| - 1], c);
    }
  }

  /** os.path.basename: everything after the last '/'. */
  function Basename(p: Path): string
  {
    p[RFind(p, '/') + 1..]
  }

  /** The basename is the longest suffix of the path without a '/'. */
  lemma BasenameShape(p: Path)
    ensures '/' !in Basename(p)
    ensures |Basename(p)| <= |p| && Basename(p) == p[|p| - |Basename(p)|..]
    ensures |Basename(p)| == |p| || p[|p| - |Basename(p)| - 1] == '/'
  {
    RFindShape(p, '/');
  }

  predicate AllSlashes(s: string)
  {
    forall k :: 0 <= k < |s| ==> s[k] == '/'
  }

  /** Drops every trailing '/' (str.rstrip('/')). */
  function RStripSlashes(s: string): string
  {
    if |s| > 0 && s[|s| - 1] == '/' then RStripSlashes(s[..|s| - 1]) else s
  }

  /** rstrip('/') keeps a prefix, removes only slashes, and leaves no slash at the end. */
  lemma {:induction false} RStripShape(s: string)
    ensures |RStripSlashes(s)| <= |s| && RStripSlashes(s) == s[..|RStripSlashes(s)|]
    ensures RStripSlashes(s) == [] || RStripSlashes(s)[|RStripSlashes(s)| - 1] != '/'
    ensures forall k :: |RStripSlashes(s)| <= k < |s| ==> s[k] == '/'
  {
    if |s| > 0 && s[|s| - 1] == '/' {
      RStripShape(s[..|s| - 1]);
    }
  }

  /**
    os.path.dirname: the text up to the last '/', without its trailing slashes
    unless it consists of slashes only.
  */
  function Dirname(p: Path): Path
  {
    var head := p[..RFind(p, '/') + 1];
    if head != [] && !AllSlashes(head) then RStripSlashes(head) else head
  }

  /** The shapes that Dirname can return: empty, slashes only, or no trailing slash. */
  predicate IsDirname(d: Path)
  {
    d == [] || AllSlashes(d) || d[|d| - 1] != '/'
  }

  /** os.path.join with two arguments. */
  function Join(a: Path, b: string): Path
  {
    if |b| > 0 && b[0] == '/' then b
    else if a == [] || a[|a| - 1] == '/' then a + b
    else a + "/" + b
  }

  /**
    os.path.splitext: the extension starts at the last '.', provided that dot
    comes after the last '/' and is preceded there by some character other than
    '.'; otherwise the extension is empty.
  */
  function SplitExt(p: string): (string, string)
  {
    var sep := RFind(p, '/');
    var dot := RFind(p, '.');
    if dot > sep && exists k :: sep < k < dot && p[k] != '.' then (p[..dot], p[dot..])
    else (p, [])
  }

  /** A name without dots has no extension. */
  lemma SplitExtNoDot(p: string)
    requires '.' !in p
    ensures SplitExt(p) == (p, [])
  {
    RFindAppend([], p, '.');
    assert [] + p == p;
  }

  /** A name without slashes whose last dot follows some other character splits at that dot. */
  lemma SplitExtAtDot(p: string, k: int)
    requires '/' !in p && 0 <= k < RFind(p, '.') && p[k] != '.'
    ensures SplitExt(p) == (p[..RFind(p, '.')], p[RFind(p, '.')..])
  {
    RFindAppend([], p, '/');
    assert [] + p == p;
  }

  /** The extension part of a name: empty, or a dot followed by neither dots nor slashes. */
  predicate IsExtension(ext: string)
  {
    ext == [] || (ext[0] == '.' && '.' !in ext[1..] && '/' !in ext)
  }

  /** The two parts of splitext put back together give the path, and the second is an extension. */
  lemma SplitExtParts(p: string)
    ensures SplitExt(p).0 + SplitExt(p).1 == p
    ensures IsExtension(SplitExt(p).1)
  {
    var sep := RFind(p, '/');
    var dot := RFind(p, '.');
    if dot > sep && exists k :: sep < k < dot && p[k] != '.' {
      RFindShape(p, '/');
      RFindShape(p, '.');
      assert p[..dot] + p[dot..] == p;
    }
  }

  /** The characters for which Python's str.isspace holds. */
  predicate IsSpace(c: char)
  {
    var n := c as int;
    (9 <= n <= 13) || (28 <= n <= 32) || n == 0x85 || n == 0xA0 || n == 0x1680
    || (0x2000 <= n <= 0x200A) || n == 0x2028 || n == 0x2029 || n == 0x202F
    || n == 0x205F || n == 0x3000
  }

  function TrimStart(s: string): (r: string)
    ensures |r| <= |s| && r == s[|s| - |r|..]
    ensures r == [] || !IsSpace(r[0])
    ensures forall k :: 0 <= k < |s| - |r| ==> IsSpace(s[k])
  {
    if |s| > 0 && IsSpace(s[0]) then TrimStart(s[1..]) else s
  }

  function TrimEnd(s: string): (r: string)
    ensures |r| <= |s| && r == s[..|r|]
    ensures r == [] || !IsSpace(r[|r| - 1])
    ensures forall k :: |r| <= k < |s| ==> IsSpace(s[k])
  {
    if |s| > 0 && IsSpace(s[|s| - 1]) then TrimEnd(s[..|s| - 1]) else s
  }

  /** str.strip() with no argument. */
  function Strip(s: string): string
  {
    TrimEnd(TrimStart(s))
  }

  function LowerChar(c: char): char
  {
    if 'A' <= c <= 'Z' then (c as int + 32) as char else c
  }

  /** str.lower(), for the ASCII letters. */
  function Lower(s: string): (r: string)
    ensures |r| == |s|
  {
    if s == [] then [] else [LowerChar(s[0])] + Lower(s[1..])
  }

  /** How both scripts read a console answer: `input(...).strip().lower()`. */
  function Normalise(answer: string): string
  {
    Lower(Strip(answer))
  }

  /** Index of the last '/' in `a + b` when `b` has none. */
  lemma {:induction false} RFindAppend(a: string, b: string, c: char)
    requires c !in b
    ensures RFind(a + b, c) == RFind(a, c)
  {
    if b != [] {
      assert (a + b)[..|a + b| - 1] == a + b[..|b| - 1];
      RFindAppend(a, b[..|b| - 1], c);
    } else {
      assert a + b == a;
    }
  }

  /** Joining a plain name under a directory yields that name as basename. */
  lemma BasenameOfJoin(d: Path, name: string)
    requires '/' !in name
    ensures Basename(Join(d, name)) == name
  {
    var x := Join(d, name);
    var pre := if d == [] || d[|d| - 1] == '/' then d else d + "/";
    assert x == pre + name;
    RFindAppend(pre, name, '/');
    if pre == [] {
      assert x == name;
    } else {
      assert RFind(pre, '/') == |pre| - 1;
    }
  }

  /** Joining a plain name under a directory that Dirname could return yields a sibling in that directory. */
  lemma DirnameOfJoin(d: Path, name: string)
    requires IsDirname(d) && '/' !in name
    ensures Dirname(Join(d, name)) == d
  {
    if d == [] {
      DirnameUnderEmpty(name);
    } else if d[|d| - 1] == '/' {
      DirnameUnderSlashes(d, name);
    } else {
      DirnameUnderName(d, name);
    }
  }

  lemma DirnameUnderEmpty(name: string)
    requires '/' !in name
    ensures Dirname(Join([], name)) == []
  {
    assert Join([], name) == name;
    RFindAppend([], name, '/');
    assert [] + name == name;
  }

  lemma DirnameUnderSlashes(d: Path, name: string)
    requires d != [] && AllSlashes(d) && '/' !in name
    ensures Dirname(d + name) == d
  {
    RFindAppend(d, name, '/');
    assert (d + name)[..|d|] == d;
  }

  lemma DirnameUnderName(d: Path, name: string)
    requires d != [] && d[|d| - 1] != '/' && '/' !in name
    ensures Dirname(Join(d, name)) == d
  {
    var x := Join(d, name);
    assert x == (d + "/") + name;
    RFindAppend(d + "/", name, '/');
    var head := x[..RFind(x, '/') + 1];
    assert head == d + "/";
    assert !AllSlashes(head) by { assert head[|d| - 1] != '/'; }
    assert head[..|head| - 1] == d;
    assert RStripSlashes(head) == RStripSlashes(d) == d;
  }

  /** Whatever Dirname returns has one of the shapes IsDirname describes. */
  lemma DirnameShape(p: Path)
    ensures IsDirname(Dirname(p))
  {
    var head := p[..RFind(p, '/') + 1];
    if head != [] && !AllSlashes(head) {
      var r := RStripSlashes(head);
      RStripShape(head);
      assert r != [] by {
        var k :| 0 <= k < |head| && head[k] != '/';
      }
    }
  }
}
