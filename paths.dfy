/** POSIX path handling as the program uses it: the string functions of `os.path`
    (`join`, `basename`, `splitext`, `relpath`) and the `pathlib` view of a path as an
    optional root plus a list of parts (`Path(s)`, `str(p)`, `p.parent`, `p / s`). */
module Paths {
  import opened Text

  // ---------------------------------------------------------------------------
  // os.path

  /** `os.path.join(a, b)`: an absolute `b` replaces `a`; otherwise a '/' is put
      between them unless `a` is empty or already ends with one. */
  function PathJoin(a: string, b: string): string
  {
    if b != [] && b[0] == '/' then b
    else if a == [] || a[|a| - 1] == '/' then a + b
    else a + "/" + b
  }

  /** `os.path.basename(p)`: everything after the last '/'. */
  function Basename(p: string): (r: string)
    ensures |r| <= |p| && r == p[|p| - |r|..]
    ensures '/' !in r
    ensures |r| < |p| ==> p[|p| - |r| - 1] == '/'
    decreases |p|
  {
    if p == [] || p[|p| - 1] == '/' then [] else Basename(p[..|p| - 1]) + [p[|p| - 1]]
  }

  /** The last component of a path is the name that was joined onto it. */
  lemma BasenameOfJoin(a: string, name: string)
    requires name != [] && '/' !in name
    ensures Basename(PathJoin(a, name)) == name
  {
    if a == [] || a[|a| - 1] == '/' {
      BasenameAfterSeparator(a, name);
    } else {
      assert PathJoin(a, name) == (a + "/") + name;
      BasenameAfterSeparator(a + "/", name);
    }
  }

  lemma BasenameAfterSeparator(x: string, name: string)
    requires x == [] || x[|x| - 1] == '/'
    requires '/' !in name
    ensures Basename(x + name) == name
  {
    var p := x + name;
    var r := Basename(p);
    var k := |p| - |r|;
    assert forall i :: |x| <= i < |p| ==> p[i] != '/';
    assert x != [] ==> p[|x| - 1] == '/';
    assert k == |x|;
    assert r == p[|x|..];
  }

  /** Index of the last `c` in `s`, -1 when there is none (`s.rfind(c)`). */
  function LastIndex(s: string, c: char): (i: int)
    ensures -1 <= i < |s|
    ensures i >= 0 ==> s[i] == c
    ensures forall k :: i < k < |s| ==> s[k] != c
    decreases |s|
  {
    if s == [] then -1 else if s[|s| - 1] == c then |s| - 1 else LastIndex(s[..|s| - 1], c)
  }

  /** `os.path.splitext(p)`: the extension starts at the last '.' of the last
      component, provided some character other than '.' comes before that dot in the
      component (so ".bashrc" and "..." have none). */
  function SplitExt(p: string): (r: (string, string))
    ensures r.0 + r.1 == p
    ensures r.1 == [] || (r.1[0] == '.' && '.' !in r.1[1..] && '/' !in r.1)
  {
    var sepIndex := LastIndex(p, '/');
    var dotIndex := LastIndex(p, '.');
    if dotIndex > sepIndex && exists k :: sepIndex < k < dotIndex && p[k] != '.' then
      (p[..dotIndex], p[dotIndex..])
    else
      (p, [])
  }

  /** `os.path.splitext(name)[1]`. */
  function Extension(name: string): string
  {
    SplitExt(name).1
  }

  /** A file name has an extension exactly when some dot in it follows a character other
      than a dot; the extension is then the name's tail from its last dot. */
  lemma ExtensionOfName(name: string)
    requires '/' !in name
    ensures Extension(name) != [] <==>
              exists i, j :: 0 <= i < j < |name| && name[i] != '.' && name[j] == '.'
    ensures Extension(name) != [] ==> Extension(name) == name[LastIndex(name, '.')..]
  {
    var dotIndex := LastIndex(name, '.');
    if i, j :| 0 <= i < j < |name| && name[i] != '.' && name[j] == '.' {
      assert j <= dotIndex;
      assert LastIndex(name, '/') == -1;
      assert -1 < i < dotIndex && name[i] != '.';
    }
  }

  /** The pieces of a path between '/' separators that name something: empty pieces
      (from "//" or an end '/') and "." are dropped, as `pathlib` and `os.path.normpath`
      both do. */
  function Components(s: string): seq<string>
  {
    Proper(Split(s, '/'))
  }

  /** Every component is a proper name. */
  lemma ComponentsNames(s: string)
    ensures forall i :: 0 <= i < |Components(s)| ==> ProperName(Components(s)[i])
  {
    SplitPieces(s, '/');
    ProperNames(Split(s, '/'));
  }

  /** A name that can stand as one component of a path. */
  predicate ProperName(x: string)
  {
    x != [] && x != "." && '/' !in x
  }

  /** The pieces that name something: empty pieces and "." are dropped. */
  function Proper(pieces: seq<string>): seq<string>
    decreases |pieces|
  {
    if pieces == [] then []
    else (if pieces[0] == [] || pieces[0] == "." then [] else [pieces[0]]) + Proper(pieces[1..])
  }

  lemma {:induction false} ProperNames(pieces: seq<string>)
    requires forall i :: 0 <= i < |pieces| ==> '/' !in pieces[i]
    ensures forall i :: 0 <= i < |Proper(pieces)| ==> ProperName(Proper(pieces)[i])
    decreases |pieces|
  {
    if pieces != [] {
      ProperNames(pieces[1..]);
    }
  }

  lemma {:induction false} ProperConcat(a: seq<string>, b: seq<string>)
    requires forall i :: 0 <= i < |a| ==> '/' !in a[i]
    requires forall i :: 0 <= i < |b| ==> '/' !in b[i]
    ensures Proper(a + b) == Proper(a) + Proper(b)
    decreases |a|
  {
    if a != [] {
      assert (a + b)[0] == a[0];
      assert (a + b)[1..] == a[1..] + b;
      ProperConcat(a[1..], b);
      assert Proper(a + b) == (if a[0] == [] || a[0] == "." then [] else [a[0]]) + Proper(a[1..] + b);
    } else {
      assert a + b == b;
    }
  }

  lemma {:induction false} ProperOfProper(a: seq<string>)
    requires forall i :: 0 <= i < |a| ==> '/' !in a[i] && a[i] != [] && a[i] != "."
    ensures Proper(a) == a
    decreases |a|
  {
    if a != [] {
      ProperOfProper(a[1..]);
    }
  }

  /** A proper name is one component. */
  lemma ComponentsOfName(name: string)
    requires ProperName(name)
    ensures Components(name) == [name]
  {
    SplitWithoutSeparator(name, '/');
    assert Split(name, '/') == [name];
    assert [name][1..] == [];
    assert Proper([name]) == [name] + Proper([]);
  }

  /** A '/' between two strings adds no component of its own. */
  lemma ComponentsAround(x: string, b: string)
    ensures Components(x + ['/'] + b) == Components(x) + Components(b)
  {
    SplitConcat(x, b, '/');
    SplitPieces(x, '/');
    SplitPieces(b, '/');
    ProperConcat(Split(x, '/'), Split(b, '/'));
  }

  /** A path ending in '/' has the components of the path without it. */
  lemma ComponentsAfterSlash(a: string, b: string)
    requires a != [] && a[|a| - 1] == '/'
    ensures Components(a + b) == Components(a) + Components(b)
  {
    var a' := a[..|a| - 1];
    assert a == a' + ['/'] + [];
    assert a + b == a' + ['/'] + b;
    ComponentsAround(a', []);
    ComponentsAround(a', b);
    assert Components([]) == [];
  }

  /** Joining a relative path onto a path appends its components. */
  lemma ComponentsOfJoin(a: string, b: string)
    requires b == [] || b[0] != '/'
    ensures Components(PathJoin(a, b)) == Components(a) + Components(b)
  {
    if a == [] {
      assert PathJoin(a, b) == b;
      assert Components(a) == [];
    } else if a[|a| - 1] == '/' {
      assert PathJoin(a, b) == a + b;
      ComponentsAfterSlash(a, b);
    } else {
      assert PathJoin(a, b) == a + ['/'] + b;
      ComponentsAround(a, b);
    }
  }

  /** `os.path.relpath(path, start)`: climb out of what `start` has beyond the common
      leading components, then descend into the rest of `path`; "." when they agree. */
  function RelPath(path: string, start: string): string
  {
    var startParts := Components(start);
    var pathParts := Components(path);
    var common := CommonPrefix(startParts, pathParts);
    var rel := Ups(|startParts| - common) + pathParts[common..];
    if rel == [] then "." else Join(rel, '/')
  }

  /** `k` parent steps: `[os.pardir] * k`. */
  function Ups(k: nat): (r: seq<string>)
    ensures |r| == k && forall i :: 0 <= i < k ==> r[i] == ".."
  {
    if k == 0 then [] else [".."] + Ups(k - 1)
  }

  /** The number of leading elements two sequences share. */
  function CommonPrefix(a: seq<string>, b: seq<string>): (n: nat)
    ensures n <= |a| && n <= |b| && a[..n] == b[..n]
    ensures n < |a| && n < |b| ==> a[n] != b[n]
    decreases |a|
  {
    if a == [] || b == [] || a[0] != b[0] then 0
    else
      var n := 1 + CommonPrefix(a[1..], b[1..]);
      assert a[..n] == [a[0]] + a[1..][..n - 1];
      assert b[..n] == [b[0]] + b[1..][..n - 1];
      n
  }

  lemma {:induction false} CommonPrefixOfExtension(s: seq<string>, rest: seq<string>)
    ensures CommonPrefix(s, s + rest) == |s|
    decreases |s|
  {
    if s != [] {
      assert (s + rest)[1..] == s[1..] + rest;
      CommonPrefixOfExtension(s[1..], rest);
    }
  }

  /** A path that extends `start` by further components is, relative to `start`, those
      components joined with '/'. */
  lemma RelPathOfExtension(path: string, start: string, rest: seq<string>)
    requires rest != []
    requires Components(path) == Components(start) + rest
    ensures RelPath(path, start) == Join(rest, '/')
  {
    var s := Components(start);
    CommonPrefixOfExtension(s, rest);
    assert Ups(0) + (s + rest)[|s|..] == rest;
  }

  // ---------------------------------------------------------------------------
  // pathlib

  /** A `pathlib.PurePosixPath`: its anchor ("" for a relative path, "/", or "//", which
      POSIX leaves to the implementation and `pathlib` keeps as it is) and its parts. */
  datatype PurePath = PurePath(root: string, parts: seq<string>)

  /** The anchors `pathlib` produces. */
  predicate Anchor(root: string)
  {
    root == "" || root == "/" || root == "//"
  }

  /** The anchor has one of its three forms and the parts are names, as `Path(s)`
      produces. */
  predicate WellFormed(p: PurePath)
  {
    && Anchor(p.root)
    && forall i :: 0 <= i < |p.parts| ==> ProperName(p.parts[i])
  }

  /** The anchor of `Path(s)`: exactly two leading slashes stay two, one or three and more
      become one. */
  function RootOf(s: string): (root: string)
    ensures Anchor(root)
    ensures root == "" <==> s == [] || s[0] != '/'
  {
    if |s| >= 2 && s[0] == '/' && s[1] == '/' && (|s| == 2 || s[2] != '/') then "//"
    else if s != [] && s[0] == '/' then "/"
    else ""
  }

  /** `Path(s)`. */
  function Parse(s: string): PurePath
  {
    PurePath(RootOf(s), Components(s))
  }

  /** A parsed path is well formed. */
  lemma ParseWellFormed(s: string)
    ensures WellFormed(Parse(s))
  {
    ComponentsNames(s);
  }

  /** `str(p)`: the anchor and the parts joined by '/'; "." for the empty relative path. */
  function Str(p: PurePath): string
  {
    if p.root != "" then p.root + Join(p.parts, '/')
    else if p.parts == [] then "."
    else Join(p.parts, '/')
  }

  /** The parts of a path joined by '/' read back as those parts, and the text does not
      start with a '/'. */
  lemma JoinedParts(parts: seq<string>)
    requires forall i :: 0 <= i < |parts| ==> ProperName(parts[i])
    ensures Components(Join(parts, '/')) == parts
    ensures Join(parts, '/') == [] || Join(parts, '/')[0] != '/'
  {
    var j := Join(parts, '/');
    if parts != [] {
      SplitJoin(parts, '/');
      ProperOfProper(parts);
      assert j == parts[0] || j == parts[0] + ['/'] + Join(parts[1..], '/');
      assert ProperName(parts[0]) && parts[0][0] in parts[0];
      assert j[0] == parts[0][0];
    } else {
      assert Components(j) == [];
    }
  }

  /** Leading slashes add no component. */
  lemma ComponentsBehindSlashes(j: string)
    ensures Components(['/'] + j) == Components(j)
    ensures Components(['/', '/'] + j) == Components(j)
  {
    assert Components([]) == [];
    assert ['/'] + j == [] + ['/'] + j;
    ComponentsAround([], j);
    assert ['/', '/'] + j == [] + ['/'] + (['/'] + j);
    ComponentsAround([], ['/'] + j);
  }

  /** Printing a path and reading it back gives the same path. */
  lemma ParseStr(p: PurePath)
    requires WellFormed(p)
    ensures Parse(Str(p)) == p
  {
    var j := Join(p.parts, '/');
    JoinedParts(p.parts);
    ComponentsBehindSlashes(j);
    if p.root == "/" {
      assert Str(p) == ['/'] + j;
      assert RootOf(['/'] + j) == "/" by {
        assert j != [] ==> (['/'] + j)[1] == j[0];
      }
    } else if p.root == "//" {
      assert Str(p) == ['/', '/'] + j;
      assert RootOf(['/', '/'] + j) == "//" by {
        assert j != [] ==> (['/', '/'] + j)[2] == j[0];
      }
    } else if p.parts == [] {
      SplitWithoutSeparator(".", '/');
      assert Proper(["."]) == [] + Proper([]);
    }
  }

  /** `p.parent`: the path without its last part; a path without parts is its own parent. */
  function Parent(p: PurePath): (r: PurePath)
    ensures r.root == p.root
    ensures p.parts == [] ==> r == p
    ensures p.parts != [] ==> r.parts + [p.parts[|p.parts| - 1]] == p.parts
  {
    if p.parts == [] then p else PurePath(p.root, p.parts[..|p.parts| - 1])
  }

  /** `q` is `p` or one of the folders above it. */
  predicate Within(q: PurePath, p: PurePath)
  {
    q.root == p.root && |q.parts| <= |p.parts| && p.parts[..|q.parts|] == q.parts
  }

  /** What lies within a path's parent lies within the path. */
  lemma WithinParent(q: PurePath, p: PurePath)
    requires Within(q, Parent(p))
    ensures Within(q, p)
  {
    if p.parts != [] {
      assert p.parts[..|q.parts|] == Parent(p).parts[..|q.parts|];
    }
  }

  /** `p / s`: an absolute `s` replaces `p`, a relative one adds its parts. */
  function Div(p: PurePath, s: string): PurePath
  {
    var q := Parse(s);
    if q.root != "" then q else PurePath(p.root, p.parts + q.parts)
  }

  /** Adding a path to a path of names gives a path of names. */
  lemma DivWellFormed(p: PurePath, s: string)
    requires WellFormed(p)
    ensures WellFormed(Div(p, s))
  {
    ParseWellFormed(s);
  }

  /** Two names added one after the other. */
  lemma DivNames(p: PurePath, a: string, b: string)
    requires ProperName(a) && ProperName(b)
    ensures Div(Div(p, a), b) == PurePath(p.root, p.parts + [a, b])
    ensures Parent(Div(Div(p, a), b)) == Div(p, a) && Parent(Div(p, a)) == p
  {
    DivName(p, a);
    DivName(Div(p, a), b);
    assert p.parts + [a] + [b] == p.parts + [a, b];
  }

  /** Adding a single name makes a path whose parent is the path it was added to. */
  lemma DivName(p: PurePath, name: string)
    requires ProperName(name)
    ensures Div(p, name) == PurePath(p.root, p.parts + [name])
    ensures Parent(Div(p, name)) == p
  {
    ComponentsOfName(name);
    assert (p.parts + [name])[..|p.parts|] == p.parts;
  }
}
