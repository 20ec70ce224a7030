/**
 `materialize-runtime-binds.py`: a loop of tree rewrites whose earlier results must survive the
 later ones.
 */
module Binds {
  import opened Options
  import opened Split

  // ---------------------------------------------------------------- destinations

  type Path = seq<string>

  const PROTECTED: set<string> := {"dev", "proc", "run", "sys"}

  /** POSIX gives exactly two leading slashes a meaning of their own, and `PurePosixPath` keeps them. */
  predicate DoubleRoot(s: string)
  {
    |s| >= 2 && s[0] == '/' && s[1] == '/' && !(|s| >= 3 && s[2] == '/')
  }

  function Root(s: string): string { if DoubleRoot(s) then "//" else "/" }

  function Body(s: string): string
  {
    if DoubleRoot(s) then s[2..] else if s == [] then [] else s[1..]
  }

  /** The components below the root. */
  function Components(s: string): (p: Path)
    ensures p != []
  {
    SplitOn(Body(s), '/')
  }

  /** Absolute and canonical: `pure.as_posix() == destination`, no `..`, and at least one component. */
  predicate Canonical(s: string)
  {
    s != [] && s[0] == '/' && forall part :: part in Components(s) ==> part !in {"", ".", ".."}
  }

  // ---------------------------------------------------------------- what `PurePosixPath` makes of a destination

  function PosixRoot(s: string): (r: string)
    ensures |r| <= |s|
  {
    if s == [] || s[0] != '/' then "" else if |s| >= 2 && s[1] == '/' && !(|s| >= 3 && s[2] == '/') then "//" else "/"
  }

  /** The parts that are kept: neither empty nor `.`. */
  function Kept(parts: seq<string>): seq<string>
  {
    if parts == [] then []
    else (if parts[0] == "" || parts[0] == "." then [] else [parts[0]]) + Kept(parts[1..])
  }

  /** `pure.parts` without the root. */
  function Named(s: string): seq<string> { Kept(SplitOn(s[|PosixRoot(s)|..], '/')) }

  /** `pure.as_posix()`. */
  function AsPosix(s: string): string
  {
    var text := PosixRoot(s) + JoinWith(Named(s), '/');
    if text == "" then "." else text
  }

  ghost predicate AllPlain(parts: seq<string>)
  {
    forall i :: 0 <= i < |parts| ==> parts[i] != "" && parts[i] != "."
  }

  lemma {:induction false} KeptAll(parts: seq<string>)
    ensures |Kept(parts)| <= |parts|
    ensures if AllPlain(parts) then Kept(parts) == parts else |Kept(parts)| < |parts|
  {
    if parts != [] {
      KeptAll(parts[1..]);
      assert parts == [parts[0]] + parts[1..];
      assert AllPlain(parts) <==> parts[0] != "" && parts[0] != "." && AllPlain(parts[1..]) by {
        if parts[0] != "" && parts[0] != "." && AllPlain(parts[1..]) {
          forall i | 0 <= i < |parts| ensures parts[i] != "" && parts[i] != "." {
            if i > 0 { assert parts[1..][i - 1] == parts[i]; }
          }
        }
      }
    }
  }

  lemma {:induction false} KeptHas(parts: seq<string>, part: string)
    requires part != "" && part != "."
    ensures part in Kept(parts) <==> part in parts
  {
    if parts != [] {
      KeptHas(parts[1..], part);
      assert parts == [parts[0]] + parts[1..];
    }
  }

  lemma JoinNext(parts: seq<string>)
    requires parts != []
    ensures |JoinWith(parts, '/')| == |parts[0]| + if |parts| == 1 then 0 else 1 + |JoinWith(parts[1..], '/')|
  {
  }

  lemma {:induction false} JoinLength(parts: seq<string>)
    ensures |JoinWith(Kept(parts), '/')| <= |JoinWith(parts, '/')|
    ensures |Kept(parts)| < |parts| && Kept(parts) != [] ==> |JoinWith(Kept(parts), '/')| < |JoinWith(parts, '/')|
  {
    if parts != [] {
      var rest, kept := parts[1..], Kept(parts);
      JoinLength(rest);
      KeptAll(rest);
      JoinNext(parts);
      if parts[0] != "" && parts[0] != "." {
        assert kept == [parts[0]] + Kept(rest) && kept[1..] == Kept(rest);
        JoinNext(kept);
      } else {
        assert kept == Kept(rest);
      }
      assert rest == [] ==> Kept(rest) == [] && JoinWith(Kept(rest), '/') == [];
    }
  }

  lemma PlainIff(parts: seq<string>)
    ensures AllPlain(parts) <==> forall part :: part in parts ==> part != "" && part != "."
  {
    if AllPlain(parts) {
      forall part | part in parts ensures part != "" && part != "." { var i :| 0 <= i < |parts| && parts[i] == part; }
    }
    if forall part :: part in parts ==> part != "" && part != "." {
      forall i | 0 <= i < |parts| ensures parts[i] != "" && parts[i] != "." { assert parts[i] in parts; }
    }
  }

  lemma RootIs(s: string)
    requires s != [] && s[0] == '/'
    ensures PosixRoot(s) == Root(s) && s[|PosixRoot(s)|..] == Body(s) && s == PosixRoot(s) + Body(s)
    ensures s == "/" || s == "//" <==> Body(s) == ""
  {
  }

  /** `PurePosixPath` gives an absolute path back if and only if nothing is dropped from it. */
  lemma PosixIff(s: string)
    requires s != [] && s[0] == '/'
    ensures AsPosix(s) == s <==> AllPlain(Components(s)) || Body(s) == ""
    ensures ".." in Named(s) <==> ".." in Components(s)
  {
    hide SplitOn, Kept, AllPlain, Body, PosixRoot, Root;
    var parts := Components(s);
    RootIs(s);
    JoinSplit(Body(s), '/');
    KeptAll(parts);
    JoinLength(parts);
    KeptHas(parts, "..");
    assert PosixRoot(s) + JoinWith(Kept(parts), '/') == s <==> JoinWith(Kept(parts), '/') == Body(s) by {
      assert s[|PosixRoot(s)|..] == Body(s);
    }
    if Kept(parts) == [] { assert JoinWith(Kept(parts), '/') == ""; }
  }

  /** A destination is canonical if and only if `PurePosixPath` gives it back, it has a component and no `..`. */
  lemma CanonicalExactly(s: string)
    ensures Canonical(s)
      <==> s != [] && s[0] == '/' && AsPosix(s) == s && ".." !in Named(s) && s != "/" && s != "//"
  {
    if s != [] && s[0] == '/' {
      RootIs(s);
      PosixIff(s);
      PlainIff(Components(s));
      if Body(s) == "" { assert Components(s) == [""]; }
      hide AllPlain, Components, AsPosix, Named, Body;
    }
  }

  /** The overlap test of the loop. */
  predicate TextOverlap(a: string, b: string)
  {
    a == b || b + "/" <= a || a + "/" <= b
  }

  predicate Overlap(p: Path, q: Path) { p <= q || q <= p }

  predicate TextProtected(s: string)
  {
    s == "/" || exists name :: name in PROTECTED && (s == "/" + name || "/" + name + "/" <= s)
  }

  lemma RootBody(s: string)
    requires Canonical(s)
    ensures s == Root(s) + Body(s) && Body(s) != [] && Body(s)[0] != '/'
  {
    var b := Body(s);
    var first := SplitOn(b, '/')[0];
    assert first in Components(s);
    assert b == [] || b[0] == '/' ==> first == "";
  }

  /** A destination continues another textually exactly when both have the same root and the components do. */
  lemma TextBelow(a: string, b: string)
    requires Canonical(a) && Canonical(b)
    ensures a + "/" <= b <==> Root(a) == Root(b) && Components(a) < Components(b)
    ensures a == b <==> Root(a) == Root(b) && Components(a) == Components(b)
  {
    RootBody(a);
    RootBody(b);
    SplitPrefix(Body(a), Body(b), '/');
    var x, y := Body(a), Body(b);
    if Root(a) == Root(b) {
      var r := Root(a);
      assert r + x + "/" == r + (x + "/");
      assert r + (x + "/") <= r + y <==> x + "/" <= y by { PrefixCancel(r, x + "/", y); }
      if Components(a) == Components(b) { SplitInjective(x, y, '/'); }
    } else {
      assert a[0] == b[0] == '/';
      assert (if DoubleRoot(a) then a else b)[1] == '/';
      assert (if DoubleRoot(a) then b else a)[1] != '/';
    }
  }

  lemma PrefixCancel(r: string, x: string, y: string)
    ensures r + x <= r + y <==> x <= y
  {
    if r + x <= r + y { assert (r + x)[|r|..] == x && (r + y)[|r|..] == y; assert (r + y)[..|r + x|][|r|..] == x; }
    if x <= y { assert (r + y)[..|r + x|] == r + y[..|x|]; }
  }

  /** The textual test finds an overlap of canonical destinations exactly when they have the same root. */
  lemma OverlapTestExact(a: string, b: string)
    requires Canonical(a) && Canonical(b)
    ensures TextOverlap(a, b) <==> Root(a) == Root(b) && Overlap(Components(a), Components(b))
  {
    TextBelow(a, b);
    TextBelow(b, a);
  }

  /** Two destinations that pass the test although one lies below the other. */
  lemma OverlapMissed()
    ensures Canonical("/a") && Canonical("//a/b") && !TextOverlap("/a", "//a/b")
    ensures Components("/a") == ["a"] && Components("//a/b") == ["a", "b"]
  {
    SplitPart("a", '/');
    SplitPart("b", '/');
    SplitFirst("a", "b", '/');
    assert Body("/a") == "a" && Body("//a/b") == "a/b" == "a" + ['/'] + "b";
  }

  lemma ProtectedName(name: string)
    requires name in PROTECTED
    ensures Canonical("/" + name) && Root("/" + name) == "/" && Components("/" + name) == [name]
  {
    assert forall i :: 0 <= i < |name| ==> name[i] != '/' && name[i] != '.';
    assert Body("/" + name) == name;
    SplitPart(name, '/');
  }

  lemma ProtectedBy(s: string, name: string)
    requires Canonical(s) && name in PROTECTED
    ensures (s == "/" + name || "/" + name + "/" <= s) <==> Root(s) == "/" && Components(s)[0] == name
  {
    hide Canonical, Root, Components;
    ProtectedName(name);
    TextBelow("/" + name, s);
    assert [name] <= Components(s) <==> Components(s)[0] == name;
  }

  /** A canonical destination is taken for a runtime-owned one exactly when it has the single-slash root
      and a protected first component. */
  lemma ProtectedExact(s: string)
    requires Canonical(s)
    ensures TextProtected(s) <==> Root(s) == "/" && Components(s)[0] in PROTECTED
  {
    RootBody(s);
    assert |s| > 1;
    hide Canonical, Root, Components;
    forall name | name in PROTECTED
      ensures (s == "/" + name || "/" + name + "/" <= s) <==> Root(s) == "/" && Components(s)[0] == name
    {
      ProtectedBy(s, name);
    }
  }

  /** A runtime-owned destination that passes the test. */
  lemma ProtectedMissed()
    ensures Canonical("//dev") && !TextProtected("//dev") && Components("//dev") == ["dev"] && "dev" in PROTECTED
  {
    SplitPart("dev", '/');
    assert Body("//dev") == "dev";
    ProtectedExact("//dev");
  }

  // ---------------------------------------------------------------- the target tree

  datatype Node = Dir(mode: nat, uid: nat, gid: nat) | File(mode: nat, uid: nat, gid: nat, data: seq<int>)
                | Link(target: string) | Special

  /** Objects by path below the materialization root; also the objects of one subtree below its top. */
  type Tree = map<Path, Node>

  const NEW_DIR := Dir(493, 0, 0)   // 0o755
  const NEW_FILE := File(384, 0, 0, [])  // 0o600

  ghost predicate Proper(t: Tree)
  {
    [] in t && t[[]].Dir? && forall p :: p in t && p != [] ==> p[..|p| - 1] in t && t[p[..|p| - 1]].Dir?
  }

  /** The subtree at `p` is exactly `sub`. */
  ghost predicate SubtreeIs(t: Tree, p: Path, sub: Tree)
  {
    forall s :: (p + s in t <==> s in sub) && (s in sub ==> t[p + s] == sub[s])
  }

  /** The two trees agree at `q`. */
  predicate SameAt(a: Tree, b: Tree, q: Path)
  {
    if q in a then q in b && a[q] == b[q] else q !in b
  }

  /** `sub` in place of whatever was at `p`. */
  function Graft(t: Tree, p: Path, sub: Tree): Tree
  {
    var top := set s | s in sub :: p + s;
    map q | q in t.Keys + top && (p <= q ==> q[|p|..] in sub) :: if p <= q then sub[q[|p|..]] else t[q]
  }

  lemma GraftAt(t: Tree, p: Path, sub: Tree)
    ensures SubtreeIs(Graft(t, p, sub), p, sub)
    ensures forall q :: !(p <= q) ==> SameAt(t, Graft(t, p, sub), q)
  {
    var g := Graft(t, p, sub);
    forall s ensures (p + s in g <==> s in sub) && (s in sub ==> g[p + s] == sub[s]) {
      assert p <= p + s && (p + s)[|p|..] == s;
      if s in sub { assert p + s in (set x | x in sub :: p + x); }
    }
    forall q | !(p <= q) ensures SameAt(t, g, q) {
    }
  }

  /** Rewriting below `p` and creating parents of `p` touches no subtree that does not overlap `p`. */
  ghost predicate OnlyAround(a: Tree, b: Tree, p: Path)
  {
    forall q :: !Overlap(p, q) || (q < p && q in a) ==> SameAt(a, b, q)
  }

  lemma SubtreeSurvives(a: Tree, b: Tree, p: Path, d: Path, sub: Tree)
    requires OnlyAround(a, b, p) && !Overlap(p, d) && SubtreeIs(a, d, sub)
    ensures SubtreeIs(b, d, sub)
  {
    forall s ensures (d + s in b <==> s in sub) && (s in sub ==> b[d + s] == sub[s]) {
      OverlapShrinks(p, d, s);
      assert SameAt(a, b, d + s);
    }
  }

  lemma OverlapShrinks(p: Path, d: Path, s: Path)
    ensures Overlap(p, d + s) ==> Overlap(p, d)
  {
    if p <= d + s {
      if |p| <= |d| { assert p == (d + s)[..|p|] == d[..|p|]; } else { assert p[..|d|] == (d + s)[..|p|][..|d|] == d; }
    } else if d + s <= p {
      assert p[..|d|] == p[..|d + s|][..|d|] == d;
    }
  }

  // ---------------------------------------------------------------- destination_path

  datatype Placed = Refused | At(tree: Tree)

  /** All parents of `p` down to depth `n` that exist are real directories. */
  ghost predicate RealParents(t: Tree, p: Path, n: nat)
    requires n <= |p|
  {
    if n == 0 then true else RealParents(t, p, n - 1) && (p[..n] in t ==> t[p[..n]].Dir?)
  }

  lemma {:induction false} RealFails(t: Tree, p: Path, i: nat, n: nat)
    requires 0 < i <= n <= |p| && p[..i] in t && !t[p[..i]].Dir?
    ensures !RealParents(t, p, n)
    decreases n
  {
    if i < n { RealFails(t, p, i, n - 1); }
  }

  /** `b` is `a` with directories made at prefixes of `p` up to depth `i`. */
  ghost predicate Made(a: Tree, b: Tree, p: Path, i: nat)
    requires i <= |p|
  {
    && (forall q :: q in a || !(q <= p) || |q| > i ==> SameAt(a, b, q))
    && (forall k :: 0 <= k <= i && p[..k] !in a ==> p[..k] in b && b[p[..k]] == Dir(493, 0, 0))
  }

  /** Missing parents are there now, as directories of the user with mode 0o755. */
  ghost predicate ParentsMade(a: Tree, b: Tree, p: Path)
  {
    forall k :: 0 <= k < |p| && p[..k] !in a ==> p[..k] in b && b[p[..k]] == Dir(493, 0, 0)
  }

  lemma ParentsKept(a: Tree, b: Tree, c: Tree, p: Path)
    requires ParentsMade(a, b, p) && forall q :: !(p <= q) ==> SameAt(b, c, q)
    ensures ParentsMade(a, c, p)
  {
    forall k | 0 <= k < |p| && p[..k] !in a ensures p[..k] in c && c[p[..k]] == Dir(493, 0, 0) {
      assert SameAt(b, c, p[..k]);
    }
  }

  lemma MakeDirectory(t: Tree, q: Path)
    requires Proper(t) && q != [] && q !in t && q[..|q| - 1] in t && t[q[..|q| - 1]].Dir?
    ensures Proper(t[q := NEW_DIR])
  {
    var b := t[q := NEW_DIR];
    forall p | p in b && p != [] ensures p[..|p| - 1] in b && b[p[..|p| - 1]].Dir? { }
  }

  lemma MadeNext(a: Tree, b: Tree, p: Path, i: nat)
    requires i < |p| && Made(a, b, p, i) && p[..i + 1] !in b
    ensures Made(a, b[p[..i + 1] := NEW_DIR], p, i + 1)
  {
    var q := p[..i + 1];
    assert SameAt(a, b, q);
    var c := b[q := NEW_DIR];
    forall k | 0 <= k <= i + 1 && p[..k] !in a ensures p[..k] in c && c[p[..k]] == Dir(493, 0, 0) {
      if k <= i { assert |p[..k]| < |q|; } else { assert p[..k] == q; }
    }
  }

  lemma MadeNone(t: Tree, p: Path)
    requires [] in t
    ensures Made(t, t, p, 0)
  {
    forall k | 0 <= k <= 0 ensures p[..k] in t { assert p[..k] == []; }
  }

  /** The parents of the target: existing ones must be real directories, missing ones are made. */
  method MakeParents(t: Tree, p: Path) returns (r: Placed)
    requires Proper(t) && p != []
    ensures r.At? <==> RealParents(t, p, |p| - 1)
    ensures r.At? ==> Proper(r.tree) && p[..|p| - 1] in r.tree && r.tree[p[..|p| - 1]].Dir?
    ensures r.At? ==> Made(t, r.tree, p, |p| - 1)
  {
    hide Proper;
    assert [] in t && t[[]].Dir? by { RootThere(t); }
    var tree := t;
    var i := 0;
    assert p[..0] == [];
    MadeNone(t, p);
    while i < |p| - 1
      invariant 0 <= i < |p| && Proper(tree) && p[..i] in tree && tree[p[..i]].Dir?
      invariant Made(t, tree, p, i) && RealParents(t, p, i)
    {
      var q := p[..i + 1];
      assert q[..i] == p[..i];
      assert SameAt(t, tree, q);
      if q !in tree {
        MakeDirectory(tree, q);
        MadeNext(t, tree, p, i);
        tree := tree[q := NEW_DIR];
      } else if !tree[q].Dir? {
        RealFails(t, p, i + 1, |p| - 1);
        return Refused;
      }
      i := i + 1;
    }
    r := At(tree);
  }

  lemma RootThere(t: Tree)
    requires Proper(t)
    ensures [] in t && t[[]].Dir?
  {
  }

  predicate KindFits(n: Node, directory: bool) { if directory then n.Dir? else n.File? }

  /** When `destination_path` accepts. */
  ghost predicate Placeable(t: Tree, p: Path, directory: bool)
    requires p != []
  {
    RealParents(t, p, |p| - 1) && (p in t ==> KindFits(t[p], directory))
  }

  function Fresh(directory: bool): Tree { map[[] := if directory then NEW_DIR else NEW_FILE] }

  /** `destination_path`: an empty object of the source's kind at the destination, whatever was there gone,
      and nothing else touched but missing parents. */
  method DestinationPath(t: Tree, p: Path, directory: bool) returns (r: Placed)
    requires Proper(t) && p != []
    ensures r.At? <==> Placeable(t, p, directory)
    ensures r.At? ==> Proper(r.tree) && SubtreeIs(r.tree, p, Fresh(directory)) && OnlyAround(t, r.tree, p)
    ensures r.At? ==> ParentsMade(t, r.tree, p)
    ensures r.At? ==> p in r.tree && r.tree[p] == if directory then Dir(493, 0, 0) else File(384, 0, 0, [])
  {
    hide Proper;
    r := MakeParents(t, p);
    if r.Refused? { return; }
    var tree := r.tree;
    assert SameAt(t, tree, p);
    if p in tree && (tree[p].Link? || (directory && !tree[p].Dir?) || (!directory && !tree[p].File?)) {
      return Refused;
    }
    GraftAt(tree, p, Fresh(directory));
    GraftProper(tree, p, Fresh(directory));
    MadeAround(t, tree, Graft(tree, p, Fresh(directory)), p);
    ParentsKept(t, tree, Graft(tree, p, Fresh(directory)), p);
    SubtreeAt(Graft(tree, p, Fresh(directory)), p, Fresh(directory), []);
    assert p + [] == p;
    r := At(Graft(tree, p, Fresh(directory)));
  }

  lemma MadeAround(a: Tree, b: Tree, c: Tree, p: Path)
    requires p != [] && Made(a, b, p, |p| - 1) && forall q :: !(p <= q) ==> SameAt(b, c, q)
    ensures OnlyAround(a, c, p)
  {
    forall q | !Overlap(p, q) || (q < p && q in a) ensures SameAt(a, c, q) {
      assert SameAt(a, b, q);
      assert !(p <= q);
      assert SameAt(b, c, q);
    }
  }

  /** What a file system holds below a path: the top, and with an object its directory. */
  ghost predicate ProperSub(sub: Tree)
  {
    [] in sub && forall p :: p in sub && p != [] ==> p[..|p| - 1] in sub && sub[p[..|p| - 1]].Dir?
  }

  lemma ProperAt(t: Tree, q: Path)
    requires Proper(t) && q in t && q != []
    ensures q[..|q| - 1] in t && t[q[..|q| - 1]].Dir?
  {
  }

  lemma SubtreeAt(g: Tree, p: Path, sub: Tree, s: Path)
    requires SubtreeIs(g, p, sub)
    ensures (p + s in g <==> s in sub) && (s in sub ==> g[p + s] == sub[s])
  {
  }

  lemma GraftInside(g: Tree, p: Path, sub: Tree, s: Path)
    requires SubtreeIs(g, p, sub) && ProperSub(sub) && s in sub && s != []
    ensures var q := p + s; q[..|q| - 1] in g && g[q[..|q| - 1]].Dir?
  {
    assert s[..|s| - 1] in sub && sub[s[..|s| - 1]].Dir?;
    var up := (p + s)[..|p + s| - 1];
    assert up == p + s[..|s| - 1];
    hide ProperSub;
    SubtreeAt(g, p, sub, s[..|s| - 1]);
  }

  lemma GraftOutside(t: Tree, p: Path, g: Tree, q: Path)
    requires Proper(t) && q in t && q != [] && !(p <= q)
    requires forall x :: !(p <= x) ==> SameAt(t, g, x)
    ensures q[..|q| - 1] in g && g[q[..|q| - 1]].Dir?
  {
    ProperAt(t, q);
    hide Proper;
    var up := q[..|q| - 1];
    assert p <= up ==> p <= q by { if p <= up { PrefixTrans(p, up, q); } }
    assert SameAt(t, g, up);
  }

  lemma GraftParent(t: Tree, p: Path, sub: Tree, g: Tree, q: Path)
    requires Proper(t) && p != [] && p[..|p| - 1] in t && t[p[..|p| - 1]].Dir? && ProperSub(sub)
    requires SubtreeIs(g, p, sub) && (forall x :: !(p <= x) ==> SameAt(t, g, x)) && q in g && q != []
    ensures q[..|q| - 1] in g && g[q[..|q| - 1]].Dir?
  {
    hide Proper, ProperSub, SubtreeIs;
    if p <= q {
      var s := q[|p|..];
      assert q == p + s;
      SubtreeAt(g, p, sub, s);
      if s == [] {
        assert q == p;
        assert SameAt(t, g, p[..|p| - 1]);
      } else {
        GraftInside(g, p, sub, s);
      }
    } else {
      assert SameAt(t, g, q);
      GraftOutside(t, p, g, q);
    }
  }

  lemma GraftProper(t: Tree, p: Path, sub: Tree)
    requires Proper(t) && p != [] && p[..|p| - 1] in t && t[p[..|p| - 1]].Dir? && ProperSub(sub)
    ensures Proper(Graft(t, p, sub))
  {
    hide Graft;
    var g := Graft(t, p, sub);
    GraftAt(t, p, sub);
    assert SameAt(t, g, []);
    forall q | q in g && q != [] ensures q[..|q| - 1] in g && g[q[..|q| - 1]].Dir? {
      GraftParent(t, p, sub, g, q);
    }
  }

  lemma PrefixTrans(a: Path, b: Path, c: Path)
    requires a <= b <= c
    ensures a <= c
  {
    assert c[..|a|] == c[..|b|][..|a|];
  }

  // ---------------------------------------------------------------- subtrees inside subtrees

  predicate AgreeAt(t: Tree, q: Path, sub: Tree, s: Path)
  {
    (q in t <==> s in sub) && (s in sub && q in t ==> t[q] == sub[s])
  }

  lemma SubtreeMeans(t: Tree, p: Path, sub: Tree, s: Path)
    requires SubtreeIs(t, p, sub)
    ensures AgreeAt(t, p + s, sub, s)
  {
  }

  lemma SubtreeFrom(t: Tree, p: Path, sub: Tree)
    requires forall s :: AgreeAt(t, p + s, sub, s)
    ensures SubtreeIs(t, p, sub)
  {
    forall s ensures (p + s in t <==> s in sub) && (s in sub ==> t[p + s] == sub[s]) {
      assert AgreeAt(t, p + s, sub, s);
    }
  }

  /** What is below a path of a subtree is below the longer path of the tree. */
  lemma NestedIff(t: Tree, d: Path, e: Path, sub: Tree, copied: Tree)
    requires SubtreeIs(t, d, sub)
    ensures SubtreeIs(t, d + e, copied) <==> SubtreeIs(sub, e, copied)
  {
    hide SubtreeIs;
    if SubtreeIs(t, d + e, copied) {
      forall s ensures AgreeAt(sub, e + s, copied, s) {
        assert (d + e) + s == d + (e + s);
        SubtreeMeans(t, d, sub, e + s);
        SubtreeMeans(t, d + e, copied, s);
      }
      SubtreeFrom(sub, e, copied);
    }
    if SubtreeIs(sub, e, copied) {
      forall s ensures AgreeAt(t, (d + e) + s, copied, s) {
        assert (d + e) + s == d + (e + s);
        SubtreeMeans(t, d, sub, e + s);
        SubtreeMeans(sub, e, copied, s);
      }
      SubtreeFrom(t, d + e, copied);
    }
  }

  lemma InsideSame(t: Tree, g: Tree, d: Path, p: Path, sub: Tree, copied: Tree)
    requires SubtreeIs(t, d, sub) && SubtreeIs(t, p, copied) && SubtreeIs(g, p, copied)
    requires forall q :: !(p <= q) ==> SameAt(t, g, q)
    ensures SubtreeIs(g, d, sub)
  {
    hide SubtreeIs;
    forall s ensures AgreeAt(g, d + s, sub, s) {
      SubtreeMeans(t, d, sub, s);
      if p <= d + s {
        var x := (d + s)[|p|..];
        assert d + s == p + x;
        SubtreeMeans(g, p, copied, x);
        SubtreeMeans(t, p, copied, x);
      } else {
        assert SameAt(t, g, d + s);
      }
    }
    SubtreeFrom(g, d, sub);
  }

  lemma {:induction false} PrefixThere(t: Tree, p: Path, q: Path)
    requires Proper(t) && p in t && q <= p
    ensures q in t
    decreases |p|
  {
    if q != p {
      var up := p[..|p| - 1];
      assert q == up[..|q|];
      PrefixThere(t, up, q);
    }
  }

  /** If `p` exists already, a rewrite around it is one below it. */
  lemma AroundThere(a: Tree, b: Tree, p: Path)
    requires Proper(a) && OnlyAround(a, b, p) && p in a
    ensures forall q :: !(p <= q) ==> SameAt(a, b, q)
  {
    forall q | !(p <= q) ensures SameAt(a, b, q) {
      if q <= p { PrefixThere(a, p, q); }
    }
  }

  // ---------------------------------------------------------------- the loop

  /** One decoded bind record with what the run meets: the source as first and as later manifested, and the
      object that `cp` leaves at the target. */
  datatype Bind = Bind(destination: string, seed: bool, first: Tree, later: Tree, copied: Tree, copyOk: bool)

  /** A manifest with its payload bytes and its number of entries; none where manifesting is refused. */
  datatype Summary = Summary(encoding: seq<int>, payload: nat, inodes: nat)
  type Manifest = Tree -> Option<Summary>

  datatype Record = Record(destination: string, manifest: seq<int>, seed: bool)

  datatype Limits = Limits(bytes: nat, inodes: nat)

  predicate IsDirectory(sub: Tree) { [] in sub && sub[[]].Dir? }

  /** The manifests before, after and of the copy agree. */
  predicate Faithful(b: Bind, m: Manifest)
  {
    && b.copyOk && m(b.first).Some? && m(b.later).Some? && m(b.copied).Some?
    && m(b.first).value.encoding == m(b.later).value.encoding == m(b.copied).value.encoding
  }

  /** What the loop checks of a record against the earlier destinations. */
  predicate Admitted(b: Bind, earlier: seq<string>)
  {
    && Canonical(b.destination) && !TextProtected(b.destination)
    && (forall i :: 0 <= i < |earlier| ==> !TextOverlap(b.destination, earlier[i]))
    && !(b.seed && IsDirectory(b.first))
  }

  function Destinations(binds: seq<Bind>): (r: seq<string>)
    ensures |r| == |binds| && forall i :: 0 <= i < |r| ==> r[i] == binds[i].destination
  {
    seq(|binds|, i requires 0 <= i < |binds| => binds[i].destination)
  }

  function Total(binds: seq<Bind>, m: Manifest): (nat, nat)
  {
    if binds == [] then (0, 0)
    else
      var (b, n) := Total(binds[..|binds| - 1], m);
      match m(binds[|binds| - 1].first)
      case None => (b, n)
      case Some(s) => (b + s.payload, n + s.inodes)
  }

  /** If `y` lies at or inside `x`, the copy of `x` holds the copy of `y` there. */
  ghost predicate Fits(x: Bind, y: Bind)
  {
    var d, e := Components(x.destination), Components(y.destination);
    d <= e ==> SubtreeIs(x.copied, e[|d|..], y.copied)
  }

  /** Where destinations of the plan lie inside one another, the copies agree. */
  ghost predicate Compatible(binds: seq<Bind>, n: nat)
    requires n <= |binds|
  {
    forall i, j :: 0 <= i < n && 0 <= j < n && i != j ==> Fits(binds[i], binds[j])
  }

  /** No destination of the plan lies at or inside another. */
  ghost predicate Apart(binds: seq<Bind>, n: nat)
    requires n <= |binds|
  {
    forall i, j :: 0 <= i < n && 0 <= j < n && i != j ==>
      !Overlap(Components(binds[i].destination), Components(binds[j].destination))
  }

  /** The objects of the first `n` binds are all in place. */
  ghost predicate InPlace(t: Tree, binds: seq<Bind>, n: nat)
    requires n <= |binds|
  {
    forall i :: 0 <= i < n ==> SubtreeIs(t, Components(binds[i].destination), binds[i].copied)
  }

  ghost predicate AllAdmitted(binds: seq<Bind>, n: nat)
    requires n <= |binds|
  {
    forall i :: 0 <= i < n ==> Admitted(binds[i], Destinations(binds)[..i])
  }

  /** Outside of all destinations nothing changes, but for directories made on the way to them. */
  ghost predicate Untouched(a: Tree, b: Tree, binds: seq<Bind>, n: nat)
    requires n <= |binds|
  {
    forall q :: (forall i :: 0 <= i < n ==> !Overlap(Components(binds[i].destination), q)) ==> SameAt(a, b, q)
  }

  /** With one kind of root the accepted destinations form a prefix-free set of component paths. */
  lemma PrefixFree(binds: seq<Bind>, n: nat, i: nat, j: nat)
    requires n <= |binds| && AllAdmitted(binds, n) && i < j < n
    requires Root(binds[i].destination) == Root(binds[j].destination)
    ensures !Overlap(Components(binds[i].destination), Components(binds[j].destination))
  {
    hide Canonical, TextOverlap, Overlap, Components, Root;
    assert Admitted(binds[i], Destinations(binds)[..i]) && Admitted(binds[j], Destinations(binds)[..j]);
    assert Destinations(binds)[..j][i] == binds[i].destination;
    OverlapTestExact(binds[j].destination, binds[i].destination);
    OverlapSymmetric(Components(binds[i].destination), Components(binds[j].destination));
  }

  lemma OverlapSymmetric(p: Path, q: Path)
    ensures Overlap(p, q) <==> Overlap(q, p)
  {
  }

  /** So a plan written with one kind of root lies apart, whatever is in it. */
  lemma OneRootApart(binds: seq<Bind>, n: nat)
    requires n <= |binds| && AllAdmitted(binds, n)
    requires forall i, j :: 0 <= i < n && 0 <= j < n ==> Root(binds[i].destination) == Root(binds[j].destination)
    ensures Apart(binds, n)
  {
    hide AllAdmitted, Components, Overlap, Root;
    forall i, j | 0 <= i < n && 0 <= j < n && i != j
      ensures !Overlap(Components(binds[i].destination), Components(binds[j].destination))
    {
      if i < j { PrefixFree(binds, n, i, j); } else {
        PrefixFree(binds, n, j, i);
        OverlapSymmetric(Components(binds[i].destination), Components(binds[j].destination));
      }
    }
  }

  /** Two copies that are both in place agree wherever one lies inside the other. */
  lemma BothFit(t: Tree, x: Bind, y: Bind)
    requires SubtreeIs(t, Components(x.destination), x.copied) && SubtreeIs(t, Components(y.destination), y.copied)
    ensures Fits(x, y)
  {
    hide SubtreeIs, Components;
    var d, e := Components(x.destination), Components(y.destination);
    if d <= e {
      assert e == d + e[|d|..];
      NestedIff(t, d, e[|d|..], x.copied, y.copied);
    }
  }

  /** A bind survives the placement of another one if and only if their copies agree wherever one of the
      destinations lies inside the other. */
  lemma SurvivesIff(a: Tree, b: Tree, x: Bind, y: Bind)
    requires Proper(a) && ProperSub(y.copied) && SubtreeIs(a, Components(x.destination), x.copied)
    requires OnlyAround(a, b, Components(y.destination)) && SubtreeIs(b, Components(y.destination), y.copied)
    ensures SubtreeIs(b, Components(x.destination), x.copied) <==> Fits(x, y) && Fits(y, x)
  {
    hide SubtreeIs, Components, OnlyAround, Proper, ProperSub;
    var d, e := Components(x.destination), Components(y.destination);
    if SubtreeIs(b, d, x.copied) {
      BothFit(b, x, y);
      BothFit(b, y, x);
    }
    if Fits(x, y) && Fits(y, x) {
      if e <= d {
        assert d == e + d[|e|..];
        NestedIff(b, e, d[|e|..], y.copied, x.copied);
      } else if d <= e {
        assert e == d + e[|d|..];
        NestedIff(a, d, e[|d|..], x.copied, y.copied);
        TopThere(a, e, y.copied);
        AroundThere(a, b, e);
        InsideSame(a, b, d, e, x.copied, y.copied);
      } else {
        SubtreeSurvives(a, b, e, d, x.copied);
      }
    }
  }

  lemma TopThere(t: Tree, p: Path, sub: Tree)
    requires SubtreeIs(t, p, sub) && ProperSub(sub)
    ensures p in t
  {
    SubtreeAt(t, p, sub, []);
    assert p + [] == p;
  }

  /** Placing one more bind keeps all the earlier ones if the plan so far is compatible. */
  lemma PlaceKeeps(a: Tree, b: Tree, binds: seq<Bind>, n: nat)
    requires n < |binds| && Proper(a) && ProperSub(binds[n].copied) && InPlace(a, binds, n) && Compatible(binds, n + 1)
    requires OnlyAround(a, b, Components(binds[n].destination))
    requires SubtreeIs(b, Components(binds[n].destination), binds[n].copied)
    ensures InPlace(b, binds, n + 1)
  {
    hide OnlyAround, SubtreeIs, Components, Proper, ProperSub, Fits;
    forall i | 0 <= i < n ensures SubtreeIs(b, Components(binds[i].destination), binds[i].copied) {
      assert Fits(binds[i], binds[n]) && Fits(binds[n], binds[i]);
      SurvivesIff(a, b, binds[i], binds[n]);
    }
  }

  /** Whatever happens around a destination that lies apart leaves the others. */
  lemma ApartKeeps(a: Tree, b: Tree, binds: seq<Bind>, n: nat)
    requires n < |binds| && InPlace(a, binds, n) && Apart(binds, |binds|)
    requires OnlyAround(a, b, Components(binds[n].destination))
    ensures InPlace(b, binds, n)
  {
    hide OnlyAround, SubtreeIs, Overlap, Components;
    forall i | 0 <= i < n ensures SubtreeIs(b, Components(binds[i].destination), binds[i].copied) {
      SubtreeSurvives(a, b, Components(binds[n].destination), Components(binds[i].destination), binds[i].copied);
    }
  }

  lemma ApartFits(binds: seq<Bind>, n: nat)
    requires n <= |binds| && Apart(binds, |binds|)
    ensures Compatible(binds, n)
  {
    hide SubtreeIs, Components;
  }

  /** All in place means compatible. */
  lemma InPlaceFits(t: Tree, binds: seq<Bind>, n: nat)
    requires n <= |binds| && InPlace(t, binds, n)
    ensures Compatible(binds, n)
  {
    hide SubtreeIs, Components, Fits;
    forall i, j | 0 <= i < n && 0 <= j < n && i != j ensures Fits(binds[i], binds[j]) {
      BothFit(t, binds[i], binds[j]);
    }
  }

  lemma InPlaceIff(a: Tree, b: Tree, binds: seq<Bind>, n: nat)
    requires n < |binds| && Proper(a) && ProperSub(binds[n].copied)
    requires InPlace(a, binds, n) <==> Compatible(binds, n)
    requires OnlyAround(a, b, Components(binds[n].destination))
    requires SubtreeIs(b, Components(binds[n].destination), binds[n].copied)
    ensures InPlace(b, binds, n + 1) <==> Compatible(binds, n + 1)
  {
    if Compatible(binds, n + 1) {
      assert Compatible(binds, n);
      hide Compatible, InPlace, OnlyAround, SubtreeIs, Components, Proper, ProperSub;
      PlaceKeeps(a, b, binds, n);
    }
    if InPlace(b, binds, n + 1) { InPlaceFits(b, binds, n + 1); }
  }

  lemma AroundTwice(a: Tree, b: Tree, c: Tree, p: Path)
    requires OnlyAround(a, b, p) && forall q :: !(p <= q) ==> SameAt(b, c, q)
    ensures OnlyAround(a, c, p)
  {
    forall q | !Overlap(p, q) || (q < p && q in a) ensures SameAt(a, c, q) {
      assert SameAt(a, b, q);
      assert !(p <= q);
      assert SameAt(b, c, q);
    }
  }

  /** One pass of the loop body after the textual checks: place, copy, compare. */
  method PlaceOne(t: Tree, b: Bind, m: Manifest) returns (ok: bool, tree: Tree)
    requires Proper(t) && Canonical(b.destination) && ProperSub(b.copied)
    ensures Proper(tree) && OnlyAround(t, tree, Components(b.destination))
    ensures ok <==> Placeable(t, Components(b.destination), IsDirectory(b.first)) && Faithful(b, m)
    ensures ok ==> SubtreeIs(tree, Components(b.destination), b.copied)
    ensures ok ==> ParentsMade(t, tree, Components(b.destination))
    ensures !Placeable(t, Components(b.destination), IsDirectory(b.first)) ==> tree == t
  {
    hide Proper, ProperSub, Canonical, SubtreeIs, OnlyAround, Graft, Fresh, ParentsMade;
    var p := Components(b.destination);
    AroundNone(t, p);
    if m(b.first).None? { return false, t; }
    var placed := DestinationPath(t, p, IsDirectory(b.first));
    if placed.Refused? { return false, t; }
    tree := placed.tree;
    GraftAt(tree, p, b.copied);
    ParentStays(tree, p, IsDirectory(b.first));
    GraftProper(tree, p, b.copied);
    AroundTwice(t, tree, Graft(tree, p, b.copied), p);
    ParentsKept(t, tree, Graft(tree, p, b.copied), p);
    tree := Graft(tree, p, b.copied);
    var before, after, copied := m(b.first), m(b.later), m(b.copied);
    if !b.copyOk || after.None? || copied.None? { return false, tree; }
    ok := before.value.encoding == after.value.encoding && before.value.encoding == copied.value.encoding;
  }

  lemma AroundNone(t: Tree, p: Path)
    ensures OnlyAround(t, t, p)
  {
  }

  lemma ParentStays(t: Tree, p: Path, directory: bool)
    requires Proper(t) && p != [] && SubtreeIs(t, p, Fresh(directory))
    ensures p[..|p| - 1] in t && t[p[..|p| - 1]].Dir?
  {
    SubtreeAt(t, p, Fresh(directory), []);
    assert p + [] == p;
    ProperAt(t, p);
  }

  // ---------------------------------------------------------------- when the loop succeeds

  /** The destination of the bind can be placed in `t`. */
  ghost predicate Ready(t: Tree, b: Bind)
  {
    Canonical(b.destination) && Placeable(t, Components(b.destination), IsDirectory(b.first))
  }

  /** Everything the loop needs of its inputs before it starts. */
  ghost predicate Executable(t: Tree, binds: seq<Bind>, m: Manifest, limits: Limits)
  {
    && |binds| <= 8 && AllAdmitted(binds, |binds|)
    && (forall i :: 0 <= i < |binds| ==> Faithful(binds[i], m) && Ready(t, binds[i]))
    && Total(binds, m).0 <= limits.bytes && Total(binds, m).1 <= limits.inodes
  }

  /** On the way to `d` a rewrite around `p` makes directories only. */
  lemma ParentKept(a: Tree, b: Tree, p: Path, d: Path, n: nat)
    requires Proper(b) && OnlyAround(a, b, p) && p in b && !Overlap(p, d) && n < |d|
    ensures d[..n] in a ==> SameAt(a, b, d[..n])
    ensures d[..n] !in a && d[..n] in b ==> b[d[..n]].Dir?
  {
    var q := d[..n];
    if p <= q { PrefixTrans(p, q, d); }
    if q < p {
      var up := p[..n + 1];
      PrefixThere(b, p, up);
      ProperAt(b, up);
      assert up[..|up| - 1] == q;
    } else {
      assert SameAt(a, b, q);
    }
  }

  lemma {:induction false} RealKept(a: Tree, b: Tree, p: Path, d: Path, n: nat)
    requires Proper(b) && OnlyAround(a, b, p) && p in b && !Overlap(p, d) && n < |d|
    ensures RealParents(a, d, n) <==> RealParents(b, d, n)
  {
    hide Proper, OnlyAround, Overlap;
    if n > 0 {
      RealKept(a, b, p, d, n - 1);
      ParentKept(a, b, p, d, n);
    }
  }

  /** Placing an object does not decide whether one that lies apart from it can be placed. */
  lemma PlaceableKept(a: Tree, b: Tree, p: Path, d: Path, directory: bool)
    requires Proper(b) && OnlyAround(a, b, p) && p in b && !Overlap(p, d) && d != []
    ensures Placeable(a, d, directory) <==> Placeable(b, d, directory)
  {
    assert SameAt(a, b, d);
    hide Proper, OnlyAround, Overlap, RealParents;
    RealKept(a, b, p, d, |d| - 1);
  }

  lemma ReadyKept(a: Tree, b: Tree, x: Bind, y: Bind)
    requires Proper(b) && OnlyAround(a, b, Components(x.destination)) && Components(x.destination) in b
    requires !Overlap(Components(x.destination), Components(y.destination))
    ensures Ready(a, y) <==> Ready(b, y)
  {
    hide Canonical, Components, Proper, OnlyAround, Overlap;
    PlaceableKept(a, b, Components(x.destination), Components(y.destination), IsDirectory(y.first));
  }

  /** From bind `n` on the same destinations can be placed in `a` and in `b`. */
  ghost predicate SameReady(a: Tree, b: Tree, binds: seq<Bind>, n: nat)
  {
    forall i :: n <= i < |binds| ==> (Ready(a, binds[i]) <==> Ready(b, binds[i]))
  }

  lemma SameReadyNext(t: Tree, a: Tree, b: Tree, binds: seq<Bind>, n: nat)
    requires n < |binds| && Apart(binds, |binds|) && SameReady(t, a, binds, n)
    requires Proper(b) && OnlyAround(a, b, Components(binds[n].destination)) && Components(binds[n].destination) in b
    ensures SameReady(t, b, binds, n + 1)
  {
    hide Components, Proper, OnlyAround, Overlap, Ready;
    forall i | n + 1 <= i < |binds| ensures Ready(t, binds[i]) <==> Ready(b, binds[i]) {
      ReadyKept(a, b, binds[n], binds[i]);
    }
  }

  lemma {:induction false} TotalGrows(binds: seq<Bind>, m: Manifest, n: nat)
    requires n <= |binds|
    ensures Total(binds[..n], m).0 <= Total(binds, m).0 && Total(binds[..n], m).1 <= Total(binds, m).1
    decreases |binds|
  {
    if n == |binds| {
      assert binds[..n] == binds;
    } else {
      var k := |binds| - 1;
      TotalGrows(binds[..k], m, n);
      assert binds[..k][..n] == binds[..n];
    }
  }

  /** What fails of one bind fails of the plan. */
  lemma ExecutableAt(t: Tree, binds: seq<Bind>, m: Manifest, limits: Limits, n: nat)
    requires Executable(t, binds, m, limits) && n < |binds|
    ensures Admitted(binds[n], Destinations(binds)[..n]) && Faithful(binds[n], m) && Ready(t, binds[n])
    ensures m(binds[n].first).Some?
    ensures Total(binds[..n + 1], m).0 <= limits.bytes && Total(binds[..n + 1], m).1 <= limits.inodes
  {
    hide Admitted, Ready, Destinations, Total;
    TotalGrows(binds, m, n + 1);
  }

  /** The records so far describe faithful copies, which are all in place exactly if they are compatible. */
  ghost predicate Progress(t: Tree, tree: Tree, binds: seq<Bind>, m: Manifest, records: seq<Record>)
  {
    && Proper(tree) && |records| <= |binds|
    && (InPlace(tree, binds, |records|) <==> Compatible(binds, |records|))
    && (forall i :: 0 <= i < |records| ==> Faithful(binds[i], m) && records[i] == RecordOf(binds[i], m))
    && Untouched(t, tree, binds, |records|)
  }

  /** In a plan that lies apart the placed binds could be placed from the start, and the others still can if they
      could then. */
  ghost predicate Foreseen(t: Tree, tree: Tree, binds: seq<Bind>, n: nat)
    requires n <= |binds|
  {
    Apart(binds, |binds|) ==> SameReady(t, tree, binds, n) && forall i :: 0 <= i < n ==> Ready(t, binds[i])
  }

  lemma ForeseenNext(t: Tree, a: Tree, b: Tree, binds: seq<Bind>, n: nat)
    requires n < |binds| && Foreseen(t, a, binds, n) && Ready(a, binds[n])
    requires Proper(b) && OnlyAround(a, b, Components(binds[n].destination)) && Components(binds[n].destination) in b
    ensures Foreseen(t, b, binds, n + 1)
  {
    hide Components, Proper, OnlyAround, Overlap, Ready, Apart;
    if Apart(binds, |binds|) { SameReadyNext(t, a, b, binds, n); }
  }

  function RecordOf(b: Bind, m: Manifest): Record
    requires Faithful(b, m)
  {
    Record(b.destination, m(b.copied).value.encoding, b.seed)
  }

  /** One pass of the loop: place, copy, compare, record. */
  method Advance(ghost t: Tree, before: Tree, binds: seq<Bind>, m: Manifest, records: seq<Record>)
    returns (ok: bool, tree: Tree, next: seq<Record>)
    requires |records| < |binds| && AllAdmitted(binds, |records| + 1) && ProperSub(binds[|records|].copied)
    requires Progress(t, before, binds, m, records) && Foreseen(t, before, binds, |records|)
    ensures Proper(tree) && |next| <= |binds| && (Apart(binds, |binds|) ==> InPlace(tree, binds, |next|))
    ensures ok <==> Ready(before, binds[|records|]) && Faithful(binds[|records|], m)
    ensures ok ==> |next| == |records| + 1 && Progress(t, tree, binds, m, next) && Foreseen(t, tree, binds, |next|)
    ensures !ok ==> next == records
    ensures OnlyAround(before, tree, Components(binds[|records|].destination))
    ensures !Ready(before, binds[|records|]) ==> tree == before
  {
    hide Proper, ProperSub, Canonical, SubtreeIs, OnlyAround, InPlace, TextOverlap, TextProtected, Components,
         Placeable, Overlap, Apart, Compatible, Progress, AllAdmitted, Untouched, Foreseen, Faithful;
    var n := |records|;
    var b := binds[n];
    AdmittedAt(binds, n);
    ProgressFacts(t, before, binds, m, records);
    next := records;
    ok, tree := PlaceOne(before, b, m);
    if Apart(binds, |binds|) { ApartKeeps(before, tree, binds, n); }
    if ok {
      InPlaceIff(before, tree, binds, n);
      if Apart(binds, |binds|) { InPlaceNext(tree, binds, n); }
      FirstIsCopied(b, m);
      next := records + [Record(b.destination, m(b.first).value.encoding, b.seed)];
      ProgressNext(t, before, tree, binds, m, records, next);
      TopThere(tree, Components(b.destination), b.copied);
      ForeseenNext(t, before, tree, binds, n);
    }
  }

  lemma FirstIsCopied(b: Bind, m: Manifest)
    requires Faithful(b, m)
    ensures m(b.first).Some? && Record(b.destination, m(b.first).value.encoding, b.seed) == RecordOf(b, m)
  {
  }

  lemma AdmittedAt(binds: seq<Bind>, n: nat)
    requires n < |binds| && AllAdmitted(binds, n + 1)
    ensures Canonical(binds[n].destination)
  {
    assert Admitted(binds[n], Destinations(binds)[..n]);
  }

  lemma ProgressNext(t: Tree, before: Tree, tree: Tree, binds: seq<Bind>, m: Manifest, records: seq<Record>,
      next: seq<Record>)
    requires Progress(t, before, binds, m, records) && |records| < |binds| && AllAdmitted(binds, |records| + 1)
    requires Proper(tree) && (InPlace(tree, binds, |records| + 1) <==> Compatible(binds, |records| + 1))
    requires OnlyAround(before, tree, Components(binds[|records|].destination)) && Faithful(binds[|records|], m)
    requires next == records + [RecordOf(binds[|records|], m)]
    ensures Progress(t, tree, binds, m, next)
  {
    hide Proper, InPlace, Compatible, OnlyAround, Untouched, AllAdmitted;
    UntouchedNext(t, before, tree, binds, |records|);
  }

  /** The loop of `main`.  A result of success means: at most eight records, each admitted against all
      earlier ones and copied faithfully, the totals within the limits, and one record per bind.  Every copied
      object is then still in place after the whole loop if and only if the plan is compatible; in a plan that
      lies apart this is so after every number of binds, also of a failing run, and the loop succeeds if and only
      if the plan could be executed bind by bind on the initial tree. */
  method Materialize(t: Tree, binds: seq<Bind>, m: Manifest, limits: Limits)
    returns (ok: bool, tree: Tree, records: seq<Record>)
    requires Proper(t) && forall i :: 0 <= i < |binds| ==> ProperSub(binds[i].copied)
    ensures Proper(tree) && |records| <= |binds|
    ensures Apart(binds, |binds|) ==> InPlace(tree, binds, |records|)
    ensures ok ==> |records| == |binds| <= 8 && AllAdmitted(binds, |binds|) && Progress(t, tree, binds, m, records)
    ensures ok ==> (InPlace(tree, binds, |binds|) <==> Compatible(binds, |binds|))
    ensures ok ==> Total(binds, m).0 <= limits.bytes && Total(binds, m).1 <= limits.inodes
    ensures Apart(binds, |binds|) ==> (ok <==> Executable(t, binds, m, limits))
    ensures Apart(binds, |binds|) ==> forall i :: 0 <= i < |binds| && Clashes(t, binds[i]) ==>
      !ok && SameAt(t, tree, Components(binds[i].destination))
  {
    hide Proper, ProperSub, InPlace, Progress, AllAdmitted, Apart, Compatible, Admitted, Total, Destinations,
         IsDirectory, Faithful, Ready, Clashes, OnlyAround, Foreseen, ClashesStay;
    tree, records, ok := t, [], false;
    ClashesNone(t, binds);
    ForeseenNone(t, binds);
    ProgressNone(t, binds, m);
    ProgressFacts(t, tree, binds, m, records);
    ClashesFail(t, tree, binds);
    if |binds| > 8 { return; }
    var destinations: seq<string> := [];
    var total := (0, 0);
    while |records| < |binds|
      invariant |records| <= |binds| && Progress(t, tree, binds, m, records)
      invariant Charged(binds, m, limits, |records|, destinations, total) && Foreseen(t, tree, binds, |records|)
      invariant Apart(binds, |binds|) ==> ClashesStay(t, tree, binds)
      decreases |binds| - |records|
    {
      ProgressFacts(t, tree, binds, m, records);
      if Executable(t, binds, m, limits) { ExecutableAt(t, binds, m, limits, |records|); }
      var admitted;
      admitted, destinations, total := Admit(binds, |records|, m, limits, destinations, total);
      ClashesFail(t, tree, binds);
      ForeseenAt(t, tree, binds, |records|);
      if !admitted { return; }
      var placed;
      ghost var was, n := tree, |records|;
      placed, tree, records := Advance(t, tree, binds, m, records);
      if Apart(binds, |binds|) { ClashStays(t, was, tree, binds, m, n); }
      ClashesFail(t, tree, binds);
      if !placed { return; }
    }
    assert binds[..|records|] == binds;
    ProgressFacts(t, tree, binds, m, records);
    RecordsFaithful(t, tree, binds, m, records);
    if Apart(binds, |binds|) { ForeseenAll(t, tree, binds); }
    ok := true;
    ClashesFail(t, tree, binds);
  }

  /** At the destination is a link or a special file, or a directory although the source is a file, or a file
      although the source is a directory. */
  predicate Clashes(t: Tree, b: Bind)
  {
    var p := Components(b.destination);
    p in t && match t[p]
              case Link(_) => true
              case Special => true
              case Dir(_, _, _) => !([] in b.first && b.first[[]].Dir?)
              case File(_, _, _, _) => [] in b.first && b.first[[]].Dir?
  }

  /** Such an object is as it was. */
  ghost predicate ClashesStay(t: Tree, tree: Tree, binds: seq<Bind>)
  {
    forall i :: 0 <= i < |binds| && Clashes(t, binds[i]) ==> SameAt(t, tree, Components(binds[i].destination))
  }

  lemma ClashesNone(t: Tree, binds: seq<Bind>)
    ensures ClashesStay(t, t, binds)
  {
  }

  /** Only such an object, or a parent that is no real directory, refuses a canonical destination. */
  lemma ClashRefused(t: Tree, b: Bind)
    ensures Ready(t, b)
      <==> && Canonical(b.destination) && !Clashes(t, b)
           && RealParents(t, Components(b.destination), |Components(b.destination)| - 1)
  {
    hide Canonical, Components, RealParents;
  }

  lemma ClashStays(t: Tree, a: Tree, b: Tree, binds: seq<Bind>, m: Manifest, n: nat)
    requires n < |binds| && Apart(binds, |binds|) && ClashesStay(t, a, binds) && Foreseen(t, a, binds, n)
    requires OnlyAround(a, b, Components(binds[n].destination)) && (!Ready(a, binds[n]) ==> b == a)
    ensures ClashesStay(t, b, binds)
  {
    hide Components, Clashes, Ready;
    forall i | 0 <= i < |binds| && Clashes(t, binds[i]) ensures SameAt(t, b, Components(binds[i].destination)) {
      ClashRefused(t, binds[i]);
      if i != n {
        assert !Overlap(Components(binds[n].destination), Components(binds[i].destination));
        assert SameAt(a, b, Components(binds[i].destination));
      }
    }
  }

  lemma ForeseenNone(t: Tree, binds: seq<Bind>)
    ensures Foreseen(t, t, binds, 0)
  {
    hide Ready, Apart;
  }

  lemma ForeseenAt(t: Tree, tree: Tree, binds: seq<Bind>, n: nat)
    requires n < |binds| && Foreseen(t, tree, binds, n)
    ensures Apart(binds, |binds|) ==> (Ready(t, binds[n]) <==> Ready(tree, binds[n]))
  {
    hide Ready, Apart;
  }

  lemma ForeseenAll(t: Tree, tree: Tree, binds: seq<Bind>)
    requires Foreseen(t, tree, binds, |binds|) && Apart(binds, |binds|)
    ensures forall i :: 0 <= i < |binds| ==> Ready(t, binds[i])
  {
    hide Ready, Apart;
  }

  /** A plan with such a destination is not executable. */
  lemma ClashesFail(t: Tree, tree: Tree, binds: seq<Bind>)
    ensures ClashesStay(t, tree, binds) ==>
      forall i :: 0 <= i < |binds| && Clashes(t, binds[i]) ==>
        !Ready(t, binds[i]) && SameAt(t, tree, Components(binds[i].destination))
  {
    hide Ready, Clashes, Components;
    forall i | 0 <= i < |binds| && Clashes(t, binds[i]) ensures !Ready(t, binds[i]) { ClashRefused(t, binds[i]); }
  }

  /** The loop's accumulators after `n` binds. */
  ghost predicate Charged(binds: seq<Bind>, m: Manifest, limits: Limits, n: nat, destinations: seq<string>,
      total: (nat, nat))
    requires n <= |binds|
  {
    && AllAdmitted(binds, n) && destinations == Destinations(binds)[..n]
    && total == Total(binds[..n], m) && total.0 <= limits.bytes && total.1 <= limits.inodes
  }

  /** The checks of one record and the aggregate limits. */
  method Admit(binds: seq<Bind>, n: nat, m: Manifest, limits: Limits, before: seq<string>, total: (nat, nat))
    returns (ok: bool, destinations: seq<string>, next: (nat, nat))
    requires n < |binds| && Charged(binds, m, limits, n, before, total)
    ensures ok ==> Charged(binds, m, limits, n + 1, destinations, next)
    ensures ok <==> && Admitted(binds[n], Destinations(binds)[..n]) && m(binds[n].first).Some?
                    && Total(binds[..n + 1], m).0 <= limits.bytes && Total(binds[..n + 1], m).1 <= limits.inodes
  {
    hide AllAdmitted, Admitted, Destinations, Total;
    var b := binds[n];
    ok, destinations, next := false, before, total;
    var fine := CheckRecord(b, before);
    if !fine { return; }
    AdmitNext(binds, n);
    DestinationNext(binds, n);
    destinations := before + [b.destination];
    var first := m(b.first);
    if first.None? { return; }
    TotalNext(binds, m, n);
    next := (total.0 + first.value.payload, total.1 + first.value.inodes);
    ok := next.0 <= limits.bytes && next.1 <= limits.inodes;
  }

  /** The tests of one record: runtime-owned paths, the earlier destinations, seeds, and the form of the path. */
  method CheckRecord(b: Bind, earlier: seq<string>) returns (ok: bool)
    ensures ok <==> Admitted(b, earlier)
  {
    hide Canonical, IsDirectory, AsPosix, Named;
    var d := b.destination;
    OwnedExactly(d);
    if d == "/" || d == "/dev" || "/dev/" <= d || d == "/proc" || "/proc/" <= d || d == "/run" || "/run/" <= d
       || d == "/sys" || "/sys/" <= d {
      return false;
    }
    var i := 0;
    while i < |earlier|
      invariant 0 <= i <= |earlier| && forall j :: 0 <= j < i ==> !TextOverlap(d, earlier[j])
    {
      if d == earlier[i] || earlier[i] + "/" <= d || d + "/" <= earlier[i] { return false; }
      i := i + 1;
    }
    var directory := [] in b.first && b.first[[]].Dir?;
    DirectoryExactly(b.first);
    if b.seed && directory { return false; }
    CanonicalExactly(d);
    if d == [] || d[0] != '/' || AsPosix(d) != d || d == "/" || ".." in Named(d) { return false; }
    ok := d != "//";  // has no component to place: an index error in the source
  }

  lemma DirectoryExactly(sub: Tree)
    ensures IsDirectory(sub) <==> [] in sub && sub[[]].Dir?
  {
  }

  lemma OwnedExactly(d: string)
    ensures TextProtected(d)
      <==> d == "/" || d == "/dev" || "/dev/" <= d || d == "/proc" || "/proc/" <= d || d == "/run" || "/run/" <= d
           || d == "/sys" || "/sys/" <= d
  {
    assert "/" + "dev" == "/dev" && "/" + "proc" == "/proc" && "/" + "run" == "/run" && "/" + "sys" == "/sys";
    assert "/" + "dev" + "/" == "/dev/" && "/" + "proc" + "/" == "/proc/" && "/" + "run" + "/" == "/run/";
    assert "/" + "sys" + "/" == "/sys/";
    assert "dev" in PROTECTED && "proc" in PROTECTED && "run" in PROTECTED && "sys" in PROTECTED;
    assert forall name :: name in PROTECTED ==> name in {"dev", "proc", "run", "sys"};
  }

  lemma AdmitNext(binds: seq<Bind>, n: nat)
    requires n < |binds| && AllAdmitted(binds, n) && Admitted(binds[n], Destinations(binds)[..n])
    ensures AllAdmitted(binds, n + 1)
  {
  }

  lemma DestinationNext(binds: seq<Bind>, n: nat)
    requires n < |binds|
    ensures Destinations(binds)[..n + 1] == Destinations(binds)[..n] + [binds[n].destination]
  {
  }

  lemma TotalNext(binds: seq<Bind>, m: Manifest, n: nat)
    requires n < |binds| && m(binds[n].first).Some?
    ensures Total(binds[..n + 1], m)
            == (Total(binds[..n], m).0 + m(binds[n].first).value.payload,
                Total(binds[..n], m).1 + m(binds[n].first).value.inodes)
  {
    assert binds[..n + 1][..n] == binds[..n];
  }

  lemma ProgressNone(t: Tree, binds: seq<Bind>, m: Manifest)
    requires Proper(t)
    ensures Progress(t, t, binds, m, []) && AllAdmitted(binds, 0) && Total(binds[..0], m) == (0, 0)
    ensures Destinations(binds)[..0] == []
  {
  }

  lemma ProgressFacts(t: Tree, tree: Tree, binds: seq<Bind>, m: Manifest, records: seq<Record>)
    requires Progress(t, tree, binds, m, records)
    ensures Proper(tree) && |records| <= |binds| && (InPlace(tree, binds, |records|) <==> Compatible(binds, |records|))
    ensures Apart(binds, |binds|) ==> InPlace(tree, binds, |records|)
  {
    hide Compatible, InPlace, Apart, Proper, Untouched;
    if Apart(binds, |binds|) { ApartFits(binds, |records|); }
  }

  lemma RecordsFaithful(t: Tree, tree: Tree, binds: seq<Bind>, m: Manifest, records: seq<Record>)
    requires Progress(t, tree, binds, m, records)
    ensures forall i :: 0 <= i < |records| ==> Faithful(binds[i], m)
  {
    hide Compatible, InPlace, Proper, Untouched, Faithful;
  }

  lemma InPlaceNext(t: Tree, binds: seq<Bind>, n: nat)
    requires n < |binds| && InPlace(t, binds, n)
    requires SubtreeIs(t, Components(binds[n].destination), binds[n].copied)
    ensures InPlace(t, binds, n + 1)
  {
  }

  lemma UntouchedNext(a: Tree, b: Tree, c: Tree, binds: seq<Bind>, n: nat)
    requires n < |binds| && AllAdmitted(binds, n + 1) && Untouched(a, b, binds, n)
    requires OnlyAround(b, c, Components(binds[n].destination))
    ensures Untouched(a, c, binds, n + 1)
  {
    hide Canonical, TextOverlap, TextProtected, Components, Overlap;
    forall q | forall i :: 0 <= i < n + 1 ==> !Overlap(Components(binds[i].destination), q) ensures SameAt(a, c, q) {
      assert !Overlap(Components(binds[n].destination), q);
      assert SameAt(b, c, q);
      assert SameAt(a, b, q);
    }
  }

  // ---------------------------------------------------------------- what an undetected overlap does

  const BARE: Tree := map[[] := NEW_DIR]
  const EMPTY_DIR: Tree := map[[] := NEW_DIR]
  const EMPTY_FILE: Tree := map[[] := NEW_FILE]

  function Copying(destination: string, source: Tree): Bind { Bind(destination, false, source, source, source, true) }

  function AnyManifest(t: Tree): Option<Summary> { Some(Summary([], 0, 1)) }

  lemma UnseenPlan()
    ensures var inner, outer := Copying("//a/b", EMPTY_FILE), Copying("/a", EMPTY_DIR);
      && Admitted(inner, []) && Admitted(outer, []) && Admitted(inner, ["/a"]) && Admitted(outer, ["//a/b"])
      && Components("//a/b") == ["a", "b"] && Components("/a") == ["a"]
  {
    OverlapMissed();
    assert "a" !in PROTECTED;
    ProtectedExact("/a");
    ProtectedExact("//a/b");
    hide Canonical, Components, TextProtected;
  }

  lemma CopiesDiffer()
    ensures Components("//a/b") == ["a", "b"] && Components("/a") == ["a"]
    ensures !Fits(Copying("/a", EMPTY_DIR), Copying("//a/b", EMPTY_FILE))
  {
    OverlapMissed();
    hide Components;
    assert ["a", "b"][1..] == ["b"] && ["b"] + [] == ["b"];
    assert ["a"] <= ["a", "b"];
    assert !SubtreeIs(EMPTY_DIR, ["b"], EMPTY_FILE) by { SubtreeHasTop(EMPTY_DIR, ["b"], EMPTY_FILE); }
  }

  lemma SubtreeHasTop(t: Tree, p: Path, sub: Tree)
    ensures SubtreeIs(t, p, sub) && [] in sub ==> p in t
  {
    assert p + [] == p;
  }

  /** Both destinations are accepted and both binds placed; the second one, inside the first, changes it. */
  method LostInside() returns (tree: Tree, binds: seq<Bind>)
    ensures |binds| == 2 && AllAdmitted(binds, 2) && SubtreeIs(tree, Components(binds[1].destination), binds[1].copied)
    ensures !SubtreeIs(tree, Components(binds[0].destination), binds[0].copied)
  {
    hide SubtreeIs, OnlyAround, Canonical, Components, TextOverlap, TextProtected, Fits;
    UnseenPlan();
    CopiesDiffer();
    binds := [Copying("/a", EMPTY_DIR), Copying("//a/b", EMPTY_FILE)];
    assert Destinations(binds)[..0] == [] && Destinations(binds)[..1] == ["/a"];
    var first, t := PlaceOne(BARE, binds[0], AnyManifest);
    assert first;
    PlaceableInside(t);
    var second;
    second, tree := PlaceOne(t, binds[1], AnyManifest);
    assert second;
    SurvivesIff(t, tree, binds[0], binds[1]);
  }

  lemma PlaceableInside(t: Tree)
    requires SubtreeIs(t, ["a"], EMPTY_DIR)
    ensures Placeable(t, ["a", "b"], false)
  {
    var p := ["a", "b"];
    assert ["a"] + [] == ["a"] && ["a"] + ["b"] == p && p[..1] == ["a"];
    assert RealParents(t, p, 0);
  }

  /** The other way round: the second destination encloses the first, and replacing it removes the first bind. */
  method LostAround() returns (tree: Tree, binds: seq<Bind>)
    ensures |binds| == 2 && AllAdmitted(binds, 2) && SubtreeIs(tree, Components(binds[1].destination), binds[1].copied)
    ensures !SubtreeIs(tree, Components(binds[0].destination), binds[0].copied)
  {
    hide SubtreeIs, OnlyAround, Canonical, Components, TextOverlap, TextProtected, Fits;
    UnseenPlan();
    CopiesDiffer();
    binds := [Copying("//a/b", EMPTY_FILE), Copying("/a", EMPTY_DIR)];
    assert Destinations(binds)[..0] == [] && Destinations(binds)[..1] == ["//a/b"];
    BarePlaceable();
    var first, t := PlaceOne(BARE, binds[0], AnyManifest);
    assert first;
    PlaceableAround(t);
    var second;
    second, tree := PlaceOne(t, binds[1], AnyManifest);
    assert second;
    SurvivesIff(t, tree, binds[0], binds[1]);
  }

  lemma BarePlaceable()
    ensures Placeable(BARE, ["a", "b"], false)
  {
    var p := ["a", "b"];
    assert RealParents(BARE, p, 0);
  }

  lemma PlaceableAround(t: Tree)
    requires Proper(t) && SubtreeIs(t, ["a", "b"], EMPTY_FILE)
    ensures Placeable(t, ["a"], true)
  {
    SubtreeHasTop(t, ["a", "b"], EMPTY_FILE);
    ProperAt(t, ["a", "b"]);
    assert ["a", "b"][..1] == ["a"];
  }
}
