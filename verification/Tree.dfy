/**
 The directory tree that the builder scans: its preorder listing, the uniqueness of its paths and
 the fact that every listed path has its directory listed too.
 */
module Tree {
  import opened Options
  import opened Bytes
  import opened Entries

  /** The `stat` result of one object, with what `read` or `readlink` returns for it. */
  datatype Info = Info(dev: nat, ino: nat, mode: nat, uid: nat, gid: nat, size: nat, mtime: int, ctime: int,
                       nlink: nat, data: bytes, xattrs: map<bytes, bytes>)

  /** `children` is what `scandir` returns, in any order. */
  datatype Tree = Tree(info: Info, children: seq<Keyed<Tree>>)

  const ROOT: bytes := [DOT]
  const DOTDOT: bytes := [DOT, DOT]

  predicate IsDir(info: Info) { info.mode / PERMISSIONS == TypeBits(Directory) }
  predicate IsReg(info: Info) { info.mode / PERMISSIONS == TypeBits(Regular) }
  predicate IsLink(info: Info) { info.mode / PERMISSIONS == TypeBits(Symlink) }

  function Join(parent: bytes, name: bytes): bytes
  {
    if parent == ROOT then name else parent + [SLASH] + name
  }

  /** A name the scan accepts below a directory. */
  predicate SafeName(name: bytes)
  {
    name != ROOT && name != DOTDOT && SLASH !in name && NUL !in name
  }

  type Item = Keyed<Info>

  /** `sorted(os.scandir(...))` of a directory, nothing for anything else. */
  function Listing(t: Tree): (cs: seq<Keyed<Tree>>)
    ensures forall c :: c in cs ==> c in t.children
    ensures forall c :: c in cs ==> c.item < t
  {
    if IsDir(t.info) then
      assert forall c :: c in Sort(t.children) ==> c in multiset(Sort(t.children));
      assert forall c :: c in multiset(t.children) ==> c in t.children;
      Sort(t.children)
    else []
  }

  /** The recursive definition: a node, then the subtrees of its children in byte order. */
  function Preorder(path: bytes, t: Tree): (items: seq<Item>)
    ensures items != [] && items[0] == Keyed(path, t.info)
    decreases t
  {
    [Keyed(path, t.info)] + PreorderAll(path, Listing(t), t)
  }

  function PreorderAll(path: bytes, cs: seq<Keyed<Tree>>, within: Tree): seq<Item>
    requires forall c :: c in cs ==> c.item < within
    decreases within, |cs|
  {
    if cs == [] then []
    else Preorder(Join(path, cs[0].key), cs[0].item) + PreorderAll(path, cs[1..], within)
  }

  /** All names of the tree pass the scan's check. */
  predicate Safe(t: Tree)
    decreases t
  {
    SafeAll(Listing(t), t)
  }

  predicate SafeAll(cs: seq<Keyed<Tree>>, within: Tree)
    requires forall c :: c in cs ==> c.item < within
    decreases within, |cs|
  {
    cs == [] || (SafeName(cs[0].key) && Safe(cs[0].item) && SafeAll(cs[1..], within))
  }

  /** What any file system guarantees: names are not empty and differ within a directory. */
  ghost predicate Proper(t: Tree)
    decreases t
  {
    ProperAll(Listing(t), t)
  }

  ghost predicate ProperAll(cs: seq<Keyed<Tree>>, within: Tree)
    requires forall c :: c in cs ==> c.item < within
    decreases within, |cs|
  {
    cs == [] || (&& cs[0].key != [] && (forall c :: c in cs[1..] ==> c.key != cs[0].key)
                 && Proper(cs[0].item) && ProperAll(cs[1..], within))
  }

  // ---------------------------------------------------------------- paths

  /** `q` is `p` or lies below it. */
  predicate Under(p: bytes, q: bytes)
  {
    q == p || p + [SLASH] <= q
  }

  lemma UnderTransitive(a: bytes, b: bytes, c: bytes)
    requires Under(a, b) && Under(b, c)
    ensures Under(a, c)
  {
    if b != a && c != b {
      assert c[..|a| + 1] == b[..|a| + 1];
    }
  }

  function FirstPart(q: bytes): bytes
  {
    if q == [] || q[0] == SLASH then [] else [q[0]] + FirstPart(q[1..])
  }

  lemma {:induction false} FirstPartOf(m: bytes, q: bytes)
    requires SLASH !in m && Under(m, q)
    ensures FirstPart(q) == m
  {
    if m != [] {
      assert m == [m[0]] + m[1..];
      assert q[0] == m[0];
      StripUnder([m[0]], m[1..], q);
      FirstPartOf(m[1..], q[1..]);
    }
  }

  /** Two slash-free names that both start the same path are one name. */
  lemma NameUnique(m: bytes, n: bytes, q: bytes)
    requires SLASH !in m && SLASH !in n && Under(m, q) && Under(n, q)
    ensures m == n
  {
    FirstPartOf(m, q);
    FirstPartOf(n, q);
  }

  lemma ChildUnique(path: bytes, m: bytes, n: bytes, q: bytes)
    requires SLASH !in m && SLASH !in n && Under(Join(path, m), q) && Under(Join(path, n), q)
    ensures m == n
  {
    if path == ROOT {
      NameUnique(m, n, q);
    } else {
      var k := |path| + 1;
      StripUnder(path + [SLASH], m, q);
      StripUnder(path + [SLASH], n, q);
      NameUnique(m, n, q[k..]);
    }
  }

  lemma StripUnder(prefix: bytes, m: bytes, q: bytes)
    requires Under(prefix + m, q)
    ensures |q| >= |prefix| && Under(m, q[|prefix|..])
  {
    if q != prefix + m {
      assert (prefix + m + [SLASH])[|prefix|..] == m + [SLASH];
      assert q == q[..|prefix| + |m| + 1] + q[|prefix| + |m| + 1..];
      assert q[|prefix|..][..|m| + 1] == m + [SLASH];
    }
  }

  lemma JoinNotRoot(path: bytes, name: bytes)
    requires path != ROOT || SafeName(name)
    ensures Join(path, name) != ROOT
    ensures path != ROOT ==> Under(path, Join(path, name))
  {
    if path != ROOT { assert Join(path, name)[|path|] == SLASH; }
  }

  /** Everything listed for a subtree lies under the subtree's path. */
  lemma {:induction false} PathsUnder(path: bytes, t: Tree, x: Item)
    requires path != ROOT && x in Preorder(path, t)
    ensures Under(path, x.key)
    decreases t
  {
    if x != Keyed(path, t.info) {
      var c := WhichChild(path, Listing(t), t, x);
      JoinNotRoot(path, c.key);
      UnderTransitive(path, Join(path, c.key), x.key);
    }
  }

  lemma {:induction false} WhichChild(path: bytes, cs: seq<Keyed<Tree>>, within: Tree, x: Item) returns (c: Keyed<Tree>)
    requires forall c :: c in cs ==> c.item < within
    requires x in PreorderAll(path, cs, within) && (path != ROOT || SafeAll(cs, within))
    ensures c in cs && Under(Join(path, c.key), x.key)
    decreases within, |cs|
  {
    c := cs[0];
    if x in Preorder(Join(path, c.key), c.item) {
      JoinNotRoot(path, c.key);
      PathsUnder(Join(path, c.key), c.item, x);
    } else {
      c := WhichChild(path, cs[1..], within, x);
    }
  }

  // ---------------------------------------------------------------- no path is listed twice

  lemma {:induction false} SafeMember(cs: seq<Keyed<Tree>>, within: Tree, c: Keyed<Tree>)
    requires forall c :: c in cs ==> c.item < within
    requires SafeAll(cs, within) && c in cs
    ensures SafeName(c.key) && Safe(c.item)
    decreases |cs|
  {
    if c != cs[0] { SafeMember(cs[1..], within, c); }
  }

  lemma ConcatDistinct(a: seq<Item>, b: seq<Item>)
    requires DistinctKeys(a) && DistinctKeys(b)
    requires forall x, y :: x in a && y in b ==> x.key != y.key
    ensures DistinctKeys(a + b)
  {
    forall i, j | 0 <= i < j < |a + b| ensures (a + b)[i].key != (a + b)[j].key {
      if i < |a| <= j { assert a[i] in a && b[j - |a|] in b; }
    }
  }

  /** The listing of a safe tree never repeats a path. */
  lemma {:induction false} PathsDistinct(path: bytes, t: Tree)
    requires Safe(t) && Proper(t)
    ensures DistinctKeys(Preorder(path, t))
    decreases t
  {
    var rest := PreorderAll(path, Listing(t), t);
    PathsDistinctAll(path, Listing(t), t);
    forall y | y in rest ensures y.key != path {
      var c := WhichChild(path, Listing(t), t, y);
      SafeMember(Listing(t), t, c);
      JoinNotRoot(path, c.key);
      if path == ROOT && y.key == ROOT { NameUnique(c.key, ROOT, ROOT); }
    }
    ConcatDistinct([Keyed(path, t.info)], rest);
  }

  lemma {:induction false} PathsDistinctAll(path: bytes, cs: seq<Keyed<Tree>>, within: Tree)
    requires forall c :: c in cs ==> c.item < within
    requires SafeAll(cs, within) && ProperAll(cs, within)
    ensures DistinctKeys(PreorderAll(path, cs, within))
    decreases within, |cs|
  {
    if cs != [] {
      var first, rest := Preorder(Join(path, cs[0].key), cs[0].item), PreorderAll(path, cs[1..], within);
      PathsDistinct(Join(path, cs[0].key), cs[0].item);
      PathsDistinctAll(path, cs[1..], within);
      forall x, y | x in first && y in rest ensures x.key != y.key {
        JoinNotRoot(path, cs[0].key);
        PathsUnder(Join(path, cs[0].key), cs[0].item, x);
        var c := WhichChild(path, cs[1..], within, y);
        SafeMember(cs[1..], within, c);
        if x.key == y.key { ChildUnique(path, cs[0].key, c.key, x.key); }
      }
      ConcatDistinct(first, rest);
    }
  }

  // ---------------------------------------------------------------- parents are listed

  lemma {:induction false} ParentOfJoined(path: bytes, name: bytes)
    requires SLASH !in name
    ensures Parent(path + [SLASH] + name) == Some(path)
  {
    var p := path + [SLASH] + name;
    if name == [] {
      assert p[..|p| - 1] == path;
    } else {
      assert p[..|p| - 1] == path + [SLASH] + name[..|name| - 1];
      ParentOfJoined(path, name[..|name| - 1]);
    }
  }

  lemma {:induction false} ParentOfName(name: bytes)
    requires SLASH !in name
    ensures Parent(name) == None
  {
    if name != [] { ParentOfName(name[..|name| - 1]); }
  }

  ghost predicate HasDirectory(items: seq<Item>, p: bytes)
  {
    exists d :: d in items && d.key == p && IsDir(d.item)
  }

  /** A listed path is the subtree's own, or its directory is listed before it is needed. */
  lemma {:induction false} ParentsInPreorder(path: bytes, t: Tree, x: Item)
    requires Safe(t) && x in Preorder(path, t)
    ensures x == Keyed(path, t.info) || (path == ROOT && Parent(x.key) == None)
            || (Parent(x.key).Some? && HasDirectory(Preorder(path, t), Parent(x.key).value))
    decreases t
  {
    if x != Keyed(path, t.info) {
      assert IsDir(t.info);
      ParentsInAll(path, Listing(t), t, x);
      var items := Preorder(path, t);
      if path != ROOT && Parent(x.key) == Some(path) {
        assert items[0] in items && items[0].key == path;
      } else if Parent(x.key).Some? {
        var d :| d in PreorderAll(path, Listing(t), t) && d.key == Parent(x.key).value && IsDir(d.item);
        assert d in items;
      }
    }
  }

  lemma {:induction false} ParentsInAll(path: bytes, cs: seq<Keyed<Tree>>, within: Tree, x: Item)
    requires forall c :: c in cs ==> c.item < within
    requires SafeAll(cs, within) && x in PreorderAll(path, cs, within)
    ensures (if path == ROOT then Parent(x.key) == None else Parent(x.key) == Some(path))
            || (Parent(x.key).Some? && HasDirectory(PreorderAll(path, cs, within), Parent(x.key).value))
    decreases within, |cs|
  {
    var child := Join(path, cs[0].key);
    var first, rest := Preorder(child, cs[0].item), PreorderAll(path, cs[1..], within);
    if x in first {
      JoinNotRoot(path, cs[0].key);
      ParentsInPreorder(child, cs[0].item, x);
      if x.key == child {
        if path == ROOT { ParentOfName(cs[0].key); } else { ParentOfJoined(path, cs[0].key); }
      } else if x != Keyed(child, cs[0].item.info) {
        var d :| d in first && d.key == Parent(x.key).value && IsDir(d.item);
        assert d in PreorderAll(path, cs, within);
      }
    } else {
      ParentsInAll(path, cs[1..], within, x);
      if Parent(x.key).Some? && HasDirectory(rest, Parent(x.key).value) {
        var d :| d in rest && d.key == Parent(x.key).value && IsDir(d.item);
        assert d in PreorderAll(path, cs, within);
      }
    }
  }
}
