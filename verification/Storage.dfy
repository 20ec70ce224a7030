/**
 Capacity accounting of `build-runtime-storage.py`: bytes and inodes of a source tree, each inode
 counted once.
 */
module Storage {
  import opened Bytes
  import opened Tree
  import Admission

  type Inode = Admission.Inode

  /** `st_blocks` of an inode. */
  type Blocks = Inode -> nat

  function InodeOf(i: Info): Inode { Admission.InodeOf(i) }

  // ---------------------------------------------------------------- os.walk

  function Subdirectories(cs: seq<Keyed<Tree>>): (r: seq<Keyed<Tree>>)
    ensures forall c :: c in r <==> c in cs && IsDir(c.item.info)
  {
    if cs == [] then [] else (if IsDir(cs[0].item.info) then [cs[0]] else []) + Subdirectories(cs[1..])
  }

  function OtherFiles(cs: seq<Keyed<Tree>>): (r: seq<Keyed<Tree>>)
    ensures forall c :: c in r <==> c in cs && !IsDir(c.item.info)
  {
    if cs == [] then [] else (if IsDir(cs[0].item.info) then [] else [cs[0]]) + OtherFiles(cs[1..])
  }

  function Infos(cs: seq<Keyed<Tree>>): (r: seq<Info>)
    ensures |r| == |cs| && forall i :: 0 <= i < |r| ==> r[i] == cs[i].item.info
  {
    seq(|cs|, i requires 0 <= i < |cs| => cs[i].item.info)
  }

  /** What the walk looks at, directory by directory: with `self` the directory and then `directories +
      files`, without it only the latter.  A subdirectory is so met once or twice. */
  function Visits(t: Tree, self: bool): seq<Info>
    decreases t
  {
    var ds := Subdirectories(t.children);
    (if self then [t.info] else []) + Infos(ds) + Infos(OtherFiles(t.children)) + VisitsAll(ds, self, t)
  }

  function VisitsAll(ds: seq<Keyed<Tree>>, self: bool, within: Tree): seq<Info>
    requires forall d :: d in ds ==> d.item < within
    decreases within, |ds|
  {
    if ds == [] then [] else Visits(ds[0].item, self) + VisitsAll(ds[1..], self, within)
  }

  // ---------------------------------------------------------------- the objects of the tree

  /** The inodes of the objects below a directory, however many names they have. */
  function InodesBelow(t: Tree): set<Inode>
    decreases t
  {
    BelowAll(t.children, t)
  }

  function BelowAll(cs: seq<Keyed<Tree>>, within: Tree): set<Inode>
    requires forall c :: c in cs ==> c.item < within
    decreases within, |cs|
  {
    if cs == [] then {}
    else
      {InodeOf(cs[0].item.info)} + (if IsDir(cs[0].item.info) then InodesBelow(cs[0].item) else {})
      + BelowAll(cs[1..], within)
  }

  function InodesOf(infos: seq<Info>): (r: set<Inode>)
    ensures forall i :: 0 <= i < |infos| ==> InodeOf(infos[i]) in r
    ensures forall x :: x in r ==> exists i :: 0 <= i < |infos| && InodeOf(infos[i]) == x
  {
    set i | 0 <= i < |infos| :: InodeOf(infos[i])
  }

  lemma InodesConcat(a: seq<Info>, b: seq<Info>)
    ensures InodesOf(a + b) == InodesOf(a) + InodesOf(b)
  {
    forall x ensures x in InodesOf(a + b) <==> x in InodesOf(a) + InodesOf(b) {
      if x in InodesOf(a) { var i :| 0 <= i < |a| && InodeOf(a[i]) == x; assert (a + b)[i] == a[i]; }
      if x in InodesOf(b) { var i :| 0 <= i < |b| && InodeOf(b[i]) == x; assert (a + b)[|a| + i] == b[i]; }
    }
  }

  lemma {:induction false} InodesMember(cs: seq<Keyed<Tree>>, within: Tree, c: Keyed<Tree>)
    requires (forall x :: x in cs ==> x.item < within) && c in cs
    ensures InodeOf(c.item.info) in BelowAll(cs, within)
    ensures IsDir(c.item.info) ==> InodesBelow(c.item) <= BelowAll(cs, within)
    decreases |cs|
  {
    if c != cs[0] { InodesMember(cs[1..], within, c); }
  }

  lemma {:induction false} InodesWitness(cs: seq<Keyed<Tree>>, within: Tree, x: Inode) returns (c: Keyed<Tree>)
    requires (forall c :: c in cs ==> c.item < within) && x in BelowAll(cs, within)
    ensures c in cs && (x == InodeOf(c.item.info) || (IsDir(c.item.info) && x in InodesBelow(c.item)))
    decreases |cs|
  {
    c := cs[0];
    if !(x == InodeOf(c.item.info) || (IsDir(c.item.info) && x in InodesBelow(c.item))) {
      c := InodesWitness(cs[1..], within, x);
    }
  }

  lemma {:induction false} VisitsMember(ds: seq<Keyed<Tree>>, self: bool, within: Tree, d: Keyed<Tree>)
    requires (forall x :: x in ds ==> x.item < within) && d in ds
    ensures InodesOf(Visits(d.item, self)) <= InodesOf(VisitsAll(ds, self, within))
    decreases |ds|
  {
    hide Visits, InodesOf;
    InodesConcat(Visits(ds[0].item, self), VisitsAll(ds[1..], self, within));
    if d != ds[0] { VisitsMember(ds[1..], self, within, d); }
  }

  lemma {:induction false} VisitsWitness(ds: seq<Keyed<Tree>>, self: bool, within: Tree, x: Inode)
      returns (d: Keyed<Tree>)
    requires (forall d :: d in ds ==> d.item < within) && x in InodesOf(VisitsAll(ds, self, within))
    ensures d in ds && x in InodesOf(Visits(d.item, self))
    decreases |ds|
  {
    hide Visits;
    InodesConcat(Visits(ds[0].item, self), VisitsAll(ds[1..], self, within));
    d := ds[0];
    if x !in InodesOf(Visits(d.item, self)) { d := VisitsWitness(ds[1..], self, within, x); }
  }

  lemma InfosInodes(cs: seq<Keyed<Tree>>, x: Inode)
    ensures x in InodesOf(Infos(cs)) <==> exists c :: c in cs && InodeOf(c.item.info) == x
  {
    if exists c :: c in cs && InodeOf(c.item.info) == x {
      var c :| c in cs && InodeOf(c.item.info) == x;
      var i :| 0 <= i < |cs| && cs[i] == c;
      assert InodeOf(Infos(cs)[i]) == x;
    }
    if x in InodesOf(Infos(cs)) {
      var i :| 0 <= i < |Infos(cs)| && InodeOf(Infos(cs)[i]) == x;
      assert cs[i] in cs;
    }
  }

  lemma VisitsSplit(t: Tree, self: bool, x: Inode)
    ensures x in InodesOf(Visits(t, self)) <==>
      || (self && x == InodeOf(t.info)) || (exists c :: c in t.children && InodeOf(c.item.info) == x)
      || x in InodesOf(VisitsAll(Subdirectories(t.children), self, t))
  {
    hide InodesOf, VisitsAll, Infos;
    var ds, fs := Subdirectories(t.children), OtherFiles(t.children);
    var head := if self then [t.info] else [];
    InodesConcat(head, Infos(ds));
    InodesConcat(head + Infos(ds), Infos(fs));
    InodesConcat(head + Infos(ds) + Infos(fs), VisitsAll(ds, self, t));
    InfosInodes(ds, x);
    InfosInodes(fs, x);
    HeadInodes(t, self, x);
    if exists c :: c in t.children && InodeOf(c.item.info) == x {
      var c :| c in t.children && InodeOf(c.item.info) == x;
      assert c in ds || c in fs;
    }
  }

  lemma HeadInodes(t: Tree, self: bool, x: Inode)
    ensures x in InodesOf(if self then [t.info] else []) <==> self && x == InodeOf(t.info)
  {
    if self { assert InodeOf([t.info][0]) in InodesOf([t.info]); }
  }

  /** Whatever the order of the listings and however many names an inode has, the walk meets exactly the
      inodes of the tree. */
  lemma {:induction false} VisitsInodes(t: Tree, self: bool, x: Inode)
    ensures x in InodesOf(Visits(t, self)) <==> x in InodesBelow(t) || (self && x == InodeOf(t.info))
    decreases t
  {
    hide Visits, InodesOf, VisitsAll, BelowAll;
    VisitsSplit(t, self, x);
    var ds := Subdirectories(t.children);
    if x in InodesOf(VisitsAll(ds, self, t)) {
      var d := VisitsWitness(ds, self, t, x);
      VisitsInodes(d.item, self, x);
      InodesMember(t.children, t, d);
    }
    if exists c :: c in t.children && InodeOf(c.item.info) == x {
      var c :| c in t.children && InodeOf(c.item.info) == x;
      InodesMember(t.children, t, c);
    }
    if x in InodesBelow(t) {
      var c := InodesWitness(t.children, t, x);
      if x != InodeOf(c.item.info) {
        VisitsInodes(c.item, self, x);
        VisitsMember(ds, self, t, c);
      }
    }
  }

  // ---------------------------------------------------------------- the two counts

  /** The sum of the blocks of a set of inodes. */
  ghost function SumBlocks(s: set<Inode>, blocks: Blocks): nat
  {
    if s == {} then 0
    else
      var x :| x in s;
      blocks(x) + SumBlocks(s - {x}, blocks)
  }

  lemma {:induction false} SumAdd(s: set<Inode>, x: Inode, blocks: Blocks)
    requires x !in s
    ensures SumBlocks(s + {x}, blocks) == blocks(x) + SumBlocks(s, blocks)
  {
    var t := s + {x};
    var y :| y in t && SumBlocks(t, blocks) == blocks(y) + SumBlocks(t - {y}, blocks);
    if y == x {
      assert t - {x} == s;
    } else {
      assert t - {y} == (s - {y}) + {x};
      SumAdd(s - {y}, x, blocks);
      assert s == (s - {y}) + {y};
      SumAdd(s - {y}, y, blocks);
    }
  }

  lemma InodesNext(vs: seq<Info>, i: nat)
    requires i < |vs|
    ensures InodesOf(vs[..i + 1]) == InodesOf(vs[..i]) + {InodeOf(vs[i])}
  {
    assert vs[..i + 1] == vs[..i] + [vs[i]];
    InodesConcat(vs[..i], [vs[i]]);
    assert InodeOf([vs[i]][0]) in InodesOf([vs[i]]);
  }

  /** `allocated_bytes`: 512 bytes per block of every distinct inode of the tree. */
  method AllocatedBytes(root: Tree, blocks: Blocks) returns (total: nat)
    ensures total == 512 * SumBlocks(InodesBelow(root) + {InodeOf(root.info)}, blocks)
  {
    hide Visits, InodesOf, InodesBelow, SumBlocks;
    var vs := Visits(root, true);
    var observed: set<Inode> := {};
    total := 0;
    NoInodes(vs, blocks);
    var i := 0;
    while i < |vs|
      invariant 0 <= i <= |vs| && observed == InodesOf(vs[..i]) && total == 512 * SumBlocks(observed, blocks)
    {
      InodesNext(vs, i);
      var id := InodeOf(vs[i]);
      if id !in observed {
        SumAdd(observed, id, blocks);
        observed := observed + {id};
        total := total + blocks(id) * 512;
      } else {
        assert observed + {id} == observed;
      }
      i := i + 1;
    }
    assert vs[..i] == vs;
    forall x ensures x in observed <==> x in InodesBelow(root) + {InodeOf(root.info)} { VisitsInodes(root, true, x); }
    assert observed == InodesBelow(root) + {InodeOf(root.info)};
  }

  lemma NoInodes(vs: seq<Info>, blocks: Blocks)
    ensures InodesOf(vs[..0]) == {} && SumBlocks({}, blocks) == 0
  {
  }

  /** `imported_inode_count`: the distinct inodes below the root. */
  method ImportedInodeCount(root: Tree) returns (count: nat)
    ensures count == |InodesBelow(root)|
  {
    hide Visits, InodesOf, InodesBelow;
    var vs := Visits(root, false);
    var observed: set<Inode> := {};
    NoInodes(vs, _ => 0);
    var i := 0;
    while i < |vs|
      invariant 0 <= i <= |vs| && observed == InodesOf(vs[..i])
    {
      InodesNext(vs, i);
      observed := observed + {InodeOf(vs[i])};
      i := i + 1;
    }
    assert vs[..i] == vs;
    forall x ensures x in observed <==> x in InodesBelow(root) { VisitsInodes(root, false, x); }
    assert observed == InodesBelow(root);
    count := |observed|;
  }
}
