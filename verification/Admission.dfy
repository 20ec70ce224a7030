/**
 The second half of `_scan_held`: sorting, hard-link groups, the refusals, and the entries that a
 scan hands to the archive writers.
 */
module Admission {
  import opened Options
  import opened Bytes
  import opened Entries
  import opened Tree
  import opened Scan
  import opened Split

  // ---------------------------------------------------------------- symlink targets

  /** Resolving path components from a directory inside the root; none if they climb out of it. */
  function Resolve(at: seq<bytes>, parts: seq<bytes>): Option<seq<bytes>>
    decreases |parts|
  {
    if parts == [] then Some(at)
    else if parts[0] == [] || parts[0] == ROOT then Resolve(at, parts[1..])
    else if parts[0] == DOTDOT then
      if at == [] then None else Resolve(at[..|at| - 1], parts[1..])
    else Resolve(at + [parts[0]], parts[1..])
  }

  function Named(parts: seq<bytes>): seq<bytes>
  {
    if parts == [] then []
    else (if parts[0] == [] || parts[0] == ROOT then [] else [parts[0]]) + Named(parts[1..])
  }

  /** The components of `posixpath.dirname(path)`. */
  function DirectoryOf(path: bytes): seq<bytes>
  {
    match Parent(path)
    case None => []
    case Some(d) => Named(SplitOn(d, SLASH))
  }

  predicate Contained(path: bytes, target: bytes)
  {
    (target != [] && target[0] == SLASH) || Resolve(DirectoryOf(path), SplitOn(target, SLASH)).Some?
  }

  /** The number of parts of `posixpath.dirname(path)` that are neither empty nor `.`. */
  method DirectoryDepth(path: bytes) returns (depth: nat)
    ensures depth == |DirectoryOf(path)|
  {
    var k := |path|;
    assert path[..k] == path;
    while k > 0 && path[k - 1] != 47
      invariant 0 <= k <= |path| && Parent(path) == Parent(path[..k])
      decreases k
    {
      assert path[..k][..k - 1] == path[..k - 1];
      k := k - 1;
    }
    depth := 0;
    if k == 0 { return; }
    assert path[..k][..k - 1] == path[..k - 1];
    var parts := SplitOn(path[..k - 1], 47);
    var i := 0;
    assert parts[0..] == parts;
    while i < |parts|
      invariant 0 <= i <= |parts| && depth + |Named(parts[i..])| == |Named(parts)|
    {
      assert parts[i..][1..] == parts[i + 1..];
      if parts[i] != [] && parts[i] != [46] { depth := depth + 1; }
      i := i + 1;
    }
  }

  /** `_safe_target` counts depth only; that decides whether the resolution stays inside the root. */
  method SafeTarget(path: bytes, target: bytes) returns (safe: bool)
    ensures safe <==> Contained(path, target)
  {
    if target != [] && target[0] == 47 { return true; }
    var depth := DirectoryDepth(path);
    ghost var at := DirectoryOf(path);
    var parts := SplitOn(target, 47);
    var i := 0;
    assert parts[0..] == parts;
    while i < |parts|
      invariant 0 <= i <= |parts| && depth == |at|
      invariant Resolve(at, parts[i..]) == Resolve(DirectoryOf(path), parts)
    {
      assert parts[i..][1..] == parts[i + 1..];
      if parts[i] == [] || parts[i] == [46] {
      } else if parts[i] == [46, 46] {
        if depth == 0 { return false; }
        depth := depth - 1;
        at := at[..|at| - 1];
      } else {
        depth := depth + 1;
        at := at + [parts[i]];
      }
      i := i + 1;
    }
    safe := true;
  }

  // ---------------------------------------------------------------- hard-link groups

  type Inode = (nat, nat)

  function InodeOf(i: Info): Inode { (i.dev, i.ino) }

  predicate Grouped(i: Info) { IsReg(i) && i.nlink > 1 }

  /** The paths of one inode among the first `n` items. */
  function Group(items: seq<Item>, key: Inode, n: nat): seq<bytes>
    requires n <= |items|
  {
    if n == 0 then []
    else Group(items, key, n - 1)
         + if Grouped(items[n - 1].item) && InodeOf(items[n - 1].item) == key then [items[n - 1].key] else []
  }

  /** `groups` holds exactly the groups of the first `n` items. */
  ghost predicate GroupsOf(groups: map<Inode, seq<bytes>>, items: seq<Item>, n: nat)
    requires n <= |items|
  {
    forall k :: (k in groups <==> Group(items, k, n) != []) && (k in groups ==> groups[k] == Group(items, k, n))
  }

  lemma {:induction false} GroupMember(items: seq<Item>, i: int, n: nat)
    requires 0 <= i < n <= |items| && Grouped(items[i].item)
    ensures Group(items, InodeOf(items[i].item), n) != []
  {
    if i < n - 1 { GroupMember(items, i, n - 1); }
  }

  lemma {:induction false} GroupWitness(items: seq<Item>, key: Inode, n: nat) returns (i: nat)
    requires n <= |items| && Group(items, key, n) != []
    ensures i < n && Grouped(items[i].item) && InodeOf(items[i].item) == key
  {
    if Grouped(items[n - 1].item) && InodeOf(items[n - 1].item) == key { i := n - 1; }
    else { i := GroupWitness(items, key, n - 1); }
  }

  method CollectGroups(items: seq<Item>) returns (groups: map<Inode, seq<bytes>>)
    ensures GroupsOf(groups, items, |items|)
  {
    hide GroupsOf, Group;
    groups := map[];
    GroupsNone(items);
    var i := 0;
    while i < |items|
      invariant i <= |items|
      invariant GroupsOf(groups, items, i)
    {
      var info := items[i].item;
      GroupsNext(groups, items, i);
      if info.mode / 0x1000 == 8 && info.nlink > 1 {
        var k := (info.dev, info.ino);
        groups := groups[k := (if k in groups then groups[k] else []) + [items[i].key]];
      }
      i := i + 1;
    }
  }

  lemma GroupsNone(items: seq<Item>)
    ensures GroupsOf(map[], items, 0)
  {
  }

  lemma GroupsNext(groups: map<Inode, seq<bytes>>, items: seq<Item>, n: nat)
    requires n < |items| && GroupsOf(groups, items, n)
    ensures var k := InodeOf(items[n].item);
      if Grouped(items[n].item)
      then GroupsOf(groups[k := (if k in groups then groups[k] else []) + [items[n].key]], items, n + 1)
      else GroupsOf(groups, items, n + 1)
  {
    forall key ensures Group(items, key, n + 1) == Group(items, key, n)
      + if Grouped(items[n].item) && InodeOf(items[n].item) == key then [items[n].key] else [] { }
    hide Group;
  }

  /** The link count `next(...)` finds: that of the first item with the inode. */
  function Observed(items: seq<Item>, key: Inode): nat
  {
    if items == [] then 0
    else if InodeOf(items[0].item) == key then items[0].item.nlink
    else Observed(items[1..], key)
  }

  /** Every link of every admitted file lies inside the root. */
  ghost predicate LinksInside(items: seq<Item>)
  {
    forall i :: 0 <= i < |items| && Grouped(items[i].item) ==>
      Observed(items, InodeOf(items[i].item)) == |Group(items, InodeOf(items[i].item), |items|)|
  }

  // ---------------------------------------------------------------- entries

  function Ascii(s: string): (r: bytes)
    ensures |r| == |s| && forall i :: 0 <= i < |s| && s[i] < 128 as char ==> r[i] == s[i] as int
  {
    seq(|s|, i requires 0 <= i < |s| => if s[i] < 128 as char then s[i] as int else 0)
  }

  const OPAQUE: set<bytes> := {Ascii("trusted.overlay.opaque"), Ascii("user.overlay.opaque")}
  const OPACITY: set<bytes> := {Ascii("y"), Ascii("x")}

  predicate XattrsOk(info: Info)
  {
    forall name :: name in info.xattrs.Keys ==> name in OPAQUE && IsDir(info) && info.xattrs[name] in OPACITY
  }

  predicate ItemOk(x: Item)
  {
    && XattrsOk(x.item)
    && (IsDir(x.item) || IsReg(x.item) || IsLink(x.item))
    && (IsLink(x.item) ==> Contained(x.key, x.item.data))
  }

  ghost predicate Admissible(items: seq<Item>)
  {
    LinksInside(items) && forall i :: 0 <= i < |items| ==> ItemOk(items[i])
  }

  function KindOf(info: Info): Kind
  {
    if IsDir(info) then Directory else if IsReg(info) then Regular else Symlink
  }

  /** Turns a group's paths into its identifier; nothing if a path cannot be encoded. */
  type Naming = seq<bytes> -> Option<bytes>

  /** Every group gets an identifier. */
  ghost predicate Nameable(items: seq<Item>, name: Naming)
  {
    forall i :: 0 <= i < |items| && Grouped(items[i].item) ==> name(Group(items, InodeOf(items[i].item), |items|)).Some?
  }

  /** `hardlink_ids.get` of an inode. */
  function LinkId(items: seq<Item>, name: Naming, key: Inode): Option<bytes>
  {
    var group := Group(items, key, |items|);
    if group == [] then None else name(group)
  }

  /** The entry of one item. */
  function EntryAt(items: seq<Item>, name: Naming, i: int): Entry
    requires 0 <= i < |items|
  {
    var x := items[i];
    var kind := KindOf(x.item);
    Entry(x.key, x.item.mode, x.item.uid, x.item.gid, if kind == Directory then 0 else |x.item.data|, kind,
          if kind == Symlink then Some(x.item.data) else None,
          if kind == Regular then LinkId(items, name, InodeOf(x.item)) else None)
  }

  function EntriesOf(items: seq<Item>, name: Naming, n: nat): (es: seq<Entry>)
    requires n <= |items|
    ensures |es| == n && forall i :: 0 <= i < n ==> es[i] == EntryAt(items, name, i)
  {
    if n == 0 then [] else EntriesOf(items, name, n - 1) + [EntryAt(items, name, n - 1)]
  }

  function ContentsOf(items: seq<Item>, n: nat): Contents
    requires n <= |items|
  {
    if n == 0 then map[]
    else if IsDir(items[n - 1].item) then ContentsOf(items, n - 1)
    else ContentsOf(items, n - 1)[items[n - 1].key := items[n - 1].item.data]
  }

  lemma NoContents(items: seq<Item>)
    ensures ContentsOf(items, 0) == map[]
  {
  }

  lemma EntriesNext(items: seq<Item>, name: Naming, n: nat)
    requires n < |items|
    ensures EntriesOf(items, name, n + 1) == EntriesOf(items, name, n) + [EntryAt(items, name, n)]
    ensures ContentsOf(items, n + 1) == if IsDir(items[n].item) then ContentsOf(items, n)
                                        else ContentsOf(items, n)[items[n].key := items[n].item.data]
  {
    hide EntryAt;
  }

  datatype Result = Refused | Admitted(entries: seq<Entry>, contents: Contents)

  method CheckLinks(items: seq<Item>, groups: map<Inode, seq<bytes>>) returns (ok: bool)
    requires GroupsOf(groups, items, |items|)
    ensures ok <==> LinksInside(items)
  {
    var keys := groups.Keys;
    while keys != {}
      invariant keys <= groups.Keys
      invariant forall k :: k in groups.Keys - keys ==> Observed(items, k) == |Group(items, k, |items|)|
    {
      var k :| k in keys;
      if Observed(items, k) != |groups[k]| {
        ghost var i := GroupWitness(items, k, |items|);
        return false;
      }
      keys := keys - {k};
    }
    forall i | 0 <= i < |items| && Grouped(items[i].item) ensures InodeOf(items[i].item) in groups {
      GroupMember(items, i, |items|);
    }
    ok := true;
  }

  /** `hardlink_ids`, which fails on a path that cannot be encoded. */
  method NameGroups(items: seq<Item>, name: Naming, groups: map<Inode, seq<bytes>>)
      returns (ok: bool, ids: map<Inode, bytes>)
    requires GroupsOf(groups, items, |items|)
    ensures ok <==> Nameable(items, name)
    ensures ok ==> forall k :: LinkId(items, name, k) == if k in ids then Some(ids[k]) else None
  {
    hide Group;
    var keys := groups.Keys;
    ids := map[];
    while keys != {}
      invariant keys <= groups.Keys && ids.Keys == groups.Keys - keys
      invariant forall k :: k in ids ==> name(groups[k]) == Some(ids[k])
    {
      var k :| k in keys;
      var id := name(groups[k]);
      if id.None? {
        ghost var i := GroupWitness(items, k, |items|);
        return false, ids;
      }
      ids, keys := ids[k := id.value], keys - {k};
    }
    forall i | 0 <= i < |items| && Grouped(items[i].item) ensures InodeOf(items[i].item) in groups {
      GroupMember(items, i, |items|);
    }
    ok := true;
  }

  /** Only the overlay's opacity marks of directories are supported. */
  method CheckXattrs(info: Info) returns (ok: bool)
    ensures ok <==> XattrsOk(info)
  {
    hide Ascii;
    var names := info.xattrs.Keys;
    while names != {}
      invariant names <= info.xattrs.Keys
      invariant forall n :: n in info.xattrs.Keys - names ==> n in OPAQUE && IsDir(info) && info.xattrs[n] in OPACITY
    {
      var n :| n in names;
      if n != Ascii("trusted.overlay.opaque") && n != Ascii("user.overlay.opaque") { return false; }
      if info.mode / 0x1000 != 4 { return false; }
      if info.xattrs[n] != Ascii("y") && info.xattrs[n] != Ascii("x") { return false; }
      names := names - {n};
    }
    ok := true;
  }

  /** The entry loop over the sorted items. */
  method MakeEntries(items: seq<Item>, ghost name: Naming, ids: map<Inode, bytes>) returns (r: Result)
    requires forall k :: LinkId(items, name, k) == if k in ids then Some(ids[k]) else None
    ensures r.Admitted? <==> forall i :: 0 <= i < |items| ==> ItemOk(items[i])
    ensures r.Admitted? ==> r.entries == EntriesOf(items, name, |items|) && r.contents == ContentsOf(items, |items|)
  {
    hide Contained, XattrsOk, LinkId, EntriesOf, ContentsOf;
    var entries: seq<Entry> := [];
    var contents: Contents := map[];
    var i := 0;
    assert ContentsOf(items, 0) == map[] by { NoContents(items); }
    while i < |items|
      invariant i <= |items|
      invariant forall j :: 0 <= j < i ==> ItemOk(items[j])
      invariant entries == EntriesOf(items, name, i) && contents == ContentsOf(items, i)
    {
      var x := items[i];
      EntriesNext(items, name, i);
      var supported := CheckXattrs(x.item);
      if !supported { return Refused; }
      var k := (x.item.dev, x.item.ino);
      var link: Option<bytes> := if k in ids then Some(ids[k]) else None;
      if x.item.mode / 0x1000 == 4 {
        entries := entries + [Entry(x.key, x.item.mode, x.item.uid, x.item.gid, 0, Directory, None, None)];
      } else if x.item.mode / 0x1000 == 8 {
        contents := contents[x.key := x.item.data];
        entries := entries + [Entry(x.key, x.item.mode, x.item.uid, x.item.gid, |x.item.data|, Regular, None, link)];
      } else if x.item.mode / 0x1000 == 10 {
        var safe := SafeTarget(x.key, x.item.data);
        if !safe { return Refused; }
        contents := contents[x.key := x.item.data];
        entries := entries + [Entry(x.key, x.item.mode, x.item.uid, x.item.gid, |x.item.data|, Symlink,
          Some(x.item.data), None)];
      } else {
        return Refused;
      }
      i := i + 1;
    }
    r := Admitted(entries, contents);
  }

  /** `_scan_held`.  `later` is the tree that the final walk meets. */
  method ScanTree(root: Tree, later: Tree, name: Naming) returns (r: Result)
    ensures r.Admitted? <==> && Safe(root) && Admissible(Sort(Preorder(ROOT, root)))
                             && Nameable(Sort(Preorder(ROOT, root)), name)
                             && IdentityMap(Preorder(ROOT, later)) == IdentityMap(Sort(Preorder(ROOT, root)))
    ensures r.Admitted? ==> var items := Sort(Preorder(ROOT, root));
      r.entries == EntriesOf(items, name, |items|) && r.contents == ContentsOf(items, |items|)
  {
    hide Safe, Preorder, LinksInside, ItemOk, IdentityMap, Sort, EntriesOf, ContentsOf, Nameable;
    var safe, raw := Walk(root);
    if !safe { return Refused; }
    var items := Sort(raw);
    var groups := CollectGroups(items);
    var named, ids := NameGroups(items, name, groups);
    if !named { return Refused; }
    var inside := CheckLinks(items, groups);
    if !inside { return Refused; }
    r := MakeEntries(items, name, ids);
    if r.Refused? { return; }
    var same := Revalidate(later, items);
    if !same { r := Refused; }
  }
}
