/**
 The rootfs builder end to end: scanning a tree, writing the newc stream and unpacking it gives
 the tree back.
 */
module RootFS {
  import opened Options
  import opened Bytes
  import opened Entries
  import opened Tree
  import opened Scan
  import opened Admission
  import Cpio
  import Newc
  import NewcMeaning
  import Sorting
  import Tar

  /** What `stat` guarantees: one inode has one `stat` result, and a regular file with two names in
      the tree has a link count above one. */
  ghost predicate Consistent(items: seq<Item>)
  {
    forall i, j :: 0 <= i < |items| && 0 <= j < |items| && InodeOf(items[i].item) == InodeOf(items[j].item) ==>
      items[i].item == items[j].item && (i != j && IsReg(items[i].item) ==> items[i].item.nlink > 1)
  }

  /** The shortened digest names the groups of this tree apart. */
  ghost predicate NamesApart(items: seq<Item>, name: Naming)
  {
    forall i, j :: 0 <= i < |items| && 0 <= j < |items| && Grouped(items[i].item) && Grouped(items[j].item) ==>
      var a, b := Group(items, InodeOf(items[i].item), |items|), Group(items, InodeOf(items[j].item), |items|);
      name(a) == name(b) ==> a == b
  }

  ghost predicate WellNamed(items: seq<Item>, name: Naming)
  {
    Nameable(items, name) && NamesApart(items, name)
  }

  /** Two items are names of one regular file. */
  ghost predicate SameInode(x: Item, y: Item)
  {
    IsReg(x.item) && IsReg(y.item) && InodeOf(x.item) == InodeOf(y.item)
  }

  // ---------------------------------------------------------------- the sorted listing

  lemma SortedListing(root: Tree)
    requires Safe(root) && Proper(root)
    ensures Ascending(Sort(Preorder(ROOT, root)))
    ensures forall x :: x in Sort(Preorder(ROOT, root)) <==> x in Preorder(ROOT, root)
  {
    hide Preorder, Safe, Proper, Sort;
    PathsDistinct(ROOT, root);
    SortAscending(Preorder(ROOT, root));
    var raw, items := Preorder(ROOT, root), Sort(Preorder(ROOT, root));
    forall x ensures x in items <==> x in raw {
      assert x in items <==> x in multiset(items);
      assert x in raw <==> x in multiset(raw);
    }
  }

  lemma SameKey(items: seq<Item>, i: int, j: int)
    requires Ascending(items) && 0 <= i < |items| && 0 <= j < |items| && items[i].key == items[j].key
    ensures i == j
  {
    BelowIrreflexive(items[i].key);
  }

  lemma {:induction false} ContentsAt(items: seq<Item>, n: nat, i: int)
    requires Ascending(items) && 0 <= i < |items| && n <= |items|
    ensures items[i].key in ContentsOf(items, n) <==> i < n && !IsDir(items[i].item)
    ensures i < n && !IsDir(items[i].item) ==> ContentsOf(items, n)[items[i].key] == items[i].item.data
  {
    if n > 0 {
      ContentsAt(items, n - 1, i);
      if items[n - 1].key == items[i].key { SameKey(items, n - 1, i); }
    }
  }

  // ---------------------------------------------------------------- groups are inodes

  lemma {:induction false} GroupHas(items: seq<Item>, i: int, n: nat)
    requires 0 <= i < n <= |items| && Grouped(items[i].item)
    ensures items[i].key in Group(items, InodeOf(items[i].item), n)
  {
    if i < n - 1 { GroupHas(items, i, n - 1); }
  }

  lemma {:induction false} GroupOnly(items: seq<Item>, key: Inode, n: nat, p: bytes) returns (j: nat)
    requires n <= |items| && p in Group(items, key, n)
    ensures j < n && items[j].key == p && InodeOf(items[j].item) == key
  {
    if p in Group(items, key, n - 1) { j := GroupOnly(items, key, n - 1, p); } else { j := n - 1; }
  }

  lemma GroupsAreInodes(items: seq<Item>, i: int, j: int)
    requires Ascending(items) && 0 <= i < |items| && 0 <= j < |items| && Grouped(items[i].item)
    requires Group(items, InodeOf(items[i].item), |items|) == Group(items, InodeOf(items[j].item), |items|)
    ensures InodeOf(items[i].item) == InodeOf(items[j].item)
  {
    GroupHas(items, i, |items|);
    var k := GroupOnly(items, InodeOf(items[j].item), |items|, items[i].key);
    SameKey(items, i, k);
  }

  /** The link count is that of the inode, so a regular file in a group is multiply linked. */
  lemma GroupedIff(items: seq<Item>, i: int)
    requires Consistent(items) && 0 <= i < |items| && IsReg(items[i].item)
    ensures Group(items, InodeOf(items[i].item), |items|) != [] <==> Grouped(items[i].item)
  {
    hide Group;
    if Grouped(items[i].item) { GroupMember(items, i, |items|); }
    if Group(items, InodeOf(items[i].item), |items|) != [] {
      var j := GroupWitness(items, InodeOf(items[i].item), |items|);
    }
  }

  /** The hard-link identifiers of a scan partition the entries exactly as inodes do. */
  lemma PartitionIsInodes(items: seq<Item>, name: Naming, i: int, j: int)
    requires Ascending(items) && Consistent(items) && WellNamed(items, name)
    requires 0 <= i < |items| && 0 <= j < |items|
    ensures SameFile(EntriesOf(items, name, |items|), i, j) <==> i == j || SameInode(items[i], items[j])
  {
    hide Group, EntriesOf;
    if IsReg(items[i].item) { GroupedIff(items, i); }
    if IsReg(items[j].item) { GroupedIff(items, j); }
    if i != j {
      if Grouped(items[i].item) && Grouped(items[j].item) {
        var a, b := Group(items, InodeOf(items[i].item), |items|), Group(items, InodeOf(items[j].item), |items|);
        if name(a) == name(b) { GroupsAreInodes(items, i, j); }
      }
    }
  }

  // ---------------------------------------------------------------- the scan's guarantee

  lemma EntriesOk(items: seq<Item>, name: Naming, i: int)
    requires Ascending(items) && 0 <= i < |items| && ItemOk(items[i])
    ensures EntryOk(EntryAt(items, name, i), ContentsOf(items, |items|))
    ensures Body(EntryAt(items, name, i), ContentsOf(items, |items|)) == if IsDir(items[i].item) then []
      else items[i].item.data
  {
    hide Group, ContentsOf;
    ContentsAt(items, |items|, i);
  }

  lemma ParentsAreListed(root: Tree, name: Naming)
    requires Safe(root) && Proper(root)
    ensures var items := Sort(Preorder(ROOT, root)); ParentsListed(EntriesOf(items, name, |items|))
  {
    hide Sort, Preorder, Safe, Proper, EntriesOf;
    var items := Sort(Preorder(ROOT, root));
    var es := EntriesOf(items, name, |items|);
    SortedListing(root);
    forall i | 0 <= i < |es| && Parent(es[i].path).Some?
      ensures exists d :: 0 <= d < |es| && es[d].path == Parent(es[i].path).value && es[d].kind == Directory
    {
      assert items[i] in items;
      ParentsInPreorder(ROOT, root, items[i]);
      ParentOfName(ROOT);
      var x :| x in Preorder(ROOT, root) && x.key == Parent(es[i].path).value && IsDir(x.item);
      var d :| 0 <= d < |items| && items[d] == x;
      assert es[d].kind == Directory;
    }
  }

  /** What the archive writers may rely on after a scan. */
  lemma ScanGuarantees(root: Tree, name: Naming)
    requires Safe(root) && Proper(root) && Admissible(Sort(Preorder(ROOT, root)))
    requires Consistent(Sort(Preorder(ROOT, root))) && WellNamed(Sort(Preorder(ROOT, root)), name)
    ensures var items := Sort(Preorder(ROOT, root));
      Scanned(EntriesOf(items, name, |items|), ContentsOf(items, |items|))
  {
    hide Sort, Preorder, Safe, Proper, EntriesOf, ContentsOf, EntryOk, ItemOk, WellNamed, LinksInside, EntryAt,
         ParentsListed;
    var items := Sort(Preorder(ROOT, root));
    var es, contents := EntriesOf(items, name, |items|), ContentsOf(items, |items|);
    SortedListing(root);
    ParentsAreListed(root, name);
    forall i | 0 <= i < |es| ensures EntryOk(es[i], contents) && es[i].path == items[i].key {
      EntriesOk(items, name, i);
      EntryFields(items, name, i);
    }
    forall i, j | 0 <= i < |es| && 0 <= j < |es| && SameFile(es, i, j)
      ensures NodeOf(es[i], contents) == NodeOf(es[j], contents)
    {
      PartitionIsInodes(items, name, i, j);
      EntriesOk(items, name, i);
      EntriesOk(items, name, j);
      EntryFields(items, name, i);
      EntryFields(items, name, j);
    }
  }

  lemma EntryFields(items: seq<Item>, name: Naming, i: int)
    requires 0 <= i < |items|
    ensures var e := EntryAt(items, name, i);
      e.path == items[i].key && e.mode == items[i].item.mode && e.uid == items[i].item.uid && e.gid == items[i].item.gid
  {
  }

  // ---------------------------------------------------------------- end to end

  /** `img` is the tree that was scanned: the same paths; under each the same type, mode, owner and
      bytes; and two paths are one file exactly when they were one regular file's names. */
  ghost predicate Recovers(img: Image, items: seq<Item>)
  {
    && (forall p :: p in img.names ==> exists x :: x in items && x.key == p)
    && (forall x :: x in items ==> RecoversItem(img, x))
    && (forall x, y :: x in items && y in items ==> RecoversPair(img, x, y))
  }

  ghost predicate RecoversItem(img: Image, x: Item)
  {
    x.key in img.names && img.names[x.key] < |img.nodes| && img.nodes[img.names[x.key]] == NodeFor(x)
  }

  ghost predicate RecoversPair(img: Image, x: Item, y: Item)
  {
    && x.key in img.names && y.key in img.names
    && (img.names[x.key] == img.names[y.key] <==> x.key == y.key || SameInode(x, y))
  }

  lemma DenotationRecovers(img: Image, items: seq<Item>, name: Naming)
    requires Ascending(items) && Consistent(items) && WellNamed(items, name)
    requires forall i :: 0 <= i < |items| ==> ItemOk(items[i])
    requires Denotes(img, EntriesOf(items, name, |items|), ContentsOf(items, |items|))
    ensures Recovers(img, items)
  {
    hide WellNamed, Consistent, ItemOk, Denotes, EntriesOf, ContentsOf, SameInode, IsDir;
    forall x | x in items ensures RecoversItem(img, x) {
      var i :| 0 <= i < |items| && items[i] == x;
      RecoverNode(img, items, name, i);
    }
    forall p | p in img.names ensures exists x :: x in items && x.key == p {
      RecoverPath(img, items, name, p);
    }
    forall x, y | x in items && y in items ensures RecoversPair(img, x, y) {
      var i :| 0 <= i < |items| && items[i] == x;
      var j :| 0 <= j < |items| && items[j] == y;
      assert RecoversItem(img, x) && RecoversItem(img, y);
      RecoverLinks(img, items, name, i, j);
    }
  }

  function NodeFor(x: Item): Node
  {
    Node(x.item.mode, x.item.uid, x.item.gid, if IsDir(x.item) then [] else x.item.data)
  }

  lemma RecoverNode(img: Image, items: seq<Item>, name: Naming, i: int)
    requires Ascending(items) && 0 <= i < |items| && ItemOk(items[i])
    requires Denotes(img, EntriesOf(items, name, |items|), ContentsOf(items, |items|))
    ensures items[i].key in img.names && img.names[items[i].key] < |img.nodes|
    ensures img.nodes[img.names[items[i].key]] == NodeFor(items[i])
  {
    hide EntriesOf, ContentsOf, EntryAt, EntryOk, ItemOk;
    EntriesOk(items, name, i);
    EntryFields(items, name, i);
    NewcMeaning.MatchAt(img, EntriesOf(items, name, |items|), ContentsOf(items, |items|), |items|, i);
  }

  lemma RecoverPath(img: Image, items: seq<Item>, name: Naming, p: bytes)
    requires Denotes(img, EntriesOf(items, name, |items|), ContentsOf(items, |items|)) && p in img.names
    ensures exists x :: x in items && x.key == p
  {
    hide EntriesOf, ContentsOf, EntryAt;
    var es := EntriesOf(items, name, |items|);
    var i := PathIndex(es, |es|, p);
    EntryFields(items, name, i);
    assert items[i] in items;
  }

  lemma RecoverLinks(img: Image, items: seq<Item>, name: Naming, i: int, j: int)
    requires Ascending(items) && Consistent(items) && WellNamed(items, name) && 0 <= i < |items| && 0 <= j < |items|
    requires Denotes(img, EntriesOf(items, name, |items|), ContentsOf(items, |items|))
    requires items[i].key in img.names && items[j].key in img.names
    ensures img.names[items[i].key] == img.names[items[j].key]
      <==> items[i].key == items[j].key || SameInode(items[i], items[j])
  {
    hide EntriesOf, ContentsOf, EntryAt, Consistent, WellNamed, SameInode;
    var es := EntriesOf(items, name, |items|);
    EntryFields(items, name, i);
    EntryFields(items, name, j);
    PartitionIsInodes(items, name, i, j);
    assert Bound(img.names, es[i]) == Bound(img.names, es[j]) <==> SameFile(es, i, j);
    if items[i].key == items[j].key { SameKey(items, i, j); }
  }

  /** A tree that the scan accepts, listed in byte order, with what `stat` guarantees. */
  ghost predicate Accepted(root: Tree, name: Naming)
  {
    && Safe(root) && Proper(root) && Admissible(Listed(root))
    && Consistent(Listed(root)) && WellNamed(Listed(root), name)
  }

  function Listed(root: Tree): seq<Item> { Sort(Preorder(ROOT, root)) }

  function EntriesFor(root: Tree, name: Naming): seq<Entry>
  {
    EntriesOf(Listed(root), name, |Listed(root)|)
  }

  function ContentsFor(root: Tree): Contents { ContentsOf(Listed(root), |Listed(root)|) }

  /** Scan, print as tar members, unpack: the original tree, whatever its names and sizes. */
  lemma TarRecoversTree(root: Tree, name: Naming)
    requires Accepted(root, name)
    ensures var es := EntriesFor(root, name); var tar := Tar.UnpackAll(Tar.MembersOf(es, ContentsFor(root), |es|));
      tar.Some? && Recovers(tar.value, Listed(root))
  {
    hide Sort, Preorder, Safe, Proper, EntriesOf, ContentsOf, ItemOk, Consistent, WellNamed, LinksInside, Recovers,
         Scanned, DenotesPrefix, Tar.UnpackAll, Tar.MembersOf;
    var es, contents := EntriesFor(root, name), ContentsFor(root);
    SortedListing(root);
    ScanGuarantees(root, name);
    Tar.UnpackPrefix(es, contents, |es|);
    DenotationRecovers(Tar.UnpackAll(Tar.MembersOf(es, contents, |es|)).value, Listed(root), name);
  }

  /** Scan, print as a newc stream, read back, unpack: the original tree if and only if every object of it is
      encodable. */
  lemma NewcRecoversTreeIff(root: Tree, name: Naming)
    requires Accepted(root, name) && |Preorder(ROOT, root)| + 1 < Cpio.LIMIT
    ensures var newc := NewcMeaning.Meaning(Newc.Stream(EntriesFor(root, name), ContentsFor(root)));
      newc.Some? && Recovers(newc.value, Listed(root)) <==> forall x :: x in Listed(root) ==> ItemEncodable(x)
  {
    hide Sort, Preorder, Safe, Proper, EntriesOf, ContentsOf, ItemOk, Consistent, WellNamed, LinksInside, Recovers,
         Scanned, DenotesPrefix, Newc.Stream, NewcMeaning.Meaning, NewcMeaning.Encodable, ItemEncodable,
         NewcMeaning.ImageEncodable;
    var items, es, contents := Listed(root), EntriesFor(root, name), ContentsFor(root);
    var newc := NewcMeaning.Meaning(Newc.Stream(es, contents));
    SortedListing(root);
    ScanGuarantees(root, name);
    NewcMeaning.MeaningPreserved(es, contents);
    if forall x :: x in items ==> ItemEncodable(x) {
      ItemsEncodable(items, name);
      DenotationRecovers(newc.value, items, name);
    }
    NewcMeaning.MeaningEncodable(Newc.Stream(es, contents));
    if newc.Some? && Recovers(newc.value, items) { RecoveredEncodable(newc.value, items); }
  }

  /** What fits a newc record. */
  predicate ItemEncodable(x: Item)
  {
    NewcMeaning.NameEncodable(x.key) && NewcMeaning.NodeEncodable(NodeFor(x))
  }

  lemma ItemsEncodable(items: seq<Item>, name: Naming)
    requires Ascending(items) && (forall i :: 0 <= i < |items| ==> ItemOk(items[i]))
    requires forall x :: x in items ==> ItemEncodable(x)
    ensures NewcMeaning.Encodable(EntriesOf(items, name, |items|), ContentsOf(items, |items|))
  {
    hide EntriesOf, ContentsOf, ItemOk, EntryAt, NewcMeaning.EntryEncodable, ItemEncodable, Ascending;
    var es, contents := EntriesOf(items, name, |items|), ContentsOf(items, |items|);
    forall i | 0 <= i < |es| ensures NewcMeaning.EntryEncodable(es[i], contents) {
      assert items[i] in items;
      EncodableAt(items, name, i);
    }
  }

  lemma EncodableAt(items: seq<Item>, name: Naming, i: int)
    requires Ascending(items) && 0 <= i < |items| && ItemOk(items[i]) && ItemEncodable(items[i])
    ensures NewcMeaning.EntryEncodable(EntryAt(items, name, i), ContentsOf(items, |items|))
  {
    hide ContentsOf, ItemOk, EntryAt, EntryOk, Ascending;
    EntriesOk(items, name, i);
    EntryFields(items, name, i);
  }

  lemma RecoveredEncodable(img: Image, items: seq<Item>)
    requires Recovers(img, items) && NewcMeaning.ImageEncodable(img)
    ensures forall x :: x in items ==> ItemEncodable(x)
  {
    hide NewcMeaning.NameEncodable, NewcMeaning.NodeEncodable, NodeFor;
    forall x | x in items ensures ItemEncodable(x) { assert RecoversItem(img, x); }
  }

  // ---------------------------------------------------------------- a tree that only tar recovers

  const DIRECTORY_INFO := Info(1, 1, 16877, 0, 0, 0, 0, 0, 2, [], map[])  // 0o40755
  const FILE_INFO := Info(1, 2, 33188, 0, 0, 0, 0, 0, 1, [], map[])       // 0o100644

  /** A directory holding one empty file that is named like the trailer. */
  const TRAILER_TREE := Tree(DIRECTORY_INFO, [Keyed(Cpio.TRAILER, Tree(FILE_INFO, []))])

  lemma SortedAlready<T(!new)>(xs: seq<Keyed<T>>)
    requires Ascending(xs)
    ensures Sort(xs) == xs
  {
    hide Sort;
    AscendingDistinct(xs);
    SortAscending(xs);
    forall x ensures x in Sort(xs) <==> x in xs { SortMembers(xs, x); }
    AscendingUnique(Sort(xs), xs);
  }

  lemma FileAlone(path: bytes, info: Info)
    requires !IsDir(info)
    ensures var t := Tree(info, []);
      Listing(t) == [] && Preorder(path, t) == [Keyed(path, info)] && Safe(t) && Proper(t)
  {
  }

  /** A directory with one file in it. */
  lemma FileInRoot(t: Tree, name: bytes, file: Info)
    requires IsDir(t.info) && !IsDir(file) && t.children == [Keyed(name, Tree(file, []))] && SafeName(name)
      && name != []
    ensures Preorder(ROOT, t) == [Keyed(ROOT, t.info), Keyed(name, file)] && Safe(t) && Proper(t)
  {
    SortedAlready(t.children);
    hide Sort;
    FileAlone(name, file);
    var cs := t.children;
    assert Listing(t) == cs && cs[1..] == [];
    hide Listing, SafeName;
    assert PreorderAll(ROOT, cs[1..], t) == [] && SafeAll(cs[1..], t) && ProperAll(cs[1..], t);
    assert PreorderAll(ROOT, cs, t) == [Keyed(name, file)];
    assert SafeAll(cs, t) && ProperAll(cs, t);
  }

  lemma TrailerListed()
    ensures Preorder(ROOT, TRAILER_TREE) == Listed(TRAILER_TREE)
      == [Keyed(ROOT, DIRECTORY_INFO), Keyed(Cpio.TRAILER, FILE_INFO)]
    ensures Safe(TRAILER_TREE) && Proper(TRAILER_TREE)
  {
    hide Preorder, Safe, Proper, Sort;
    FileInRoot(TRAILER_TREE, Cpio.TRAILER, FILE_INFO);
    var items := [Keyed(ROOT, DIRECTORY_INFO), Keyed(Cpio.TRAILER, FILE_INFO)];
    assert Below(ROOT, Cpio.TRAILER);
    SortedAlready(items);
  }

  /** The scan accepts it, tar gives it back and the newc stream does not. */
  lemma TrailerTreeLost(name: Naming)
    ensures Accepted(TRAILER_TREE, name)
    ensures var es, contents := EntriesFor(TRAILER_TREE, name), ContentsFor(TRAILER_TREE);
      var newc, tar := NewcMeaning.Meaning(Newc.Stream(es, contents)), Tar.UnpackAll(Tar.MembersOf(es, contents, |es|));
      && !(newc.Some? && Recovers(newc.value, Listed(TRAILER_TREE)))
      && tar.Some? && Recovers(tar.value, Listed(TRAILER_TREE))
  {
    TrailerListed();
    TrailerAccepted(name);
    hide Accepted, Sort, Preorder, Recovers, EntriesOf, ContentsOf, NewcMeaning.Meaning, Newc.Stream, Tar.UnpackAll,
         Tar.MembersOf;
    TarRecoversTree(TRAILER_TREE, name);
    NewcRecoversTreeIff(TRAILER_TREE, name);
    assert !ItemEncodable(Listed(TRAILER_TREE)[1]);
  }

  lemma TrailerAccepted(name: Naming)
    ensures Accepted(TRAILER_TREE, name) && |Preorder(ROOT, TRAILER_TREE)| + 1 < Cpio.LIMIT
  {
    TrailerListed();
    hide Preorder, Sort, Safe, Proper;
    var items := Listed(TRAILER_TREE);
    forall i | 0 <= i < |items| ensures !Grouped(items[i].item) && ItemOk(items[i]) {
      assert i == 0 || i == 1;
    }
  }

  // ---------------------------------------------------------------- what revalidation means

  /** A listing reduced to what revalidation compares. */
  function Identities(items: seq<Item>): (r: seq<Keyed<Identity>>)
    ensures |r| == |items| && forall i :: 0 <= i < |items| ==> r[i] == Keyed(items[i].key, IdentityOf(items[i].item))
  {
    if items == [] then []
    else Identities(items[..|items| - 1]) + [Keyed(items[|items| - 1].key, IdentityOf(items[|items| - 1].item))]
  }

  lemma {:induction false} MapHas(items: seq<Item>, k: bytes, v: Identity)
    requires DistinctKeys(items)
    ensures k in IdentityMap(items) && IdentityMap(items)[k] == v <==> Keyed(k, v) in Identities(items)
  {
    if items != [] {
      var n := |items| - 1;
      MapHas(items[..n], k, v);
      var last := Keyed(items[n].key, IdentityOf(items[n].item));
      assert Identities(items) == Identities(items[..n]) + [last];
    }
  }

  lemma SameMembers(a: seq<Item>, b: seq<Item>)
    requires DistinctKeys(a) && DistinctKeys(b)
    ensures IdentityMap(a) == IdentityMap(b) <==> forall x :: x in Identities(a) <==> x in Identities(b)
  {
    hide IdentityMap, Identities, DistinctKeys;
    var m, n := IdentityMap(a), IdentityMap(b);
    forall k, v
      ensures k in m && m[k] == v <==> Keyed(k, v) in Identities(a)
      ensures k in n && n[k] == v <==> Keyed(k, v) in Identities(b)
    {
      MapHas(a, k, v);
      MapHas(b, k, v);
    }
    if m == n {
      forall x ensures x in Identities(a) <==> x in Identities(b) {
        assert x == Keyed(x.key, x.item);
      }
    }
    if forall x :: x in Identities(a) <==> x in Identities(b) {
      forall k ensures k in m <==> k in n {
        if k in m { assert Keyed(k, m[k]) in Identities(b); }
        if k in n { assert Keyed(k, n[k]) in Identities(a); }
      }
      forall k | k in m ensures n[k] == m[k] { assert Keyed(k, m[k]) in Identities(b); }
      assert m == n;
    }
  }

  lemma IdentitiesDistinct(items: seq<Item>)
    requires DistinctKeys(items)
    ensures DistinctKeys(Identities(items))
  {
  }

  lemma SortMembers<T>(xs: seq<Keyed<T>>, x: Keyed<T>)
    ensures x in Sort(xs) <==> x in xs
  {
    Sorting.SortMembers(xs, KeyBelow, x);
  }

  /** Revalidation accepts a second tree exactly when its sorted listing of paths and identities is the
      one that was scanned. */
  lemma RevalidationMeans(root: Tree, later: Tree)
    requires Safe(root) && Proper(root) && Safe(later) && Proper(later)
    ensures IdentityMap(Preorder(ROOT, later)) == IdentityMap(Sort(Preorder(ROOT, root)))
            <==> Sort(Identities(Preorder(ROOT, later))) == Sort(Identities(Preorder(ROOT, root)))
  {
    hide Preorder, Safe, Proper, IdentityMap, Identities, Sort, DistinctKeys;
    var a, b := Preorder(ROOT, later), Preorder(ROOT, root);
    PathsDistinct(ROOT, later);
    PathsDistinct(ROOT, root);
    SortedListing(root);
    AscendingDistinct(Sort(b));
    SameMembers(a, Sort(b));
    SameMembers(b, Sort(b));
    SameItems(b, Sort(b));
    IdentitiesDistinct(a);
    IdentitiesDistinct(b);
    SortAscending(Identities(a));
    SortAscending(Identities(b));
    forall x ensures x in Sort(Identities(a)) <==> x in Identities(a) { SortMembers(Identities(a), x); }
    forall x ensures x in Sort(Identities(b)) <==> x in Identities(b) { SortMembers(Identities(b), x); }
    if forall x :: x in Identities(a) <==> x in Identities(b) {
      AscendingUnique(Sort(Identities(a)), Sort(Identities(b)));
    }
  }

  lemma AscendingDistinct<T>(xs: seq<Keyed<T>>)
    requires Ascending(xs)
    ensures DistinctKeys(xs)
  {
    forall i, j | 0 <= i < j < |xs| ensures xs[i].key != xs[j].key { BelowIrreflexive(xs[i].key); }
  }

  lemma SameItems(a: seq<Item>, b: seq<Item>)
    requires forall x :: x in a <==> x in b
    ensures forall x :: x in Identities(a) <==> x in Identities(b)
  {
    forall x | x in Identities(a) ensures x in Identities(b) {
      var i :| 0 <= i < |a| && Identities(a)[i] == x;
      assert a[i] in b;
      var j :| 0 <= j < |b| && b[j] == a[i];
      assert Identities(b)[j] == x;
    }
    forall x | x in Identities(b) ensures x in Identities(a) {
      var i :| 0 <= i < |b| && Identities(b)[i] == x;
      assert b[i] in a;
      var j :| 0 <= j < |a| && a[j] == b[i];
      assert Identities(a)[j] == x;
    }
  }
}
