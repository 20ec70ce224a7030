/**
 The admission estimate over the trees that a scan accepts: up to which length of names it covers the newc
 stream, and a tree with names one byte longer that it does not cover.
 */
module Estimate {
  import opened Options
  import opened Bytes
  import opened Entries
  import opened Tree
  import opened Admission
  import opened RootFS
  import Cpio
  import Newc
  import NewcMeaning
  import NewcSize

  /** An accepted tree whose every object fits the format. */
  ghost predicate Archivable(root: Tree, name: Naming)
  {
    && Accepted(root, name) && |Preorder(ROOT, root)| + 1 < Cpio.LIMIT
    && forall x :: x in Listed(root) ==> ItemEncodable(x)
  }

  /** Every file name has at most 255 bytes, the limit of ordinary file systems. */
  predicate ShortNames(t: Tree)
  {
    forall c :: c in t.children ==> |c.key| <= 255 && ShortNames(c.item)
  }

  /** Paths, and for symlinks paths and targets together, of at most `limit` bytes. */
  ghost predicate PathsWithin(root: Tree, name: Naming, limit: nat)
  {
    NewcSize.NamesWithin(EntriesFor(root, name), ContentsFor(root), limit)
  }

  /** The estimate is at least the length of the stream. */
  ghost predicate Covered(root: Tree, name: Naming)
  {
    |Newc.Stream(EntriesFor(root, name), ContentsFor(root))| <= NewcSize.WorstCase(EntriesFor(root, name))
  }

  lemma ListedLength(root: Tree)
    ensures |Listed(root)| == |Preorder(ROOT, root)|
  {
  }

  lemma ArchivableWritable(root: Tree, name: Naming)
    requires Archivable(root, name)
    ensures NewcSize.Writable(EntriesFor(root, name), ContentsFor(root))
  {
    hide Sort, Preorder, Safe, Proper, EntriesOf, ContentsOf, ItemOk, Consistent, WellNamed, LinksInside, Scanned,
         NewcMeaning.Encodable, ItemEncodable;
    ListedLength(root);
    SortedListing(root);
    ScanGuarantees(root, name);
    ItemsEncodable(Listed(root), name);
  }

  lemma TreeCovered(root: Tree, name: Naming)
    requires Archivable(root, name) && PathsWithin(root, name, 397)
    ensures Covered(root, name)
  {
    hide Archivable, EntriesFor, ContentsFor, NewcSize.Writable, NewcSize.NamesWithin, Newc.Stream, NewcSize.WorstCase;
    ArchivableWritable(root, name);
    NewcSize.EstimateCovers(EntriesFor(root, name), ContentsFor(root));
  }

  // ---------------------------------------------------------------- 398 bytes are already too long

  const FILES := 519

  /** A name of 255 bytes, the `i`-th of an ascending family. */
  function FileName(i: nat): (p: bytes)
    requires i < FILES
    ensures |p| == 255 && p[0] == 65 + i / 32 && p[1] == 65 + i % 32
    ensures forall k :: 2 <= k < 255 ==> p[k] == 97
  {
    [65 + i / 32, 65 + i % 32] + seq(253, k => 97)
  }

  /** A name of 142 bytes. */
  function LongDirectory(): (p: bytes)
    ensures |p| == 142 && forall k :: 0 <= k < 142 ==> p[k] == 97
  {
    seq(142, k => 97)
  }

  /** A file of one byte. */
  function OneByte(i: nat): Info { Info(1, 3 + i, 33188, 0, 0, 1, 0, 0, 1, [97], map[]) }

  const INNER_INFO := Info(1, 2, 16877, 0, 0, 0, 0, 0, 2, [], map[])

  function Leaf(i: nat): Keyed<Tree>
    requires i < FILES
  {
    Keyed(FileName(i), Tree(OneByte(i), []))
  }

  function Leaves(n: nat): (cs: seq<Keyed<Tree>>)
    requires n <= FILES
    ensures |cs| == n && forall i :: 0 <= i < n ==> cs[i] == Leaf(i)
  {
    if n == 0 then [] else Leaves(n - 1) + [Leaf(n - 1)]
  }

  function Inner(): Tree { Tree(INNER_INFO, Leaves(FILES)) }

  /** A directory with a 142-byte name that holds 519 files of one byte with 255-byte names. */
  function LongTree(): Tree { Tree(DIRECTORY_INFO, [Keyed(LongDirectory(), Inner())]) }

  function FilePath(i: nat): (p: bytes)
    requires i < FILES
    ensures |p| == 398
  {
    LongDirectory() + [SLASH] + FileName(i)
  }

  /** What the scan lists. */
  function LongItem(i: nat): Item
    requires i < FILES + 2
  {
    if i == 0 then Keyed(ROOT, DIRECTORY_INFO)
    else if i == 1 then Keyed(LongDirectory(), INNER_INFO)
    else Keyed(FilePath(i - 2), OneByte(i - 2))
  }

  function LongItems(n: nat): (items: seq<Item>)
    requires n <= FILES + 2
    ensures |items| == n && forall i :: 0 <= i < n ==> items[i] == LongItem(i)
  {
    if n == 0 then [] else LongItems(n - 1) + [LongItem(n - 1)]
  }

  /** All bytes of the names are letters and the like. */
  predicate Plain(p: bytes) { forall k :: 0 <= k < |p| ==> 65 <= p[k] <= 98 }

  lemma PlainName(p: bytes)
    requires Plain(p)
    ensures SafeName(p)
  {
    assert ROOT[0] == DOT && DOTDOT[0] == DOT;
  }

  lemma NamesPlain(i: nat)
    requires i < FILES
    ensures Plain(FileName(i)) && Plain(LongDirectory())
  {
    var p := FileName(i);
    forall k | 0 <= k < |p| ensures 65 <= p[k] <= 98 { if k >= 2 { assert p[k] == 97; } }
  }

  lemma FileNamesAscend(i: nat, j: nat)
    requires i < j < FILES
    ensures Below(FileName(i), FileName(j))
  {
    var a, b := FileName(i), FileName(j);
    if a[0] == b[0] { assert a[1..][0] < b[1..][0]; }
  }

  lemma {:induction false} BelowUnder(d: bytes, a: bytes, b: bytes)
    requires Below(a, b)
    ensures Below(d + a, d + b)
  {
    if d == [] {
      assert d + a == a && d + b == b;
    } else {
      BelowUnder(d[1..], a, b);
      assert (d + a)[1..] == d[1..] + a && (d + b)[1..] == d[1..] + b;
    }
  }

  lemma LongAscends()
    ensures Ascending(LongItems(FILES + 2))
  {
    hide LongItems, FileName, LongDirectory;
    var items := LongItems(FILES + 2);
    forall i, j | 0 <= i < j < |items| ensures Below(items[i].key, items[j].key) {
      if i >= 2 {
        FileNamesAscend(i - 2, j - 2);
        hide Below;
        BelowUnder(LongDirectory() + [SLASH], FileName(i - 2), FileName(j - 2));
      } else if i == 1 {
        hide Below;
        PrefixBelow(LongDirectory(), FilePath(j - 2));
      } else if j == 1 {
        assert LongDirectory()[0] == 97;
      } else {
        assert FilePath(j - 2)[0] == LongDirectory()[0] == 97;
      }
    }
  }

  // ---------------------------------------------------------------- it is what the scan lists

  lemma LeavesAscend()
    ensures Ascending(Leaves(FILES))
  {
    hide Leaves, FileName, Below;
    forall i, j | 0 <= i < j < FILES ensures Below(Leaves(FILES)[i].key, Leaves(FILES)[j].key) {
      FileNamesAscend(i, j);
    }
  }

  /** A plain file at the head of a listing. */
  lemma FileFirst(path: bytes, cs: seq<Keyed<Tree>>, within: Tree)
    requires cs != [] && (forall c :: c in cs ==> c.item < within) && !IsDir(cs[0].item.info)
      && cs[0].item.children == []
    ensures PreorderAll(path, cs, within)
      == [Keyed(Join(path, cs[0].key), cs[0].item.info)] + PreorderAll(path, cs[1..], within)
    ensures SafeAll(cs, within) <==> SafeName(cs[0].key) && SafeAll(cs[1..], within)
    ensures ProperAll(cs, within)
      <==> cs[0].key != [] && (forall c :: c in cs[1..] ==> c.key != cs[0].key) && ProperAll(cs[1..], within)
  {
    hide SafeName, Join;
    FileAlone(Join(path, cs[0].key), cs[0].item.info);
  }

  /** Plain files with safe names. */
  predicate PlainFiles(cs: seq<Keyed<Tree>>)
  {
    forall c :: c in cs ==> !IsDir(c.item.info) && c.item.children == [] && SafeName(c.key) && c.key != []
  }

  function Joined(path: bytes, cs: seq<Keyed<Tree>>): (items: seq<Item>)
    ensures |items| == |cs| && forall i :: 0 <= i < |cs| ==> items[i] == Keyed(Join(path, cs[i].key), cs[i].item.info)
  {
    if cs == [] then [] else [Keyed(Join(path, cs[0].key), cs[0].item.info)] + Joined(path, cs[1..])
  }

  /** A directory of plain files is listed in order. */
  lemma {:induction false} ListFiles(path: bytes, cs: seq<Keyed<Tree>>, within: Tree)
    requires PlainFiles(cs) && DistinctKeys(cs) && forall c :: c in cs ==> c.item < within
    ensures PreorderAll(path, cs, within) == Joined(path, cs) && SafeAll(cs, within) && ProperAll(cs, within)
  {
    hide SafeName, Join;
    if cs != [] {
      assert cs[0] in cs;
      ListFiles(path, cs[1..], within);
      FileFirst(path, cs, within);
      hide PreorderAll, SafeAll, ProperAll;
    }
  }

  lemma LeavesPlain()
    ensures PlainFiles(Leaves(FILES)) && DistinctKeys(Leaves(FILES))
  {
    hide Leaves, FileName, SafeName, Below;
    LeavesAscend();
    AscendingDistinct(Leaves(FILES));
    forall c | c in Leaves(FILES)
      ensures !IsDir(c.item.info) && c.item.children == [] && SafeName(c.key) && c.key != []
    {
      var i :| 0 <= i < FILES && Leaves(FILES)[i] == c;
      assert c == Leaf(i);
      NamesPlain(i);
      PlainName(FileName(i));
    }
  }

  lemma LeavesJoined()
    ensures LongItems(FILES + 2)[2..] == Joined(LongDirectory(), Leaves(FILES))
  {
    hide Leaves, FileName, LongDirectory, LongItems, Joined;
    var a, b := LongItems(FILES + 2)[2..], Joined(LongDirectory(), Leaves(FILES));
    assert |LongDirectory()| == 142;
    forall i | 0 <= i < |b| ensures a[i] == b[i] { assert a[i] == LongItem(i + 2); }
  }

  lemma InnerListing()
    ensures Listing(Inner()) == Leaves(FILES)
  {
    hide Leaves, Sort;
    LeavesAscend();
    SortedAlready(Leaves(FILES));
  }

  lemma Unfold(path: bytes, t: Tree, cs: seq<Keyed<Tree>>)
    requires Listing(t) == cs && forall c :: c in cs ==> c.item < t
    ensures Preorder(path, t) == [Keyed(path, t.info)] + PreorderAll(path, cs, t)
    ensures (Safe(t) <==> SafeAll(cs, t)) && (Proper(t) <==> ProperAll(cs, t))
  {
  }

  lemma OnlyChild(path: bytes, c: Keyed<Tree>, within: Tree)
    requires c.item < within
    ensures PreorderAll(path, [c], within) == Preorder(Join(path, c.key), c.item)
    ensures SafeAll([c], within) <==> SafeName(c.key) && Safe(c.item)
    ensures ProperAll([c], within) <==> c.key != [] && Proper(c.item)
  {
    hide SafeName, Join, Preorder, Safe, Proper;
    var cs := [c];
    assert cs[1..] == [];
    assert PreorderAll(path, cs[1..], within) == [];
  }

  lemma InnerListed()
    ensures Preorder(LongDirectory(), Inner()) == LongItems(FILES + 2)[1..]
    ensures Safe(Inner()) && Proper(Inner())
  {
    InnerListing();
    LeavesPlain();
    LeavesJoined();
    hide Leaves, LongDirectory, LongItems, Listing, Joined, PlainFiles, DistinctKeys, Preorder, PreorderAll, Safe,
         SafeAll, Proper, ProperAll;
    var items := LongItems(FILES + 2);
    ListFiles(LongDirectory(), Listing(Inner()), Inner());
    Unfold(LongDirectory(), Inner(), Listing(Inner()));
    assert items[1..] == [items[1]] + items[2..];
  }

  lemma OuterListing()
    ensures Listing(LongTree()) == [Keyed(LongDirectory(), Inner())]
  {
    hide Sort, Inner;
    SortedAlready(LongTree().children);
  }

  lemma LongPreorder()
    ensures Preorder(ROOT, LongTree()) == LongItems(FILES + 2)
    ensures Safe(LongTree()) && Proper(LongTree())
  {
    hide Inner, LongDirectory, LongItems, Listing, Sort, SafeName, Preorder, PreorderAll, Safe, SafeAll, Proper,
         ProperAll;
    InnerListed();
    OuterListing();
    NamesPlain(0);
    PlainName(LongDirectory());
    var c, items := Keyed(LongDirectory(), Inner()), LongItems(FILES + 2);
    assert c in Listing(LongTree());
    Unfold(ROOT, LongTree(), [c]);
    OnlyChild(ROOT, c, LongTree());
    assert |LongDirectory()| == 142;
    assert items == [items[0]] + items[1..];
  }

  lemma LongListed()
    ensures Listed(LongTree()) == LongItems(FILES + 2)
  {
    hide LongItems, Sort, Preorder, LongTree;
    LongPreorder();
    LongAscends();
    SortedAlready(LongItems(FILES + 2));
  }

  // ---------------------------------------------------------------- the scan accepts it

  lemma LongItemOk(i: nat)
    requires i < FILES + 2
    ensures ItemOk(LongItem(i)) && !Grouped(LongItem(i).item) && InodeOf(LongItem(i).item) == (1, i + 1)
  {
  }

  lemma PathBytes(i: nat, k: nat)
    requires i < FILES && k < 398
    ensures FilePath(i)[k] != NUL
  {
    hide FileName, LongDirectory;
    NamesPlain(i);
    if k < 142 {
      assert FilePath(i)[k] == LongDirectory()[k];
    } else if k == 142 {
      assert FilePath(i)[k] == SLASH;
    } else {
      assert FilePath(i)[k] == FileName(i)[k - 143];
    }
  }

  lemma LongItemEncodable(i: nat)
    requires i < FILES + 2
    ensures ItemEncodable(LongItem(i))
  {
    hide FileName, LongDirectory, FilePath;
    assert |Cpio.TRAILER| == 10;
    if i >= 2 {
      var p := FilePath(i - 2);
      forall k | 0 <= k < |p| ensures p[k] != NUL { PathBytes(i - 2, k); }
    } else if i == 1 {
      NamesPlain(0);
    }
  }

  lemma LongArchivable(name: Naming)
    ensures Archivable(LongTree(), name)
  {
    hide LongItems, LongItem, LongTree, Sort, Preorder, Safe, Proper, ItemOk, ItemEncodable, Grouped, InodeOf;
    LongPreorder();
    LongListed();
    LongAscends();
    var items := Listed(LongTree());
    forall i | 0 <= i < |items|
      ensures ItemOk(items[i]) && ItemEncodable(items[i]) && !Grouped(items[i].item)
        && InodeOf(items[i].item) == (1, i + 1)
    {
      LongItemOk(i);
      LongItemEncodable(i);
    }
  }

  lemma LongShort()
    ensures ShortNames(LongTree())
  {
    hide Leaves, FileName, LongDirectory;
    forall c | c in Inner().children ensures |c.key| <= 255 && ShortNames(c.item) {
      var i :| 0 <= i < FILES && Leaves(FILES)[i] == c;
      assert c == Leaf(i);
    }
    assert ShortNames(Inner());
    hide Inner;
  }

  // ---------------------------------------------------------------- and its stream is longer than the estimate

  lemma LongEntry(name: Naming, i: nat)
    requires i < FILES + 2
    ensures var items := LongItems(FILES + 2); var e, contents := EntryAt(items, name, i), ContentsOf(items, |items|);
      && e.hardlink == None && |e.path| == (if i == 0 then 1 else if i == 1 then 142 else 398)
      && |Body(e, contents)| == (if i < 2 then 0 else 1) && e.kind != Symlink
      && (e.kind == Regular <==> i >= 2) && (e.kind == Regular ==> e.size == 1)
  {
    hide LongItems, ContentsOf, Below, FileName, LongDirectory, FilePath, Group;
    var items := LongItems(FILES + 2);
    LongAscends();
    LongItemOk(i);
    EntriesOk(items, name, i);
    NoGroup(items, InodeOf(items[i].item), |items|);
  }

  lemma {:induction false} NoGroup(items: seq<Item>, key: Inode, n: nat)
    requires n <= |items| && forall i :: 0 <= i < n ==> !Grouped(items[i].item)
    ensures Group(items, key, n) == []
  {
    if n > 0 { NoGroup(items, key, n - 1); }
  }

  /** The `n` first records of the tree: 112 bytes for the root, 256 for the directory, 516 for every file. */
  lemma {:induction false} LongSize(name: Naming, n: nat)
    requires 2 <= n <= FILES + 2
    ensures var items := LongItems(FILES + 2); var es := EntriesOf(items, name, |items|);
      && NewcSize.TotalSize(es, ContentsOf(items, |items|), n) == 368 + 516 * (n - 2)
      && NewcSize.Payload(es, n) == n - 2
    decreases n
  {
    hide LongItems, ContentsOf, EntriesOf, EntryAt, NewcSize.RecordSize;
    var items := LongItems(FILES + 2);
    var es, contents := EntriesOf(items, name, |items|), ContentsOf(items, |items|);
    LongRecord(name, n - 1);
    LongEntry(name, n - 1);
    if n > 2 {
      LongSize(name, n - 1);
    } else {
      LongRecord(name, 0);
      LongEntry(name, 0);
      assert NewcSize.TotalSize(es, contents, 1) == 112 && NewcSize.Payload(es, 1) == 0;
    }
  }

  lemma LongLeads(name: Naming, i: nat)
    requires i < FILES + 2
    ensures var items := LongItems(FILES + 2); Newc.Leads(EntriesOf(items, name, |items|), i)
  {
    hide LongItems, EntriesOf, EntryAt;
    var es := EntriesOf(LongItems(FILES + 2), name, FILES + 2);
    forall j | 0 <= j < i ensures !SameFile(es, j, i) { LongEntry(name, j); }
  }

  lemma LongRecord(name: Naming, i: nat)
    requires i < FILES + 2
    ensures var items := LongItems(FILES + 2);
      NewcSize.RecordSize(EntriesOf(items, name, |items|), ContentsOf(items, |items|), i)
      == if i == 0 then 112 else if i == 1 then 256 else 516
  {
    hide LongItems, ContentsOf, EntriesOf, EntryAt, Newc.Leads, Body, NewcSize.Up4;
    LongEntry(name, i);
    LongLeads(name, i);
    NewcSize.Rounded(0, 0);
    NewcSize.Rounded(1, 1);
    NewcSize.Rounded(112, 28);
    NewcSize.Rounded(253, 64);
    NewcSize.Rounded(509, 128);
  }

  lemma LongWithin(name: Naming, limit: nat)
    requires limit >= 398
    ensures PathsWithin(LongTree(), name, limit)
  {
    hide LongTree, Sort, Preorder, LongItems, EntriesOf, ContentsOf, Body, EntryAt;
    LongListed();
    var es := EntriesFor(LongTree(), name);
    forall i | 0 <= i < |es| ensures |es[i].path| <= 398 && es[i].kind != Symlink { LongEntry(name, i); }
  }

  lemma LongExceeds(name: Naming)
    ensures !Covered(LongTree(), name)
  {
    hide LongTree, Sort, Preorder, LongItems, EntriesOf, ContentsOf, NewcSize.TotalSize, NewcSize.Payload, Newc.Stream,
         Archivable, Scanned, NewcMeaning.Encodable;
    LongArchivable(name);
    ArchivableWritable(LongTree(), name);
    LongListed();
    LongSize(name, FILES + 2);
    NewcSize.StreamLength(EntriesFor(LongTree(), name), ContentsFor(LongTree()));
  }

  /** The estimate covers every archivable tree with paths of at most `limit` bytes if and only if that limit is
      at most 397.  Beyond it there is a tree of ordinary file names that is not covered. */
  lemma EstimateCoversIff(name: Naming, limit: nat)
    ensures (forall root :: Archivable(root, name) && PathsWithin(root, name, limit) ==> Covered(root, name))
      <==> limit <= 397
    ensures (forall root :: Archivable(root, name) && ShortNames(root) && PathsWithin(root, name, limit) ==>
      Covered(root, name))
            <==> limit <= 397
  {
    hide Archivable, ShortNames, Covered, LongTree;
    if limit <= 397 {
      forall root | Archivable(root, name) && PathsWithin(root, name, limit) ensures Covered(root, name) {
        TreeCovered(root, name);
      }
    } else {
      hide PathsWithin;
      LongArchivable(name);
      LongShort();
      LongWithin(name, limit);
      LongExceeds(name);
    }
  }
}
