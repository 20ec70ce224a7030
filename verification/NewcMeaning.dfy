/**
 Meaning of the newc stream: what the kernel's unpacker makes of the records, and the
 theorem that printing, reading back and unpacking recovers the scanned tree.
 */
module NewcMeaning {
  import opened Options
  import opened Bytes
  import opened Entries
  import opened Cpio
  import opened Newc

  /** What a hard link is looked up under: c_maj, c_min and c_ino. */
  type Link = (nat, nat, nat)

  function LinkOf(r: Record): Link { (r.extra.maj, r.extra.min, r.ino) }

  /** The tree so far, and what multiply linked files were seen under. */
  datatype Unpacking = Unpacking(image: Image, links: map<Link, nat>)

  const START := Unpacking(EMPTY_IMAGE, map[])

  /** One record: a regular file whose number is known becomes one more name of it, everything else a
      node of its own. */
  function Unpack(st: Unpacking, r: Record): Option<Unpacking>
  {
    var format := r.mode / 0x1000;  // 4 a directory, 8 a regular file, 10 a symlink
    var img := st.image;
    if !ParentReady(img, r.name) then None
    else if format == 8 && r.nlink >= 2 && LinkOf(r) in st.links then
      var id := st.links[LinkOf(r)];
      if id >= |img.nodes| then None else
      var node := Node(r.mode, r.uid, r.gid, if r.data == [] then img.nodes[id].data else r.data);
      Some(st.(image := Image(img.names[r.name := id], img.nodes[id := node])))
    else if format in {4, 8, 10} then
      Some(Unpacking(Image(img.names[r.name := |img.nodes|], img.nodes + [Node(r.mode, r.uid, r.gid, r.data)]),
                     if format == 8 && r.nlink >= 2 then st.links[LinkOf(r) := |img.nodes|]
                     else st.links))
    else None
  }

  function UnpackAll(rs: seq<Record>): Option<Unpacking>
  {
    if rs == [] then Some(START)
    else match UnpackAll(rs[..|rs| - 1])
         case None => None
         case Some(st) => Unpack(st, rs[|rs| - 1])
  }

  // ---------------------------------------------------------------- link counts

  lemma {:induction false} MembersTwo(es: seq<Entry>, g: bytes, i: int, j: int, n: nat)
    requires 0 <= i < n <= |es| && es[i].hardlink == Some(g)
    ensures Members(es, g, n) >= 1
    ensures 0 <= j < i && es[j].hardlink == Some(g) ==> Members(es, g, n) >= 2
  {
    if i < n - 1 {
      MembersTwo(es, g, i, j, n - 1);
    } else if 0 <= j < i && es[j].hardlink == Some(g) {
      MembersTwo(es, g, j, -1, n - 1);
    }
  }

  /** The unpacker knows every group met under its number, and no number not yet given out. */
  ghost predicate LinksKnown(st: Unpacking, es: seq<Entry>, n: nat)
    requires n <= |es|
  {
    && (forall i :: 0 <= i < n ==> LinkKnown(st, es, i))
    && (forall m :: m in st.links ==> m.2 <= Files(es, n))
  }

  /** An entry is looked up under its inode number, on device zero. */
  ghost function Number(es: seq<Entry>, i: int): Link
    requires 0 <= i < |es|
  {
    (0, 0, Ino(es, i))
  }

  ghost predicate LinkKnown(st: Unpacking, es: seq<Entry>, i: int)
    requires 0 <= i < |es|
  {
    es[i].hardlink.Some? && LinkCount(es, i) >= 2 ==>
      Number(es, i) in st.links && st.links[Number(es, i)] == Bound(st.image.names, es[i])
  }

  /** A later name of a file finds the file under its number. */
  lemma LinkFound(st: Unpacking, es: seq<Entry>, n: nat) returns (j: nat)
    requires n < |es| && LinksKnown(st, es, n) && !Leads(es, n)
    ensures j < n && SameFile(es, j, n) && es[n].hardlink.Some? && LinkCount(es, j) == LinkCount(es, n) >= 2
    ensures Ino(es, j) == Ino(es, n)
    ensures Number(es, n) in st.links && st.links[Number(es, n)] == Bound(st.image.names, es[j])
  {
    j :| 0 <= j < n && SameFile(es, j, n);
    MembersTwo(es, es[n].hardlink.value, n, j, |es|);
    InoShared(es, j, n);
    assert LinkKnown(st, es, j);
  }

  /** The first name of a file does not. */
  lemma LinkNotFound(st: Unpacking, es: seq<Entry>, n: nat)
    requires n < |es| && LinksKnown(st, es, n) && Leads(es, n)
    ensures Number(es, n) !in st.links && Ino(es, n) == Files(es, n + 1)
  {
    FirstUnique(es, n, n);
  }

  lemma LinksKnownFresh(st: Unpacking, es: seq<Entry>, n: nat, next: Unpacking)
    requires n < |es| && LinksKnown(st, es, n) && Leads(es, n)
    requires forall i :: 0 <= i < n ==> es[i].path != es[n].path
    requires next.image.names == st.image.names[es[n].path := |st.image.nodes|]
    requires next.links == if es[n].hardlink.Some? && LinkCount(es, n) >= 2
                           then st.links[Number(es, n) := |st.image.nodes|] else st.links
    ensures LinksKnown(next, es, n + 1)
  {
    LinkNotFound(st, es, n);
    FilesMonotone(es, n, n + 1);
    hide Ino, LinkCount, Leads, Files;
    forall i | 0 <= i < n ensures LinkKnown(next, es, i) { assert LinkKnown(st, es, i); }
  }

  lemma LinksKnownAgain(st: Unpacking, es: seq<Entry>, n: nat, next: Unpacking, j: nat)
    requires j < n < |es| && LinksKnown(st, es, n) && es[n].hardlink.Some?
    requires LinkCount(es, n) >= 2 && Number(es, n) in st.links
    requires st.links[Number(es, n)] == Bound(st.image.names, es[j])
    requires forall i :: 0 <= i < n ==> es[i].path != es[n].path
    requires next.image.names == st.image.names[es[n].path := Bound(st.image.names, es[j])]
    requires next.links == st.links
    ensures LinksKnown(next, es, n + 1)
  {
    hide Ino, LinkCount, Leads;
    FilesMonotone(es, n, n + 1);
    forall i | 0 <= i < n ensures LinkKnown(next, es, i) { assert LinkKnown(st, es, i); }
  }

  // ---------------------------------------------------------------- the unpacked tree

  lemma PathNew(es: seq<Entry>, n: nat)
    requires Sorted(es) && n < |es|
    ensures forall i :: 0 <= i < n ==> es[i].path != es[n].path
  {
    forall i | 0 <= i < n ensures es[i].path != es[n].path {
      if es[i].path == es[n].path { SortedDistinct(es, i, n); }
    }
  }

  ghost predicate Good(st: Unpacking, es: seq<Entry>, contents: Contents, n: nat)
    requires n <= |es|
  {
    DenotesPrefix(st.image, es, contents, n) && LinksKnown(st, es, n)
  }

  lemma UnpackFirst(st: Unpacking, es: seq<Entry>, contents: Contents, n: nat)
    requires Scanned(es, contents) && n < |es| && Good(st, es, contents, n) && Leads(es, n)
    ensures var got := Unpack(st, RecordAt(es, contents, n)); got.Some? && Good(got.value, es, contents, n + 1)
  {
    hide Scanned, DenotesPrefix, LinksKnown, ParentReady, Parent, Ino, LinkCount, Leads, Sorted;
    DirectoryFirst(st.image, es, contents, n);
    ScannedFacts(es, contents, n);
    LinkNotFound(st, es, n);
    LeadsFresh(es, n);
    ExtendFresh(st.image, es, contents, n);
    CountOfKind(es, contents, n);
    LinksKnownFresh(st, es, n, Unpack(st, RecordAt(es, contents, n)).value);
  }

  lemma UnpackAgain(st: Unpacking, es: seq<Entry>, contents: Contents, n: nat)
    requires Scanned(es, contents) && n < |es| && Good(st, es, contents, n) && !Leads(es, n)
    ensures var got := Unpack(st, RecordAt(es, contents, n)); got.Some? && Good(got.value, es, contents, n + 1)
  {
    hide Scanned, DenotesPrefix, LinksKnown, ParentReady, Parent, Ino, LinkCount, Leads, Sorted, SameFile;
    DirectoryFirst(st.image, es, contents, n);
    ScannedFacts(es, contents, n);
    var j := LinkFound(st, es, n);
    MatchAt(st.image, es, contents, n, j);
    SameNode(es, contents, j, n);
    ExtendLink(st.image, es, contents, n, j);
    var img, id := st.image, st.links[Number(es, n)];
    assert img.nodes[id := NodeOf(es[n], contents)] == img.nodes;
    LinksKnownAgain(st, es, n, Unpack(st, RecordAt(es, contents, n)).value, j);
  }

  lemma ScannedFacts(es: seq<Entry>, contents: Contents, n: nat)
    requires Scanned(es, contents) && n < |es|
    ensures EntryOk(es[n], contents)
    ensures forall i :: 0 <= i < n ==> es[i].path != es[n].path
  {
    PathNew(es, n);
  }

  lemma SameNode(es: seq<Entry>, contents: Contents, i: nat, j: nat)
    requires Scanned(es, contents) && i < |es| && j < |es| && SameFile(es, i, j)
    ensures NodeOf(es[i], contents) == NodeOf(es[j], contents)
  {
  }

  lemma MatchAt(img: Image, es: seq<Entry>, contents: Contents, n: nat, j: nat)
    requires n <= |es| && DenotesPrefix(img, es, contents, n) && j < n
    ensures es[j].path in img.names && img.names[es[j].path] == Bound(img.names, es[j]) < |img.nodes|
    ensures img.nodes[img.names[es[j].path]] == NodeOf(es[j], contents)
  {
  }

  lemma LeadsFresh(es: seq<Entry>, n: nat)
    requires n < |es| && Leads(es, n)
    ensures forall j :: 0 <= j < n ==> !SameFile(es, j, n)
  {
  }

  lemma CountOfKind(es: seq<Entry>, contents: Contents, n: nat)
    requires n < |es| && EntryOk(es[n], contents)
    ensures (es[n].kind == Regular && LinkCount(es, n) >= 2) <==> (es[n].hardlink.Some? && LinkCount(es, n) >= 2)
  {
  }

  lemma UnpackNone(es: seq<Entry>, contents: Contents)
    ensures Good(START, es, contents, 0)
  {
  }

  lemma UnpackNext(st: Unpacking, es: seq<Entry>, contents: Contents, n: nat)
    requires Scanned(es, contents) && n < |es| && Good(st, es, contents, n)
    ensures var got := Unpack(st, RecordAt(es, contents, n)); got.Some? && Good(got.value, es, contents, n + 1)
  {
    if Leads(es, n) { UnpackFirst(st, es, contents, n); } else { UnpackAgain(st, es, contents, n); }
  }

  lemma {:induction false} UnpackPrefix(es: seq<Entry>, contents: Contents, n: nat)
    requires Scanned(es, contents) && n <= |es|
    ensures UnpackAll(Records(es, contents, n)).Some?
    ensures Good(UnpackAll(Records(es, contents, n)).value, es, contents, n)
  {
    hide Good, Scanned, Unpack, RecordAt, Records;
    if n == 0 {
      UnpackNone(es, contents);
      assert Records(es, contents, 0) == [];
    } else {
      UnpackPrefix(es, contents, n - 1);
      var rs, before := Records(es, contents, n), Records(es, contents, n - 1);
      assert rs[..n - 1] == before;
      UnpackNext(UnpackAll(before).value, es, contents, n - 1);
      assert UnpackAll(rs) == Unpack(UnpackAll(before).value, rs[n - 1]);
    }
  }

  // ---------------------------------------------------------------- the whole path

  /** What a caller can check of an entry before the archive is written. */
  predicate EntryEncodable(e: Entry, contents: Contents)
  {
    && e.mode < LIMIT && e.uid < LIMIT && e.gid < LIMIT
    && |Body(e, contents)| < LIMIT && |e.path| + 1 < LIMIT
    && NUL !in e.path && e.path != TRAILER
  }

  ghost predicate Encodable(es: seq<Entry>, contents: Contents)
  {
    forall i :: 0 <= i < |es| ==> EntryEncodable(es[i], contents)
  }

  lemma {:induction false} CountsBounded(es: seq<Entry>, g: bytes, n: nat)
    requires n <= |es|
    ensures Members(es, g, n) <= n && Files(es, n) <= n
  {
    if n > 0 { CountsBounded(es, g, n - 1); }
  }

  lemma NumbersFit(es: seq<Entry>, contents: Contents, i: int)
    requires 0 <= i < |es| && |es| + 1 < LIMIT
    ensures Ino(es, i) < LIMIT && LinkCount(es, i) < LIMIT && Files(es, |es|) + 1 < LIMIT
  {
    CountsBounded(es, [], First(es, i));
    CountsBounded(es, [], |es|);
    if es[i].hardlink.Some? { CountsBounded(es, es[i].hardlink.value, |es|); }
  }

  /** Record by record, readability is a property of the entries. */
  lemma ReadableIffEncodable(es: seq<Entry>, contents: Contents)
    requires Scanned(es, contents) && |es| + 1 < LIMIT
    ensures (forall i :: 0 <= i < |es| ==> Readable(RecordAt(es, contents, i))) <==> Encodable(es, contents)
  {
    forall i | 0 <= i < |es| ensures Leads(es, i) ==>
      (Readable(RecordAt(es, contents, i)) <==> EntryEncodable(es[i], contents))
      ensures EntryEncodable(es[i], contents) ==> Readable(RecordAt(es, contents, i))
    {
      NumbersFit(es, contents, i);
    }
    if forall i :: 0 <= i < |es| ==> Readable(RecordAt(es, contents, i)) {
      forall i | 0 <= i < |es| ensures EntryEncodable(es[i], contents) {
        var f := First(es, i);
        SameNode(es, contents, f, i);
        assert Readable(RecordAt(es, contents, f)) && Readable(RecordAt(es, contents, i));
      }
    }
  }

  /** The stream of a scan gives back exactly its records if and only if every entry is encodable: all
      header fields below 2^32, no NUL in a name, and no entry that looks like the trailer. */
  lemma StreamRoundTrip(es: seq<Entry>, contents: Contents)
    requires Scanned(es, contents) && |es| + 1 < LIMIT
    ensures ReadAll(Stream(es, contents), 0) == Some(Records(es, contents, |es|)) <==> Encodable(es, contents)
  {
    hide Scanned, EncodeAll, ReadAll, Readable;
    var rs := Records(es, contents, |es|);
    var last := TrailerOf(es);
    CountsBounded(es, [], |es|);
    RoundTripIff(rs, last, 0);
    assert Zeros(Gap(0)) + EncodeAll(rs + [last]) == EncodeAll(rs + [last]);
    ReadableIffEncodable(es, contents);
    assert (forall i :: 0 <= i < |rs| ==> Readable(rs[i])) <==>
           (forall i :: 0 <= i < |es| ==> Readable(RecordAt(es, contents, i)));
  }

  /** Every record read from the stream has the fields without a use zero. */
  lemma StreamPlain(es: seq<Entry>, contents: Contents)
    requires Scanned(es, contents) && |es| + 1 < LIMIT && Encodable(es, contents)
    ensures ReadAll(Stream(es, contents), 0).Some?
    ensures forall r :: r in ReadAll(Stream(es, contents), 0).value ==>
      && r.extra.mtime == 0 && r.extra.maj == 0 && r.extra.min == 0
      && r.extra.rmaj == 0 && r.extra.rmin == 0 && r.extra.check == 0
  {
    hide Scanned, Encodable, ReadAll, Stream;
    StreamRoundTrip(es, contents);
  }

  /** Reading the stream back and unpacking it in order. */
  function Meaning(stream: bytes): Option<Image>
  {
    match ReadAll(stream, 0)
    case None => None
    case Some(rs) => (match UnpackAll(rs) case None => None case Some(st) => Some(st.image))
  }

  // ---------------------------------------------------------------- what can come out of a stream

  predicate NameEncodable(p: bytes) { |p| + 1 < LIMIT && NUL !in p && p != TRAILER }

  predicate NodeEncodable(n: Node) { n.mode < LIMIT && n.uid < LIMIT && n.gid < LIMIT && |n.data| < LIMIT }

  ghost predicate ImageEncodable(img: Image)
  {
    && (forall p :: p in img.names ==> NameEncodable(p))
    && (forall i :: 0 <= i < |img.nodes| ==> NodeEncodable(img.nodes[i]))
  }

  lemma UnpackEncodable(st: Unpacking, r: Record)
    requires ImageEncodable(st.image) && Readable(r)
    ensures Unpack(st, r).Some? ==> ImageEncodable(Unpack(st, r).value.image)
  {
    hide ParentReady;
  }

  lemma {:induction false} UnpackAllEncodable(rs: seq<Record>)
    requires forall i :: 0 <= i < |rs| ==> Readable(rs[i])
    ensures UnpackAll(rs).Some? ==> ImageEncodable(UnpackAll(rs).value.image)
  {
    hide Unpack, Readable, ImageEncodable;
    if rs == [] {
      assert ImageEncodable(EMPTY_IMAGE) by { NothingEncodable(); }
    } else {
      var before := rs[..|rs| - 1];
      UnpackAllEncodable(before);
      if UnpackAll(before).Some? { UnpackEncodable(UnpackAll(before).value, rs[|rs| - 1]); }
    }
  }

  lemma NothingEncodable()
    ensures ImageEncodable(EMPTY_IMAGE)
  {
  }

  /** Whatever the stream, an image extracted from it has only encodable names and nodes. */
  lemma MeaningEncodable(stream: bytes)
    ensures Meaning(stream).Some? ==> ImageEncodable(Meaning(stream).value)
  {
    hide ReadAll, UnpackAll, Readable, ImageEncodable;
    OnlyReadable(stream, 0);
    var rs := ReadAll(stream, 0);
    if rs.Some? { UnpackAllEncodable(rs.value); }
  }

  lemma DenotedEncodable(img: Image, es: seq<Entry>, contents: Contents)
    requires Denotes(img, es, contents) && ImageEncodable(img)
    ensures Encodable(es, contents)
  {
    hide DenotesPrefix;
    forall i | 0 <= i < |es| ensures EntryEncodable(es[i], contents) {
      MatchAt(img, es, contents, |es|, i);
      assert NameEncodable(es[i].path);
    }
  }

  /** Reading the stream back and unpacking it gives for every path the original type, mode, owner and bytes,
      and exactly the original hard links, if and only if every entry is encodable. */
  lemma MeaningPreserved(es: seq<Entry>, contents: Contents)
    requires Scanned(es, contents) && |es| + 1 < LIMIT
    ensures Meaning(Stream(es, contents)).Some? && Denotes(Meaning(Stream(es, contents)).value, es, contents)
            <==> Encodable(es, contents)
  {
    hide Scanned, DenotesPrefix, Stream, Encodable, ReadAll, UnpackAll;
    var got := Meaning(Stream(es, contents));
    if Encodable(es, contents) {
      StreamRoundTrip(es, contents);
      UnpackPrefix(es, contents, |es|);
    }
    MeaningEncodable(Stream(es, contents));
    if got.Some? && Denotes(got.value, es, contents) { DenotedEncodable(got.value, es, contents); }
  }
}
