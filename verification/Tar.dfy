/**
 The Docker import archive: members of a ustar/pax archive written from the same scan, and the
 theorem that it denotes the same tree as the newc stream.
 */
module Tar {
  import opened Options
  import opened Bytes
  import opened Entries
  import opened Cpio
  import opened Newc
  import opened NewcMeaning

  datatype Flag = DirType | SymType | RegType | LinkType

  /** One member of the archive, as "ustar Interchange Format" (IEEE Std 1003.1, pax) describes it. */
  datatype Member = Member(path: bytes, mode: nat, uid: nat, gid: nat, mtime: nat, flag: Flag, linkname: bytes,
                           size: nat, data: bytes)

  /** The member of entry `i`: later names of a file are links to its first name. */
  ghost function MemberAt(es: seq<Entry>, contents: Contents, i: int): Member
    requires 0 <= i < |es|
  {
    var e := es[i];
    var mode := e.mode % PERMISSIONS;
    match e.kind
    case Directory => Member(e.path, mode, e.uid, e.gid, 0, DirType, [], 0, [])
    case Symlink => Member(e.path, mode, e.uid, e.gid, 0, SymType, Body(e, contents), 0, [])
    case Regular =>
      if Leads(es, i) then Member(e.path, mode, e.uid, e.gid, 0, RegType, [], e.size, Body(e, contents))
      else Member(e.path, mode, e.uid, e.gid, 0, LinkType, es[First(es, i)].path, 0, [])
  }

  ghost function MembersOf(es: seq<Entry>, contents: Contents, n: nat): (ms: seq<Member>)
    requires n <= |es|
    ensures |ms| == n && forall i :: 0 <= i < n ==> ms[i] == MemberAt(es, contents, i)
  {
    if n == 0 then [] else MembersOf(es, contents, n - 1) + [MemberAt(es, contents, n - 1)]
  }

  /** No member carries a time, and only the first name of a file has a size. */
  lemma MembersPlain(es: seq<Entry>, contents: Contents, m: Member)
    requires m in MembersOf(es, contents, |es|)
    ensures m.mtime == 0 && (m.flag != RegType ==> m.size == 0 && m.data == [])
  {
    var i :| 0 <= i < |es| && MembersOf(es, contents, |es|)[i] == m;
    assert m == MemberAt(es, contents, i);
  }

  /** Every link member refers to an earlier regular member. */
  lemma LinkRefersBack(es: seq<Entry>, contents: Contents, i: int) returns (f: nat)
    requires Scanned(es, contents) && 0 <= i < |es| && MemberAt(es, contents, i).flag == LinkType
    ensures f < i && MemberAt(es, contents, f).flag == RegType
    ensures MemberAt(es, contents, i).linkname == MemberAt(es, contents, f).path
  {
    f := First(es, i);
    assert EntryOk(es[f], contents) && EntryOk(es[i], contents);
    assert f != i;
  }

  // ---------------------------------------------------------------- the writer

  ghost predicate FirstNames(hardlinks: map<bytes, bytes>, es: seq<Entry>, n: nat)
    requires n <= |es|
  {
    && (forall i :: 0 <= i < n && es[i].hardlink.Some? ==>
          es[i].hardlink.value in hardlinks && hardlinks[es[i].hardlink.value] == es[First(es, i)].path)
    && hardlinks.Keys == Groups(es, n)
  }

  lemma FirstNamesStep(hardlinks: map<bytes, bytes>, es: seq<Entry>, n: nat)
    requires n < |es| && FirstNames(hardlinks, es, n)
    ensures Leads(es, n) <==> (es[n].hardlink.None? || es[n].hardlink.value !in hardlinks)
    ensures es[n].hardlink.None? ==> FirstNames(hardlinks, es, n + 1)
    ensures es[n].hardlink.Some? && es[n].hardlink.value !in hardlinks ==>
      FirstNames(hardlinks[es[n].hardlink.value := es[n].path], es, n + 1)
    ensures es[n].hardlink.Some? && es[n].hardlink.value in hardlinks ==>
      hardlinks[es[n].hardlink.value] == es[First(es, n)].path && FirstNames(hardlinks, es, n + 1)
  {
    LeadsIff(es, n);
    if es[n].hardlink.Some? {
      if es[n].hardlink.value in hardlinks {
        FirstNamesAgain(hardlinks, es, n);
      } else {
        FirstNamesNew(hardlinks, es, n);
      }
    }
  }

  lemma FirstNamesAgain(hardlinks: map<bytes, bytes>, es: seq<Entry>, n: nat)
    requires n < |es| && FirstNames(hardlinks, es, n) && es[n].hardlink.Some? && es[n].hardlink.value in hardlinks
    ensures hardlinks[es[n].hardlink.value] == es[First(es, n)].path && FirstNames(hardlinks, es, n + 1)
  {
    var i := GroupIndex(es, n, es[n].hardlink.value);
    assert SameFile(es, i, n);
    FirstUnique(es, n, First(es, i));
    hide First, SameFile;
  }

  lemma FirstNamesNew(hardlinks: map<bytes, bytes>, es: seq<Entry>, n: nat)
    requires n < |es| && FirstNames(hardlinks, es, n)
    requires es[n].hardlink.Some? && es[n].hardlink.value !in hardlinks
    ensures FirstNames(hardlinks[es[n].hardlink.value := es[n].path], es, n + 1)
  {
    LeadsIff(es, n);
    FirstUnique(es, n, n);
    hide First, Leads, SameFile;
    forall i | 0 <= i < n && es[i].hardlink.Some? ensures es[i].hardlink != es[n].hardlink {
      GroupMet(es, n, i);
    }
  }

  lemma NoNames(es: seq<Entry>)
    ensures FirstNames(map[], es, 0)
  {
  }

  /** The inner `write` of the archive builder. */
  method WriteTar(es: seq<Entry>, contents: Contents) returns (archive: seq<Member>)
    requires forall i :: 0 <= i < |es| && es[i].kind == Regular ==> es[i].path in contents
    requires forall i :: 0 <= i < |es| && es[i].kind == Symlink ==> es[i].target == Some(Body(es[i], contents))
    requires forall i :: 0 <= i < |es| && es[i].hardlink.Some? ==> es[i].kind == Regular
    ensures archive == MembersOf(es, contents, |es|)
  {
    hide FirstNames, Leads, First;
    NoNames(es);
    var hardlinks: map<bytes, bytes> := map[];
    archive := [];
    var i := 0;
    while i < |es|
      invariant i <= |es|
      invariant FirstNames(hardlinks, es, i)
      invariant archive == MembersOf(es, contents, i)
    {
      var e := es[i];
      FirstNamesStep(hardlinks, es, i);
      var mode := e.mode % 0x1000;  // & 0o7777
      match e.kind {
        case Directory =>
          archive := archive + [Member(e.path, mode, e.uid, e.gid, 0, DirType, [], 0, [])];
        case Symlink =>
          archive := archive + [Member(e.path, mode, e.uid, e.gid, 0, SymType, e.target.value, 0, [])];
        case Regular =>
          if e.hardlink.Some? && e.hardlink.value in hardlinks {
            var first := hardlinks[e.hardlink.value];
            archive := archive + [Member(e.path, mode, e.uid, e.gid, 0, LinkType, first, 0, [])];
          } else {
            if e.hardlink.Some? { hardlinks := hardlinks[e.hardlink.value := e.path]; }
            archive := archive + [Member(e.path, mode, e.uid, e.gid, 0, RegType, [], e.size, contents[e.path])];
          }
      }
      i := i + 1;
    }
  }

  // ---------------------------------------------------------------- the meaning

  /** The file mode of an extracted member. */
  function FullMode(kind: Kind, mode: nat): nat
  {
    (match kind case Directory => 0x4000 case Regular => 0x8000 case Symlink => 0xA000) + mode
  }

  function Place(img: Image, path: bytes, node: Node): Image
  {
    Image(img.names[path := |img.nodes|], img.nodes + [node])
  }

  function Unpack(img: Image, m: Member): Option<Image>
  {
    if !ParentReady(img, m.path) then None
    else match m.flag
      case DirType => Some(Place(img, m.path, Node(FullMode(Directory, m.mode), m.uid, m.gid, [])))
      case SymType => Some(Place(img, m.path, Node(FullMode(Symlink, m.mode), m.uid, m.gid, m.linkname)))
      case RegType =>
        if m.size > |m.data| then None
        else Some(Place(img, m.path, Node(FullMode(Regular, m.mode), m.uid, m.gid, m.data[..m.size])))
      case LinkType =>
        if m.linkname !in img.names then None
        else Some(img.(names := img.names[m.path := img.names[m.linkname]]))
  }

  function UnpackAll(ms: seq<Member>): Option<Image>
  {
    if ms == [] then Some(EMPTY_IMAGE)
    else match UnpackAll(ms[..|ms| - 1])
         case None => None
         case Some(img) => Unpack(img, ms[|ms| - 1])
  }

  lemma ModeSplit(e: Entry, contents: Contents)
    requires EntryOk(e, contents)
    ensures FullMode(e.kind, e.mode % PERMISSIONS) == e.mode
  {
  }

  lemma UnpackNext(img: Image, es: seq<Entry>, contents: Contents, n: nat)
    requires Scanned(es, contents) && n < |es| && DenotesPrefix(img, es, contents, n)
    ensures var got := Unpack(img, MemberAt(es, contents, n));
      got.Some? && DenotesPrefix(got.value, es, contents, n + 1)
  {
    hide Scanned, DenotesPrefix, ParentReady, Parent, Sorted, Leads, First;
    DirectoryFirst(img, es, contents, n);
    ScannedFacts(es, contents, n);
    ModeSplit(es[n], contents);
    assert Body(es[n], contents)[..|Body(es[n], contents)|] == Body(es[n], contents);
    if Leads(es, n) {
      LeadsFresh(es, n);
      ExtendFresh(img, es, contents, n);
    } else {
      NotLeading(es, n);
      var f := First(es, n);
      SameNode(es, contents, f, n);
      MatchAt(img, es, contents, n, f);
      ExtendLink(img, es, contents, n, f);
    }
  }

  lemma NotLeading(es: seq<Entry>, n: nat)
    requires n < |es| && !Leads(es, n)
    ensures First(es, n) < n && es[n].hardlink.Some?
  {
  }

  lemma EmptyDenotes(es: seq<Entry>, contents: Contents)
    ensures DenotesPrefix(EMPTY_IMAGE, es, contents, 0)
  {
  }

  lemma {:induction false} UnpackPrefix(es: seq<Entry>, contents: Contents, n: nat)
    requires Scanned(es, contents) && n <= |es|
    ensures UnpackAll(MembersOf(es, contents, n)).Some?
    ensures DenotesPrefix(UnpackAll(MembersOf(es, contents, n)).value, es, contents, n)
  {
    hide DenotesPrefix, Scanned, Unpack, MemberAt, MembersOf;
    if n == 0 {
      EmptyDenotes(es, contents);
      assert MembersOf(es, contents, 0) == [];
    } else {
      UnpackPrefix(es, contents, n - 1);
      var ms, before := MembersOf(es, contents, n), MembersOf(es, contents, n - 1);
      assert ms[..n - 1] == before;
      UnpackNext(UnpackAll(before).value, es, contents, n - 1);
      assert UnpackAll(ms) == Unpack(UnpackAll(before).value, ms[n - 1]);
    }
  }

  /** The two archives of one scan unpack to the same tree: the same paths, the same mode, owner and
      contents under each, and the same hard-link classes. */
  lemma ArchivesAgree(es: seq<Entry>, contents: Contents)
    requires Scanned(es, contents) && |es| + 1 < LIMIT && Encodable(es, contents)
    ensures Meaning(Stream(es, contents)).Some? && UnpackAll(MembersOf(es, contents, |es|)).Some?
    ensures var a, b := Meaning(Stream(es, contents)).value, UnpackAll(MembersOf(es, contents, |es|)).value;
      && Denotes(a, es, contents) && Denotes(b, es, contents)
      && a.names.Keys == b.names.Keys
      && (forall p :: p in a.names ==>
            a.names[p] < |a.nodes| && b.names[p] < |b.nodes| && a.nodes[a.names[p]] == b.nodes[b.names[p]])
      && (forall p, q :: p in a.names && q in a.names ==>
            (a.names[p] == a.names[q] <==> b.names[p] == b.names[q]))
  {
    hide Scanned, DenotesPrefix, Stream, Meaning, UnpackAll, MembersOf;
    MeaningPreserved(es, contents);
    UnpackPrefix(es, contents, |es|);
    DenotationUnique(Meaning(Stream(es, contents)).value, UnpackAll(MembersOf(es, contents, |es|)).value, es, contents);
  }
}
