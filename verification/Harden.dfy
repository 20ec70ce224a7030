/**
 `harden-kerf-installation.py`: inspecting a code tree, and taking group and other write access away
 in an order that protects directories before what is in them.
 */
module Harden {
  import opened Modes
  import opened Options
  import Sorting
  import Split
  import Trust

  type Path = seq<string>
  type Ino = nat

  const LIMIT_FILES := 100000
  const LIMIT_BYTES := 0x8000_0000  // 2 << 30

  datatype Kind = Directory | File | Symlink | Other

  /** `target` is what a symlink leads to. */
  datatype Attr = Attr(kind: Kind, uid: nat, gid: nat, mode: Mode, nlink: nat, mtime: int, ctime: int, data: seq<int>,
                       target: Trust.Target)

  /** What is hashed of an entry: a file's bytes (`sha256`) or a link's target (`target_sha256`). */
  datatype Hashed = Bytes(data: seq<int>) | Target(target: Trust.Target) | Nothing

  /** Inspected entry. */
  datatype Row = Row(path: Path, kind: Kind, uid: nat, gid: nat, mode: Mode, id: Identity, hashed: Hashed)

  /** Device and inode, size and the two times. */
  datatype Identity = Identity(ino: Ino, size: nat, mtime: int, ctime: int)

  type Names = map<Path, Ino>
  type Attrs = map<Ino, Attr>

  /** The file system around the tree, which lies at `root`: the inode that looking up an absolute path finds
      without following a link at its end, in the tree or outside of it, and the resolved path. */
  datatype Around = Around(locate: Path -> Option<Ino>, resolve: Path -> Option<Path>, root: Path)

  function StatOf(a: Attr): Trust.Stat { Trust.Stat(a.uid, a.mode, if a.kind == Symlink then Some(a.target) else None) }

  /** What the check of link targets sees. */
  function DiskOf(w: Around, attrs: Attrs, uid: nat): Trust.Disk
  {
    Trust.Disk((p: Path) => match w.locate(p)
                            case None => None
                            case Some(i) => if i in attrs then Some(StatOf(attrs[i])) else None,
               w.resolve, w.root, uid)
  }

  function IdentityOf(i: Ino, a: Attr): Identity { Identity(i, |a.data|, a.mtime, a.ctime) }

  function HashedOf(a: Attr): Hashed
  {
    match a.kind
    case File => Bytes(a.data)
    case Symlink => Target(a.target)
    case _ => Nothing
  }

  function RowOf(p: Path, i: Ino, a: Attr): Row
  {
    Row(p, a.kind, a.uid, a.gid, a.mode, IdentityOf(i, a), HashedOf(a))
  }

  /** What any file system guarantees of the names below a directory. */
  ghost predicate Proper(names: Names, attrs: Attrs)
  {
    && [] in names && (forall p :: p in names ==> names[p] in attrs)
    && (forall p :: p in names && p != [] ==> p[..|p| - 1] in names && attrs[names[p[..|p| - 1]]].kind == Directory)
    && (forall p, q :: p in names && q in names && p != q && names[p] == names[q] ==>
          attrs[names[p]].kind != Directory && attrs[names[p]].nlink > 1)
  }

  // ---------------------------------------------------------------- inspection

  /** What `inspect` demands of one entry. */
  predicate EntryOk(a: Attr, uid: nat)
  {
    a.uid == uid && a.kind != Other && (a.kind == File ==> a.nlink == 1)
  }

  /** The target of a link in the tree passes `target_trusted`. */
  ghost predicate LinkOk(w: Around, attrs: Attrs, p: Path, a: Attr, uid: nat)
  {
    a.kind == Symlink ==> Trust.Reliable(DiskOf(w, attrs, uid), Trust.Hop(w.root + p, a.target))
  }

  ghost predicate Listed(names: Names, attrs: Attrs, order: seq<Path>)
  {
    forall i :: 0 <= i < |order| ==> order[i] in names && names[order[i]] in attrs
  }

  ghost function FileBytes(names: Names, attrs: Attrs, order: seq<Path>): nat
    requires Listed(names, attrs, order)
  {
    if order == [] then 0
    else
      FileBytes(names, attrs, order[..|order| - 1]) + Size(attrs[names[order[|order| - 1]]])
  }

  /** `order` is the order in which `os.walk` comes to the names. */
  ghost predicate WalkOf(names: Names, order: seq<Path>)
  {
    && (forall p :: p in order <==> p in names)
    && (forall i, j :: 0 <= i < j < |order| ==> order[i] != order[j])
  }

  /** What `ancestors` demands of the directories above the tree. */
  predicate AncestorOk(w: Around, attrs: Attrs, uid: nat, k: nat)
    requires k < |w.root|
  {
    match w.locate(w.root[..k])
    case None => false
    case Some(i) =>
      && i in attrs && attrs[i].kind == Directory && attrs[i].uid in {0, uid}
      && (Exposed(attrs[i].mode) ==> attrs[i].uid == 0 && attrs[i].mode & STICKY != 0)
  }

  ghost predicate AncestorsOk(w: Around, attrs: Attrs, uid: nat)
  {
    forall k :: 0 <= k < |w.root| ==> AncestorOk(w, attrs, uid, k)
  }

  /** `ancestors`, from the nearest one up. */
  method Ancestors(w: Around, attrs: Attrs, uid: nat) returns (ok: bool)
    ensures ok <==> AncestorsOk(w, attrs, uid)
  {
    hide AncestorOk;
    var k := |w.root|;
    while k > 0
      invariant 0 <= k <= |w.root| && forall j :: k <= j < |w.root| ==> AncestorOk(w, attrs, uid, j)
    {
      k := k - 1;
      var above := CheckAncestor(w, attrs, uid, k);
      if !above { return false; }
    }
    ok := true;
  }

  method CheckAncestor(w: Around, attrs: Attrs, uid: nat, k: nat) returns (ok: bool)
    requires k < |w.root|
    ensures ok <==> AncestorOk(w, attrs, uid, k)
  {
    var i := w.locate(w.root[..k]);
    if i.None? || i.value !in attrs { return false; }
    var a := attrs[i.value];
    ExposedBits(a.mode);
    if a.kind != Directory || (a.uid != 0 && a.uid != uid) { return false; }
    if (a.mode & 0x10 != 0 || a.mode & 0x02 != 0) && !(a.uid == 0 && a.mode & 0x200 != 0) { return false; }
    ok := true;
  }

  ghost predicate Inspectable(w: Around, names: Names, attrs: Attrs, order: seq<Path>, uid: nat)
    requires Listed(names, attrs, order)
  {
    AncestorsOk(w, attrs, uid) && TreeOk(w, names, attrs, order, uid)
  }

  ghost predicate TreeOk(w: Around, names: Names, attrs: Attrs, order: seq<Path>, uid: nat)
    requires Listed(names, attrs, order)
  {
    && (forall i :: 0 <= i < |order| ==> EntryOk(attrs[names[order[i]]], uid))
    && (forall i :: 0 <= i < |order| ==> LinkOk(w, attrs, order[i], attrs[names[order[i]]], uid))
    && [] in names && names[[]] in attrs && attrs[names[[]]].kind == Directory
    && |order| <= LIMIT_FILES && FileBytes(names, attrs, order) <= LIMIT_BYTES
  }

  ghost function Rows(names: Names, attrs: Attrs, order: seq<Path>): (r: seq<Row>)
    requires Listed(names, attrs, order)
    ensures |r| == |order|
    ensures forall i :: 0 <= i < |r| ==> r[i] == RowOf(order[i], names[order[i]], attrs[names[order[i]]])
  {
    if order == [] then []
    else
      var p := order[|order| - 1];
      Rows(names, attrs, order[..|order| - 1]) + [RowOf(p, names[p], attrs[names[p]])]
  }

  lemma {:induction false} BytesMonotone(names: Names, attrs: Attrs, order: seq<Path>, i: nat)
    requires i <= |order| && Listed(names, attrs, order)
    ensures FileBytes(names, attrs, order[..i]) <= FileBytes(names, attrs, order)
    decreases |order|
  {
    if i < |order| {
      BytesMonotone(names, attrs, order[..|order| - 1], i);
      assert order[..|order| - 1][..i] == order[..i];
    } else {
      assert order[..i] == order;
    }
  }

  lemma WalkListed(names: Names, attrs: Attrs, order: seq<Path>)
    requires Proper(names, attrs) && WalkOf(names, order)
    ensures Listed(names, attrs, order) && [] in names && names[[]] in attrs
  {
    forall i | 0 <= i < |order| ensures order[i] in names && names[order[i]] in attrs { assert order[i] in order; }
  }

  lemma RowsNext(names: Names, attrs: Attrs, order: seq<Path>, i: nat)
    requires Listed(names, attrs, order) && i < |order|
    ensures var p := order[i]; var a := attrs[names[p]];
      && Rows(names, attrs, order[..i + 1]) == Rows(names, attrs, order[..i]) + [RowOf(p, names[p], a)]
      && FileBytes(names, attrs, order[..i + 1]) == FileBytes(names, attrs, order[..i]) + Size(a)
      && FileBytes(names, attrs, order[..i + 1]) <= FileBytes(names, attrs, order)
  {
    assert order[..i + 1][..i] == order[..i];
    BytesMonotone(names, attrs, order, i + 1);
  }

  /** The checks of one entry against the running bounds. */
  method Examine(w: Around, attrs: Attrs, p: Path, a: Attr, uid: nat, total: nat, count: nat) returns (r: Option<nat>)
    requires total <= LIMIT_BYTES
    ensures r.Some?
      <==> EntryOk(a, uid) && LinkOk(w, attrs, p, a, uid) && total + Size(a) <= LIMIT_BYTES && count < LIMIT_FILES
    ensures r.Some? ==> r.value == total + Size(a) <= LIMIT_BYTES
  {
    if a.uid != uid || a.kind == Other { return None; }
    r := Some(total);
    if a.kind == File {
      if a.nlink != 1 { return None; }
      r := Some(total + |a.data|);
      if r.value > 0x8000_0000 { return None; }
    }
    if a.kind == Symlink {
      var trusted := Trust.TargetTrusted(DiskOf(w, attrs, uid), Trust.Hop(w.root + p, a.target));
      if !trusted { return None; }
    }
    if count + 1 > 100_000 { return None; }
  }

  function Size(a: Attr): nat { if a.kind == File then |a.data| else 0 }

  /** The first `i` entries passed, and `entries` and `total` are their rows and their bytes. */
  ghost predicate Inspected(w: Around, names: Names, attrs: Attrs, order: seq<Path>, uid: nat, i: nat,
      entries: seq<Row>, total: nat)
    requires Listed(names, attrs, order)
  {
    && i <= |order| && i <= LIMIT_FILES && total <= LIMIT_BYTES
    && (forall j :: 0 <= j < i ==> EntryOk(attrs[names[order[j]]], uid))
    && (forall j :: 0 <= j < i ==> LinkOk(w, attrs, order[j], attrs[names[order[j]]], uid))
    && entries == Rows(names, attrs, order[..i]) && total == FileBytes(names, attrs, order[..i])
  }

  lemma InspectedNone(w: Around, names: Names, attrs: Attrs, order: seq<Path>, uid: nat)
    requires Listed(names, attrs, order)
    ensures Inspected(w, names, attrs, order, uid, 0, [], 0)
  {
  }

  lemma InspectedNext(w: Around, names: Names, attrs: Attrs, order: seq<Path>, uid: nat, i: nat, entries: seq<Row>,
      total: nat)
    requires Listed(names, attrs, order) && Inspected(w, names, attrs, order, uid, i, entries, total) && i < |order|
    ensures var p := order[i]; var a := attrs[names[p]];
      if EntryOk(a, uid) && LinkOk(w, attrs, p, a, uid) && total + Size(a) <= LIMIT_BYTES && i < LIMIT_FILES
      then Inspected(w, names, attrs, order, uid, i + 1, entries + [RowOf(p, names[p], a)], total + Size(a))
      else !TreeOk(w, names, attrs, order, uid)
  {
    RowsNext(names, attrs, order, i);
    hide LinkOk, Rows, FileBytes, EntryOk, RowOf;
  }

  lemma InspectedAll(w: Around, names: Names, attrs: Attrs, order: seq<Path>, uid: nat, entries: seq<Row>, total: nat)
    requires Listed(names, attrs, order) && Inspected(w, names, attrs, order, uid, |order|, entries, total)
    requires [] in names && names[[]] in attrs && attrs[names[[]]].kind == Directory
    ensures TreeOk(w, names, attrs, order, uid) && entries == Rows(names, attrs, order)
  {
    hide LinkOk, Rows, FileBytes, EntryOk;
    assert order[..|order|] == order;
  }

  lemma RowIs(p: Path, i: Ino, a: Attr)
    ensures RowOf(p, i, a) == Row(p, a.kind, a.uid, a.gid, a.mode, Identity(i, |a.data|, a.mtime, a.ctime),
                                  if a.kind == File then Bytes(a.data)
                                  else if a.kind == Symlink then Target(a.target) else Nothing)
  {
  }

  /** The walk of `inspect`, under a root that is a directory. */
  method InspectEntries(w: Around, names: Names, attrs: Attrs, order: seq<Path>, uid: nat) returns (r: Option<seq<Row>>)
    requires Listed(names, attrs, order)
    requires [] in names && names[[]] in attrs && attrs[names[[]]].kind == Directory
    ensures r.Some? <==> TreeOk(w, names, attrs, order, uid)
    ensures r.Some? ==> r.value == Rows(names, attrs, order)
  {
    hide LinkOk, Rows, EntryOk, RowOf, Inspected, TreeOk, Size;
    var entries: seq<Row> := [];
    var total: nat := 0;
    var i := 0;
    InspectedNone(w, names, attrs, order, uid);
    while i < |order|
      invariant 0 <= i <= |order| && total <= LIMIT_BYTES && Inspected(w, names, attrs, order, uid, i, entries, total)
    {
      InspectedNext(w, names, attrs, order, uid, i, entries, total);
      var a := attrs[names[order[i]]];
      var grown := Examine(w, attrs, order[i], a, uid, total, i);
      if grown.None? { return None; }
      total := grown.value;
      var id := Identity(names[order[i]], |a.data|, a.mtime, a.ctime);
      var hashed := if a.kind == File then Bytes(a.data) else if a.kind == Symlink then Target(a.target) else Nothing;
      var row := Row(order[i], a.kind, a.uid, a.gid, a.mode, id, hashed);
      RowIs(order[i], names[order[i]], a);
      entries := entries + [row];
      i := i + 1;
    }
    InspectedAll(w, names, attrs, order, uid, entries, total);
    r := Some(entries);
  }

  /** `inspect`.  On a proper tree the final test that every parent was inspected and is a directory never
      refuses, so that acceptance is a matter of the directories above the tree, and of owners, kinds, link
      counts, link targets and bounds in it. */
  method Inspect(w: Around, names: Names, attrs: Attrs, order: seq<Path>, uid: nat) returns (r: Option<seq<Row>>)
    requires Proper(names, attrs) && WalkOf(names, order)
    ensures Listed(names, attrs, order)
    ensures r.Some? <==> Inspectable(w, names, attrs, order, uid)
    ensures r.Some? ==> r.value == Rows(names, attrs, order)
  {
    WalkListed(names, attrs, order);
    hide LinkOk, Proper, WalkOf, Rows, FileBytes, EntryOk, AncestorsOk;
    var guarded := Ancestors(w, attrs, uid);
    if !guarded { return None; }
    if attrs[names[[]]].kind != Directory { return None; }
    r := InspectEntries(w, names, attrs, order, uid);
    if r.Some? {
      var closed := ParentsInspected(r.value);
      WalkClosed(names, attrs, order);
      if !closed { return None; }
    }
  }

  /** The dictionary `by_name`, as far as the test needs it. */
  function ByName(rows: seq<Row>): map<Path, Kind>
  {
    if rows == [] then map[] else ByName(rows[..|rows| - 1])[rows[|rows| - 1].path := rows[|rows| - 1].kind]
  }

  lemma {:induction false} ByNameAt(names: Names, attrs: Attrs, rows: seq<Row>, p: Path)
    requires forall i :: 0 <= i < |rows| ==> rows[i].path in names && names[rows[i].path] in attrs
                                             && rows[i].kind == attrs[names[rows[i].path]].kind
    requires exists i :: 0 <= i < |rows| && rows[i].path == p
    ensures p in ByName(rows) && ByName(rows)[p] == attrs[names[p]].kind
  {
    var n := |rows| - 1;
    if rows[n].path != p {
      var i :| 0 <= i < |rows| && rows[i].path == p;
      assert rows[..n][i].path == p;
      ByNameAt(names, attrs, rows[..n], p);
    }
  }

  lemma RowThere(names: Names, attrs: Attrs, order: seq<Path>, p: Path)
    requires Listed(names, attrs, order) && WalkOf(names, order) && p in names
    ensures p in ByName(Rows(names, attrs, order)) && ByName(Rows(names, attrs, order))[p] == attrs[names[p]].kind
  {
    assert p in order;
    var j :| 0 <= j < |order| && order[j] == p;
    assert Rows(names, attrs, order)[j].path == p;
    ByNameAt(names, attrs, Rows(names, attrs, order), p);
  }

  lemma ParentThere(names: Names, attrs: Attrs, p: Path, k: nat)
    requires Proper(names, attrs) && 0 < k <= |p| && p[..k] in names
    ensures p[..k - 1] in names && names[p[..k - 1]] in attrs && attrs[names[p[..k - 1]]].kind == Directory
  {
    assert p[..k][..k - 1] == p[..k - 1];
    var q := p[..k];
    assert q[..|q| - 1] == p[..k - 1];
  }

  /** Every ancestor of every row is a row of a directory. */
  ghost predicate ClosedRows(rows: seq<Row>)
  {
    forall i, k :: 0 <= i < |rows| && 0 <= k < |rows[i].path| ==> DirectoryRow(rows, rows[i].path[..k])
  }

  ghost predicate DirectoryRow(rows: seq<Row>, p: Path) { p in ByName(rows) && ByName(rows)[p] == Directory }

  /** The ancestor closure test over the finished rows. */
  method ParentsInspected(rows: seq<Row>) returns (ok: bool)
    ensures ok <==> ClosedRows(rows)
  {
    hide ByName;
    var byName := ByName(rows);
    var i := 0;
    while i < |rows|
      invariant 0 <= i <= |rows|
      invariant forall j, k :: 0 <= j < i && 0 <= k < |rows[j].path| ==> DirectoryRow(rows, rows[j].path[..k])
    {
      var p := rows[i].path;
      var k := |p|;
      while k > 0
        invariant 0 <= k <= |p| && forall m :: k <= m < |p| ==> DirectoryRow(rows, p[..m])
      {
        k := k - 1;
        if p[..k] !in byName || byName[p[..k]] != Directory {
          assert !DirectoryRow(rows, rows[i].path[..k]);
          return false;
        }
      }
      i := i + 1;
    }
    ok := true;
  }

  /** It passes on the rows of a complete walk. */
  lemma WalkClosed(names: Names, attrs: Attrs, order: seq<Path>)
    requires Proper(names, attrs) && WalkOf(names, order) && Listed(names, attrs, order)
    ensures ClosedRows(Rows(names, attrs, order))
  {
    hide Proper, WalkOf, ByName;
    var rows := Rows(names, attrs, order);
    forall i, k | 0 <= i < |rows| && 0 <= k < |rows[i].path| ensures DirectoryRow(rows, rows[i].path[..k]) {
      assert rows[i].path == order[i];
      AncestorThere(names, attrs, order[i], k);
      RowThere(names, attrs, order, order[i][..k]);
    }
  }

  lemma {:induction false} AncestorThere(names: Names, attrs: Attrs, p: Path, k: nat)
    requires Proper(names, attrs) && k < |p| && p in names
    ensures p[..k] in names && names[p[..k]] in attrs && attrs[names[p[..k]]].kind == Directory
    decreases |p| - k
  {
    hide Proper;
    if k + 1 == |p| { assert p[..k + 1] == p; } else { AncestorThere(names, attrs, p, k + 1); }
    ParentThere(names, attrs, p, k + 1);
  }

  // ---------------------------------------------------------------- the plan

  predicate Needs(r: Row) { r.kind != Symlink && Exposed(r.mode) }

  function Filter(rows: seq<Row>): (r: seq<Row>)
    ensures forall x :: x in r <==> x in rows && Needs(x)
  {
    if rows == [] then []
    else
      var n := |rows| - 1;
      Filter(rows[..n]) + if Needs(rows[n]) then [rows[n]] else []
  }

  /** `str` of the relative path. */
  function NameOf(p: Path): string { if p == [] then "." else Split.JoinWith(p, '/') }

  /** The order of Python strings. */
  predicate StrictlyBefore(a: string, b: string)
  {
    b != [] && (a == [] || a[0] < b[0] || (a[0] == b[0] && StrictlyBefore(a[1..], b[1..])))
  }

  lemma {:induction false} StringsTotal(a: string, b: string)
    ensures StrictlyBefore(a, b) ==> !StrictlyBefore(b, a)
    ensures !StrictlyBefore(a, b) && !StrictlyBefore(b, a) ==> a == b
  {
    if a != [] && b != [] && a[0] == b[0] {
      StringsTotal(a[1..], b[1..]);
      assert a == [a[0]] + a[1..] && b == [b[0]] + b[1..];
    }
  }

  lemma {:induction false} StringsTransitive(a: string, b: string, c: string)
    requires !StrictlyBefore(b, a) && !StrictlyBefore(c, b)
    ensures !StrictlyBefore(c, a)
  {
    if a != [] && b != [] && c != [] && a[0] == b[0] == c[0] { StringsTransitive(a[1..], b[1..], c[1..]); }
  }

  /** Directories before files, shallow before deep, and then by name. */
  predicate NotAfter(a: Row, b: Row)
  {
    if (a.kind == Directory) != (b.kind == Directory) then a.kind == Directory
    else if |a.path| != |b.path| then |a.path| < |b.path|
    else !StrictlyBefore(NameOf(b.path), NameOf(a.path))
  }

  lemma NotAfterTotal(a: Row, b: Row)
    ensures !NotAfter(a, b) ==> NotAfter(b, a)
  {
    hide NameOf, StrictlyBefore;
    StringsTotal(NameOf(a.path), NameOf(b.path));
  }

  lemma NotAfterTransitive(a: Row, b: Row, c: Row)
    requires NotAfter(a, b) && NotAfter(b, c)
    ensures NotAfter(a, c)
  {
    hide NameOf, StrictlyBefore;
    if !StrictlyBefore(NameOf(b.path), NameOf(a.path)) && !StrictlyBefore(NameOf(c.path), NameOf(b.path)) {
      StringsTransitive(NameOf(a.path), NameOf(b.path), NameOf(c.path));
    }
  }

  ghost predicate Ordered(plan: seq<Row>)
  {
    forall i, j :: 0 <= i < j < |plan| ==> NotAfter(plan[i], plan[j])
  }

  /** `a` comes strictly before `b`. */
  predicate Earlier(a: Row, b: Row) { !NotAfter(b, a) }

  lemma PlanOrder()
    ensures Sorting.StrictOrder(Earlier)
  {
    hide NotAfter;
    forall a, b | Earlier(a, b) ensures !Earlier(b, a) { NotAfterTotal(b, a); }
    forall a, b, c | !Earlier(b, a) && !Earlier(c, b) ensures !Earlier(c, a) { NotAfterTransitive(a, b, c); }
  }

  /** `planned.sort`. */
  function Sort(s: seq<Row>): (t: seq<Row>)
    ensures multiset(t) == multiset(s)
  {
    Sorting.Sort(s, Earlier)
  }

  lemma SortOrdered(s: seq<Row>)
    ensures Ordered(Sort(s))
  {
    hide NotAfter;
    PlanOrder();
    Sorting.SortOrdered(s, Earlier);
  }

  /** `a` comes before `b` if it is a proper prefix, or smaller at the first difference. */
  lemma {:induction false} StrictlyBeforeMeans(a: string, b: string)
    ensures StrictlyBefore(a, b)
      <==> exists k :: 0 <= k <= |a| && k < |b| && a[..k] == b[..k] && (k == |a| || a[k] < b[k])
  {
    if StrictlyBefore(a, b) && a != [] && a[0] == b[0] {
      StrictlyBeforeMeans(a[1..], b[1..]);
      var k :| 0 <= k <= |a[1..]| && k < |b[1..]| && a[1..][..k] == b[1..][..k]
        && (k == |a[1..]| || a[1..][k] < b[1..][k]);
      assert a[..k + 1] == [a[0]] + a[1..][..k] && b[..k + 1] == [b[0]] + b[1..][..k];
    } else if StrictlyBefore(a, b) {
      assert a[..0] == b[..0];
    }
    if exists k :: 0 <= k <= |a| && k < |b| && a[..k] == b[..k] && (k == |a| || a[k] < b[k]) {
      var k :| 0 <= k <= |a| && k < |b| && a[..k] == b[..k] && (k == |a| || a[k] < b[k]);
      if k > 0 {
        assert a[..k][0] == b[..k][0];
        assert a[1..][..k - 1] == a[..k][1..] && b[1..][..k - 1] == b[..k][1..];
        StrictlyBeforeMeans(a[1..], b[1..]);
      }
    }
  }

  /** The plan in words: directories first, then fewer components first, then the names in the order of strings. */
  lemma PlanOrderMeans(plan: seq<Row>, i: nat, j: nat)
    requires Ordered(plan) && i < j < |plan|
    ensures plan[j].kind == Directory ==> plan[i].kind == Directory
    ensures (plan[i].kind == Directory) == (plan[j].kind == Directory) ==> |plan[i].path| <= |plan[j].path|
    ensures (plan[i].kind == Directory) == (plan[j].kind == Directory) && |plan[i].path| == |plan[j].path| > 0 ==>
      var a, b := Split.JoinWith(plan[i].path, '/'), Split.JoinWith(plan[j].path, '/');
      !exists k :: 0 <= k <= |b| && k < |a| && b[..k] == a[..k] && (k == |b| || b[k] < a[k])
  {
    assert NotAfter(plan[i], plan[j]);
    StrictlyBeforeMeans(NameOf(plan[j].path), NameOf(plan[i].path));
  }

  function Plan(before: seq<Row>): seq<Row> { Sort(Filter(before)) }

  /** `planned`, before it is sorted. */
  method Select(rows: seq<Row>) returns (planned: seq<Row>)
    ensures planned == Filter(rows)
  {
    planned := [];
    var i := 0;
    while i < |rows|
      invariant 0 <= i <= |rows| && planned == Filter(rows[..i])
    {
      assert rows[..i + 1][..i] == rows[..i];
      ExposedBits(rows[i].mode);
      if rows[i].kind != Symlink && (rows[i].mode & 0x10 != 0 || rows[i].mode & 0x02 != 0) {
        planned := planned + [rows[i]];
      }
      i := i + 1;
    }
    assert rows[..i] == rows;
  }

  /** Is anything but a link writable to group or others? */
  method AnyWritable(rows: seq<Row>) returns (any: bool)
    ensures any <==> exists x :: x in rows && Needs(x)
  {
    var i := 0;
    while i < |rows|
      invariant 0 <= i <= |rows| && forall j :: 0 <= j < i ==> !Needs(rows[j])
    {
      ExposedBits(rows[i].mode);
      if rows[i].kind != Symlink && (rows[i].mode & 0x10 != 0 || rows[i].mode & 0x02 != 0) {
        assert rows[i] in rows;
        return true;
      }
      i := i + 1;
    }
    any := false;
  }

  lemma PlanMembers(before: seq<Row>, x: Row)
    ensures x in Plan(before) <==> x in before && Needs(x)
  {
    assert x in Plan(before) <==> x in multiset(Plan(before));
    assert x in Filter(before) <==> x in multiset(Filter(before));
  }

  ghost predicate DistinctPaths(rows: seq<Row>)
  {
    forall i, j :: 0 <= i < j < |rows| ==> rows[i].path != rows[j].path
  }

  lemma {:induction false} FilterOnce(rows: seq<Row>)
    requires DistinctPaths(rows)
    ensures DistinctPaths(Filter(rows))
  {
    if rows != [] {
      var n := |rows| - 1;
      FilterOnce(rows[..n]);
      forall x | x in Filter(rows[..n]) ensures x.path != rows[n].path {
        assert x in rows[..n];
        var k :| 0 <= k < n && rows[..n][k] == x;
        assert rows[k].path != rows[n].path;
      }
    }
  }

  predicate OtherPath(a: Row, b: Row) { a.path != b.path }

  lemma SortDistinct(s: seq<Row>)
    requires DistinctPaths(s)
    ensures DistinctPaths(Sort(s))
  {
    Sorting.SortPairwise(s, Earlier, OtherPath);
  }

  // ---------------------------------------------------------------- a quiet tree

  /** The rows are those of the tree as it is, and the inspection accepted it. */
  ghost predicate Fresh(w: Around, names: Names, attrs: Attrs, order: seq<Path>, uid: nat, before: seq<Row>)
  {
    && Proper(names, attrs) && WalkOf(names, order) && Listed(names, attrs, order)
    && Inspectable(w, names, attrs, order, uid) && before == Rows(names, attrs, order)
  }

  ghost predicate FromTree(names: Names, attrs: Attrs, r: Row)
  {
    r.path in names && names[r.path] in attrs && r == RowOf(r.path, names[r.path], attrs[names[r.path]])
  }

  /** What a plan made from a fresh inspection is. */
  ghost predicate GoodPlan(names: Names, attrs: Attrs, uid: nat, plan: seq<Row>)
  {
    && Ordered(plan)
    && (forall i :: 0 <= i < |plan| ==>
       FromTree(names, attrs, plan[i]) && Needs(plan[i]) && EntryOk(attrs[plan[i].id.ino], uid))
    && (forall i, j :: 0 <= i < j < |plan| ==> plan[i].id.ino != plan[j].id.ino)
    && (forall p :: p in names && names[p] in attrs && Needs(RowOf(p, names[p], attrs[names[p]])) ==>
          exists i :: 0 <= i < |plan| && plan[i].path == p)
  }

  lemma RowsDistinct(names: Names, attrs: Attrs, order: seq<Path>)
    requires WalkOf(names, order) && Listed(names, attrs, order)
    ensures DistinctPaths(Rows(names, attrs, order))
  {
  }

  lemma RowFrom(w: Around, names: Names, attrs: Attrs, order: seq<Path>, uid: nat, before: seq<Row>, r: Row)
    requires Fresh(w, names, attrs, order, uid, before) && r in before
    ensures FromTree(names, attrs, r) && EntryOk(attrs[r.id.ino], uid)
  {
    var i :| 0 <= i < |before| && before[i] == r;
    assert r == RowOf(order[i], names[order[i]], attrs[names[order[i]]]);
  }

  /** Two planned entries are never one inode: directories have one name, and files were inspected to. */
  lemma SingleLinks(names: Names, attrs: Attrs, uid: nat, r: Row, q: Row)
    requires Proper(names, attrs) && FromTree(names, attrs, r) && FromTree(names, attrs, q) && r.path != q.path
    requires Needs(r) && EntryOk(attrs[r.id.ino], uid)
    ensures r.id.ino != q.id.ino
  {
  }

  lemma PlanIsGood(w: Around, names: Names, attrs: Attrs, order: seq<Path>, uid: nat, before: seq<Row>)
    requires Fresh(w, names, attrs, order, uid, before)
    ensures GoodPlan(names, attrs, uid, Plan(before))
  {
    hide Proper, Inspectable, Sort, Filter, Rows, EntryOk, WalkOf;
    var plan := Plan(before);
    SortOrdered(Filter(before));
    RowsDistinct(names, attrs, order);
    FilterOnce(before);
    SortDistinct(Filter(before));
    forall i | 0 <= i < |plan|
      ensures FromTree(names, attrs, plan[i]) && Needs(plan[i]) && EntryOk(attrs[plan[i].id.ino], uid)
    {
      PlanMembers(before, plan[i]);
      RowFrom(w, names, attrs, order, uid, before, plan[i]);
    }
    forall i, j | 0 <= i < j < |plan| ensures plan[i].id.ino != plan[j].id.ino {
      SingleLinks(names, attrs, uid, plan[i], plan[j]);
    }
    forall p | p in names && names[p] in attrs && Needs(RowOf(p, names[p], attrs[names[p]]))
      ensures exists i :: 0 <= i < |plan| && plan[i].path == p
    {
      var r := RowOf(p, names[p], attrs[names[p]]);
      InRows(names, attrs, order, p);
      PlanMembers(before, r);
      var i :| 0 <= i < |plan| && plan[i] == r;
    }
  }

  lemma InRows(names: Names, attrs: Attrs, order: seq<Path>, p: Path)
    requires WalkOf(names, order) && Listed(names, attrs, order) && p in names
    ensures names[p] in attrs && RowOf(p, names[p], attrs[names[p]]) in Rows(names, attrs, order)
  {
    assert p in order;
    var j :| 0 <= j < |order| && order[j] == p;
    assert Rows(names, attrs, order)[j] == RowOf(p, names[p], attrs[names[p]]);
  }

  // ---------------------------------------------------------------- applying it

  /** An entry after its write bits were taken away; a change of mode changes the change time. */
  predicate Stripped(before: Attr, after: Attr)
  {
    after == before.(mode := Closed(before.mode), ctime := after.ctime)
  }

  ghost predicate PlannedBefore(plan: seq<Row>, n: nat, x: Ino)
    requires n <= |plan|
  {
    exists j :: 0 <= j < n && plan[j].id.ino == x
  }

  /** The first `n` planned inodes are stripped, all others as they were. */
  ghost predicate Halfway(before: Attrs, now: Attrs, plan: seq<Row>, n: nat)
    requires n <= |plan|
  {
    && now.Keys == before.Keys
    && forall x :: x in before ==>
       if PlannedBefore(plan, n, x) then Stripped(before[x], now[x]) else now[x] == before[x]
  }

  ghost predicate AncestorsClosed(names: Names, attrs: Attrs, p: Path)
  {
    forall k :: 0 <= k < |p| ==> p[..k] in names && names[p[..k]] in attrs && !Exposed(attrs[names[p[..k]]].mode)
  }

  /** What `apply` checks of a planned entry before it changes the mode. */
  predicate AsPlanned(r: Row, i: Ino, a: Attr, uid: nat)
  {
    && a.kind != Symlink && (r.kind == Directory ==> a.kind == Directory)
    && i == r.id.ino && a.uid == uid && a.mode == r.mode
    && (r.kind == File ==> IdentityOf(i, a) == r.id)
  }

  lemma StepAccepted(names: Names, before: Attrs, now: Attrs, uid: nat, plan: seq<Row>, n: nat)
    requires GoodPlan(names, before, uid, plan) && n < |plan| && Halfway(before, now, plan, n)
    ensures var r := plan[n];
      r.path in names && names[r.path] in now && AsPlanned(r, names[r.path], now[names[r.path]], uid)
  {
    var r := plan[n];
    assert FromTree(names, before, r) && Needs(r) && EntryOk(before[r.id.ino], uid);
    assert !PlannedBefore(plan, n, r.id.ino);
  }

  lemma HalfwayNext(names: Names, before: Attrs, now: Attrs, uid: nat, plan: seq<Row>, n: nat, a: Attr)
    requires GoodPlan(names, before, uid, plan) && n < |plan| && Halfway(before, now, plan, n)
    requires plan[n].id.ino in now && Stripped(now[plan[n].id.ino], a)
    ensures Halfway(before, now[plan[n].id.ino := a], plan, n + 1)
  {
    var i := plan[n].id.ino;
    var next := now[i := a];
    assert !PlannedBefore(plan, n, i);
    forall x | x in before
      ensures if PlannedBefore(plan, n + 1, x) then Stripped(before[x], next[x]) else next[x] == before[x]
    {
      if x == i { assert plan[n].id.ino == x; }
      if PlannedBefore(plan, n, x) { var j :| 0 <= j < n && plan[j].id.ino == x; }
    }
  }

  /** When an entry's turn comes, every directory above it is protected already. */
  lemma AncestorsFirst(names: Names, before: Attrs, now: Attrs, uid: nat, plan: seq<Row>, n: nat)
    requires Proper(names, before) && GoodPlan(names, before, uid, plan) && n < |plan| && Halfway(before, now, plan, n)
    ensures AncestorsClosed(names, now, plan[n].path)
  {
    hide Proper;
    var p := plan[n].path;
    assert FromTree(names, before, plan[n]);
    assert p[..|p|] == p;
    var k := |p|;
    while k > 0
      invariant 0 <= k <= |p| && p[..k] in names
      invariant forall m :: k <= m < |p| ==>
        p[..m] in names && names[p[..m]] in now && !Exposed(now[names[p[..m]]].mode)
    {
      ParentThere(names, before, p, k);
      k := k - 1;
      AncestorFirst(names, before, now, uid, plan, n, k);
    }
  }

  lemma AncestorFirst(names: Names, before: Attrs, now: Attrs, uid: nat, plan: seq<Row>, n: nat, k: nat)
    requires GoodPlan(names, before, uid, plan) && n < |plan| && Halfway(before, now, plan, n) && k < |plan[n].path|
    requires var q := plan[n].path[..k]; q in names && names[q] in before && before[names[q]].kind == Directory
    ensures var q := plan[n].path[..k]; names[q] in now && !Exposed(now[names[q]].mode)
  {
    var q := plan[n].path[..k];
    var x := names[q];
    ClosedMode(before[x].mode);
    if Exposed(before[x].mode) {
      assert Needs(RowOf(q, x, before[x]));
      var j :| 0 <= j < |plan| && plan[j].path == q;
      assert FromTree(names, before, plan[j]);
      assert |q| == k;
      assert !NotAfter(plan[n], plan[j]);
      assert j < n;
      assert PlannedBefore(plan, n, x);
    }
  }

  /** The rows without modes and times: what `content_digest` is taken of. */
  function Content(r: Row): Row { r.(mode := 0, id := Identity(0, 0, 0, 0)) }

  function Contents(rows: seq<Row>): (r: seq<Row>)
    ensures |r| == |rows| && forall i :: 0 <= i < |r| ==> r[i] == Content(rows[i])
  {
    seq(|rows|, i requires 0 <= i < |rows| => Content(rows[i]))
  }

  /** The result of hardening: no name, owner, kind or content changes; every entry that is not a link loses
      its write bits; and what had none is not touched at all. */
  ghost predicate Hardened(names: Names, before: Attrs, after: Attrs)
  {
    && after.Keys == before.Keys
    && (forall p :: p in names && names[p] in before ==>
          var a, b := before[names[p]], after[names[p]];
          && (if a.kind != Symlink && Exposed(a.mode) then Stripped(a, b) else b == a)
          && (a.kind != Symlink ==> !Exposed(b.mode)))
    && (forall x :: x in before ==> after[x] == before[x] || Stripped(before[x], after[x]))
    && (forall x :: x in before && (forall p :: p in names ==> names[p] != x) ==> after[x] == before[x])
  }

  lemma PlannedNeeds(names: Names, attrs: Attrs, uid: nat, plan: seq<Row>, x: Ino)
    requires GoodPlan(names, attrs, uid, plan) && PlannedBefore(plan, |plan|, x)
    ensures x in attrs && attrs[x].kind != Symlink && Exposed(attrs[x].mode)
  {
    var j :| 0 <= j < |plan| && plan[j].id.ino == x;
    assert FromTree(names, attrs, plan[j]) && Needs(plan[j]);
  }

  lemma PlanHardens(names: Names, before: Attrs, after: Attrs, uid: nat, plan: seq<Row>)
    requires GoodPlan(names, before, uid, plan) && Halfway(before, after, plan, |plan|)
    requires Proper(names, before) && forall p :: p in names ==> EntryOk(before[names[p]], uid)
    ensures Hardened(names, before, after)
  {
    forall p | p in names && names[p] in before
      ensures var a, b := before[names[p]], after[names[p]];
        (if a.kind != Symlink && Exposed(a.mode) then Stripped(a, b) else b == a)
          && (a.kind != Symlink ==> !Exposed(b.mode))
    {
      var x := names[p];
      var a := before[x];
      ClosedMode(a.mode);
      if Needs(RowOf(p, x, a)) {
        var j :| 0 <= j < |plan| && plan[j].path == p;
        assert FromTree(names, before, plan[j]);
        assert PlannedBefore(plan, |plan|, x);
      }
      if PlannedBefore(plan, |plan|, x) { PlannedNeeds(names, before, uid, plan, x); }
    }
  }

  // ---------------------------------------------------------------- the second inspection

  lemma {:induction false} BytesKept(names: Names, before: Attrs, after: Attrs, order: seq<Path>)
    requires Listed(names, before, order) && Hardened(names, before, after)
    ensures Listed(names, after, order) && FileBytes(names, after, order) == FileBytes(names, before, order)
  {
    if order != [] {
      BytesKept(names, before, after, order[..|order| - 1]);
      var x := names[order[|order| - 1]];
      Kept(names, before, after, x);
    }
  }

  lemma Kept(names: Names, before: Attrs, after: Attrs, x: Ino)
    requires Hardened(names, before, after) && x in before
    ensures x in after && after[x] == before[x].(mode := after[x].mode, ctime := after[x].ctime)
    ensures after[x].mode in {before[x].mode, Closed(before[x].mode)}
  {
  }

  lemma ProperAfter(names: Names, before: Attrs, after: Attrs)
    requires Proper(names, before) && Hardened(names, before, after)
    ensures Proper(names, after)
  {
    hide Hardened, Proper;
    forall x | x in before ensures x in after && after[x].kind == before[x].kind && after[x].nlink == before[x].nlink {
      Kept(names, before, after, x);
    }
    ProperIf(names, before, after);
  }

  /** Being proper is a matter of kinds and link counts. */
  lemma ProperIf(names: Names, before: Attrs, after: Attrs)
    requires Proper(names, before)
    requires forall x :: x in before ==>
      x in after && after[x].kind == before[x].kind && after[x].nlink == before[x].nlink
    ensures Proper(names, after)
  {
    forall p | p in names && p != []
      ensures p[..|p| - 1] in names && names[p[..|p| - 1]] in after && after[names[p[..|p| - 1]]].kind == Directory
    {
    }
    forall p, q | p in names && q in names && p != q && names[p] == names[q]
      ensures after[names[p]].kind != Directory && after[names[p]].nlink > 1
    {
    }
  }

  lemma InspectableAfter(w: Around, names: Names, before: Attrs, after: Attrs, order: seq<Path>, uid: nat)
    requires Listed(names, before, order) && Inspectable(w, names, before, order, uid) && Hardened(names, before, after)
    ensures Listed(names, after, order) && Inspectable(w, names, after, order, uid)
  {
    BytesKept(names, before, after, order);
    AncestorsKept(w, names, before, after, uid);
    hide FileBytes, AncestorsOk;
    HardenedTightens(w, names, before, after, uid);
    hide Hardened, Trust.Tightened, Trust.Reliable, DiskOf;
    forall i | 0 <= i < |order|
      ensures EntryOk(after[names[order[i]]], uid) && LinkOk(w, after, order[i], after[names[order[i]]], uid)
    {
      var a := before[names[order[i]]];
      Kept(names, before, after, names[order[i]]);
      if a.kind == Symlink {
        assert LinkOk(w, before, order[i], a, uid);
        Trust.ReliableKept(DiskOf(w, before, uid), DiskOf(w, after, uid), Trust.Hop(w.root + order[i], a.target));
      }
    }
    Kept(names, before, after, names[[]]);
  }

  lemma AncestorsKept(w: Around, names: Names, before: Attrs, after: Attrs, uid: nat)
    requires AncestorsOk(w, before, uid) && Hardened(names, before, after)
    ensures AncestorsOk(w, after, uid)
  {
    forall k | 0 <= k < |w.root| ensures AncestorOk(w, after, uid, k) {
      assert AncestorOk(w, before, uid, k);
      var i := w.locate(w.root[..k]).value;
      Kept(names, before, after, i);
      ClosedMode(before[i].mode);
    }
  }

  /** To the check of link targets a hardened tree is the old one with write access taken away in places. */
  lemma HardenedTightens(w: Around, names: Names, before: Attrs, after: Attrs, uid: nat)
    requires Hardened(names, before, after)
    ensures Trust.Tightened(DiskOf(w, before, uid), DiskOf(w, after, uid))
  {
    var a, b := DiskOf(w, before, uid), DiskOf(w, after, uid);
    forall p ensures match a.lstat(p)
      case None => b.lstat(p) == None
      case Some(st) => b.lstat(p) == Some(st) || b.lstat(p) == Some(st.(mode := Closed(st.mode)))
    {
      var i := w.locate(p);
      if i.Some? && i.value in before { Kept(names, before, after, i.value); }
    }
  }

  lemma ContentKept(names: Names, before: Attrs, after: Attrs, p: Path)
    requires Hardened(names, before, after) && p in names && names[p] in before
    ensures names[p] in after
    ensures Content(RowOf(p, names[p], after[names[p]])) == Content(RowOf(p, names[p], before[names[p]]))
    ensures !Needs(RowOf(p, names[p], after[names[p]]))
  {
    Kept(names, before, after, names[p]);
  }

  lemma ContentsAfter(names: Names, before: Attrs, after: Attrs, order: seq<Path>)
    requires Listed(names, before, order) && Listed(names, after, order) && Hardened(names, before, after)
    ensures Contents(Rows(names, after, order)) == Contents(Rows(names, before, order))
    ensures forall i :: 0 <= i < |order| ==> !Needs(Rows(names, after, order)[i])
  {
    hide Hardened, Content, Needs, Rows, RowOf;
    var x, y := Contents(Rows(names, after, order)), Contents(Rows(names, before, order));
    forall i | 0 <= i < |order| ensures x[i] == y[i] && !Needs(Rows(names, after, order)[i]) {
      ContentKept(names, before, after, order[i]);
    }
  }

  /** A hardened tree is inspected again without a refusal, and its contents are found unchanged. */
  lemma InspectAgain(w: Around, names: Names, before: Attrs, after: Attrs, order: seq<Path>, uid: nat, rows: seq<Row>)
    requires Fresh(w, names, before, order, uid, rows) && Hardened(names, before, after)
    ensures Proper(names, after) && Listed(names, after, order) && Inspectable(w, names, after, order, uid)
    ensures Contents(Rows(names, after, order)) == Contents(rows)
    ensures forall i :: 0 <= i < |order| ==> !Needs(Rows(names, after, order)[i])
  {
    hide Proper, WalkOf, Inspectable, Hardened, Rows;
    ProperAfter(names, before, after);
    InspectableAfter(w, names, before, after, order, uid);
    ContentsAfter(names, before, after, order);
  }

  /** The changes made since follow the plan from its start. */
  ghost predicate Followed(earlier: seq<(Path, Attrs)>, later: seq<(Path, Attrs)>, plan: seq<Row>)
  {
    && earlier <= later && |later| <= |earlier| + |plan|
    && forall k :: |earlier| <= k < |later| ==> later[k].0 == plan[k - |earlier|].path
  }

  lemma FollowedNone(earlier: seq<(Path, Attrs)>, plan: seq<Row>)
    ensures Followed(earlier, earlier, plan)
  {
  }

  lemma FollowedNext(earlier: seq<(Path, Attrs)>, later: seq<(Path, Attrs)>, plan: seq<Row>, change: (Path, Attrs))
    requires Followed(earlier, later, plan) && |later| < |earlier| + |plan|
    requires change.0 == plan[|later| - |earlier|].path
    ensures Followed(earlier, later + [change], plan)
  {
  }

  /** A good plan as far as its first `n` steps: what they did, and what they met. */
  ghost predicate OnCourse(names: Names, start: Attrs, now: Attrs, plan: seq<Row>, n: nat, from: nat,
      chmods: seq<(Path, Attrs)>)
    requires n <= |plan|
  {
    && Halfway(start, now, plan, n)
    && forall k :: from <= k < |chmods| ==> AncestorsClosed(names, chmods[k].1, chmods[k].0)
  }

  lemma CourseNone(names: Names, start: Attrs, plan: seq<Row>, chmods: seq<(Path, Attrs)>)
    ensures OnCourse(names, start, start, plan, 0, |chmods|, chmods)
  {
    HalfwayNone(start, plan);
  }

  lemma CourseAccepted(names: Names, start: Attrs, now: Attrs, uid: nat, plan: seq<Row>, n: nat, from: nat,
      chmods: seq<(Path, Attrs)>)
    requires GoodPlan(names, start, uid, plan) && n < |plan| && OnCourse(names, start, now, plan, n, from, chmods)
    ensures plan[n].path in names && names[plan[n].path] in now
    ensures AsPlanned(plan[n], names[plan[n].path], now[names[plan[n].path]], uid)
  {
    hide GoodPlan, Halfway, AncestorsClosed, AsPlanned;
    StepAccepted(names, start, now, uid, plan, n);
  }

  lemma CourseNext(names: Names, start: Attrs, was: Attrs, now: Attrs, uid: nat, plan: seq<Row>, n: nat, from: nat,
      chmods: seq<(Path, Attrs)>)
    requires Proper(names, start) && GoodPlan(names, start, uid, plan) && n < |plan|
    requires OnCourse(names, start, was, plan, n, from, chmods)
    requires plan[n].path in names && names[plan[n].path] in was && names[plan[n].path] in now
    requires now == was[names[plan[n].path] := now[names[plan[n].path]]]
    requires Stripped(was[names[plan[n].path]], now[names[plan[n].path]])
    ensures OnCourse(names, start, now, plan, n + 1, from, chmods + [(plan[n].path, was)])
  {
    hide Proper, GoodPlan, Halfway, AncestorsClosed, Stripped;
    PlannedIno(names, start, was, uid, plan, n);
    AncestorsFirst(names, start, was, uid, plan, n);
    HalfwayNext(names, start, was, uid, plan, n, now[names[plan[n].path]]);
  }

  class CodeTree {
    const around: Around
    const names: Names
    var attrs: Attrs
    ghost var chmods: seq<(Path, Attrs)>  // each change of a mode, with the attributes it met

    constructor (around: Around, names: Names, attrs: Attrs)
      ensures this.around == around && this.names == names && this.attrs == attrs && chmods == []
    {
      this.around, this.names, this.attrs, chmods := around, names, attrs, [];
    }

    /** One planned entry: opened, compared with the plan, changed. */
    method Protect(r: Row, uid: nat) returns (ok: bool)
      modifies this
      ensures ok
        <==> r.path in names && names[r.path] in old(attrs)
             && AsPlanned(r, names[r.path], old(attrs)[names[r.path]], uid)
      ensures !ok ==> attrs == old(attrs) && chmods == old(chmods)
      ensures ok ==>
        && names[r.path] in attrs && attrs == old(attrs)[names[r.path] := attrs[names[r.path]]]
        && Stripped(old(attrs)[names[r.path]], attrs[names[r.path]]) && chmods == old(chmods) + [(r.path, old(attrs))]
    {
      if r.path !in names || names[r.path] !in attrs { return false; }
      var i := names[r.path];
      var a := attrs[i];
      if a.kind == Symlink || (r.kind == Directory && a.kind != Directory) { return false; }
      if i != r.id.ino || a.uid != uid || a.mode != r.mode { return false; }
      if r.kind == File && (|a.data| != r.id.size || a.mtime != r.id.mtime || a.ctime != r.id.ctime) { return false; }
      var when: int := *;
      ClosedBits(r.mode);
      chmods := chmods + [(r.path, attrs)];
      attrs := attrs[i := a.(mode := r.mode & 0xFED, ctime := when)];
      ok := true;
    }

    /** One step of the plan. */
    method ProtectNext(planned: seq<Row>, i: nat, uid: nat, ghost quiet: bool, ghost start: Attrs,
        ghost first: seq<(Path, Attrs)>)
      returns (ok: bool)
      requires Proper(names, attrs) && i < |planned| && Followed(first, chmods, planned) && |chmods| == |first| + i
      requires quiet ==>
        && Proper(names, start) && GoodPlan(names, start, uid, planned)
        && OnCourse(names, start, attrs, planned, i, |first|, chmods)
      modifies this
      ensures Proper(names, attrs) && Followed(first, chmods, planned)
      ensures |chmods| == |first| + i + (if ok then 1 else 0)
      ensures !ok ==> attrs == old(attrs) && chmods == old(chmods)
      ensures quiet ==> ok && OnCourse(names, start, attrs, planned, i + 1, |first|, chmods)
    {
      hide Proper, GoodPlan, OnCourse, AsPlanned, Stripped, Followed;
      if quiet { CourseAccepted(names, start, attrs, uid, planned, i, |first|, chmods); }
      ok := Protect(planned[i], uid);
      if !ok { return; }
      ProperKept(names, old(attrs), attrs, names[planned[i].path]);
      FollowedNext(first, old(chmods), planned, (planned[i].path, old(attrs)));
      if quiet { CourseNext(names, start, old(attrs), attrs, uid, planned, i, |first|, old(chmods)); }
    }

    /** The loop over the sorted plan. */
    method ProtectAll(planned: seq<Row>, uid: nat) returns (ok: bool)
      requires Proper(names, attrs)
      modifies this
      ensures Proper(names, attrs) && Followed(old(chmods), chmods, planned)
      ensures ok <==> |chmods| == |old(chmods)| + |planned|
      ensures old(GoodPlan(names, attrs, uid, planned)) ==>
        ok && OnCourse(names, old(attrs), attrs, planned, |planned|, |old(chmods)|, chmods)
    {
      hide Proper, GoodPlan, OnCourse, AsPlanned, Stripped, Followed;
      ghost var quiet, start, first := GoodPlan(names, attrs, uid, planned), attrs, chmods;
      CourseNone(names, attrs, planned, chmods);
      FollowedNone(chmods, planned);
      var i := 0;
      while i < |planned|
        invariant 0 <= i <= |planned| && Proper(names, attrs)
        invariant Followed(first, chmods, planned) && |chmods| == |first| + i
        invariant quiet ==> OnCourse(names, start, attrs, planned, i, |first|, chmods)
      {
        ok := ProtectNext(planned, i, uid, quiet, start, first);
        if !ok { return; }
        i := i + 1;
      }
      ok := true;
    }

    /** `apply`.  On a tree that nobody else changes it never refuses, leaves no group or other write bit on
        anything but links, changes nothing else, and never changes an entry below an unprotected directory.
        Whatever the rows given, a result means that the contents match them and nothing writable remains. */
    method Apply(before: seq<Row>, order: seq<Path>, uid: nat) returns (r: Option<(seq<Row>, nat)>)
      requires Proper(names, attrs) && WalkOf(names, order)
      modifies this
      ensures Followed(old(chmods), chmods, Plan(before))
      ensures r.Some? ==> r.value.1 == |Plan(before)| && |chmods| == |old(chmods)| + |Plan(before)|
      ensures r.Some? ==> Contents(r.value.0) == Contents(before) && SameContents(before, r.value.0)
      ensures r.Some? ==> forall x :: x in r.value.0 && x.kind != Symlink ==> x.mode & 0x10 == 0 && x.mode & 0x02 == 0
      ensures old(Fresh(around, names, attrs, order, uid, before)) ==>
        && r.Some? && Hardened(names, old(attrs), attrs)
        && forall k :: |old(chmods)| <= k < |chmods| ==> AncestorsClosed(names, chmods[k].1, chmods[k].0)
      ensures old(Fresh(around, names, attrs, order, uid, before)) ==> ModesTaken(names, old(attrs), attrs)
    {
      hide Proper, WalkOf, Inspectable, Rows, GoodPlan, Halfway, AncestorsClosed, Plan, Hardened, EntryOk;
      ghost var quiet, start := Fresh(around, names, attrs, order, uid, before), attrs;
      if quiet { PlanIsGood(around, names, attrs, order, uid, before); }
      var selected := Select(before);
      var planned := Sort(selected);
      assert planned == Plan(before) by { PlanIs(before); }
      var ok := ProtectAll(planned, uid);
      if !ok { return None; }
      if quiet {
        OwnersFine(around, names, start, order, uid, before);
        PlanHardens(names, start, attrs, uid, planned);
        HardenedBits(names, start, attrs);
        InspectAgain(around, names, start, attrs, order, uid, before);
      }
      var after := Inspect(around, names, attrs, order, uid);
      if after.None? || Contents(before) != Contents(after.value) { return None; }
      var writable := AnyWritable(after.value);
      if writable { return None; }
      ContentsExactly(before, after.value);
      forall x | x in after.value && x.kind != Symlink ensures x.mode & 0x10 == 0 && x.mode & 0x02 == 0 {
        ExposedBits(x.mode);
      }
      r := Some((after.value, |planned|));
    }
  }

  lemma PlanIs(before: seq<Row>)
    ensures Plan(before) == Sort(Filter(before))
  {
  }

  /** The two inspections agree row by row in everything but modes and times. */
  ghost predicate SameContents(a: seq<Row>, b: seq<Row>)
  {
    |a| == |b| && forall i :: 0 <= i < |a| ==>
      && a[i].path == b[i].path && a[i].kind == b[i].kind && a[i].uid == b[i].uid && a[i].gid == b[i].gid
      && a[i].hashed == b[i].hashed
  }

  lemma ContentsExactly(a: seq<Row>, b: seq<Row>)
    ensures Contents(a) == Contents(b) <==> SameContents(a, b)
  {
    if Contents(a) == Contents(b) {
      forall i | 0 <= i < |a| ensures Content(a[i]) == Content(b[i]) {
        assert Contents(a)[i] == Contents(b)[i];
      }
    }
  }

  /** Bit by bit: of every entry that is not a link the two write bits are clear and nothing else of the mode
      differs; links are as they were. */
  ghost predicate ModesTaken(names: Names, before: Attrs, after: Attrs)
  {
    forall p :: p in names && names[p] in before ==>
      && names[p] in after
      && (before[names[p]].kind != Symlink ==> WriteTaken(before[names[p]].mode, after[names[p]].mode))
      && (before[names[p]].kind == Symlink ==> after[names[p]] == before[names[p]])
  }

  lemma HardenedBits(names: Names, before: Attrs, after: Attrs)
    requires Hardened(names, before, after)
    ensures ModesTaken(names, before, after)
  {
    forall p | p in names && names[p] in before
      ensures names[p] in after
      ensures before[names[p]].kind != Symlink ==> WriteTaken(before[names[p]].mode, after[names[p]].mode)
      ensures before[names[p]].kind == Symlink ==> after[names[p]] == before[names[p]]
    {
      ClosedBits(before[names[p]].mode);
    }
  }

  lemma HalfwayNone(attrs: Attrs, plan: seq<Row>)
    ensures Halfway(attrs, attrs, plan, 0)
  {
  }

  lemma PlannedIno(names: Names, before: Attrs, now: Attrs, uid: nat, plan: seq<Row>, n: nat)
    requires GoodPlan(names, before, uid, plan) && n < |plan| && Halfway(before, now, plan, n)
    ensures plan[n].path in names && names[plan[n].path] == plan[n].id.ino && plan[n].id.ino in now
  {
    assert FromTree(names, before, plan[n]);
  }

  lemma ProperKept(names: Names, before: Attrs, after: Attrs, i: Ino)
    requires Proper(names, before) && i in before && i in after && after == before[i := after[i]]
      && Stripped(before[i], after[i])
    ensures Proper(names, after)
  {
  }

  lemma OwnersFine(w: Around, names: Names, attrs: Attrs, order: seq<Path>, uid: nat, before: seq<Row>)
    requires Fresh(w, names, attrs, order, uid, before)
    ensures forall p :: p in names ==> names[p] in attrs && EntryOk(attrs[names[p]], uid)
  {
    forall p | p in names ensures names[p] in attrs && EntryOk(attrs[names[p]], uid) {
      assert p in order;
      var j :| 0 <= j < |order| && order[j] == p;
    }
  }
}
