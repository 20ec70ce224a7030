/**
 `write_newc`: numbering of inodes, the emitted stream, and what extracting it yields.
 */
module Newc {
  import opened Options
  import opened Bytes
  import opened Entries
  import opened Cpio

  // ---------------------------------------------------------------- inode numbering

  /** Entry `i` is the first name of its file. */
  ghost predicate Leads(es: seq<Entry>, i: int)
    requires 0 <= i < |es|
  {
    forall j :: 0 <= j < i ==> !SameFile(es, j, i)
  }

  /** The number of files among the first `n` entries. */
  ghost function Files(es: seq<Entry>, n: nat): nat
    requires n <= |es|
  {
    if n == 0 then 0 else Files(es, n - 1) + if Leads(es, n - 1) then 1 else 0
  }

  /** The first name of entry `i`'s file. */
  ghost function First(es: seq<Entry>, i: int): (f: nat)
    requires 0 <= i < |es|
    ensures f <= i && SameFile(es, f, i) && Leads(es, f)
    decreases i
  {
    if Leads(es, i) then i
    else
      var j :| 0 <= j < i && SameFile(es, j, i);
      First(es, j)
  }

  /** Files are numbered from one in the order of their first names. */
  ghost function Ino(es: seq<Entry>, i: int): nat
    requires 0 <= i < |es|
  {
    1 + Files(es, First(es, i))
  }

  /** How many of the first `n` entries belong to group `g`. */
  function Members(es: seq<Entry>, g: bytes, n: nat): nat
    requires n <= |es|
  {
    if n == 0 then 0 else Members(es, g, n - 1) + if es[n - 1].hardlink == Some(g) then 1 else 0
  }

  lemma {:induction false} FilesMonotone(es: seq<Entry>, m: nat, n: nat)
    requires m <= n <= |es|
    ensures Files(es, m) <= Files(es, n)
  {
    if m < n { FilesMonotone(es, m, n - 1); }
  }

  lemma FirstUnique(es: seq<Entry>, i: int, f: int)
    requires 0 <= f <= i < |es| && Leads(es, f) && SameFile(es, f, i)
    ensures First(es, i) == f
  {
    var g := First(es, i);
    assert SameFile(es, g, f) && SameFile(es, f, g);
  }

  /** Two entries get one inode number exactly when they are names of one file. */
  lemma InoShared(es: seq<Entry>, i: int, j: int)
    requires 0 <= i < |es| && 0 <= j < |es|
    ensures Ino(es, i) == Ino(es, j) <==> SameFile(es, i, j)
  {
    var f, g := First(es, i), First(es, j);
    if f == g {
      assert SameFile(es, i, f) && SameFile(es, f, j);
    } else {
      if SameFile(es, i, j) { assert SameFile(es, f, g) && SameFile(es, g, f); assert false; }
      if f < g { FilesMonotone(es, f + 1, g); } else { FilesMonotone(es, g + 1, f); }
    }
  }

  ghost predicate Used(es: seq<Entry>, m: nat)
  {
    exists i :: 0 <= i < |es| && Ino(es, i) == m
  }

  /** The numbers used are exactly 1..k, k being the number of files. */
  lemma InoRange(es: seq<Entry>, m: nat)
    ensures Used(es, m) <==> 1 <= m <= Files(es, |es|)
  {
    if Used(es, m) {
      var i :| 0 <= i < |es| && Ino(es, i) == m;
      FilesMonotone(es, First(es, i) + 1, |es|);
    } else if 1 <= m <= Files(es, |es|) {
      var i := InoAttained(es, |es|, m);
    }
  }

  lemma {:induction false} InoAttained(es: seq<Entry>, n: nat, m: nat) returns (i: nat)
    requires n <= |es| && 1 <= m <= Files(es, n)
    ensures i < n && Ino(es, i) == m
  {
    if Files(es, n - 1) < m {
      i := n - 1;
      FirstUnique(es, i, i);
    } else {
      i := InoAttained(es, n - 1, m);
    }
  }

  // ---------------------------------------------------------------- the records

  ghost function LinkCount(es: seq<Entry>, i: int): nat
    requires 0 <= i < |es|
  {
    if es[i].hardlink.Some? then Members(es, es[i].hardlink.value, |es|)
    else if es[i].kind == Directory then 2 else 1
  }

  /** The record of entry `i`: only the first name of a file carries its bytes. */
  ghost function RecordAt(es: seq<Entry>, contents: Contents, i: int): Record
    requires 0 <= i < |es|
  {
    Record(es[i].path, Ino(es, i), es[i].mode, es[i].uid, es[i].gid, LinkCount(es, i),
           if Leads(es, i) then Body(es[i], contents) else [], PLAIN)
  }

  ghost function Records(es: seq<Entry>, contents: Contents, n: nat): (rs: seq<Record>)
    requires n <= |es|
    ensures |rs| == n && forall i :: 0 <= i < n ==> rs[i] == RecordAt(es, contents, i)
  {
    if n == 0 then [] else Records(es, contents, n - 1) + [RecordAt(es, contents, n - 1)]
  }

  ghost function TrailerOf(es: seq<Entry>): Record
  {
    Record(TRAILER, Files(es, |es|) + 1, 0, 0, 0, 1, [], PLAIN)
  }

  ghost function Stream(es: seq<Entry>, contents: Contents): bytes
  {
    EncodeAll(Records(es, contents, |es|) + [TrailerOf(es)])
  }

  // ---------------------------------------------------------------- the writer

  /** `numbers` numbers exactly the groups met among the first `n` entries, as `Ino` does. */
  ghost predicate Numbered(numbers: map<bytes, nat>, es: seq<Entry>, n: nat)
    requires n <= |es|
  {
    && (forall i :: 0 <= i < n && es[i].hardlink.Some? ==>
          es[i].hardlink.value in numbers && numbers[es[i].hardlink.value] == Ino(es, i))
    && numbers.Keys == Groups(es, n)
  }

  /** The hard-link groups met among the first `n` entries. */
  function Groups(es: seq<Entry>, n: nat): set<bytes>
    requires n <= |es|
  {
    if n == 0 then {} else Groups(es, n - 1) + if es[n - 1].hardlink.Some? then {es[n - 1].hardlink.value} else {}
  }

  lemma {:induction false} GroupIndex(es: seq<Entry>, n: nat, g: bytes) returns (i: nat)
    requires n <= |es| && g in Groups(es, n)
    ensures i < n && es[i].hardlink == Some(g)
  {
    if es[n - 1].hardlink == Some(g) { i := n - 1; } else { i := GroupIndex(es, n - 1, g); }
  }

  lemma {:induction false} GroupMet(es: seq<Entry>, n: nat, i: int)
    requires 0 <= i < n <= |es| && es[i].hardlink.Some?
    ensures es[i].hardlink.value in Groups(es, n)
  {
    if i < n - 1 { GroupMet(es, n - 1, i); }
  }

  /** The next entry leads its file exactly when it has no group or one not met before. */
  lemma LeadsIff(es: seq<Entry>, n: nat)
    requires n < |es|
    ensures Leads(es, n) <==> (es[n].hardlink.None? || es[n].hardlink.value !in Groups(es, n))
  {
    if es[n].hardlink.Some? {
      if es[n].hardlink.value in Groups(es, n) {
        var i := GroupIndex(es, n, es[n].hardlink.value);
        assert SameFile(es, i, n);
      } else {
        forall j | 0 <= j < n ensures !SameFile(es, j, n) {
          if es[j].hardlink.Some? { GroupMet(es, n, j); }
        }
      }
    }
  }

  lemma NumberedNone(es: seq<Entry>)
    ensures Numbered(map[], es, 0)
  {
  }

  lemma NumberedStep(numbers: map<bytes, nat>, es: seq<Entry>, n: nat)
    requires n < |es| && Numbered(numbers, es, n)
    ensures Leads(es, n) <==> (es[n].hardlink.None? || es[n].hardlink.value !in numbers)
    ensures Leads(es, n) ==> Ino(es, n) == Files(es, n + 1) == 1 + Files(es, n)
    ensures !Leads(es, n) ==> Files(es, n + 1) == Files(es, n)
    ensures es[n].hardlink.None? ==> Numbered(numbers, es, n + 1)
    ensures es[n].hardlink.Some? && es[n].hardlink.value !in numbers ==>
      Numbered(numbers[es[n].hardlink.value := 1 + Files(es, n)], es, n + 1)
    ensures es[n].hardlink.Some? && es[n].hardlink.value in numbers ==>
      numbers[es[n].hardlink.value] == Ino(es, n) && Numbered(numbers, es, n + 1)
  {
    LeadsIff(es, n);
    LeadCount(es, n);
    assert numbers.Keys == Groups(es, n);
    hide Numbered, Leads, Files, Ino, Groups;
    if es[n].hardlink.None? {
      NumberedSame(numbers, es, n);
    } else if es[n].hardlink.value in numbers {
      NumberedAgain(numbers, es, n);
    } else {
      NumberedNew(numbers, es, n);
    }
  }

  lemma NumberedSame(numbers: map<bytes, nat>, es: seq<Entry>, n: nat)
    requires n < |es| && Numbered(numbers, es, n) && es[n].hardlink.None?
    ensures Numbered(numbers, es, n + 1)
  {
    hide Ino;
  }

  lemma InoAgain(es: seq<Entry>, i: nat, n: nat)
    requires i < n < |es| && es[i].hardlink.Some? && es[i].hardlink == es[n].hardlink
    ensures Ino(es, i) == Ino(es, n)
  {
    assert SameFile(es, i, n);
    InoShared(es, i, n);
  }

  lemma LeadCount(es: seq<Entry>, n: nat)
    requires n < |es|
    ensures Leads(es, n) ==> Ino(es, n) == Files(es, n + 1) == 1 + Files(es, n)
    ensures !Leads(es, n) ==> Files(es, n + 1) == Files(es, n)
  {
    if Leads(es, n) { FirstUnique(es, n, n); }
  }

  lemma NumberedAgain(numbers: map<bytes, nat>, es: seq<Entry>, n: nat)
    requires n < |es| && Numbered(numbers, es, n) && es[n].hardlink.Some? && es[n].hardlink.value in numbers
    ensures numbers[es[n].hardlink.value] == Ino(es, n) && Numbered(numbers, es, n + 1)
  {
    hide Ino;
    var i := GroupIndex(es, n, es[n].hardlink.value);
    InoAgain(es, i, n);
  }

  lemma NumberedNew(numbers: map<bytes, nat>, es: seq<Entry>, n: nat)
    requires n < |es| && Numbered(numbers, es, n)
    requires es[n].hardlink.Some? && es[n].hardlink.value !in numbers
    ensures Numbered(numbers[es[n].hardlink.value := 1 + Files(es, n)], es, n + 1)
  {
    LeadsIff(es, n);
    LeadCount(es, n);
    hide Ino, Files, Leads, SameFile;
    forall i | 0 <= i < n && es[i].hardlink.Some? ensures es[i].hardlink != es[n].hardlink {
      GroupMet(es, n, i);
    }
  }

  /** The pre-pass of `write_newc`. */
  method NumberGroups(es: seq<Entry>) returns (inodeByLink: map<bytes, nat>, ghost next: nat)
    ensures Numbered(inodeByLink, es, |es|)
    ensures next == 1 + Files(es, |es|)
  {
    hide Numbered, Leads, Files, Ino;
    NumberedNone(es);
    inodeByLink := map[];
    var nextInode := 1;
    assert nextInode == 1 + Files(es, 0) by { FilesNone(es); }
    var i := 0;
    while i < |es|
      invariant i <= |es|
      invariant Numbered(inodeByLink, es, i)
      invariant nextInode == 1 + Files(es, i)
    {
      NumberedStep(inodeByLink, es, i);
      if es[i].hardlink.Some? && es[i].hardlink.value in inodeByLink {
        i := i + 1;
        continue;
      }
      if es[i].hardlink.Some? {
        inodeByLink := inodeByLink[es[i].hardlink.value := nextInode];
      }
      nextInode := nextInode + 1;
      i := i + 1;
    }
    next := nextInode;
  }

  method CountLinks(es: seq<Entry>) returns (counts: map<bytes, nat>)
    ensures forall g :: g in counts ==> counts[g] == Members(es, g, |es|)
    ensures forall i :: 0 <= i < |es| && es[i].hardlink.Some? ==> es[i].hardlink.value in counts
  {
    counts := map[];
    var i := 0;
    while i < |es|
      invariant i <= |es|
      invariant forall g :: (if g in counts then counts[g] else 0) == Members(es, g, i)
      invariant forall j :: 0 <= j < i && es[j].hardlink.Some? ==> es[j].hardlink.value in counts
    {
      if es[i].hardlink.Some? {
        var g := es[i].hardlink.value;
        counts := counts[g := (if g in counts then counts[g] else 0) + 1];
      }
      i := i + 1;
    }
  }

  /** `write_newc`.  The pre-pass numbering is returned beside the stream: nothing reads it, and it
      agrees with the numbering of the emission pass. */
  method WriteNewc(es: seq<Entry>, contents: Contents)
    returns (stream: bytes, inodeByLink: map<bytes, nat>, numbers: map<bytes, nat>)
    requires forall i :: 0 <= i < |es| && es[i].hardlink.Some? ==> es[i].path in contents
    ensures stream == Stream(es, contents)
    ensures inodeByLink == numbers
  {
    hide Numbered, Leads, Files, Ino, Encode, EncodeAll, Members, SameFile;
    NumberedNone(es);
    FilesNone(es);
    EncodeNone(es, contents);
    ghost var last;
    inodeByLink, last := NumberGroups(es);
    var counts := CountLinks(es);
    var nextInode := 1;
    numbers := map[];
    var emitted: set<bytes> := {};
    stream := [];
    var i := 0;
    while i < |es|
      invariant i <= |es|
      invariant Numbered(numbers, es, i)
      invariant nextInode == 1 + Files(es, i)
      invariant emitted == numbers.Keys
      invariant stream == EncodeAll(Records(es, contents, i))
    {
      var e := es[i];
      NumberedStep(numbers, es, i);
      var ino: nat, nlink: nat, data: bytes;
      if e.hardlink.Some? {
        var g := e.hardlink.value;
        if g !in numbers {
          numbers := numbers[g := nextInode];
          nextInode := nextInode + 1;
        }
        ino, nlink := numbers[g], counts[g];
        data := if g in emitted then [] else contents[e.path];
        emitted := emitted + {g};
      } else {
        ino, nlink, data := nextInode, if e.kind == Directory then 2 else 1, Body(e, contents);
        nextInode := nextInode + 1;
      }
      EmitNext(es, contents, i, Record(e.path, ino, e.mode, e.uid, e.gid, nlink, data, PLAIN));
      stream := Emit(stream, e.path, e.mode, e.uid, e.gid, nlink, ino, data);
      i := i + 1;
    }
    EncodeLast(Records(es, contents, |es|), TrailerOf(es));
    var trailer: bytes := [84, 82, 65, 73, 76, 69, 82, 33, 33, 33];
    stream := Emit(stream, trailer, 0, 0, 0, 1, nextInode, []);
    SameNumbers(inodeByLink, numbers, es);
  }

  lemma FilesNone(es: seq<Entry>)
    ensures Files(es, 0) == 0
  {
  }

  lemma EncodeNone(es: seq<Entry>, contents: Contents)
    ensures EncodeAll(Records(es, contents, 0)) == []
  {
  }

  lemma EncodeLast(rs: seq<Record>, r: Record)
    ensures EncodeAll(rs + [r]) == EncodeAll(rs) + Encode(r)
  {
    assert (rs + [r])[..|rs|] == rs;
  }

  lemma EmitNext(es: seq<Entry>, contents: Contents, i: nat, r: Record)
    requires i < |es| && r == RecordAt(es, contents, i)
    ensures EncodeAll(Records(es, contents, i + 1)) == EncodeAll(Records(es, contents, i)) + Encode(r)
  {
    EncodeLast(Records(es, contents, i), r);
  }

  lemma SameNumbers(a: map<bytes, nat>, b: map<bytes, nat>, es: seq<Entry>)
    requires Numbered(a, es, |es|) && Numbered(b, es, |es|)
    ensures a == b
  {
    forall g | g in a ensures a[g] == b[g] { var i := GroupIndex(es, |es|, g); }
  }
}
