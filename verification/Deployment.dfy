/**
 `manage-runtime-deployment.py`: immutable generations, the stable links and the `current` selector.

 The disk is a value; every atomic mutation appends the new disk to a trace, so that a crash is the
 end of the trace at any of its entries.
 */
module Deployment {
  import opened Options
  import opened Bytes
  import opened Identifier

  type Id = bytes
  type Destination = string

  /** One entry of LINKS: a stable destination and the file of the generation behind it. */
  datatype Row = Row(destination: Destination, internal: bytes)

  /** What is found at a destination: the managed link, or anything else. */
  datatype Slot = Managed | Foreign

  type Slots = map<Destination, Slot>

  datatype Selector = Selected(id: Id) | Unmanaged

  /** A link that `atomic_symlink` replaces: a destination or the selector. */
  datatype Place = At(destination: Destination) | Current

  /** `temporaries` are the leftovers of interrupted replacements, by place and process. */
  datatype Disk = Disk(generations: map<Id, Generation>, current: Option<Selector>, slots: Slots,
                       temporaries: set<(Place, nat)>)

  const EMPTY_DISK := Disk(map[], None, map[], {})

  /** One primitive of an activation fails: the one for row `step` (or, after the rows, for the selector),
      before it takes effect or in the directory sync after it. */
  datatype Fault = NoFault | Fail(step: nat, after: bool)

  // ---------------------------------------------------------------- the intended links

  ghost predicate DistinctRows(table: seq<Row>)
  {
    forall i, j :: 0 <= i < j < |table| ==> table[i].destination != table[j].destination
  }

  predicate SameAt(a: Slots, b: Slots, d: Destination)
  {
    if d in a then d in b && a[d] == b[d] else d !in b
  }

  /** The links after the first `n` rows have been brought in line with `files`. */
  function Applied(slots: Slots, table: seq<Row>, files: set<bytes>, n: nat): Slots
    requires n <= |table|
  {
    if n == 0 then slots
    else
      var s := Applied(slots, table, files, n - 1);
      if table[n - 1].internal in files then s[table[n - 1].destination := Managed] else s - {table[n - 1].destination}
  }

  lemma {:induction false} AppliedAt(slots: Slots, table: seq<Row>, files: set<bytes>, n: nat, i: int)
    requires DistinctRows(table) && 0 <= i < |table| && n <= |table|
    ensures i < n ==> if table[i].internal in files
                      then table[i].destination in Applied(slots, table, files, n)
                           && Applied(slots, table, files, n)[table[i].destination] == Managed
                      else table[i].destination !in Applied(slots, table, files, n)
    ensures n <= i ==> SameAt(slots, Applied(slots, table, files, n), table[i].destination)
  {
    if n > 0 {
      AppliedAt(slots, table, files, n - 1, i);
    }
  }

  ghost predicate Listed(table: seq<Row>, n: nat, d: Destination)
    requires n <= |table|
  {
    exists i :: 0 <= i < n && table[i].destination == d
  }

  lemma {:induction false} AppliedElsewhere(slots: Slots, table: seq<Row>, files: set<bytes>, n: nat, d: Destination)
    requires n <= |table| && !Listed(table, n, d)
    ensures SameAt(slots, Applied(slots, table, files, n), d)
  {
    if n > 0 {
      assert table[n - 1].destination != d;
      assert !Listed(table, n - 1, d);
      AppliedElsewhere(slots, table, files, n - 1, d);
    }
  }

  /** Every destination is as it was or as it shall be. */
  ghost predicate Mixed(before: Slots, s: Slots, after: Slots)
  {
    forall d :: SameAt(before, s, d) || SameAt(after, s, d)
  }

  lemma MixedApplied(slots: Slots, table: seq<Row>, files: set<bytes>, n: nat)
    requires DistinctRows(table) && n <= |table|
    ensures Mixed(slots, Applied(slots, table, files, n), Applied(slots, table, files, |table|))
  {
    var s, t := Applied(slots, table, files, n), Applied(slots, table, files, |table|);
    forall d ensures SameAt(slots, s, d) || SameAt(t, s, d) {
      if Listed(table, |table|, d) {
        var i :| 0 <= i < |table| && table[i].destination == d;
        AppliedAt(slots, table, files, n, i);
        AppliedAt(slots, table, files, |table|, i);
      } else {
        AppliedElsewhere(slots, table, files, n, d);
      }
    }
  }

  /** Bringing the links in line again from any mixture gives the same links. */
  lemma AppliedConverges(before: Slots, s: Slots, table: seq<Row>, files: set<bytes>)
    requires DistinctRows(table) && Mixed(before, s, Applied(before, table, files, |table|))
    ensures Applied(s, table, files, |table|) == Applied(before, table, files, |table|)
  {
    var a, b := Applied(s, table, files, |table|), Applied(before, table, files, |table|);
    forall d ensures SameAt(a, b, d) {
      if Listed(table, |table|, d) {
        var i :| 0 <= i < |table| && table[i].destination == d;
        AppliedAt(s, table, files, |table|, i);
        AppliedAt(before, table, files, |table|, i);
      } else {
        AppliedElsewhere(s, table, files, |table|, d);
        AppliedElsewhere(before, table, files, |table|, d);
        assert SameAt(before, s, d) || SameAt(b, s, d);
      }
    }
    SameEverywhere(a, b);
  }

  lemma SameEverywhere(a: Slots, b: Slots)
    requires forall d :: SameAt(a, b, d)
    ensures a == b
  {
    forall d ensures d in a <==> d in b { assert SameAt(a, b, d); }
    forall d | d in a ensures a[d] == b[d] { assert SameAt(a, b, d); }
  }
}
