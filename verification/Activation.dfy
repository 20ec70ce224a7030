/**
 `activate`: the transaction over the stable links and the selector, with its rollback and with
 every crash point on record.
 */
module Activation {
  import opened Options
  import opened Bytes
  import opened Identifier
  import opened Deployment

  /** One atomic change of the disk; `removing` names the generation that an explicit removal deletes. */
  datatype Change = Change(before: Disk, after: Disk, removing: Option<Id>)

  datatype Config = Config(table: seq<Row>, hash: Hash, known: set<set<bytes>>)

  // ---------------------------------------------------------------- preflight

  ghost predicate Installed(c: Config, d: Disk, id: Id)
  {
    id in d.generations && Verifies(d.generations[id], id, c.hash, c.known)
  }

  ghost predicate SelectorOk(c: Config, d: Disk)
  {
    d.current.Some? ==> d.current.value.Selected? && Installed(c, d, d.current.value.id)
  }

  predicate SlotsOk(table: seq<Row>, slots: Slots)
  {
    forall i :: 0 <= i < |table| && table[i].destination in slots ==> slots[table[i].destination] == Managed
  }

  ghost predicate Preflight(c: Config, d: Disk)
  {
    SelectorOk(c, d) && SlotsOk(c.table, d.slots)
  }

  ghost predicate Activatable(c: Config, d: Disk, id: Id)
  {
    Preflight(c, d) && Installed(c, d, id)
  }

  function FilesOf(d: Disk, id: Id): set<bytes>
    requires id in d.generations
  {
    d.generations[id].manifest.Keys
  }

  /** What a completed activation leaves. */
  function Activated(c: Config, d: Disk, id: Id): Disk
    requires id in d.generations
  {
    d.(current := Some(Selected(id)), slots := Applied(d.slots, c.table, FilesOf(d, id), |c.table|))
  }

  // ---------------------------------------------------------------- crash points

  /** A disk on which an activation of `id` begun on `before` may have been interrupted. */
  ghost predicate CrashPoint(c: Config, before: Disk, d: Disk, id: Id)
    requires id in before.generations
  {
    && d.generations == before.generations
    && (d.current == before.current || d.current == Some(Selected(id)))
    && Mixed(before.slots, d.slots, Applied(before.slots, c.table, FilesOf(before, id), |c.table|))
  }

  /** At every crash point each destination is absent or its own managed link, and a destination that
      was linked and stays in the new generation is linked throughout. */
  lemma CrashPointLinks(c: Config, before: Disk, d: Disk, id: Id, i: int)
    requires DistinctRows(c.table) && Activatable(c, before, id) && CrashPoint(c, before, d, id)
    requires 0 <= i < |c.table|
    ensures var dest := c.table[i].destination;
      && (dest in d.slots ==> d.slots[dest] == Managed)
      && (dest in before.slots && c.table[i].internal in FilesOf(before, id) ==> dest in d.slots)
      && (dest in d.slots ==> dest in before.slots || c.table[i].internal in FilesOf(before, id))
  {
    var dest := c.table[i].destination;
    AppliedAt(before.slots, c.table, FilesOf(before, id), |c.table|, i);
    assert SameAt(before.slots, d.slots, dest)
           || SameAt(Applied(before.slots, c.table, FilesOf(before, id), |c.table|), d.slots, dest);
  }

  /** From every crash point the activation can be run again, and ends where it would have ended. */
  lemma CrashPointConverges(c: Config, before: Disk, d: Disk, id: Id)
    requires DistinctRows(c.table) && Activatable(c, before, id) && CrashPoint(c, before, d, id)
    ensures Activatable(c, d, id)
    ensures Activated(c, d, id) == Activated(c, before, id).(temporaries := d.temporaries)
  {
    AppliedConverges(before.slots, d.slots, c.table, FilesOf(before, id));
    forall i | 0 <= i < |c.table| && c.table[i].destination in d.slots
      ensures d.slots[c.table[i].destination] == Managed
    {
      CrashPointLinks(c, before, d, id, i);
    }
  }

  /** A completed activation links exactly the generation's files. */
  lemma ActivatedLinks(c: Config, d: Disk, id: Id, i: int)
    requires DistinctRows(c.table) && id in d.generations && 0 <= i < |c.table|
    ensures var s := Activated(c, d, id).slots; var dest := c.table[i].destination;
      (dest in s && s[dest] == Managed <==> c.table[i].internal in FilesOf(d, id))
      && (dest in s <==> c.table[i].internal in FilesOf(d, id))
  {
    AppliedAt(d.slots, c.table, FilesOf(d, id), |c.table|, i);
  }

  // ---------------------------------------------------------------- small steps on slots

  lemma MixedSelf(a: Slots, b: Slots)
    ensures Mixed(a, a, b) && Mixed(a, b, b)
  {
  }

  lemma MixedUpdate(a: Slots, s: Slots, b: Slots, s': Slots, d: Destination)
    requires Mixed(a, s, b) && (SameAt(a, s', d) || SameAt(b, s', d))
    requires forall e :: e != d ==> SameAt(s, s', e)
    ensures Mixed(a, s', b)
  {
    forall e ensures SameAt(a, s', e) || SameAt(b, s', e) {
      if e != d { assert SameAt(s, s', e); assert SameAt(a, s, e) || SameAt(b, s, e); }
    }
  }

  lemma MixedNested(a: Slots, s: Slots, b: Slots, u: Slots, r: Slots)
    requires Mixed(a, s, b) && Mixed(s, u, r) && Mixed(a, r, s)
    ensures Mixed(a, u, b)
  {
    forall d ensures SameAt(a, u, d) || SameAt(b, u, d) {
      assert SameAt(a, s, d) || SameAt(b, s, d);
      assert SameAt(s, u, d) || SameAt(r, u, d);
      assert SameAt(a, r, d) || SameAt(s, r, d);
    }
  }

  /** Whether row `i` needs a change at all. */
  predicate Acts(table: seq<Row>, slots: Slots, files: set<bytes>, i: nat)
    requires i < |table|
  {
    table[i].internal in files <==> table[i].destination !in slots
  }

  /** The fault meets a primitive that is really executed. */
  predicate Hits(table: seq<Row>, slots: Slots, files: set<bytes>, fault: Fault)
  {
    fault.Fail? && (fault.step == |table| || (fault.step < |table| && Acts(table, slots, files, fault.step)))
  }

  ghost predicate Free(d: Disk, pid: nat)
  {
    forall p :: (p, pid) !in d.temporaries
  }

  /** The links after undoing: the created ones gone, the removed ones back. */
  function Undone(s: Slots, created: seq<Destination>, removed: seq<Destination>): Slots
  {
    map d | d in s.Keys + (set x | x in removed) && (d !in created || d in removed) ::
      if d in removed then Managed else s[d]
  }

  ghost predicate TraceBetween(trace: seq<Change>, from: nat, d: Disk, target: Slots)
  {
    forall k :: from <= k < |trace| ==>
      var x := trace[k].after;
      trace[k].removing == None && x.generations == d.generations && x.current == d.current
        && Mixed(d.slots, x.slots, target)
  }

  ghost predicate TraceCrash(c: Config, trace: seq<Change>, from: nat, before: Disk, id: Id)
    requires id in before.generations
  {
    forall k :: from <= k < |trace| ==> trace[k].removing == None && CrashPoint(c, before, trace[k].after, id)
  }

  lemma TraceStep(trace: seq<Change>, from: nat, d: Disk, target: Slots, x: Change)
    requires TraceBetween(trace, from, d, target) && from <= |trace|
    requires x.removing == None && x.after.generations == d.generations && x.after.current == d.current
    requires Mixed(d.slots, x.after.slots, target)
    ensures TraceBetween(trace + [x], from, d, target)
  {
  }

  /** A rollback whose every step lies between the interrupted links and the undone ones. */
  lemma CrashRollback(c: Config, trace: seq<Change>, from: nat, mid: nat, before: Disk, id: Id, d: Disk, target: Slots)
    requires id in before.generations && from <= mid <= |trace|
    requires TraceCrash(c, trace[..mid], from, before, id) && CrashPoint(c, before, d, id)
    requires TraceBetween(trace, mid, d, target) && Mixed(before.slots, target, d.slots)
    ensures TraceCrash(c, trace, from, before, id)
  {
    var goal := Applied(before.slots, c.table, FilesOf(before, id), |c.table|);
    hide Mixed, Applied;
    forall k | from <= k < |trace| ensures trace[k].removing == None && CrashPoint(c, before, trace[k].after, id) {
      if k < mid {
        assert trace[..mid][k] == trace[k];
      } else {
        MixedNested(before.slots, d.slots, goal, trace[k].after.slots, target);
      }
    }
  }

  /** The two lists describe the difference between the links before and now, but for `lost`. */
  ghost predicate Recorded(before: Slots, now: Slots, created: seq<Destination>, removed: seq<Destination>,
                           lost: Option<Destination>)
  {
    && (forall d :: d in created ==> d !in before && d in now)
    && (forall d :: d in removed ==> d in before && before[d] == Managed && d !in now)
    && (forall d :: d !in created && d !in removed && lost != Some(d) ==> SameAt(before, now, d))
    && (lost.Some? ==> lost.value !in created && lost.value !in removed && !SameAt(before, now, lost.value))
  }

  /** Undoing what is recorded restores the links exactly when nothing was lost. */
  lemma UndoRecorded(before: Slots, now: Slots, created: seq<Destination>, removed: seq<Destination>,
      lost: Option<Destination>)
    requires Recorded(before, now, created, removed, lost)
    ensures Undone(now, created, removed) == before <==> lost == None
    ensures Mixed(before, Undone(now, created, removed), now)
  {
    var u := Undone(now, created, removed);
    forall d ensures lost != Some(d) ==> SameAt(before, u, d)
      ensures lost == Some(d) ==> SameAt(now, u, d)
    {
      if lost != Some(d) && d !in created && d !in removed { assert SameAt(before, now, d); }
    }
    if lost == None { SameEverywhere(before, u); } else { assert !SameAt(before, u, lost.value); }
  }

  lemma CrashNested(c: Config, trace: seq<Change>, from: nat, mid: nat, before: Disk, id: Id, e: Disk, one: Slots)
    requires id in before.generations && from <= mid <= |trace|
    requires TraceCrash(c, trace[..mid], from, before, id) && CrashPoint(c, before, e, id)
    requires TraceBetween(trace, mid, e, one)
    requires Mixed(before.slots, one, Applied(before.slots, c.table, FilesOf(before, id), |c.table|))
    ensures TraceCrash(c, trace, from, before, id)
  {
    var goal := Applied(before.slots, c.table, FilesOf(before, id), |c.table|);
    hide Mixed, Applied;
    forall k | from <= k < |trace| ensures trace[k].removing == None && CrashPoint(c, before, trace[k].after, id) {
      if k < mid {
        assert trace[..mid][k] == trace[k];
      } else {
        MixedTwo(before.slots, e.slots, one, goal, trace[k].after.slots);
      }
    }
  }

  /** The state of the loop over LINKS before row `i`. */
  ghost predicate RowsDone(c: Config, before: Disk, d: Disk, id: Id, created: seq<Destination>,
      removed: seq<Destination>, i: nat)
    requires id in before.generations && i <= |c.table|
  {
    && d == before.(slots := d.slots) && d.slots == Applied(before.slots, c.table, FilesOf(before, id), i)
    && Recorded(before.slots, d.slots, created, removed, None)
  }

  lemma RowsNone(c: Config, before: Disk, id: Id)
    requires id in before.generations
    ensures RowsDone(c, before, before, id, [], [], 0)
  {
  }

  lemma RowsFacts(c: Config, before: Disk, d: Disk, id: Id, created: seq<Destination>, removed: seq<Destination>,
      i: nat)
    requires DistinctRows(c.table) && id in before.generations && i <= |c.table|
    requires RowsDone(c, before, d, id, created, removed, i)
    ensures d == before.(slots := d.slots) && CrashPoint(c, before, d, id)
    ensures d.slots == Applied(before.slots, c.table, FilesOf(before, id), i)
    ensures Recorded(before.slots, d.slots, created, removed, None)
  {
    MixedApplied(before.slots, c.table, FilesOf(before, id), i);
  }

  lemma RowNext(before: Slots, now: Slots, table: seq<Row>, files: set<bytes>, i: nat)
    requires DistinctRows(table) && i < |table| && SlotsOk(table, before) && now == Applied(before, table, files, i)
    ensures var dest := table[i].destination; var next := Applied(before, table, files, i + 1);
      && SameAt(before, now, dest) && (dest in now ==> now[dest] == Managed)
      && next == (if table[i].internal in files then now[dest := Managed] else now - {dest})
      && ((table[i].internal in files) == (dest in now) ==> next == now)
  {
    AppliedAt(before, table, files, i, i);
    var dest := table[i].destination;
    if table[i].internal in files && dest in now {
      assert now[dest := Managed] == now;
    } else if dest !in now {
      assert now - {dest} == now;
    }
  }

  lemma RecordCreate(before: Slots, now: Slots, created: seq<Destination>, removed: seq<Destination>, dest: Destination)
    requires Recorded(before, now, created, removed, None) && dest !in now && dest !in before
    ensures Recorded(before, now[dest := Managed], created + [dest], removed, None)
    ensures Recorded(before, now[dest := Managed], created, removed, Some(dest))
    ensures now[dest := Managed] != now
  {
    var next := now[dest := Managed];
    assert dest in next;
    forall d | d != dest ensures SameAt(now, next, d) { }
    forall d | d !in created && d !in removed && d != dest ensures SameAt(before, next, d) {
      assert SameAt(before, now, d);
    }
  }

  lemma RecordRemove(before: Slots, now: Slots, created: seq<Destination>, removed: seq<Destination>, dest: Destination)
    requires Recorded(before, now, created, removed, None) && dest in now && dest in before && before[dest] == Managed
    ensures Recorded(before, now - {dest}, created, removed + [dest], None)
    ensures Recorded(before, now - {dest}, created, removed, Some(dest))
  {
    var next := now - {dest};
    forall d | d !in created && d !in removed && d != dest ensures SameAt(before, next, d) {
      assert SameAt(before, now, d);
    }
  }

  lemma TraceNone(c: Config, trace: seq<Change>, before: Disk, id: Id)
    requires id in before.generations
    ensures TraceCrash(c, trace, |trace|, before, id) && trace[..|trace|] == trace
  {
  }

  lemma TraceJoin(c: Config, mid: seq<Change>, trace: seq<Change>, from: nat, before: Disk, id: Id)
    requires id in before.generations && from <= |mid| && mid <= trace
    requires TraceCrash(c, mid, from, before, id) && TraceCrash(c, trace, |mid|, before, id)
    ensures TraceCrash(c, trace, from, before, id)
  {
    forall k | from <= k < |mid| ensures trace[k] == mid[k] { }
  }

  lemma Apart(before: Slots, now: Slots, created: seq<Destination>, removed: seq<Destination>,
      lost: Option<Destination>)
    requires Recorded(before, now, created, removed, lost)
    ensures forall d :: d in created ==> d !in removed
  {
  }

  lemma RolledBack(c: Config, before: Disk, id: Id, failed: Disk, d: Disk, target: Slots)
    requires id in before.generations && CrashPoint(c, before, failed, id)
    requires d.generations == failed.generations && d.current == failed.current
    requires Mixed(failed.slots, d.slots, target) && Mixed(before.slots, target, failed.slots)
    ensures CrashPoint(c, before, d, id)
  {
    hide Applied;
    MixedNested(before.slots, failed.slots, Applied(before.slots, c.table, FilesOf(before, id), |c.table|), d.slots,
      target);
  }

  /** The first effect, if there is any, is the temporary link. */
  ghost predicate Prepares(trace: seq<Change>, from: nat, d: Disk, key: (Place, nat))
  {
    |trace| > from ==> key !in d.temporaries && trace[from].after == d.(temporaries := d.temporaries + {key})
  }

  class Store {
    const config: Config
    var disk: Disk
    ghost const origin: Disk
    ghost var trace: seq<Change>

    /** The recorded changes follow one another up to the present disk. */
    ghost predicate Valid()
      reads this
    {
      && DistinctRows(config.table)
      && (if trace == [] then disk == origin else trace[0].before == origin && trace[|trace| - 1].after == disk)
      && (forall k :: 0 <= k < |trace| - 1 ==> trace[k].after == trace[k + 1].before)
    }

    constructor (config: Config, disk: Disk)
      requires DistinctRows(config.table)
      ensures Valid() && this.config == config && this.disk == disk && trace == []
    {
      this.config, this.disk, origin, trace := config, disk, disk, [];
    }

    method Set(next: Disk, ghost removing: Option<Id>)
      requires Valid()
      modifies this
      ensures Valid() && disk == next && trace == old(trace) + [Change(old(disk), next, removing)]
    {
      trace := trace + [Change(disk, next, removing)];
      disk := next;
    }

    /** `atomic_symlink` on a destination: a temporary link, renamed over it.  `failing` interrupts before
        the rename, `late` in the directory sync after it. */
    method LinkAt(dest: Destination, pid: nat, failing: bool, late: bool) returns (ok: bool)
      requires Valid()
      modifies this
      ensures Valid() && old(trace) <= trace
      ensures ok ==> !failing && !late
      ensures (At(dest), pid) !in old(disk).temporaries ==> (ok <==> !failing && !late)
      ensures disk == old(disk) || ((ok || late) && disk == old(disk).(slots := old(disk).slots[dest := Managed]))
      ensures ok || (late && !failing && (At(dest), pid) !in old(disk).temporaries) ==>
        disk.slots == old(disk).slots[dest := Managed]
      ensures TraceBetween(trace, |old(trace)|, old(disk), old(disk).slots[dest := Managed])
      ensures Prepares(trace, |old(trace)|, old(disk), (At(dest), pid))
    {
      ghost var target := disk.slots[dest := Managed];
      MixedSelf(disk.slots, target);
      var key := (At(dest), pid);
      if key in disk.temporaries { return false; }
      Set(disk.(temporaries := disk.temporaries + {key}), None);
      if failing {
        Set(disk.(temporaries := disk.temporaries - {key}), None);
        assert disk == old(disk);
        return false;
      }
      Set(disk.(slots := disk.slots[dest := Managed], temporaries := disk.temporaries - {key}), None);
      assert disk == old(disk).(slots := target);
      ok := !late;
    }

    /** `unlink` of a destination. */
    method UnlinkAt(dest: Destination)
      requires Valid()
      modifies this
      ensures Valid() && old(trace) <= trace && disk == old(disk).(slots := old(disk).slots - {dest})
      ensures TraceBetween(trace, |old(trace)|, old(disk), old(disk).slots - {dest})
    {
      MixedSelf(disk.slots, disk.slots - {dest});
      Set(disk.(slots := disk.slots - {dest}), None);
    }

    /** The created links go, last first. */
    method RemoveCreated(created: seq<Destination>, ghost target: Slots)
      requires Valid() && forall d :: d in created ==> d !in target
      modifies this
      ensures Valid() && old(trace) <= trace && disk == old(disk).(slots := disk.slots)
      ensures Mixed(old(disk).slots, disk.slots, target)
      ensures forall d :: d in created ==> d !in disk.slots
      ensures forall d :: d !in created ==> SameAt(old(disk).slots, disk.slots, d)
      ensures TraceBetween(trace, |old(trace)|, old(disk), target)
    {
      ghost var start := disk;
      MixedSelf(start.slots, target);
      hide Mixed;
      var j := |created|;
      while j > 0
        invariant 0 <= j <= |created| && Valid() && old(trace) <= trace
        invariant disk == start.(slots := disk.slots)
        invariant Mixed(start.slots, disk.slots, target)
        invariant forall d :: d in created[j..] ==> d !in disk.slots
        invariant forall d :: d !in created[j..] ==> SameAt(start.slots, disk.slots, d)
        invariant TraceBetween(trace, |old(trace)|, start, target)
      {
        j := j - 1;
        assert created[j..] == [created[j]] + created[j + 1..];
        if created[j] in disk.slots {
          ghost var was := disk.slots;
          var next := disk.(slots := disk.slots - {created[j]});
          MixedUpdate(start.slots, was, target, next.slots, created[j]);
          TraceStep(trace, |old(trace)|, start, target, Change(disk, next, None));
          Set(next, None);
        }
      }
      assert created[0..] == created;
    }

    /** The removed links come back, last first, until a temporary name is taken. */
    method RestoreRemoved(removed: seq<Destination>, pid: nat, ghost target: Slots)
      requires Valid() && forall d :: d in removed ==> d in target && target[d] == Managed
      modifies this
      ensures Valid() && old(trace) <= trace && disk == old(disk).(slots := disk.slots)
      ensures Mixed(old(disk).slots, disk.slots, target)
      ensures Free(old(disk), pid) ==> forall d :: d in removed ==> d in disk.slots && disk.slots[d] == Managed
      ensures forall d :: d !in removed ==> SameAt(old(disk).slots, disk.slots, d)
      ensures TraceBetween(trace, |old(trace)|, old(disk), target)
    {
      ghost var start := disk;
      MixedSelf(start.slots, target);
      hide Mixed, TraceBetween;
      TraceNothing(trace, start, target);
      var j := |removed|;
      while j > 0
        invariant 0 <= j <= |removed| && Valid() && old(trace) <= trace
        invariant disk == start.(slots := disk.slots)
        invariant Mixed(start.slots, disk.slots, target)
        invariant forall d :: d in removed[j..] ==> d in disk.slots && disk.slots[d] == Managed
        invariant forall d :: d !in removed[j..] ==> SameAt(start.slots, disk.slots, d)
        invariant TraceBetween(trace, |old(trace)|, start, target)
      {
        j := j - 1;
        assert removed[j..] == [removed[j]] + removed[j + 1..];
        ghost var was, wasTrace := disk, trace;
        var ok := LinkAt(removed[j], pid, false, false);
        ghost var one := was.slots[removed[j] := Managed];
        MixedUpdate(start.slots, was.slots, target, one, removed[j]);
        assert trace[..|wasTrace|] == wasTrace;
        TraceNested(trace, |old(trace)|, |wasTrace|, start, was, target, one);
        if !ok { return; }
      }
      assert removed[0..] == removed;
    }

    /** The exception path of `activate`. */
    method Rollback(created: seq<Destination>, removed: seq<Destination>, pid: nat)
      requires Valid() && forall d :: d in created ==> d !in removed
      modifies this
      ensures Valid() && old(trace) <= trace
      ensures disk.temporaries == old(disk).temporaries && disk.generations == old(disk).generations
        && disk.current == old(disk).current
      ensures Mixed(old(disk).slots, disk.slots, Undone(old(disk).slots, created, removed))
      ensures Free(old(disk), pid) ==> disk.slots == Undone(old(disk).slots, created, removed)
      ensures TraceBetween(trace, |old(trace)|, old(disk), Undone(old(disk).slots, created, removed))
    {
      ghost var start, target := disk, Undone(disk.slots, created, removed);
      RemoveCreated(created, target);
      ghost var mid, midTrace := disk, trace;
      RestoreRemoved(removed, pid, target);
      assert trace[..|midTrace|] == midTrace;
      MixedSelf(start.slots, target);
      MixedTwo(start.slots, mid.slots, target, target, disk.slots);
      TraceNested(trace, |old(trace)|, |midTrace|, start, mid, target, target);
      if Free(start, pid) {
        forall d ensures SameAt(disk.slots, target, d) {
          UndoneAt(start.slots, mid.slots, disk.slots, created, removed, d);
        }
        SameEverywhere(disk.slots, target);
      }
    }

    /** One row of LINKS.  `lost` is the destination whose change took effect although its primitive
        reported a failure: it is in neither list. */
    method ApplyRow(ghost before: Disk, id: Id, i: nat, pid: nat, fault: Fault, created: seq<Destination>,
        removed: seq<Destination>)
      returns (ok: bool, created': seq<Destination>, removed': seq<Destination>, ghost lost: Option<Destination>)
      requires Valid() && i < |config.table| && Activatable(config, before, id)
      requires RowsDone(config, before, disk, id, created, removed, i)
      modifies this
      ensures Valid() && old(trace) <= trace
      ensures disk == before.(slots := disk.slots) && CrashPoint(config, before, disk, id)
      ensures ok ==> lost == None && RowsDone(config, before, disk, id, created', removed', i + 1)
      ensures Recorded(before.slots, disk.slots, created', removed', lost)
      ensures Free(before, pid) ==>
        (ok <==> !(fault.Fail? && fault.step == i && Acts(config.table, before.slots, FilesOf(before, id), i)))
      ensures Free(before, pid) && !ok ==> (lost.Some? <==> fault.after)
      ensures TraceCrash(config, trace, |old(trace)|, before, id)
    {
      hide Mixed, Verifies, SelectorOk, Applied, TraceBetween, TraceCrash, Recorded;
      var files, table := FilesOf(disk, id), config.table;
      RowsFacts(config, before, disk, id, created, removed, i);
      RowNext(before.slots, disk.slots, config.table, FilesOf(before, id), i);
      MixedApplied(before.slots, config.table, FilesOf(before, id), i + 1);
      created', removed', lost := created, removed, None;
      var dest := table[i].destination;
      var failing, late := fault == Fail(i, false), fault == Fail(i, true);
      TraceNone(config, trace, before, id);
      if table[i].internal in files && dest !in disk.slots {
        RecordCreate(before.slots, disk.slots, created, removed, dest);
        ok := LinkAt(dest, pid, failing, late);
        assert trace[..|old(trace)|] == old(trace);
        CrashNested(config, trace, |old(trace)|, |old(trace)|, before, id, old(disk), old(disk).slots[dest := Managed]);
        if ok {
          created' := created + [dest];
        } else if disk.slots != old(disk).slots {
          lost := Some(dest);
        }
      } else if table[i].internal !in files && dest in disk.slots {
        if failing { return false, created, removed, None; }
        RecordRemove(before.slots, disk.slots, created, removed, dest);
        UnlinkAt(dest);
        assert trace[..|old(trace)|] == old(trace);
        CrashNested(config, trace, |old(trace)|, |old(trace)|, before, id, old(disk), old(disk).slots - {dest});
        if late { return false, created, removed, Some(dest); }
        removed' := removed + [dest];
        ok := true;
      } else {
        ok := true;
      }
    }

    /** The loop over LINKS. */
    method ApplyRows(id: Id, pid: nat, fault: Fault)
      returns (ok: bool, created: seq<Destination>, removed: seq<Destination>, ghost lost: Option<Destination>)
      requires Valid() && Activatable(config, disk, id)
      modifies this
      ensures Valid() && old(trace) <= trace
      ensures disk == old(disk).(slots := disk.slots) && CrashPoint(config, old(disk), disk, id)
      ensures ok ==> disk.slots == Applied(old(disk).slots, config.table, FilesOf(old(disk), id), |config.table|)
      ensures Recorded(old(disk).slots, disk.slots, created, removed, lost)
      ensures ok ==> lost == None
      ensures Free(old(disk), pid) ==>
        (ok <==> !(Hits(config.table, old(disk).slots, FilesOf(old(disk), id), fault) && fault.step < |config.table|))
      ensures Free(old(disk), pid) && !ok ==> (lost.Some? <==> fault.after)
      ensures TraceCrash(config, trace, |old(trace)|, old(disk), id)
    {
      hide Mixed, Verifies, SelectorOk, Recorded, SlotsOk, CrashPoint, TraceCrash, RowsDone;
      ghost var before := disk;
      created, removed, lost := [], [], None;
      RowsNone(config, before, id);
      TraceNone(config, trace, before, id);
      var i := 0;
      while i < |config.table|
        invariant 0 <= i <= |config.table| && Valid() && old(trace) <= trace && lost == None
        invariant RowsDone(config, before, disk, id, created, removed, i)
        invariant Free(before, pid) && fault.Fail? && fault.step < i ==>
          !Acts(config.table, before.slots, FilesOf(before, id), fault.step)
        invariant TraceCrash(config, trace, |old(trace)|, before, id)
      {
        ghost var mid := trace;
        ok, created, removed, lost := ApplyRow(before, id, i, pid, fault, created, removed);
        TraceJoin(config, mid, trace, |old(trace)|, before, id);
        if !ok { return; }
        i := i + 1;
      }
      RowsFacts(config, before, disk, id, created, removed, i);
      ok := true;
    }

    /** The replacement of the selector. */
    method Select(id: Id, pid: nat, fault: Fault, ghost before: Disk) returns (ok: bool)
      requires Valid() && id in before.generations && CrashPoint(config, before, disk, id)
        && disk.current == before.current
      modifies this
      ensures Valid() && old(trace) <= trace
      ensures var failing := fault == Fail(|config.table|, false); var late := fault == Fail(|config.table|, true);
        && (ok ==> !failing && !late)
        && ((Current, pid) !in old(disk).temporaries ==>
              && (ok <==> !failing && !late)
              && disk == if failing then old(disk) else old(disk).(current := Some(Selected(id))))
        && (ok ==> disk == old(disk).(current := Some(Selected(id))))
        && disk == old(disk).(current := disk.current) && CrashPoint(config, before, disk, id)
      ensures TraceCrash(config, trace, |old(trace)|, before, id)
      ensures Prepares(trace, |old(trace)|, old(disk), (Current, pid))
    {
      hide Mixed, Applied;
      var key := (Current, pid);
      if key in disk.temporaries { return false; }
      Set(disk.(temporaries := disk.temporaries + {key}), None);
      if fault == Fail(|config.table|, false) {
        Set(disk.(temporaries := disk.temporaries - {key}), None);
        assert disk == old(disk);
        return false;
      }
      Set(disk.(current := Some(Selected(id)), temporaries := disk.temporaries - {key}), None);
      assert disk == old(disk).(current := Some(Selected(id)));
      ok := fault != Fail(|config.table|, true);
    }

    /** `activate`.  Refused without a change unless the preflight passes and the generation verifies.
        On success exactly its links and the selector are set.  For a process without leftovers it fails
        exactly when the fault meets an executed primitive; the prior disk is then restored exactly unless
        that primitive had taken effect (for the selector: unless it selected what was selected already).
        Every state in between is a crash point. */
    method Activate(id: Id, pid: nat, fault: Fault) returns (ok: bool)
      requires Valid()
      modifies this
      ensures Valid() && old(trace) <= trace && disk.temporaries == old(disk).temporaries
      ensures !Activatable(config, old(disk), id) ==> !ok && disk == old(disk) && trace == old(trace)
      ensures ok ==> id in old(disk).generations && disk == Activated(config, old(disk), id)
      ensures Activatable(config, old(disk), id) && Free(old(disk), pid) ==>
        (ok <==> !Hits(config.table, old(disk).slots, FilesOf(old(disk), id), fault))
      ensures Activatable(config, old(disk), id) && Free(old(disk), pid) && !ok ==>
        (disk == old(disk) <==>
         !fault.after || (fault.step == |config.table| && old(disk).current == Some(Selected(id))))
      ensures Activatable(config, old(disk), id) ==>
        CrashPoint(config, old(disk), disk, id) && TraceCrash(config, trace, |old(trace)|, old(disk), id)
    {
      hide Mixed, Verifies, Applied, Recorded, TraceCrash, TraceBetween, Undone, SlotsOk;
      ghost var before := disk;
      var ready := Check(id);
      if !ready { return false; }
      ghost var lost;
      var created, removed;
      ok, created, removed, lost := ApplyRows(id, pid, fault);
      ghost var mid := trace;
      if ok {
        ok := Select(id, pid, fault, before);
        TraceJoin(config, mid, trace, |old(trace)|, before, id);
      }
      if !ok {
        UndoRecorded(before.slots, disk.slots, created, removed, lost);
        Apart(before.slots, disk.slots, created, removed, lost);
        ghost var failed, failedTrace := disk, trace;
        Rollback(created, removed, pid);
        assert trace[..|failedTrace|] == failedTrace;
        CrashRollback(config, trace, |old(trace)|, |failedTrace|, before, id, failed,
          Undone(failed.slots, created, removed));
        RolledBack(config, before, id, failed, disk, Undone(failed.slots, created, removed));
      }
    }

    /** The preflight and the verification of the generation. */
    method Check(id: Id) returns (ready: bool)
      ensures ready <==> Activatable(config, disk, id)
    {
      var fine := PreflightLinks();
      if !fine || id !in disk.generations { return false; }
      ready := VerifyGeneration(disk.generations[id], id, config.hash, config.known);
    }

    /** `preflight_links`. */
    method PreflightLinks() returns (fine: bool)
      ensures fine <==> Preflight(config, disk)
    {
      if disk.current.Some? {
        if !disk.current.value.Selected? || disk.current.value.id !in disk.generations { return false; }
        var id := disk.current.value.id;
        var verified := VerifyGeneration(disk.generations[id], id, config.hash, config.known);
        if !verified { return false; }
      }
      var i := 0;
      while i < |config.table|
        invariant 0 <= i <= |config.table|
        invariant forall j :: 0 <= j < i && config.table[j].destination in disk.slots ==>
          disk.slots[config.table[j].destination] == Managed
      {
        var dest := config.table[i].destination;
        if dest in disk.slots && disk.slots[dest] != Managed { return false; }
        i := i + 1;
      }
      fine := true;
    }
  }

  lemma TraceNothing(trace: seq<Change>, d: Disk, target: Slots)
    ensures TraceBetween(trace, |trace|, d, target)
  {
  }

  lemma UndoneAt(start: Slots, mid: Slots, end: Slots, created: seq<Destination>, removed: seq<Destination>,
      d: Destination)
    requires d in created ==> d !in removed && d !in mid
    requires d !in created ==> SameAt(start, mid, d)
    requires d in removed ==> d in end && end[d] == Managed
    requires d !in removed ==> SameAt(mid, end, d)
    ensures SameAt(end, Undone(start, created, removed), d)
  {
  }

  lemma TraceNested(trace: seq<Change>, from: nat, mid: nat, d: Disk, e: Disk, target: Slots, one: Slots)
    requires from <= mid <= |trace| && TraceBetween(trace[..mid], from, d, target)
    requires TraceBetween(trace, mid, e, one) && e.generations == d.generations && e.current == d.current
    requires Mixed(d.slots, e.slots, target) && Mixed(d.slots, one, target)
    ensures TraceBetween(trace, from, d, target)
  {
    forall k | from <= k < |trace| ensures trace[k].removing == None && trace[k].after.generations == d.generations
      && trace[k].after.current == d.current && Mixed(d.slots, trace[k].after.slots, target)
    {
      if k < mid { assert trace[..mid][k] == trace[k]; } else {
        MixedTwo(d.slots, e.slots, one, target, trace[k].after.slots);
      }
    }
  }

  lemma MixedTwo(a: Slots, s: Slots, t: Slots, b: Slots, u: Slots)
    requires Mixed(a, s, b) && Mixed(a, t, b) && Mixed(s, u, t)
    ensures Mixed(a, u, b)
  {
    forall d ensures SameAt(a, u, d) || SameAt(b, u, d) {
      assert SameAt(a, s, d) || SameAt(b, s, d);
      assert SameAt(a, t, d) || SameAt(b, t, d);
      assert SameAt(s, u, d) || SameAt(t, u, d);
    }
  }
}
