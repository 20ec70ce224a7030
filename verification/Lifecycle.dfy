/**
 The operations of `manage-runtime-deployment.py` over a store, and what holds over every run of
 them and at every crash point of a run.
 */
module Lifecycle {
  import opened Options
  import opened Bytes
  import opened Identifier
  import opened Deployment
  import opened Activation
  import E = Environment

  // ---------------------------------------------------------------- safe changes

  /** A generation appears whole, under the identifier of its contents. */
  ghost predicate Whole(c: Config, g: Generation, id: Id)
  {
    g.deployment == id && g.manifest == DigestMap(g.files, c.hash) && id == IdOf(g.files, c.hash)
  }

  /** What every atomic change keeps: the selector names a verifying generation or nothing; generations
      keep their contents unless explicitly removed; the selected one is not removed. */
  ghost predicate SafeChange(c: Config, x: Change)
  {
    && (SelectorOk(c, x.before) ==> SelectorOk(c, x.after))
    && (forall id :: id in x.before.generations && x.removing != Some(id) ==>
          id in x.after.generations && x.after.generations[id] == x.before.generations[id])
    && (forall id :: id in x.after.generations && id !in x.before.generations ==> Whole(c, x.after.generations[id], id))
    && (x.removing.Some? ==> x.before.current != Some(Selected(x.removing.value)))
  }

  ghost predicate SafeTrace(c: Config, trace: seq<Change>, from: nat)
  {
    forall k :: from <= k < |trace| ==> SafeChange(c, trace[k])
  }

  ghost predicate Chained(trace: seq<Change>)
  {
    forall k :: 0 <= k < |trace| - 1 ==> trace[k].after == trace[k + 1].before
  }

  /** Over a whole run the selector is sound at every point. */
  lemma {:induction false} RunSound(c: Config, trace: seq<Change>, k: nat)
    requires Chained(trace) && SafeTrace(c, trace, 0) && k < |trace| && SelectorOk(c, trace[0].before)
    ensures SelectorOk(c, trace[k].before) && SelectorOk(c, trace[k].after)
  {
    assert SafeChange(c, trace[k]);
    if k > 0 {
      RunSound(c, trace, k - 1);
      assert trace[k - 1].after == trace[k].before;
    }
  }

  /** An installed generation has the same contents until a change that explicitly removes it. */
  lemma {:induction false} RunImmutable(c: Config, trace: seq<Change>, i: nat, j: nat, id: Id)
    requires Chained(trace) && SafeTrace(c, trace, 0) && i <= j < |trace| && id in trace[i].before.generations
    requires forall k :: i <= k <= j ==> trace[k].removing != Some(id)
    ensures id in trace[j].after.generations && trace[j].after.generations[id] == trace[i].before.generations[id]
    decreases j
  {
    assert SafeChange(c, trace[j]);
    if i < j {
      RunImmutable(c, trace, i, j - 1, id);
      assert trace[j - 1].after == trace[j].before;
    }
  }

  /** The selected generation is never the one removed. */
  lemma RunKeepsActive(c: Config, trace: seq<Change>, k: nat)
    requires Chained(trace) && SafeTrace(c, trace, 0) && k < |trace| && SelectorOk(c, trace[0].before)
    requires trace[k].before.current.Some?
    ensures trace[k].before.current.value.Selected?
    ensures var id := trace[k].before.current.value.id;
      && trace[k].removing != Some(id)
      && id in trace[k].before.generations && id in trace[k].after.generations
      && trace[k].after.generations[id] == trace[k].before.generations[id]
  {
    RunSound(c, trace, k);
    assert SafeChange(c, trace[k]);
  }

  lemma SafeJoin(c: Config, mid: seq<Change>, trace: seq<Change>, from: nat)
    requires mid <= trace && from <= |mid| && SafeTrace(c, mid, from) && SafeTrace(c, trace, |mid|)
    ensures SafeTrace(c, trace, from)
  {
    forall k | from <= k < |mid| ensures trace[k] == mid[k] { }
  }

  ghost predicate ChainedFrom(trace: seq<Change>, from: nat, start: Disk)
  {
    && (from < |trace| ==> trace[from].before == start)
    && (forall k :: from < k < |trace| ==> trace[k].before == trace[k - 1].after)
  }

  /** The steps of an activation are safe changes. */
  lemma CrashSafe(c: Config, trace: seq<Change>, from: nat, start: Disk, id: Id)
    requires Activatable(c, start, id) && TraceCrash(c, trace, from, start, id) && ChainedFrom(trace, from, start)
    ensures SafeTrace(c, trace, from)
  {
    hide Mixed, Applied, Verifies, SlotsOk;
    forall k | from <= k < |trace| ensures SafeChange(c, trace[k]) {
      if k > from { assert CrashPoint(c, start, trace[k - 1].after, id); }
    }
  }

  // ---------------------------------------------------------------- contents of an installed identifier

  ghost predicate KnownNames(known: set<set<bytes>>)
  {
    forall names, n :: names in known && n in names ==> NUL !in n
  }

  /** The files that a generation's manifest speaks of. */
  function Manifested(g: Generation): Files
  {
    map n | n in g.manifest.Keys && n in g.files :: g.files[n]
  }

  /** A verifying generation is the one that its identifier stands for, unless the digest collides. */
  lemma VerifiedContents(c: Config, g: Generation, id: Id, files: Files)
    requires Verifies(g, id, c.hash, c.known) && id == IdOf(files, c.hash) && Digests(c.hash)
    requires KnownNames(c.known) && NulFree(files)
    requires NoCollision(c.hash, Manifested(g).Values + files.Values
                                 + {Encode(Lines(DigestMap(Manifested(g), c.hash))),
                                   Encode(Lines(DigestMap(files, c.hash)))})
    ensures Manifested(g) == files
  {
    var mine := Manifested(g);
    assert DigestMap(mine, c.hash) == g.manifest;
    EqualIdsEqualFiles(mine, files, c.hash);
  }

  // ---------------------------------------------------------------- operations

  lemma ChainAfter(s: Store, from: nat, start: Disk)
    requires s.Valid() && from <= |s.trace|
    requires if from == 0 then s.origin == start else s.trace[from - 1].after == start
    ensures ChainedFrom(s.trace, from, start)
  {
  }

  // ---------------------------------------------------------------- what an activation means for the destinations

  /** Destination by destination: linked if and only if its file is among `files`, and what is not listed is as
      it was. */
  ghost predicate Linked(c: Config, before: Disk, after: Disk, files: set<bytes>)
  {
    && (forall i :: 0 <= i < |c.table| ==>
          var dest := c.table[i].destination;
          && (dest in after.slots <==> c.table[i].internal in files)
          && (dest in after.slots ==> after.slots[dest] == Managed))
    && (forall d :: (forall i :: 0 <= i < |c.table| ==> c.table[i].destination != d) ==>
          SameAt(before.slots, after.slots, d))
  }

  /** Every destination is as it was, or as it is when the activation succeeds. */
  ghost predicate Between(c: Config, before: Disk, after: Disk, files: set<bytes>)
  {
    forall d :: SameAt(before.slots, after.slots, d) || Settled(c, after, files, d)
  }

  ghost predicate Settled(c: Config, after: Disk, files: set<bytes>, d: Destination)
  {
    exists i :: 0 <= i < |c.table| && c.table[i].destination == d
                && if c.table[i].internal in files then d in after.slots && after.slots[d] == Managed
                   else d !in after.slots
  }

  lemma ActivatedLinked(c: Config, d: Disk, id: Id)
    requires DistinctRows(c.table) && id in d.generations
    ensures Linked(c, d, Activated(c, d, id), FilesOf(d, id))
  {
    hide Applied;
    forall i | 0 <= i < |c.table| ensures
      var dest, s := c.table[i].destination, Activated(c, d, id).slots;
      (dest in s <==> c.table[i].internal in FilesOf(d, id)) && (dest in s ==> s[dest] == Managed)
    {
      AppliedAt(d.slots, c.table, FilesOf(d, id), |c.table|, i);
    }
    forall x | forall i :: 0 <= i < |c.table| ==> c.table[i].destination != x
      ensures SameAt(d.slots, Activated(c, d, id).slots, x)
    {
      AppliedElsewhere(d.slots, c.table, FilesOf(d, id), |c.table|, x);
    }
  }

  lemma CrashBetween(c: Config, before: Disk, d: Disk, id: Id)
    requires DistinctRows(c.table) && id in before.generations && CrashPoint(c, before, d, id)
    ensures Between(c, before, d, FilesOf(before, id))
  {
    ActivatedLinked(c, before, id);
    var end := Activated(c, before, id);
    hide Applied;
    forall x ensures SameAt(before.slots, d.slots, x) || Settled(c, d, FilesOf(before, id), x) {
      assert SameAt(before.slots, d.slots, x) || SameAt(end.slots, d.slots, x);
      if exists i :: 0 <= i < |c.table| && c.table[i].destination == x {
        var i :| 0 <= i < |c.table| && c.table[i].destination == x;
      } else {
        assert SameAt(before.slots, end.slots, x);
      }
    }
  }

  lemma Unchanged(c: Config, before: Disk, after: Disk, files: set<bytes>)
    requires before.slots == after.slots
    ensures Between(c, before, after, files)
  {
  }

  /** `activate` as a command. */
  method DoActivate(s: Store, id: Id, pid: nat, fault: Fault) returns (ok: bool)
    requires s.Valid()
    modifies s
    ensures s.Valid() && old(s.trace) <= s.trace && SafeTrace(s.config, s.trace, |old(s.trace)|)
    ensures ok ==> Activatable(s.config, old(s.disk), id) && s.disk == Activated(s.config, old(s.disk), id)
    ensures Free(old(s.disk), pid) ==>
      (ok <==> Activatable(s.config, old(s.disk), id)
               && !Hits(s.config.table, old(s.disk).slots, FilesOf(old(s.disk), id), fault))
    ensures s.disk.generations == old(s.disk).generations
    ensures id !in old(s.disk).generations ==> s.disk == old(s.disk)
    ensures id in old(s.disk).generations ==>
      && Between(s.config, old(s.disk), s.disk, FilesOf(old(s.disk), id))
      && (ok ==> Linked(s.config, old(s.disk), s.disk, FilesOf(old(s.disk), id)))
      && (s.disk.current == old(s.disk).current || s.disk.current == Some(Selected(id)))
  {
    hide Mixed, Applied, Verifies, SlotsOk, Between, Linked;
    if id in s.disk.generations { Unchanged(s.config, s.disk, s.disk, FilesOf(s.disk, id)); }
    ok := s.Activate(id, pid, fault);
    ChainAfter(s, |old(s.trace)|, old(s.disk));
    if Activatable(s.config, old(s.disk), id) {
      CrashSafe(s.config, s.trace, |old(s.trace)|, old(s.disk), id);
      CrashBetween(s.config, old(s.disk), s.disk, id);
      ActivatedLinked(s.config, old(s.disk), id);
    }
  }

  /** Where staging may fail: before the new generation gets its name, or after. */
  datatype Staging = Staged | FailsBefore | FailsAfter

  /** When `install_files` succeeds, for a process without leftovers. */
  ghost predicate Installable(c: Config, d: Disk, files: Files, expectedActive: Option<Id>, fault: Fault,
      staging: Staging)
  {
    var id := IdOf(files, c.hash);
    && Preflight(c, d)
    && (if id in d.generations then Verifies(d.generations[id], id, c.hash, c.known)
        else staging == Staged && files.Keys in c.known)
    && (expectedActive.Some? ==> d.current == Some(Selected(expectedActive.value)))
    && !Hits(c.table, d.slots, if id in d.generations then d.generations[id].manifest.Keys else files.Keys, fault)
  }

  /** The new generation, unless it is there: it appears whole, by one rename. */
  method StageFiles(s: Store, id: Id, files: Files, staging: Staging) returns (ok: bool)
    requires s.Valid() && id == IdOf(files, s.config.hash)
    modifies s
    ensures s.Valid() && old(s.trace) <= s.trace && SafeTrace(s.config, s.trace, |old(s.trace)|)
    ensures ok <==> id in old(s.disk).generations || staging == Staged
    ensures s.disk == if id in old(s.disk).generations || staging == FailsBefore then old(s.disk)
      else With(old(s.disk), id, Fresh(id, files, s.config.hash))
    ensures forall x :: x in old(s.disk).generations ==>
      x in s.disk.generations && s.disk.generations[x] == old(s.disk).generations[x]
  {
    hide Verifies, Lines, Encode;
    if id in s.disk.generations { return true; }
    if staging == FailsBefore { return false; }
    assert Whole(s.config, Fresh(id, files, s.config.hash), id);
    s.Set(With(s.disk, id, Fresh(id, files, s.config.hash)), None);
    ok := staging == Staged;
  }

  function With(d: Disk, id: Id, g: Generation): Disk { d.(generations := d.generations[id := g]) }

  lemma PreflightWith(c: Config, d: Disk, id: Id, g: Generation)
    requires Preflight(c, d) && id !in d.generations
    ensures Preflight(c, With(d, id, g))
  {
    hide Verifies, SlotsOk;
  }

  /** The files of the generation that these files have or get. */
  ghost function NamesOf(c: Config, d: Disk, files: Files): set<bytes>
  {
    var id := IdOf(files, c.hash);
    if id in d.generations then d.generations[id].manifest.Keys else files.Keys
  }

  /** What is said of a change is said of it from any disk with the same links. */
  lemma SameSlots(c: Config, a: Disk, b: Disk, files: set<bytes>)
    requires a.slots == b.slots
    ensures forall d :: (Between(c, a, d, files) <==> Between(c, b, d, files))
                        && (Linked(c, a, d, files) <==> Linked(c, b, d, files))
  {
  }

  /** `install_files`.  On success the active generation is the one of these files, and exactly its files are
      linked; on failure every destination is as it was or as it would be. */
  method InstallFiles(s: Store, files: Files, expectedActive: Option<Id>, pid: nat, fault: Fault, staging: Staging)
    returns (r: Option<Id>)
    requires s.Valid() && Digests(s.config.hash)
    modifies s
    ensures s.Valid() && old(s.trace) <= s.trace && SafeTrace(s.config, s.trace, |old(s.trace)|)
    ensures r.Some? ==>
      && r.value == IdOf(files, s.config.hash) && s.disk.current == Some(Selected(r.value))
      && Installed(s.config, s.disk, r.value)
      && (r.value !in old(s.disk).generations ==> s.disk.generations[r.value] == Fresh(r.value, files, s.config.hash))
    ensures forall id :: id in old(s.disk).generations ==>
      id in s.disk.generations && s.disk.generations[id] == old(s.disk).generations[id]
    ensures var id := IdOf(files, s.config.hash);
      && (s.disk.generations == old(s.disk).generations
          || (id !in old(s.disk).generations
              && s.disk.generations == old(s.disk).generations[id := Fresh(id, files, s.config.hash)]))
      && (s.disk.current == old(s.disk).current || s.disk.current == Some(Selected(id)))
    ensures Between(s.config, old(s.disk), s.disk, NamesOf(s.config, old(s.disk), files))
    ensures r.Some? ==> Linked(s.config, old(s.disk), s.disk, NamesOf(s.config, old(s.disk), files))
    ensures Free(old(s.disk), pid) ==>
      (r.Some? <==> Installable(s.config, old(s.disk), files, expectedActive, fault, staging))
  {
    hide Mixed, Applied, Verifies, SlotsOk, Lines, Encode, SafeTrace, Hits, Between, Linked;
    TraceEmpty(s.config, s.trace);
    var c := s.config;
    Unchanged(c, s.disk, s.disk, NamesOf(c, s.disk, files));
    var fine := s.PreflightLinks();
    if !fine { return None; }
    var id := ComputeIdentifier(files, c.hash);
    FreshVerifies(files, c.hash, c.known);
    assert Fresh(id, files, c.hash).manifest.Keys == files.Keys;
    var staged := StageFiles(s, id, files, staging);
    Unchanged(c, old(s.disk), s.disk, NamesOf(c, old(s.disk), files));
    if !staged { return None; }
    SameSlots(c, old(s.disk), s.disk, FilesOf(s.disk, id));
    if !(id in old(s.disk).generations) { PreflightWith(c, old(s.disk), id, Fresh(id, files, c.hash)); }
    ghost var mid := s.trace;
    var ok := ActivateStaged(s, id, expectedActive, pid, fault);
    SafeJoin(c, mid, s.trace, |old(s.trace)|);
    r := if ok then Some(id) else None;
  }

  /** The last steps of `install_files`: verify, compare the selector, activate. */
  method ActivateStaged(s: Store, id: Id, expectedActive: Option<Id>, pid: nat, fault: Fault) returns (ok: bool)
    requires s.Valid() && id in s.disk.generations && Preflight(s.config, s.disk)
    modifies s
    ensures s.Valid() && old(s.trace) <= s.trace && SafeTrace(s.config, s.trace, |old(s.trace)|)
    ensures s.disk.generations == old(s.disk).generations
    ensures ok ==> s.disk.current == Some(Selected(id)) && Installed(s.config, s.disk, id)
    ensures Between(s.config, old(s.disk), s.disk, FilesOf(old(s.disk), id))
    ensures ok ==> Linked(s.config, old(s.disk), s.disk, FilesOf(old(s.disk), id))
    ensures s.disk.current == old(s.disk).current || s.disk.current == Some(Selected(id))
    ensures Free(old(s.disk), pid) ==>
      (ok <==> Installed(s.config, old(s.disk), id)
               && (expectedActive.Some? ==> old(s.disk).current == Some(Selected(expectedActive.value)))
               && !Hits(s.config.table, old(s.disk).slots, FilesOf(old(s.disk), id), fault))
  {
    hide Mixed, Applied, Verifies, SlotsOk, SafeTrace, Hits, Between, Linked;
    TraceEmpty(s.config, s.trace);
    Unchanged(s.config, s.disk, s.disk, FilesOf(s.disk, id));
    var verified := VerifyGeneration(s.disk.generations[id], id, s.config.hash, s.config.known);
    if !verified || (expectedActive.Some? && s.disk.current != Some(Selected(expectedActive.value))) { return false; }
    ok := DoActivate(s, id, pid, fault);
  }

  /** Nothing of the deployment is active any more, and everything else is as it was. */
  ghost predicate Uninstalled(c: Config, before: Disk, after: Disk)
  {
    && after.current == None && after.generations == before.generations
    && (forall i :: 0 <= i < |c.table| ==> c.table[i].destination !in after.slots)
    && (forall d :: !Listed(c.table, |c.table|, d) ==> SameAt(before.slots, after.slots, d))
  }

  /** Before this step there is nothing left to fail. */
  function LastStep(c: Config, d: Disk): nat { |c.table| + if d.current.Some? then 1 else 0 }

  /** `uninstall`: takes the managed links and the selector away and keeps every generation.  `failAt` is the row
      before which something fails; the selector and the sync after it come last.  Whatever fails, the preflight
      passes again, so that the command can be repeated. */
  method Uninstall(s: Store, apply: bool, failAt: Option<nat>) returns (ok: bool)
    requires s.Valid()
    modifies s
    ensures s.Valid() && old(s.trace) <= s.trace && SafeTrace(s.config, s.trace, |old(s.trace)|)
    ensures s.disk.generations == old(s.disk).generations
    ensures ok
      <==> Preflight(s.config, old(s.disk))
           && (apply && failAt.Some? ==> failAt.value > LastStep(s.config, old(s.disk)))
    ensures !apply || !Preflight(s.config, old(s.disk)) ==> s.disk == old(s.disk)
    ensures apply && ok ==> Uninstalled(s.config, old(s.disk), s.disk)
    ensures forall d :: !Listed(s.config.table, |s.config.table|, d) ==> SameAt(old(s.disk).slots, s.disk.slots, d)
    ensures Preflight(s.config, s.disk) <==> Preflight(s.config, old(s.disk))
  {
    hide Verifies, SafeTrace, RowsGone;
    TraceEmpty(s.config, s.trace);
    ok := s.PreflightLinks();
    if !ok || !apply { return; }
    var table := s.config.table;
    var i := 0;
    GoneNone(s.config, s.disk);
    while i < |table|
      invariant 0 <= i <= |table| && s.Valid() && old(s.trace) <= s.trace
      invariant SafeTrace(s.config, s.trace, |old(s.trace)|)
      invariant RowsGone(s.config, old(s.disk), s.disk, i)
      invariant failAt.Some? ==> failAt.value >= i
    {
      GoneFacts(s.config, old(s.disk), s.disk, i);
      GoneNext(s.config, old(s.disk), s.disk, i);
      if failAt == Some(i) { return false; }
      if table[i].destination in s.disk.slots {
        var next := s.disk.(slots := s.disk.slots - {table[i].destination});
        LinksSafe(s.config, s.trace, |old(s.trace)|, s.disk, next);
        s.Set(next, None);
      }
      i := i + 1;
    }
    GoneFacts(s.config, old(s.disk), s.disk, i);
    if failAt == Some(i) { return false; }
    if s.disk.current.Some? {
      LinksSafe(s.config, s.trace, |old(s.trace)|, s.disk, s.disk.(current := None));
      s.Set(s.disk.(current := None), None);
      if failAt == Some(i + 1) { return false; }
    }
    ok := true;
  }

  /** The first `i` managed links are gone and nothing else is. */
  ghost predicate RowsGone(c: Config, before: Disk, d: Disk, i: nat)
    requires i <= |c.table|
  {
    && d == before.(slots := d.slots) && Preflight(c, before) && SlotsOk(c.table, d.slots)
    && (forall j :: 0 <= j < i ==> c.table[j].destination !in d.slots)
    && (forall x :: !Listed(c.table, |c.table|, x) ==> SameAt(before.slots, d.slots, x))
  }

  lemma GoneNone(c: Config, d: Disk)
    requires Preflight(c, d)
    ensures RowsGone(c, d, d, 0)
  {
  }

  lemma GoneNext(c: Config, before: Disk, d: Disk, i: nat)
    requires i < |c.table| && RowsGone(c, before, d, i)
    ensures var dest := c.table[i].destination;
      RowsGone(c, before, if dest in d.slots then d.(slots := d.slots - {dest}) else d, i + 1)
  {
    hide SelectorOk;
    assert Listed(c.table, |c.table|, c.table[i].destination);
  }

  lemma GoneFacts(c: Config, before: Disk, d: Disk, i: nat)
    requires i <= |c.table| && RowsGone(c, before, d, i)
    ensures d == before.(slots := d.slots) && Preflight(c, d) && Preflight(c, d.(current := None))
    ensures forall x :: !Listed(c.table, |c.table|, x) ==> SameAt(before.slots, d.slots, x)
    ensures i == |c.table| ==> Uninstalled(c, before, d.(current := None))
  {
    hide Verifies;
  }

  /** Changes of links, and taking the selector away, touch no generation. */
  lemma LinksSafe(c: Config, trace: seq<Change>, from: nat, d: Disk, next: Disk)
    requires SafeTrace(c, trace, from) && next.generations == d.generations
    requires next.current == d.current || next.current == None
    ensures SafeTrace(c, trace + [Change(d, next, None)], from)
  {
    hide Verifies;
  }

  /** However many attempts failed, wherever each of them did, repeating the command leaves the same disk as one
      attempt that does not fail. */
  method UninstallRepeated(s: Store, failures: seq<nat>) returns (ok: bool)
    requires s.Valid()
    modifies s
    ensures s.Valid() && old(s.trace) <= s.trace && SafeTrace(s.config, s.trace, |old(s.trace)|)
    ensures ok <==> Preflight(s.config, old(s.disk))
    ensures ok ==> Uninstalled(s.config, old(s.disk), s.disk)
  {
    hide Verifies, SafeTrace, Preflight;
    TraceEmpty(s.config, s.trace);
    for i := 0 to |failures|
      invariant s.Valid() && old(s.trace) <= s.trace && SafeTrace(s.config, s.trace, |old(s.trace)|)
      invariant Preflight(s.config, s.disk) <==> Preflight(s.config, old(s.disk))
      invariant s.disk.generations == old(s.disk).generations
      invariant forall d :: !Listed(s.config.table, |s.config.table|, d) ==> SameAt(old(s.disk).slots, s.disk.slots, d)
    {
      ghost var mid := s.trace;
      var _ := Uninstall(s, true, Some(failures[i]));
      SafeJoin(s.config, mid, s.trace, |old(s.trace)|);
    }
    ghost var mid := s.trace;
    ok := Uninstall(s, true, None);
    SafeJoin(s.config, mid, s.trace, |old(s.trace)|);
  }

  /** `remove_deployment`: only a verifying generation that is not selected.  A recursive removal may be
      interrupted with any of the files gone. */
  method RemoveDeployment(s: Store, id: Id, apply: bool, interrupted: bool) returns (ok: bool)
    requires s.Valid()
    modifies s
    ensures s.Valid() && old(s.trace) <= s.trace && SafeTrace(s.config, s.trace, |old(s.trace)|)
    ensures s.disk.current == old(s.disk).current && s.disk.slots == old(s.disk).slots
    ensures !apply || !Installed(s.config, old(s.disk), id) || old(s.disk).current == Some(Selected(id)) ==>
      s.disk == old(s.disk)
    ensures ok
      <==> Installed(s.config, old(s.disk), id) && old(s.disk).current != Some(Selected(id)) && !(apply && interrupted)
    ensures apply && Installed(s.config, old(s.disk), id) && old(s.disk).current != Some(Selected(id)) ==>
      && |s.trace| == |old(s.trace)| + (if interrupted then 1 else 2)
      && id in s.trace[|old(s.trace)|].after.generations
    ensures apply && ok ==> s.disk == old(s.disk).(generations := old(s.disk).generations - {id})
    ensures forall other :: other != id && other in old(s.disk).generations ==>
      other in s.disk.generations && s.disk.generations[other] == old(s.disk).generations[other]
  {
    hide Verifies;
    if id !in s.disk.generations { return false; }
    var g := s.disk.generations[id];
    var verified := VerifyGeneration(g, id, s.config.hash, s.config.known);
    if !verified || s.disk.current == Some(Selected(id)) { return false; }
    if !apply { return true; }
    var gone: set<bytes> := *;
    var bare: bool := *;
    var partial := g.(files := g.files - gone, manifest := if bare then map[] else g.manifest);
    s.Set(s.disk.(generations := s.disk.generations[id := partial]), Some(id));
    if interrupted { return false; }
    s.Set(s.disk.(generations := s.disk.generations - {id}), Some(id));
    assert s.disk.generations == old(s.disk).generations - {id};
    ok := true;
  }

  // ---------------------------------------------------------------- the storage-size update

  const ENV_NAME: bytes := [114, 117, 110, 116, 105, 109, 101, 46, 101, 110, 118]  // "runtime.env"

  /** UTF-8: `decode` fails on other bytes, and reads back what `encode` wrote. */
  datatype Codec = Codec(decode: bytes -> Option<string>, encode: string -> bytes)

  ghost predicate GoodCodec(u: Codec)
  {
    forall t :: u.decode(u.encode(t)) == Some(t)
  }

  /** `after` is `before` with exactly the storage size replaced. */
  ghost predicate Resized(before: string, after: string, oldBytes: nat, newBytes: nat, nd: E.Digits)
  {
    && E.Accepts(before, nd) && E.Accepts(after, nd) && |E.Matches(before)| == 1
    && E.IntOf(E.Parse(E.Lines(before)).value[E.STORAGE], nd) == Some(oldBytes)
    && after == E.Splice(before, E.Matches(before)[0], E.Decimal(newBytes))
    && E.Parse(E.Lines(after)).value == E.Parse(E.Lines(before)).value[E.STORAGE := E.Decimal(newBytes)]
  }

  lemma AcceptsStorage(t: string, nd: E.Digits)
    requires E.Accepts(t, nd)
    ensures E.Parse(E.Lines(t)).Some? && E.STORAGE in E.Parse(E.Lines(t)).value
  {
    hide E.Parse, E.Lines;
    E.StorageKey();
  }

  lemma SpliceIs(t: string, m: E.Match, digits: string)
    requires m.start <= m.end <= |t|
    ensures E.Splice(t, m, digits) == t[..m.start] + digits + t[m.end..]
  {
  }

  /** The edit of `update_storage_size`: refused unless the text validates and its one match is the
      expected size; the re-validation of the edited text never refuses. */
  method ResizeText(t: string, oldBytes: nat, newBytes: nat, nd: E.Digits) returns (r: Option<string>)
    requires E.DigitTable(nd) && E.SizeOk(newBytes)
    ensures r.Some? <==> Resizable(t, oldBytes, nd)
    ensures r.Some? ==> Resized(t, r.value, oldBytes, newBytes, nd)
  {
    hide E.Accepts, E.Matches, E.Parse, E.Lines, E.IntOf, E.DigitTable, E.SizeOk, E.Decimal, E.Splice;
    var valid := E.ValidateEnvironment(t, nd);
    if !valid { return None; }
    var ms := E.Matches(t);
    if |ms| != 1 || E.IntOf(t[ms[0].start..ms[0].end], nd) != Some(oldBytes) { return None; }
    AcceptsStorage(t, nd);
    E.UpdateIsSound(t, newBytes, nd);
    var u := t[..ms[0].start] + E.Decimal(newBytes) + t[ms[0].end..];
    SpliceIs(t, ms[0], E.Decimal(newBytes));
    AcceptsStorage(u, nd);
    var again := E.ValidateEnvironment(u, nd);
    assert again;
    r := Some(u);
  }

  /** The files whose digest is not the manifest's. */
  function ChangedFiles(files: Files, manifest: Files, hash: Hash): set<bytes>
    requires manifest.Keys <= files.Keys
  {
    set n | n in manifest && hash(files[n]) != manifest[n]
  }

  /** The size in the text is the expected one and can be found. */
  ghost predicate Resizable(t: string, oldBytes: nat, nd: E.Digits)
  {
    E.Accepts(t, nd) && |E.Matches(t)| == 1
      && E.IntOf(t[E.Matches(t)[0].start..E.Matches(t)[0].end], nd) == Some(oldBytes)
  }

  /** The files of the active generation with the environment edited, as far as that can be done. */
  ghost function EditedFiles(d: Disk, u: Codec, newBytes: nat): Option<Files>
  {
    if d.current.None? || d.current.value.Unmanaged? || d.current.value.id !in d.generations then None else
    var files := Manifested(d.generations[d.current.value.id]);
    if ENV_NAME !in files || u.decode(files[ENV_NAME]).None? then None else
    var text := u.decode(files[ENV_NAME]).value;
    if |E.Matches(text)| != 1 then None else
    Some(files[ENV_NAME := u.encode(E.Splice(text, E.Matches(text)[0], E.Decimal(newBytes)))])
  }

  /** When `update_storage_size` gets as far as the installation. */
  ghost predicate Editable(c: Config, d: Disk, u: Codec, nd: E.Digits, oldBytes: nat, newBytes: nat)
  {
    && 0 < oldBytes < newBytes <= 0x8000_0000_0000_0000 && oldBytes % 512 == 0 && newBytes % 512 == 0
    && Preflight(c, d) && d.current.Some?
    && var files := Manifested(d.generations[d.current.value.id]);
       && ENV_NAME in files && u.decode(files[ENV_NAME]).Some?
       && Resizable(u.decode(files[ENV_NAME]).value, oldBytes, nd)
       && EditedFiles(d, u, newBytes).Some?
       && c.hash(EditedFiles(d, u, newBytes).value[ENV_NAME]) != c.hash(files[ENV_NAME])
  }

  /** When `update_storage_size` succeeds, for a process without leftovers. */
  ghost predicate Updatable(c: Config, d: Disk, u: Codec, nd: E.Digits, oldBytes: nat, newBytes: nat, fault: Fault,
      staging: Staging)
  {
    && Editable(c, d, u, nd, oldBytes, newBytes)
    && Installable(c, d, EditedFiles(d, u, newBytes).value, Some(d.current.value.id), fault, staging)
  }

  /** The part of `update_storage_size` before the installation: the files to install. */
  method EditActive(s: Store, u: Codec, nd: E.Digits, oldBytes: nat, newBytes: nat) returns (r: Option<Files>)
    requires s.Valid() && E.DigitTable(nd) && GoodCodec(u)
    ensures r.Some? <==> Editable(s.config, s.disk, u, nd, oldBytes, newBytes)
    ensures r.Some? ==>
      && r == EditedFiles(s.disk, u, newBytes)
      && s.disk.current.Some? && s.disk.current.value.Selected?
      && Installed(s.config, s.disk, s.disk.current.value.id)
      && var files := Manifested(s.disk.generations[s.disk.current.value.id]);
         && ENV_NAME in files && u.decode(files[ENV_NAME]).Some?
         && var text := u.decode(files[ENV_NAME]).value;
            && |E.Matches(text)| == 1
            && var edited := E.Splice(text, E.Matches(text)[0], E.Decimal(newBytes));
               && Resized(text, edited, oldBytes, newBytes, nd)
               && r.value == files[ENV_NAME := u.encode(edited)]
  {
    hide SlotsOk, Lines, Encode, E.Accepts, E.Matches, E.Parse, E.Lines, E.IntOf, E.DigitTable, E.Decimal, E.Splice;
    if !(0 < oldBytes < newBytes <= 0x8000_0000_0000_0000) || oldBytes % 512 != 0 || newBytes % 512 != 0 {
      return None;
    }
    var fine := s.PreflightLinks();
    if !fine || s.disk.current.None? { return None; }
    var g := s.disk.generations[s.disk.current.value.id];
    var files := Manifested(g);
    var name: bytes := [0x72, 0x75, 0x6E, 0x74, 0x69, 0x6D, 0x65, 0x2E, 0x65, 0x6E, 0x76];  // "runtime.env"
    assert name == ENV_NAME;
    if name !in files { return None; }
    var text := u.decode(files[name]);
    if text.None? { return None; }
    var edited := ResizeText(text.value, oldBytes, newBytes, nd);
    if edited.None? { return None; }
    var changed := files[name := u.encode(edited.value)];
    OnlyEnvironmentChanges(s.config, g, s.disk.current.value.id, changed[ENV_NAME]);
    if ChangedFiles(changed, g.manifest, s.config.hash) != {name} { return None; }
    r := Some(changed);
  }

  /** `update_storage_size`.  A result means that the active generation was replaced by one whose files
      differ in the environment only, and there in the one value. */
  method UpdateStorageSize(s: Store, u: Codec, nd: E.Digits, oldBytes: nat, newBytes: nat, pid: nat, fault: Fault,
      staging: Staging)
    returns (r: Option<Id>)
    requires s.Valid() && Digests(s.config.hash) && E.DigitTable(nd) && GoodCodec(u)
    modifies s
    ensures s.Valid() && old(s.trace) <= s.trace && SafeTrace(s.config, s.trace, |old(s.trace)|)
    ensures r.Some? ==>
      && 0 < oldBytes < newBytes && old(s.disk).current.Some? && old(s.disk).current.value.Selected?
      && Installed(s.config, old(s.disk), old(s.disk).current.value.id)
      && var files := Manifested(old(s.disk).generations[old(s.disk).current.value.id]);
         && ENV_NAME in files && u.decode(files[ENV_NAME]).Some?
         && var text := u.decode(files[ENV_NAME]).value;
            && |E.Matches(text)| == 1
            && var edited := E.Splice(text, E.Matches(text)[0], E.Decimal(newBytes));
               && Resized(text, edited, oldBytes, newBytes, nd)
               && r.value == IdOf(files[ENV_NAME := u.encode(edited)], s.config.hash)
               && s.disk.current == Some(Selected(r.value)) && Installed(s.config, s.disk, r.value)
    ensures !Editable(s.config, old(s.disk), u, nd, oldBytes, newBytes) ==> r.None? && s.disk == old(s.disk)
    ensures Editable(s.config, old(s.disk), u, nd, oldBytes, newBytes) ==>
      var names := NamesOf(s.config, old(s.disk), EditedFiles(old(s.disk), u, newBytes).value);
      && Between(s.config, old(s.disk), s.disk, names)
      && (r.Some? ==> Linked(s.config, old(s.disk), s.disk, names))
    ensures Free(old(s.disk), pid) ==>
      (r.Some? <==> Updatable(s.config, old(s.disk), u, nd, oldBytes, newBytes, fault, staging))
  {
    hide Mixed, Applied, SlotsOk, Lines, Encode, E.Accepts, E.Matches, E.Parse, E.Lines, E.IntOf, E.DigitTable,
         E.Decimal, E.Splice, SafeTrace, Between, Linked, NamesOf, Resized, Verifies, Installable, EditedFiles,
           Resizable;
    TraceEmpty(s.config, s.trace);
    var edited := EditActive(s, u, nd, oldBytes, newBytes);
    if edited.None? { return None; }
    r := InstallFiles(s, edited.value, Some(s.disk.current.value.id), pid, fault, staging);
  }

  lemma TraceEmpty(c: Config, trace: seq<Change>)
    ensures SafeTrace(c, trace, |trace|)
  {
  }

  /** Of the files compared only the edited one can have changed: the others were just verified. */
  lemma OnlyEnvironmentChanges(c: Config, g: Generation, id: Id, env: bytes)
    requires Verifies(g, id, c.hash, c.known) && ENV_NAME in g.manifest
    ensures ChangedFiles(Manifested(g)[ENV_NAME := env], g.manifest, c.hash)
            == if c.hash(env) != c.hash(g.files[ENV_NAME]) then {ENV_NAME} else {}
  {
  }

  // ---------------------------------------------------------------- runs

  datatype Op =
    | OpInstall(files: Files, pid: nat, fault: Fault, staging: Staging)
    | OpActivate(id: Id, pid: nat, fault: Fault)
    | OpUpdate(oldBytes: nat, newBytes: nat, pid: nat, fault: Fault, staging: Staging)
    | OpUninstall(apply: bool, failAt: Option<nat>)
    | OpRemove(id: Id, apply: bool, interrupted: bool)

  /** Any run of commands from an empty root, each of which may fail anywhere. */
  method Run(config: Config, u: Codec, nd: E.Digits, ops: seq<Op>) returns (s: Store)
    requires DistinctRows(config.table) && Digests(config.hash) && E.DigitTable(nd) && GoodCodec(u)
    ensures fresh(s) && s.Valid() && s.config == config && s.origin == EMPTY_DISK
    ensures Chained(s.trace) && SafeTrace(config, s.trace, 0) && SelectorOk(config, s.disk)
    ensures forall k :: 0 <= k < |s.trace| ==> SelectorOk(config, s.trace[k].after)
  {
    hide SafeChange, Verifies, Activatable;
    s := new Store(config, EMPTY_DISK);
    var i := 0;
    while i < |ops|
      invariant 0 <= i <= |ops| && fresh(s) && s.Valid() && s.config == config && s.origin == EMPTY_DISK
      invariant SafeTrace(config, s.trace, 0)
    {
      ghost var mid := s.trace;
      match ops[i] {
        case OpInstall(files, pid, fault, staging) => var _ := InstallFiles(s, files, None, pid, fault, staging);
        case OpActivate(id, pid, fault) => var _ := DoActivate(s, id, pid, fault);
        case OpUpdate(a, b, pid, fault, staging) => var _ := UpdateStorageSize(s, u, nd, a, b, pid, fault, staging);
        case OpUninstall(apply, failAt) => var _ := Uninstall(s, apply, failAt);
        case OpRemove(id, apply, interrupted) => var _ := RemoveDeployment(s, id, apply, interrupted);
      }
      SafeJoin(config, mid, s.trace, 0);
      i := i + 1;
    }
    forall k | 0 <= k < |s.trace| ensures SelectorOk(config, s.trace[k].after) {
      RunSound(config, s.trace, k);
    }
  }
}
