/**
 The two builders that publish a pair of outputs: archive and manifest
 (`build-runtime-rootfs.py`), image and metadata (`build-runtime-storage.py`).
 */
module Builds {
  import opened Options
  import opened Bytes
  import opened Publication
  import Storage
  import Tree

  datatype Pair = Both(first: Ino, second: Ino) | Neither

  /** Nobody interferes, and either nothing fails, or one primitive does and the second output is new or the
      first one is there already. */
  ghost predicate CalmFor(w: World, first: string, second: string)
    reads w
  {
    Settled(w) && (w.faults == 0 || Public(first) in w.names || Public(second) !in w.names)
  }

  /** Nobody interferes and at most one primitive fails. */
  ghost predicate Settled(w: World)
    reads w
  {
    !w.disturbed && w.faults <= 1
  }

  /** The two-output publication of the rootfs builder's `main`.  The promise that with one failure both or
      neither output is there holds under `CalmFor`.  Otherwise the archive alone may be left, if the second
      output existed and the failure met the removal of the first. */
  method BuildRootfs(w: World, output: string, manifest: string, temporaries: (string, string))
    returns (r: Pair, ghost own: set<Ino>)
    requires w.Valid() && output != manifest
    requires temporaries.0 !in {output, manifest} && temporaries.1 !in {output, manifest, temporaries.0}
    modifies w
    ensures w.Valid()
    ensures forall i :: i in own ==> old(w.nextIno) <= i
    ensures old(w.log) <= w.log && SafeSince(w.log, |old(w.log)|, own)
    ensures r.Both? ==> SawSince(w.log, |old(w.log)|, Public(output), r.first)
    ensures r.Both? ==> SawSince(w.log, |old(w.log)|, Public(manifest), r.second)
    ensures old(Settled(w) && PrivateFree(w, temporaries)) && r.Both? ==>
      && Public(output) !in old(w.names) && Public(manifest) !in old(w.names)
      && w.names == old(w.names)[Public(output) := r.first][Public(manifest) := r.second]
    ensures old(Settled(w) && PrivateFree(w, temporaries)) && r.Neither? ==>
      && AgreeAt(old(w.names), w.names, Public(manifest))
      && (AgreeAt(old(w.names), w.names, Public(output))
          || (!old(CalmFor(w, output, manifest)) && Public(output) in w.names && w.names[Public(output)] in own
              && w.faults < old(w.faults)))
    ensures old(Settled(w) && PrivateFree(w, temporaries) && CalmFor(w, output, manifest)) && w.Gentle()
            && r.Neither? ==>
      w.names == old(w.names) && w.free == old(w.free)
    ensures r.Both? ==> Synced(w.log) && DidSince(w.log, |old(w.log)|, Write) && w.faults == old(w.faults)
    ensures old(Settled(w) && PrivateFree(w, temporaries) && w.faults == 0 && BothFree(w, output, manifest)) ==> r.Both?
    ensures old(Settled(w) && PrivateFree(w, temporaries) && !CalmFor(w, output, manifest)) && w.Sticks(output) ==>
      r.Neither? && Public(output) in w.names && w.names[Public(output)] in own
  {
    hide SafeChange, MayBecome, Known, World.Sticks, SawSince;
    ghost var start := w.log;
    var archive, own1 := w.AtomicWrite(output, temporaries.0);
    own := own1;
    if archive.Refused? { return Neither, own; }
    ghost var mid, midNext := w.log, w.nextIno;
    var second, own2 := w.AtomicWrite(manifest, temporaries.1);
    ghost var late := w.log;
    SawStill(mid, late, |start|, |start|, Public(output), archive.ino);
    DidStill(mid, late, |start|, |start|, Write);
    if !w.disturbed && Public(output) !in old(w.names) {
      w.NewAlone(old(w.names), old(w.nextIno), output, archive.ino);
    }
    if second.Published? { SawStill(late, late, |mid|, |start|, Public(manifest), second.ino); }
    own := own1 + own2;
    SafeWider(mid, |start|, own1, own);
    SafeWider(late, |mid|, own2, own);
    SafeLater(mid, late, |start|, own);
    if second.Refused? {
      var removed := w.RemoveIfIdentity(output, archive.ino);
      SafeWider(w.log, |late|, {archive.ino}, own);
      SafeLater(late, w.log, |start|, own);
      return Neither, own;
    }
    r := Both(archive.ino, second.ino);
  }

  ghost predicate PrivateFree(w: World, temporaries: (string, string))
    reads w
  {
    Public(temporaries.0) !in w.names && Public(temporaries.1) !in w.names
  }

  ghost predicate BothFree(w: World, first: string, second: string)
    reads w
  {
    Public(first) !in w.names && Public(second) !in w.names
  }

  /** Such a run: a manifest is there, the archive is not, and the rename that would take the published
      archive back fails. */
  method ArchiveLeft() returns (w: World, r: Pair)
    ensures fresh(w) && r == Neither && Public("archive") in w.names && Public("manifest") in w.names
  {
    var fails := (k: nat, s: Step) => s.Renaming? && s.source == Public("archive");
    w := new World(map[Public("manifest") := 0], 1, false, 1, fails, k => Nothing, k => 0, 100);
    assert w.Sticks("archive");
    ghost var own;
    r, own := BuildRootfs(w, "archive", "manifest", ("t", "u"));
  }

  // ---------------------------------------------------------------- storage

  /** What the body of `_build_held` leaves for its cleanup. */
  datatype Held = Held(completed: bool, staged: bool, temporary: Option<Ino>, output: Option<Ino>,
      metadata: Option<Ino>)

  datatype Paths = Paths(output: string, metadata: string, staging: string, image: string, record: string)

  predicate Distinct(p: Paths)
  {
    && p.metadata != p.output
    && p.staging !in {p.output, p.metadata}
    && p.image !in {p.output, p.metadata, p.staging}
    && p.record !in {p.output, p.metadata, p.staging, p.image}
  }

  ghost predicate Calm(w: World, p: Paths)
    reads w
  {
    && !w.disturbed && w.faults <= 1
    && Public(p.staging) !in w.names && Public(p.image) !in w.names && Public(p.record) !in w.names
  }

  /** From the staging directory to the published image: the staged root, its clone of `imported` inodes, the
      second admission, the image and the scratch file of the time normalization. */
  method BuildImage(w: World, p: Paths, staging: Ino, imported: nat, reserve: nat)
      returns (h: Held, ghost own: set<Ino>)
    requires w.Valid() && staging < w.nextIno && Distinct(p) && staging !in w.inside
    modifies w
    ensures w.Valid() && w.nextIno >= old(w.nextIno) && w.faults <= old(w.faults)
    ensures staging in own && forall i :: i in own ==> i == staging || old(w.nextIno) <= i
    ensures old(w.log) <= w.log && SafeSince(w.log, |old(w.log)|, own)
    ensures HeldBy(h, own, w.nextIno) && !h.completed && h.staged && h.metadata.None?
    ensures h.output.Some? ==> SawSince(w.log, |old(w.log)|, Public(p.output), h.output.value)
    ensures h.output.Some? ==> Prepared(w.log, |old(w.log)|) && w.faults == old(w.faults)
    ensures w.Spent(old(w.free), old(w.low), imported + 3)
    ensures !w.disturbed ==> w.free >= old(w.free) - imported - 2
    ensures NewlyHeld(w, h, staging, old(w.nextIno))
    ensures Undisturbed(w, p, staging, old(w.names), old(w.faults)) ==>
      && Removable(w, p, h)
      && (h.output.None? ==> w.faults < old(w.faults) || old(w.free) < reserve + imported + 3)
      && (h.output.Some? ==>
            && w.faults == old(w.faults) && w.names == old(w.names)[Public(p.output) := h.output.value]
            && h.output.value != staging && old(w.nextIno) <= h.output.value
            && w.free == old(w.free) - imported - 2 && w.low == Min(old(w.low), old(w.free) - imported - 3)
            && staging in w.inside && w.inside[staging] == imported + 1)
    ensures Undisturbed(w, p, staging, old(w.names), old(w.faults)) && w.Gentle() ==>
      Left(w.names, w.free, w.Weight(staging), p, staging, h, old(w.names) - {Public(p.staging)}, old(w.free) + 1)
  {
    hide SafeChange, MayBecome, Known, SafeSince, SawSince, Prepared, Left;
    h, own := Held(false, true, None, None, None), {staging};
    SafeIdle(w.log, |w.log|, own);
    var staged := Stage(w, staging, imported, reserve);
    SafeIdle(w.log, |old(w.log)|, own);
    if Undisturbed(w, p, staging, old(w.names), old(w.faults)) {
      LeftStart(w.names, w.free, w.Weight(staging), p, staging, old(w.free) + 1);
    }
    if !staged { return; }
    ghost var start := w.log;
    var temporary, output, own1 := MakeImage(w, p, staging);
    own := own1;
    SafeIdle(start, |old(w.log)|, own);
    SafeLater(start, w.log, |old(w.log)|, own);
    h := h.(temporary := temporary, output := output);
    if output.Some? {
      SawStill(w.log, w.log, |start|, |old(w.log)|, Public(p.output), output.value);
      PreparedAll(start, w.log, |old(w.log)|);
    }
    if Undisturbed(w, p, staging, old(w.names), old(w.faults)) && w.Gentle() {
      LeftImage(old(w.names), w.names, w.free, w.Weight(staging), p, staging, temporary, output, old(w.free) + 1);
    }
  }

  /** The clone's times were normalized, and the image was formatted, stamped and checked. */
  ghost predicate Prepared(log: seq<Event>, from: nat)
  {
    DidSince(log, from, Normalize) && Imaged(log, from)
  }

  ghost predicate Imaged(log: seq<Event>, from: nat)
  {
    DidSince(log, from, Task.Format) && DidSince(log, from, Stamp) && DidSince(log, from, Check)
  }

  lemma PreparedAll(earlier: seq<Event>, later: seq<Event>, from: nat)
    requires earlier <= later && from <= |earlier| && DidSince(earlier, from, Normalize) && Imaged(later, |earlier|)
    ensures Prepared(later, from)
  {
    DidStill(earlier, later, from, from, Normalize);
    ImagedStill(later, later, |earlier|, from);
  }

  lemma ImagedStill(earlier: seq<Event>, later: seq<Event>, from: nat, since: nat)
    requires earlier <= later && since <= from && Imaged(earlier, from)
    ensures Imaged(later, since)
  {
    DidStill(earlier, later, from, since, Task.Format);
    DidStill(earlier, later, from, since, Stamp);
    DidStill(earlier, later, from, since, Check);
  }

  lemma PreparedStill(earlier: seq<Event>, later: seq<Event>, from: nat, since: nat)
    requires earlier <= later && since <= from && Prepared(earlier, from)
    ensures Prepared(later, since)
  {
    DidStill(earlier, later, from, since, Normalize);
    ImagedStill(earlier, later, from, since);
  }

  /** The staged root and its clone, and the admission after them. */
  method Stage(w: World, staging: Ino, imported: nat, reserve: nat) returns (ok: bool)
    requires w.Valid() && staging < w.nextIno && staging !in w.inside
    modifies w
    ensures w.Valid() && w.nextIno >= old(w.nextIno) && w.faults <= old(w.faults)
    ensures old(w.log) <= w.log && Idle(w.log, |old(w.log)|) && (ok ==> DidSince(w.log, |old(w.log)|, Normalize))
    ensures !w.disturbed ==> w.names == old(w.names) && w.nextIno == old(w.nextIno)
    ensures w.inside.Keys <= old(w.inside).Keys + {staging}
    ensures w.Spent(old(w.free), old(w.low), imported + 1)
    ensures !w.disturbed ==> w.free + w.Weight(staging) == old(w.free) + 1
    ensures ok ==> w.faults == old(w.faults) && staging in w.inside && w.inside[staging] == imported + 1
    ensures !w.disturbed && ok ==> w.free == old(w.free) - imported - 1 >= reserve + 2
    ensures !w.disturbed && !ok ==> w.faults < old(w.faults) || old(w.free) < reserve + imported + 3
  {
    hide SafeChange, MayBecome, Known;
    var made := w.Fill(staging, 1);
    if made.Failed? { return false; }
    var copied := w.Fill(staging, imported);
    if copied.Failed? { return false; }
    var normalized := w.Work(Normalize);
    if normalized.Failed? { return false; }
    assert w.log[|old(w.log)|] == Did(Normalize);
    ok := w.free >= reserve + 2;
  }

  /** The temporary image, formatted, checked and published.  From here on the build takes at most two more
      inodes at a time. */
  method MakeImage(w: World, p: Paths, staging: Ino)
    returns (temporary: Option<Ino>, output: Option<Ino>, ghost own: set<Ino>)
    requires w.Valid() && staging < w.nextIno && Distinct(p)
    modifies w
    ensures w.Valid() && w.nextIno >= old(w.nextIno) && w.faults <= old(w.faults)
    ensures staging in own && forall i :: i in own ==> i == staging || old(w.nextIno) <= i
    ensures old(w.log) <= w.log && SafeSince(w.log, |old(w.log)|, own)
    ensures HeldBy(Held(false, true, temporary, output, None), own, w.nextIno)
    ensures temporary.Some? ==> temporary.value >= old(w.nextIno)
    ensures output.Some? ==> output == temporary
    ensures output.Some? ==> SawSince(w.log, |old(w.log)|, Public(p.output), output.value)
    ensures output.Some? ==> Imaged(w.log, |old(w.log)|) && w.faults == old(w.faults)
    ensures output.Some? ==> SawSince(w.log, |old(w.log)|, Public(p.image), output.value)
    ensures w.inside == old(w.inside) && w.Spent(old(w.free), old(w.low), 2)
    ensures !w.disturbed ==> w.free >= old(w.free) - 1
    ensures Undisturbed(w, p, staging, old(w.names), old(w.faults)) ==>
      && Removable(w, p, Held(false, true, temporary, output, None))
      && (output.None? ==> w.faults < old(w.faults))
      && (output.Some? ==>
            && w.faults == old(w.faults) && w.names == old(w.names)[Public(p.output) := output.value]
            && old(w.nextIno) <= output.value
            && w.free == old(w.free) - 1 && w.low == Min(old(w.low), old(w.free) - 2))
    ensures Undisturbed(w, p, staging, old(w.names), old(w.faults)) && w.Gentle() && output.None? ==>
      || (w.names == old(w.names) && w.free == old(w.free))
      || (temporary.Some? && w.names == old(w.names)[Public(p.image) := temporary.value] && w.free == old(w.free) - 1)
  {
    hide SafeChange, MayBecome, Known, SafeSince, SawSince, Imaged;
    ghost var start := w.log;
    output, own := None, {staging};
    ghost var made;
    var ready;
    temporary, ready, made := Format(w, p);
    own := own + made;
    SafeWider(w.log, |start|, {}, own);
    if !ready { return; }
    ghost var mid := w.log;
    if !w.disturbed && Public(p.image) !in old(w.names) {
      w.NewAlone(old(w.names), old(w.nextIno), p.image, temporary.value);
    }
    var published := w.PublishExisting(p.image, p.output, temporary.value);
    SafeWider(w.log, |mid|, {temporary.value}, own);
    SafeLater(mid, w.log, |start|, own);
    if published.Published? {
      output := Some(published.ino);
      SawStill(w.log, w.log, |mid|, |start|, Public(p.output), published.ino);
      SawStill(mid, w.log, |start|, |start|, Public(p.image), published.ino);
      ImagedStill(mid, w.log, |start|, |start|);
    }
  }

  /** The temporary image up to its publication. */
  method Format(w: World, p: Paths) returns (temporary: Option<Ino>, ready: bool, ghost own: set<Ino>)
    requires w.Valid()
    modifies w
    ensures w.Valid() && w.nextIno >= old(w.nextIno) && w.faults <= old(w.faults)
    ensures forall i :: i in own ==> old(w.nextIno) <= i
    ensures old(w.log) <= w.log && SafeSince(w.log, |old(w.log)|, {})
    ensures temporary.Some? ==> temporary.value in own && temporary.value < w.nextIno
    ensures ready ==> temporary.Some? && Imaged(w.log, |old(w.log)|) && w.faults == old(w.faults)
    ensures ready ==> SawSince(w.log, |old(w.log)|, Public(p.image), temporary.value)
    ensures w.inside == old(w.inside) && w.Spent(old(w.free), old(w.low), 2)
    ensures !w.disturbed ==> w.free >= old(w.free) - 1
    ensures !w.disturbed ==> AgreeExcept(old(w.names), w.names, {Public(p.image)})
    ensures !w.disturbed && temporary.Some? ==>
      w.names == old(w.names)[Public(p.image) := temporary.value] && w.free == old(w.free) - 1
    ensures !w.disturbed && temporary.Some? ==> forall q :: Quarantine(q, temporary.value) !in w.names
    ensures !w.disturbed && !ready ==> w.faults < old(w.faults) || Public(p.image) in old(w.names)
    ensures !w.disturbed && ready ==>
      w.faults == old(w.faults) && w.free == old(w.free) - 1 && w.low == Min(old(w.low), old(w.free) - 2)
    ensures !w.disturbed && w.Gentle() && temporary.None? ==> w.names == old(w.names) && w.free == old(w.free)
  {
    hide SafeChange, MayBecome, Known, SafeSince;
    temporary, ready, own := None, false, {};
    var created := w.Create(p.image, {});
    if !created.Found? { return; }
    var prepared := w.Record(Public(p.image));
    if prepared.Failed? { return; }
    temporary, own := Some(created.ino), {created.ino};
    ghost var start := w.log;
    ready := Process(w, p, created.ino);
    SafeIdle(w.log, |start|, {});
    SafeLater(start, w.log, |old(w.log)|, {});
    if ready {
      ImagedStill(w.log, w.log, |start|, |old(w.log)|);
      SawStill(w.log, w.log, |start|, |old(w.log)|, Public(p.image), created.ino);
    }
  }

  /** What is done to the image by its descriptor, and the final look at its name. */
  method Process(w: World, p: Paths, image: Ino) returns (ready: bool)
    requires w.Valid()
    modifies w
    ensures w.Valid() && w.nextIno >= old(w.nextIno) && w.faults <= old(w.faults)
    ensures old(w.log) <= w.log && Idle(w.log, |old(w.log)|) && (ready ==> Imaged(w.log, |old(w.log)|))
    ensures ready ==> SawSince(w.log, |old(w.log)|, Public(p.image), image) && w.faults == old(w.faults)
    ensures SameQuarantine(old(w.names), w.names)
    ensures w.inside == old(w.inside) && w.Spent(old(w.free), old(w.low), 1)
    ensures !w.disturbed ==> w.names == old(w.names) && w.free == old(w.free) && w.nextIno == old(w.nextIno)
    ensures !w.disturbed && ready ==> w.faults == old(w.faults) && w.low == Min(old(w.low), old(w.free) - 1)
    ensures !w.disturbed && !ready && Public(p.image) in old(w.names) && old(w.names)[Public(p.image)] == image ==>
      w.faults < old(w.faults)
  {
    hide SafeChange, MayBecome, Known;
    ghost var from := |w.log|;
    var formatted := w.Work(Task.Format);
    if formatted.Failed? { return false; }
    assert w.log[from] == Did(Task.Format);
    ghost var first := |w.log|;
    var stamped := w.Scratch();
    if stamped.Failed? { return false; }
    assert w.log[first] == Did(Stamp) && w.log[from] == Did(Task.Format);
    ghost var second := |w.log|;
    var checked := w.Work(Check);
    if checked.Failed? { return false; }
    assert w.log[second] == Did(Check) && w.log[first] == Did(Stamp) && w.log[from] == Did(Task.Format);
    var seen := w.Identify(Public(p.image));
    assert w.log[second] == Did(Check) && w.log[first] == Did(Stamp) && w.log[from] == Did(Task.Format);
    ready := seen.Found? && seen.ino == image;
    if ready { SawNow(w.log, from, Public(p.image), image); }
  }

  /** A binding to another inode does not name this one. */
  lemma OnlyName(w: World, t: Table, path: string, i: Ino, n: Name, j: Ino)
    requires !w.Elsewhere(t, path, i) && j != i
    ensures !w.Elsewhere(t[n := j], path, i)
  {
    var a, b := t - {Public(path), Quarantine(path, i)}, t[n := j] - {Public(path), Quarantine(path, i)};
    forall m | m in b ensures b[m] != i {
      if m != n { assert m in a; }
    }
  }

  ghost predicate HeldBy(h: Held, own: set<Ino>, next: nat)
  {
    && (h.temporary.Some? ==> h.temporary.value in own && h.temporary.value < next)
    && (h.output.Some? ==> h.output.value in own && h.output.value < next)
    && (h.metadata.Some? ==> h.metadata.value in own && h.metadata.value < next)
  }

  // ---------------------------------------------------------------- what a failing build has left so far

  function Part(t: Table, n: Name, weight: int): int { if n in t then weight else 0 }

  /** The names that a build makes. */
  function Names(p: Paths): set<Name>
  {
    {Public(p.staging), Public(p.image), Public(p.output), Public(p.metadata)}
  }

  /** Beside `base` there is nothing but what the build holds, under its own names, and the inodes of that are
      what is missing from `total`. */
  ghost predicate Left(t: Table, free: int, weight: nat, p: Paths, staging: Ino, h: Held, base: Table, total: int)
  {
    && AgreeExcept(base, t, Names(p)) && (forall n :: n in Names(p) ==> n !in base)
    && (Public(p.staging) in t ==> t[Public(p.staging)] == staging)
    && (Public(p.image) in t ==> h.temporary == Some(t[Public(p.image)]))
    && (Public(p.output) in t ==> h.output == Some(t[Public(p.output)]))
    && (Public(p.metadata) in t ==> h.metadata == Some(t[Public(p.metadata)]))
    && !(Public(p.image) in t && Public(p.output) in t)
    && total == free + Part(t, Public(p.staging), weight) + Part(t, Public(p.image), 1) + Part(t, Public(p.output), 1)
                + Part(t, Public(p.metadata), 1)
  }

  /** What the build holds are new inodes, and one each. */
  ghost predicate Newly(h: Held, staging: Ino, next: nat, inside: set<Ino>)
  {
    && (h.temporary.Some? ==> h.temporary.value >= next && h.temporary.value != staging && h.temporary.value !in inside)
    && (h.output.Some? ==> h.output == h.temporary)
    && (h.metadata.Some? ==> h.metadata.value >= next && h.metadata.value != staging && h.metadata.value !in inside)
    && (h.metadata.Some? ==> h.metadata != h.temporary)
  }

  ghost predicate NewlyHeld(w: World, h: Held, staging: Ino, next: nat)
    reads w
  {
    Newly(h, staging, next, w.inside.Keys)
  }

  lemma LeftStart(t: Table, free: int, weight: nat, p: Paths, staging: Ino, total: int)
    requires Distinct(p) && Public(p.staging) in t && t[Public(p.staging)] == staging && total == free + weight
    requires Public(p.image) !in t && Public(p.output) !in t && Public(p.metadata) !in t
    ensures Left(t, free, weight, p, staging, Held(false, true, None, None, None), t - {Public(p.staging)}, total)
  {
  }

  lemma LeftImage(before: Table, t: Table, free: int, weight: nat, p: Paths, staging: Ino, temporary: Option<Ino>,
      output: Option<Ino>, total: int)
    requires Distinct(p) && Public(p.staging) in before && before[Public(p.staging)] == staging
    requires Public(p.image) !in before && Public(p.output) !in before && Public(p.metadata) !in before
    requires || (t == before && output.None? && total == free + weight)
             || (temporary.Some? && output.None? && t == before[Public(p.image) := temporary.value]
                 && total == free + weight + 1)
             || (output.Some? && t == before[Public(p.output) := output.value] && total == free + weight + 1)
    ensures Left(t, free, weight, p, staging, Held(false, true, temporary, output, None),
                 before - {Public(p.staging)}, total)
  {
  }

  /** Taking one of the names away, with the inode that only it had. */
  lemma LeftWithout(t: Table, free: int, weight: nat, p: Paths, staging: Ino, h: Held, base: Table, total: int, n: Name)
    requires Distinct(p) && Left(t, free, weight, p, staging, h, base, total) && n in Names(p)
    ensures var freed := Part(t, n, if n == Public(p.staging) then weight else 1);
      Left(t - {n}, free + freed, weight, p, staging, h, base, total)
  {
  }

  /** A name that the build made is the only one of its inode. */
  lemma LeftAlone(w: World, t: Table, free: int, weight: nat, p: Paths, staging: Ino, h: Held, base: Table, total: int,
      next: nat, path: string)
    requires Distinct(p) && Left(t, free, weight, p, staging, h, base, total) && Public(path) in Names(p)
      && Public(path) in t
    requires Known(base, next) && next <= staging && (exists s :: Newly(h, staging, next, s))
    ensures !w.Elsewhere(t, path, t[Public(path)]) && Quarantine(path, t[Public(path)]) !in t
  {
    var i := t[Public(path)];
    var b := t - {Public(path), Quarantine(path, i)};
    forall m | m in b ensures b[m] != i {
      if m !in Names(p) { assert AgreeAt(base, t, m); }
    }
    assert AgreeAt(base, t, Quarantine(path, i));
  }

  lemma LeftNothing(t: Table, free: int, weight: nat, p: Paths, staging: Ino, h: Held, base: Table, total: int)
    requires Left(t, free, weight, p, staging, h, base, total) && forall n :: n in Names(p) ==> n !in t
    ensures t == base && free == total
  {
    forall n ensures AgreeAt(base, t, n) { }
  }

  /** From the published image to the completed build. */
  method BuildRecord(w: World, p: Paths, staging: Ino, before: Held, ghost own: set<Ino>, ghost base: Table,
      ghost total: int)
    returns (h: Held, ghost more: set<Ino>)
    requires w.Valid() && staging < w.nextIno && Distinct(p) && staging in own
    requires HeldBy(before, own, w.nextIno) && !before.completed && before.staged && before.output.Some?
      && before.metadata.None?
    modifies w
    ensures w.Valid() && w.nextIno >= old(w.nextIno) && w.faults <= old(w.faults)
    ensures own <= more && forall i :: i in more ==> i in own || old(w.nextIno) <= i
    ensures old(w.log) <= w.log && SafeSince(w.log, |old(w.log)|, more)
    ensures HeldBy(h, more, w.nextIno) && h.temporary == before.temporary && h.output == before.output
    ensures h.metadata.Some? ==> SawSince(w.log, |old(w.log)|, Public(p.metadata), h.metadata.value)
    ensures h.completed ==> h.metadata.Some? && !h.staged
    ensures !h.completed ==> h.staged
    ensures w.inside == old(w.inside) && w.Spent(old(w.free), old(w.low), 1)
    ensures old(Settled(w) && Removable(w, p, before) && StagingHeld(w, p, staging)
                && Public(p.record) !in w.names && Public(p.image) !in w.names) ==>
      && Removable(w, p, h)
      && (!h.completed ==> w.faults < old(w.faults))
      && (h.completed ==>
            && w.names == old(w.names)[Public(p.metadata) := h.metadata.value] - {Public(p.staging)}
            && w.free == old(w.free) - 1 + w.Weight(staging) && w.low == Min(old(w.low), old(w.free) - 1))
    ensures h.completed ==> DidSince(w.log, |old(w.log)|, Write) && Closed(w.log) && w.faults == old(w.faults)
    ensures h.metadata.Some? ==> h.metadata.value >= old(w.nextIno)
    ensures old(Settled(w) && StagingHeld(w, p, staging) && Public(p.record) !in w.names && w.Gentle()
                && Public(p.image) !in w.names && Public(p.metadata) !in w.names
                && Left(w.names, w.free, w.Weight(staging), p, staging, before, base, total)) && !h.completed ==>
      Left(w.names, w.free, w.Weight(staging), p, staging, h, base, total)
  {
    hide SafeChange, MayBecome, Known, SawSince, SafeSince, Elsewhere, Left, DidSince;
    h, more := before, own;
    var record, own2 := WriteRecord(w, p);
    more := own + own2;
    SafeWider(w.log, |old(w.log)|, own2, more);
    if record.Refused? { return; }
    ghost var left := old(Settled(w) && Public(p.record) !in w.names && Public(p.metadata) !in w.names
                          && Left(w.names, w.free, w.Weight(staging), p, staging, before, base, total));
    if left {
      LeftMetadata(old(w.names), old(w.free), w.Weight(staging), p, staging, before, base, total, record.ino);
    }
    h := h.(metadata := Some(record.ino));
    ghost var mid, t := w.log, w.names;
    if old(StagingHeld(w, p, staging)) && record.ino != staging {
      OnlyName(w, old(w.names), p.staging, staging, Public(p.metadata), record.ino);
    }
    ghost var f := w.free;
    var done := Complete(w, p, staging, more);
    SafeLater(mid, w.log, |old(w.log)|, more);
    SawStill(mid, w.log, |old(w.log)|, |old(w.log)|, Public(p.metadata), record.ino);
    DidStill(mid, w.log, |old(w.log)|, |old(w.log)|, Write);
    if left { LeftWithout(t, f, w.Weight(staging), p, staging, h, base, total, Public(p.staging)); }
    if !w.disturbed { RemovableElsewhere(t, w.names, p, h); }
    if done { h := h.(completed := true, staged := false); }
  }

  /** The image is closed and the metadata written. */
  method WriteRecord(w: World, p: Paths) returns (r: Outcome, ghost own: set<Ino>)
    requires w.Valid() && Distinct(p)
    modifies w
    ensures w.Valid() && w.nextIno >= old(w.nextIno) && w.faults <= old(w.faults)
    ensures forall i :: i in own ==> old(w.nextIno) <= i
    ensures old(w.log) <= w.log && SafeSince(w.log, |old(w.log)|, own)
    ensures r.Published? ==> r.ino in own && r.ino < w.nextIno
    ensures r.Published? ==> SawSince(w.log, |old(w.log)|, Public(p.metadata), r.ino)
    ensures r.Published? ==> DidSince(w.log, |old(w.log)|, Write) && w.faults == old(w.faults)
    ensures w.inside == old(w.inside) && w.Spent(old(w.free), old(w.low), 1)
    ensures old(Settled(w)) && Public(p.record) !in old(w.names) && r.Published? ==>
      && w.faults == old(w.faults) && Public(p.metadata) !in old(w.names)
      && w.names == old(w.names)[Public(p.metadata) := r.ino] && Quarantine(p.metadata, r.ino) !in w.names
      && w.free == old(w.free) - 1 && w.low == Min(old(w.low), w.free)
    ensures old(Settled(w)) && Public(p.record) !in old(w.names) && r.Refused? ==>
      && (w.faults < old(w.faults) || Public(p.metadata) in old(w.names))
      && PublicAgree(old(w.names), w.names, {p.record}) && OldQuarantine(old(w.names), w.names, old(w.nextIno))
      && (w.Gentle() ==> w.names == old(w.names) && w.free == old(w.free))
  {
    hide SafeChange, MayBecome, Known, SawSince, SafeSince, DidSince;
    r, own := Refused, {};
    var closed := w.Work(Close);
    SafeIdle(w.log, |old(w.log)|, own);
    if closed.Failed? { return; }
    ghost var early := w.log;
    r, own := w.AtomicWrite(p.metadata, p.record);
    SafeIdle(early, |old(w.log)|, own);
    SafeLater(early, w.log, |old(w.log)|, own);
    if r.Published? {
      SawStill(w.log, w.log, |early|, |old(w.log)|, Public(p.metadata), r.ino);
      DidStill(w.log, w.log, |early|, |old(w.log)|, Write);
    }
  }

  /** The last steps were a sync and the closing of the staging directory. */
  ghost predicate Closed(log: seq<Event>)
  {
    |log| >= 2 && log[|log| - 1] == Did(Close) && Synced(log[..|log| - 1])
  }

  lemma LeftMetadata(t: Table, free: int, weight: nat, p: Paths, staging: Ino, h: Held, base: Table, total: int, i: Ino)
    requires Distinct(p) && Left(t, free, weight, p, staging, h, base, total) && Public(p.metadata) !in t
    ensures Left(t[Public(p.metadata) := i], free - 1, weight, p, staging, h.(metadata := Some(i)), base, total)
  {
  }

  /** The removal of the staging directory and the last sync. */
  method Complete(w: World, p: Paths, staging: Ino, ghost own: set<Ino>) returns (done: bool)
    requires w.Valid() && staging < w.nextIno && staging in own
    modifies w
    ensures w.Valid() && w.nextIno >= old(w.nextIno) && w.faults <= old(w.faults)
    ensures old(w.log) <= w.log && SafeSince(w.log, |old(w.log)|, own)
    ensures w.inside == old(w.inside) && w.Spent(old(w.free), old(w.low), 0)
    ensures !w.disturbed ==> Elsewhere(old(w.names), w.names, p.staging)
    ensures !w.disturbed && old(StagingHeld(w, p, staging)) ==>
      if done then w.names == old(w.names) - {Public(p.staging)} && w.free == old(w.free) + w.Weight(staging)
      else w.faults < old(w.faults)
    ensures !w.disturbed && old(StagingHeld(w, p, staging)) && w.Gentle() ==>
      || (w.names == old(w.names) && w.free == old(w.free))
      || (w.names == old(w.names) - {Public(p.staging)} && w.free == old(w.free) + w.Weight(staging))
    ensures done ==> Closed(w.log) && w.faults == old(w.faults)
  {
    hide SafeChange, MayBecome, Known, SafeSince;
    var unstaged := w.RemoveIfIdentity(p.staging, staging);
    SafeWider(w.log, |old(w.log)|, {staging}, own);
    if !unstaged.Removed? { return false; }
    ghost var mid := w.log;
    var closed := w.Work(Close);
    SafeIdle(w.log, |mid|, own);
    SafeLater(mid, w.log, |old(w.log)|, own);
    if closed.Ok? { assert w.log[..|w.log| - 1] == mid; }
    done := closed.Ok?;
  }

  ghost predicate StagingHeld(w: World, p: Paths, staging: Ino)
    reads w
  {
    && staging < w.nextIno
    && Public(p.staging) in w.names && w.names[Public(p.staging)] == staging
    && Quarantine(p.staging, staging) !in w.names
    && !w.Elsewhere(w.names, p.staging, staging)
  }

  ghost predicate Undisturbed(w: World, p: Paths, staging: Ino, names: Table, faults: nat)
  {
    && !w.disturbed && faults <= 1
    && Public(p.image) !in names && Public(p.record) !in names
    && Public(p.staging) in names && names[Public(p.staging)] == staging
    && Quarantine(p.staging, staging) !in names
    && Public(p.output) !in names && Public(p.metadata) !in names
  }

  /** One removal of the `finally` block. */
  method Take(w: World, path: string, ino: Option<Ino>, ghost own: set<Ino>) returns (raised: bool)
    requires w.Valid() && (ino.Some? ==> ino.value < w.nextIno && ino.value in own)
    modifies w
    ensures w.Valid() && w.nextIno >= old(w.nextIno) && w.faults <= old(w.faults)
    ensures old(w.log) <= w.log && SafeSince(w.log, |old(w.log)|, own)
    ensures !w.disturbed ==> Elsewhere(old(w.names), w.names, path)
    ensures ino.None? ==> w.names == old(w.names) && !raised
    ensures w.Spent(old(w.free), old(w.low), 0)
    ensures !w.disturbed && old(w.faults) == 0 && Takeable(old(w.names), path, ino) ==> !raised
    ensures !w.disturbed && old(w.faults) == 0 && OutputHeld(old(w.names), path, ino) ==>
      !raised && Public(path) !in w.names
    ensures w.inside == old(w.inside)
    ensures !w.disturbed && Conflict(old(w.names), path, ino) ==> raised && w.names == old(w.names)
    ensures !w.disturbed && old(w.faults) == 0 && Takeable(old(w.names), path, ino) ==>
      if ino.Some? && Public(path) in old(w.names) && old(w.names)[Public(path)] == ino.value
      then && w.names == old(w.names) - {Public(path)}
           && w.free == old(w.free) + if w.Elsewhere(old(w.names), path, ino.value) then 0 else w.Weight(ino.value)
      else w.names == old(w.names) && w.free == old(w.free)
  {
    hide SafeChange, MayBecome, Known, SafeSince;
    SafeNothing(w.log, own);
    raised := false;
    if ino.Some? {
      var r := w.RemoveIfIdentity(path, ino.value);
      SafeWider(w.log, |old(w.log)|, {ino.value}, own);
      raised := r.Raised?;
    }
  }

  /** The object is where it was put, but the name it would be moved to is taken. */
  ghost predicate Conflict(t: Table, path: string, ino: Option<Ino>)
  {
    ino.Some? && Public(path) in t && t[Public(path)] == ino.value && Quarantine(path, ino.value) in t
  }

  /** The `finally` block of `_build_held`. */
  method Cleanup(w: World, p: Paths, staging: Ino, h: Held, ghost own: set<Ino>, ghost base: Table, ghost total: int,
      ghost next: nat)
    requires w.Valid() && staging < w.nextIno && Distinct(p) && staging in own && HeldBy(h, own, w.nextIno)
    modifies w
    ensures w.Valid() && old(w.log) <= w.log && SafeSince(w.log, |old(w.log)|, own)
    ensures w.Spent(old(w.free), old(w.low), 0)
    ensures h.completed && !h.staged ==>
      && w.names == old(w.names) && w.free == old(w.free) && w.low == old(w.low) && w.log == old(w.log)
      && w.faults == old(w.faults)
    ensures !w.disturbed && (old(w.faults) == 0 || Unpublished(h)) && !h.completed && old(Removable(w, p, h)) ==>
      Public(p.output) !in w.names && Public(p.metadata) !in w.names
    ensures !w.disturbed && old(w.faults) == 0 && !h.completed && h.staged && Known(base, next) && next <= staging
            && old(NewlyHeld(w, h, staging, next)
                   && Left(w.names, w.free, w.Weight(staging), p, staging, h, base, total)) ==>
      w.names == base && w.free == total
  {
    hide SafeSince, Elsewhere, Left, Known;
    SafeNothing(w.log, own);
    ghost var weight := w.Weight(staging);
    ghost var left := !w.disturbed && w.faults == 0 && !h.completed && h.staged && Known(base, next) && next <= staging
                      && NewlyHeld(w, h, staging, next)
                      && Left(w.names, w.free, weight, p, staging, h, base, total);
    if h.staged {
      ghost var t, f := w.names, w.free;
      if left { LeftTakeable(w, t, f, weight, p, staging, h, base, total, next, p.staging, Some(staging)); }
      var unstaged := Take(w, p.staging, Some(staging), own);
      if !w.disturbed { RemovableElsewhere(t, w.names, p, h); }
      if left {
        LeftWithout(t, f, weight, p, staging, h, base, total, Public(p.staging));
        if Public(p.staging) !in t { assert t - {Public(p.staging)} == t; }
      }
    }
    if h.completed { return; }
    ghost var mid := w.log;
    TakeAll(w, p, h, own, staging, weight, base, total, next);
    SafeLater(mid, w.log, |old(w.log)|, own);
  }

  /** What a removal at one of the build's names finds. */
  lemma LeftTakeable(w: World, t: Table, free: int, weight: nat, p: Paths, staging: Ino, h: Held, base: Table,
      total: int, next: nat, path: string, ino: Option<Ino>)
    requires Distinct(p) && Left(t, free, weight, p, staging, h, base, total) && Known(base, next) && next <= staging
    requires exists s :: Newly(h, staging, next, s)
    requires Public(path) in Names(p)
    requires ino == if path == p.staging then Some(staging) else if path == p.image then h.temporary
                    else if path == p.output then h.output else h.metadata
    ensures Takeable(t, path, ino)
    ensures Public(path) in t ==> ino == Some(t[Public(path)]) && !w.Elsewhere(t, path, ino.value)
  {
    hide Known, World.Elsewhere;
    if Public(path) in t { LeftAlone(w, t, free, weight, p, staging, h, base, total, next, path); }
  }

  predicate Unpublished(h: Held) { h.output.None? && h.metadata.None? }

  method TakeAll(w: World, p: Paths, h: Held, ghost own: set<Ino>, ghost staging: Ino, ghost weight: nat,
      ghost base: Table, ghost total: int, ghost next: nat)
    requires w.Valid() && Distinct(p) && HeldBy(h, own, w.nextIno)
    modifies w
    ensures w.Valid() && old(w.log) <= w.log && SafeSince(w.log, |old(w.log)|, own)
    ensures w.Spent(old(w.free), old(w.low), 0)
    ensures !w.disturbed && (old(w.faults) == 0 || Unpublished(h)) && old(Removable(w, p, h)) ==>
      Public(p.output) !in w.names && Public(p.metadata) !in w.names
    ensures !w.disturbed && old(w.faults) == 0 && Known(base, next) && next <= staging
            && old(NewlyHeld(w, h, staging, next) && Public(p.staging) !in w.names
                   && Left(w.names, w.free, weight, p, staging, h, base, total)) ==>
      w.names == base && w.free == total
    ensures !w.disturbed && Conflict(old(w.names), p.image, h.temporary) ==> w.names == old(w.names)
    ensures !w.disturbed && Conflict(old(w.names), p.output, h.output) ==>
      AgreeAt(old(w.names), w.names, Public(p.metadata))
  {
    hide SafeSince, Elsewhere, Takeable, OutputHeld, Left, Known, World.Elsewhere;
    ghost var left := !w.disturbed && w.faults == 0 && Known(base, next) && next <= staging
                      && NewlyHeld(w, h, staging, next) && Public(p.staging) !in w.names
                      && Left(w.names, w.free, weight, p, staging, h, base, total);
    ghost var t0, f0 := w.names, w.free;
    if left { LeftTakeable(w, t0, f0, weight, p, staging, h, base, total, next, p.image, h.temporary); }
    var raised := Take(w, p.image, h.temporary, own);
    ghost var mid, t1, f1 := w.log, w.names, w.free;
    if left { LeftTaken(w, t0, f0, t1, f1, weight, p, staging, h, base, total, p.image); }
    if !w.disturbed {
      HeldElsewhere(t0, t1, p.image, p.output, h.output);
      HeldElsewhere(t0, t1, p.image, p.metadata, h.metadata);
      ConflictElsewhere(t0, t1, p.image, p.output, h.output);
      ConflictElsewhere(t0, t1, p.image, p.metadata, h.metadata);
    }
    if raised { return; }
    TakePublished(w, p, h, own, left, staging, weight, base, total, next);
    SafeLater(mid, w.log, |old(w.log)|, own);
  }

  /** The published outputs, the image first. */
  method TakePublished(w: World, p: Paths, h: Held, ghost own: set<Ino>, ghost left: bool, ghost staging: Ino,
      ghost weight: nat, ghost base: Table, ghost total: int, ghost next: nat)
    requires w.Valid() && Distinct(p) && HeldBy(h, own, w.nextIno)
    requires left ==>
      && !w.disturbed && w.faults == 0 && Known(base, next) && next <= staging && NewlyHeld(w, h, staging, next)
      && Public(p.staging) !in w.names && Public(p.image) !in w.names
      && Left(w.names, w.free, weight, p, staging, h, base, total)
    modifies w
    ensures w.Valid() && old(w.log) <= w.log && SafeSince(w.log, |old(w.log)|, own)
    ensures w.Spent(old(w.free), old(w.low), 0)
    ensures !w.disturbed && (old(w.faults) == 0 || Unpublished(h)) && OutputHeld(old(w.names), p.output, h.output)
            && OutputHeld(old(w.names), p.metadata, h.metadata) ==>
      Public(p.output) !in w.names && Public(p.metadata) !in w.names
    ensures left ==> w.names == base && w.free == total
    ensures !w.disturbed && Conflict(old(w.names), p.output, h.output) ==>
      AgreeAt(old(w.names), w.names, Public(p.metadata))
  {
    hide SafeSince, Elsewhere, Takeable, OutputHeld, Left, Known, World.Elsewhere, Conflict;
    ghost var t1, f1 := w.names, w.free;
    if left { LeftTakeable(w, t1, f1, weight, p, staging, h, base, total, next, p.output, h.output); }
    if !w.disturbed { NotThere(t1, p.output, h.output); }
    var raised := Take(w, p.output, h.output, own);
    ghost var mid, t2, f2 := w.log, w.names, w.free;
    if left { LeftTaken(w, t1, f1, t2, f2, weight, p, staging, h, base, total, p.output); }
    if !w.disturbed { HeldElsewhere(t1, t2, p.output, p.metadata, h.metadata); }
    if raised { return; }
    if left { LeftTakeable(w, t2, f2, weight, p, staging, h, base, total, next, p.metadata, h.metadata); }
    if !w.disturbed { NotThere(t2, p.metadata, h.metadata); }
    raised := Take(w, p.metadata, h.metadata, own);
    SafeLater(mid, w.log, |old(w.log)|, own);
    if !w.disturbed { HeldElsewhere(t2, w.names, p.metadata, p.output, None); }
    if left {
      LeftTaken(w, t2, f2, w.names, w.free, weight, p, staging, h, base, total, p.metadata);
      LeftNothing(w.names, w.free, weight, p, staging, h, base, total);
    }
  }

  lemma NotThere(t: Table, path: string, ino: Option<Ino>)
    ensures ino.None? && OutputHeld(t, path, ino) ==> Public(path) !in t
  {
  }

  lemma ConflictElsewhere(a: Table, b: Table, path: string, other: string, ino: Option<Ino>)
    requires Elsewhere(a, b, path) && other != path
    ensures Conflict(a, other, ino) ==> Conflict(b, other, ino)
    ensures AgreeAt(a, b, Public(other))
  {
    assert AgreeAt(a, b, Public(other));
    if ino.Some? { assert AgreeAt(a, b, Quarantine(other, ino.value)); }
  }

  /** After the removal that name is gone and the rest is left. */
  lemma LeftTaken(w: World, t: Table, f: int, t': Table, f': int, weight: nat, p: Paths, staging: Ino, h: Held,
      base: Table, total: int, path: string)
    requires Distinct(p) && Left(t, f, weight, p, staging, h, base, total) && path in {p.image, p.output, p.metadata}
    requires if Public(path) in t then t' == t - {Public(path)} && f' == f + 1 else t' == t && f' == f
    ensures Left(t', f', weight, p, staging, h, base, total) && Public(path) !in t' && t'.Keys <= t.Keys
  {
    hide Left;
    LeftWithout(t, f, weight, p, staging, h, base, total, Public(path));
    if Public(path) !in t { assert t - {Public(path)} == t; }
  }

  lemma RemovableElsewhere(a: Table, b: Table, p: Paths, h: Held)
    requires Distinct(p) && Elsewhere(a, b, p.staging)
    ensures RemovableIn(a, p, h) ==> RemovableIn(b, p, h)
  {
    hide Elsewhere, Takeable, OutputHeld;
    HeldElsewhere(a, b, p.staging, p.output, h.output);
    HeldElsewhere(a, b, p.staging, p.metadata, h.metadata);
    HeldElsewhere(a, b, p.staging, p.image, h.temporary);
  }

  /** Only names of `path` differ. */
  ghost predicate Elsewhere(a: Table, b: Table, path: string)
  {
    forall n: Name :: (match n case Public(q) => q != path case Quarantine(q, _) => q != path) ==> AgreeAt(a, b, n)
  }

  lemma HeldElsewhere(a: Table, b: Table, path: string, other: string, ino: Option<Ino>)
    requires Elsewhere(a, b, path) && other != path
    ensures OutputHeld(a, other, ino) ==> OutputHeld(b, other, ino)
    ensures Takeable(a, other, ino) ==> Takeable(b, other, ino)
    ensures Public(other) !in a ==> Public(other) !in b
  {
    assert AgreeAt(a, b, Public(other));
    if ino.Some? { assert AgreeAt(a, b, Quarantine(other, ino.value)); }
  }

  lemma SafeNothing(log: seq<Event>, own: set<Ino>)
    ensures SafeSince(log, |log|, own)
  {
  }

  /** Whatever was published can be taken back: it is where it was put, and the quarantine is free. */
  ghost predicate Removable(w: World, p: Paths, h: Held)
    reads w
  {
    RemovableIn(w.names, p, h)
  }

  ghost predicate RemovableIn(t: Table, p: Paths, h: Held)
  {
    OutputHeld(t, p.output, h.output) && OutputHeld(t, p.metadata, h.metadata) && Takeable(t, p.image, h.temporary)
  }

  /** The quarantine is free if the object is still where it was put. */
  ghost predicate Takeable(t: Table, path: string, ino: Option<Ino>)
  {
    ino.Some? && Public(path) in t && t[Public(path)] == ino.value ==> Quarantine(path, ino.value) !in t
  }

  ghost predicate OutputHeld(t: Table, path: string, ino: Option<Ino>)
  {
    match ino
    case None => Public(path) !in t
    case Some(i) => Public(path) in t && t[Public(path)] == i && Quarantine(path, i) !in t
  }

  /** `_build_held`: with at most one failing primitive and nobody interfering, the image and its
      metadata are both published under their recorded identities, or neither name is there.  Whatever fails,
      a build alone on its file system has at most four inodes in use and one per imported object; a completed
      one had exactly so many at its peak and keeps two.  The first admission, which asks for one more,
      therefore keeps the reserve whatever fails, and lets a build through that the second does not refuse. */
  method BuildStorage(w: World, p: Paths, root: Tree.Tree, reserve: nat) returns (r: Pair, ghost own: set<Ino>)
    requires w.Valid() && Distinct(p)
    modifies w
    ensures w.Valid()
    ensures forall i :: i in own ==> old(w.nextIno) <= i
    ensures old(w.log) <= w.log && SafeSince(w.log, |old(w.log)|, own)
    ensures r.Both? ==> Witnessed(w.log, |old(w.log)|, p, r.first, r.second) && w.faults == old(w.faults)
    ensures old(Calm(w, p) && w.Gentle()) && r.Neither? ==> w.names == old(w.names) && w.free == old(w.free)
    ensures old(Calm(w, p)) ==>
      match r
      case Both(image, record) =>
        && Public(p.output) !in old(w.names) && Public(p.metadata) !in old(w.names)
        && w.names == old(w.names)[Public(p.output) := image][Public(p.metadata) := record]
        && w.free == old(w.free) - 2 && w.low == Min(old(w.low), old(w.free) - |Storage.InodesBelow(root)| - 4)
      case Neither =>
        && AgreeAt(old(w.names), w.names, Public(p.output))
        && AgreeAt(old(w.names), w.names, Public(p.metadata))
    ensures old(Calm(w, p) && w.faults == 0) ==>
      (r.Both? <==> Public(p.output) !in old(w.names) && Public(p.metadata) !in old(w.names)
                    && old(w.free) >= reserve + (|Storage.InodesBelow(root)| + 1) + 4)
    ensures w.Spent(old(w.free), old(w.low), |Storage.InodesBelow(root)| + 4)
    ensures !w.disturbed ==> w.low == old(w.low) || w.low > reserve
  {
    hide SafeChange, MayBecome, Known, Witnessed;
    ghost var start := w.log;
    r, own := Neither, {};
    var seen := w.Identify(Public(p.output));
    if !seen.Missing? { return; }
    seen := w.Identify(Public(p.metadata));
    if !seen.Missing? { return; }
    var imported := Storage.ImportedInodeCount(root);
    var looked := w.Work(Admit);
    if looked.Failed? || w.free < reserve + (imported + 1) + 4 { return; }
    ghost var mid := w.log;
    r, own := BuildAdmitted(w, p, imported, reserve);
    SafeLater(mid, w.log, |start|, own);
    if r.Both? { WitnessedStill(w.log, |mid|, |start|, p, r.first, r.second); }
  }

  /** The build after its first admission. */
  method BuildAdmitted(w: World, p: Paths, imported: nat, reserve: nat) returns (r: Pair, ghost own: set<Ino>)
    requires w.Valid() && Distinct(p)
    modifies w
    ensures w.Valid()
    ensures forall i :: i in own ==> old(w.nextIno) <= i
    ensures old(w.log) <= w.log && SafeSince(w.log, |old(w.log)|, own)
    ensures r.Both? ==> Witnessed(w.log, |old(w.log)|, p, r.first, r.second) && w.faults == old(w.faults)
    ensures old(Calm(w, p) && BothFree(w, p.output, p.metadata) && w.Gentle()) && r.Neither?
            && (old(w.faults) == 0 || old(w.free) >= reserve + imported + 4) ==>
      w.names == old(w.names) && w.free == old(w.free)
    ensures old(Calm(w, p) && BothFree(w, p.output, p.metadata)) ==>
      match r
      case Both(image, record) =>
        && w.names == old(w.names)[Public(p.output) := image][Public(p.metadata) := record]
        && w.free == old(w.free) - 2 && w.low == Min(old(w.low), old(w.free) - imported - 4)
      case Neither =>
        && Public(p.output) !in w.names && Public(p.metadata) !in w.names
        && (old(w.faults) == 0 ==> old(w.free) < reserve + imported + 4)
    ensures w.Spent(old(w.free), old(w.low), imported + 4)
  {
    hide SafeChange, MayBecome, Known, Witnessed;
    r, own := Neither, {};
    ghost var before, next := w.names, w.nextIno;
    var staging := w.Create(p.staging, {});
    if !staging.Found? { return; }
    own := {staging.ino};
    SafeWider(w.log, |old(w.log)|, {}, own);
    NewName(w, before, next, p.staging, staging.ino);
    if !w.disturbed { assert w.names - {Public(p.staging)} == before; }
    var held := w.Record(Public(p.staging));
    if held.Failed? { return; }
    ghost var mid := w.log;
    var h, own2 := BuildHeld(w, p, staging.ino, imported, reserve, next);
    SafeWider(mid, |old(w.log)|, own, own2);
    SafeLater(mid, w.log, |old(w.log)|, own2);
    own := own2;
    if h.completed {
      r := Both(h.output.value, h.metadata.value);
      WitnessedStill(w.log, |mid|, |old(w.log)|, p, r.first, r.second);
      if old(Calm(w, p) && BothFree(w, p.output, p.metadata)) {
        assert w.names == old(w.names)[Public(p.output) := r.first][Public(p.metadata) := r.second];
      }
    }
  }

  /** A new inode has the one name it was created under. */
  lemma NewName(w: World, t: Table, next: nat, path: string, i: Ino)
    requires Known(t, next) && next <= i
    ensures !w.Elsewhere(t[Public(path) := i], path, i)
  {
    var b := t[Public(path) := i] - {Public(path), Quarantine(path, i)};
    forall m | m in b ensures b[m] != i { assert m in t; }
  }

  /** The `try` and `finally` of `_build_held`, with the staging directory held. */
  method BuildHeld(w: World, p: Paths, staging: Ino, imported: nat, reserve: nat, ghost next: nat)
      returns (h: Held, ghost own: set<Ino>)
    requires w.Valid() && next <= staging < w.nextIno && Distinct(p) && staging !in w.inside
    modifies w
    ensures w.Valid()
    ensures staging in own && forall i :: i in own ==> i == staging || old(w.nextIno) <= i
    ensures old(w.log) <= w.log && SafeSince(w.log, |old(w.log)|, own)
    ensures h.completed ==>
      && h.output.Some? && h.metadata.Some? && Witnessed(w.log, |old(w.log)|, p, h.output.value, h.metadata.value)
      && w.faults == old(w.faults)
    ensures Undisturbed(w, p, staging, old(w.names), old(w.faults)) && !w.Elsewhere(old(w.names), p.staging, staging)
            && w.Gentle() && !h.completed && (old(w.faults) == 0 || old(w.free) >= reserve + imported + 3)
            && Known(old(w.names) - {Public(p.staging)}, next) ==>
      w.names == old(w.names) - {Public(p.staging)} && w.free == old(w.free) + 1
    ensures w.Spent(old(w.free), old(w.low), imported + 3)
    ensures Undisturbed(w, p, staging, old(w.names), old(w.faults)) && !w.Elsewhere(old(w.names), p.staging, staging)
      ==>
      && (h.completed ==>
            && w.names == old(w.names)[Public(p.output) := h.output.value][Public(p.metadata) := h.metadata.value]
                          - {Public(p.staging)}
            && w.free == old(w.free) - 1 && w.low == Min(old(w.low), old(w.free) - imported - 3))
      && (!h.completed ==> Public(p.output) !in w.names && Public(p.metadata) !in w.names)
      && (!h.completed && old(w.faults) == 0 ==> old(w.free) < reserve + imported + 3)
  {
    hide SafeChange, MayBecome, Known, SawSince, Left, SafeSince, Prepared, DidSince;
    ghost var base, total := w.names - {Public(p.staging)}, w.free + 1;
    h, own := BuildImage(w, p, staging, imported, reserve);
    ghost var mid := w.log;
    if h.output.Some? {
      ghost var own2;
      if !w.Elsewhere(old(w.names), p.staging, staging) && h.output.value != staging {
        OnlyName(w, old(w.names), p.staging, staging, Public(p.output), h.output.value);
      }
      h, own2 := BuildRecord(w, p, staging, h, own, base, total);
      SafeWider(mid, |old(w.log)|, own, own2);
      SafeLater(mid, w.log, |old(w.log)|, own2);
      own := own2;
      SawStill(mid, w.log, |old(w.log)|, |old(w.log)|, Public(p.output), h.output.value);
      PreparedStill(mid, w.log, |old(w.log)|, |old(w.log)|);
      if h.completed {
        SawStill(w.log, w.log, |mid|, |old(w.log)|, Public(p.metadata), h.metadata.value);
        DidStill(w.log, w.log, |mid|, |old(w.log)|, Write);
      }
    }
    mid := w.log;
    Cleanup(w, p, staging, h, own, base, total, next);
    SafeLater(mid, w.log, |old(w.log)|, own);
  }

  /** What a completed build did on the way: the clone was normalized, the image formatted, stamped and checked
      and seen at its name, the metadata written and seen at its name, and the directory synced and closed last. */
  ghost predicate Witnessed(log: seq<Event>, from: nat, p: Paths, image: Ino, record: Ino)
  {
    && Prepared(log, from) && SawSince(log, from, Public(p.output), image)
    && DidSince(log, from, Write) && SawSince(log, from, Public(p.metadata), record) && Closed(log)
  }

  lemma WitnessedStill(log: seq<Event>, from: nat, since: nat, p: Paths, image: Ino, record: Ino)
    requires since <= from && Witnessed(log, from, p, image, record)
    ensures Witnessed(log, since, p, image, record)
  {
    hide Prepared, SawSince, DidSince;
    PreparedStill(log, log, from, since);
    SawStill(log, log, from, since, Public(p.output), image);
    SawStill(log, log, from, since, Public(p.metadata), record);
    DidStill(log, log, from, since, Write);
  }
}
