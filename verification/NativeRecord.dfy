/**
 `runtime_native_record_fault.py`: hiding one live process record and restoring it, guarded by
 identities.  Names and the safety of changes to them are those of `Publication`; a directory here
 also holds the attributes that identities are made of, and anybody may change those too.
 */
module NativeRecord {
  import opened Options
  import opened Publication

  datatype Kind = Regular | Fifo | OtherKind

  /** Attributes of an inode, with the contents of a regular file. */
  datatype Attr = Attr(kind: Kind, uid: nat, gid: nat, mode: nat, nlink: nat, mtime: int, ctime: int, data: seq<int>)

  /** `_identity`: the inode and everything `stat` says about it. */
  datatype Id = Id(ino: Ino, kind: Kind, uid: nat, gid: nat, mode: nat, nlink: nat, size: nat, mtime: int, ctime: int)

  const PRIVATE := 384  // 0o600

  function IdOf(i: Ino, a: Attr): Id
  {
    Id(i, a.kind, a.uid, a.gid, a.mode, a.nlink, |a.data|, a.mtime, a.ctime)
  }

  /** Two identities are equal if and only if all that `stat` says is: the inode, its type, owner, mode, link
      count, size and both times. */
  lemma IdentityExactly(i: Ino, a: Attr, j: Ino, b: Attr)
    ensures IdOf(i, a) == IdOf(j, b)
      <==> && i == j && a.kind == b.kind && a.uid == b.uid && a.gid == b.gid && a.mode == b.mode && a.nlink == b.nlink
           && |a.data| == |b.data| && a.mtime == b.mtime && a.ctime == b.ctime
    ensures SameButCtime(IdOf(i, a), IdOf(j, b))
      <==> && i == j && a.kind == b.kind && a.uid == b.uid && a.gid == b.gid && a.mode == b.mode && a.nlink == b.nlink
           && |a.data| == |b.data| && a.mtime == b.mtime
  {
  }

  /** What `__enter__` demands of its placeholder. */
  predicate PrivateFifo(id: Id) { id.kind == Fifo && id.nlink == 1 && id.mode == PRIVATE }

  /** The two identities differ in the change time only, if at all. */
  predicate SameButCtime(a: Id, b: Id) { a.(ctime := 0) == b.(ctime := 0) }

  /** What `_read` demands of the file. */
  predicate Readable(a: Attr, euid: nat)
  {
    a.kind == Regular && a.uid == euid && a.mode == PRIVATE && a.nlink == 1 && 0 < |a.data| <= 4096
  }

  /** Every change since `from` left inode `i` a name if it had one. */
  ghost predicate KeepsNamed(log: seq<Event>, from: nat, i: Ino)
  {
    forall k :: from <= k < |log| && log[k].Changed? ==> Named(log[k].before, i) ==> Named(log[k].after, i)
  }

  /** Changes that are safe but for inode `i` are safe but for inode `m` instead if and only if the two are one,
      or `i` kept a name throughout. */
  lemma SafeForIff(log: seq<Event>, from: nat, i: Ino, m: Ino)
    requires SafeSince(log, from, {i})
    ensures SafeSince(log, from, {m}) <==> i == m || KeepsNamed(log, from, i)
  {
    if i != m {
      forall k | from <= k < |log| && log[k].Changed?
        ensures SafeChange(log[k].before, log[k].after, {m}) <==> (Named(log[k].before, i) ==> Named(log[k].after, i))
      {
        SafeChangeFor(log[k].before, log[k].after, i, m);
      }
      hide SafeChange, Named;
    }
  }

  lemma SafeChangeFor(t: Table, after: Table, i: Ino, m: Ino)
    requires SafeChange(t, after, {i}) && i != m
    ensures SafeChange(t, after, {m}) <==> (Named(t, i) ==> Named(after, i))
  {
    if SafeChange(t, after, {m}) && Named(t, i) {
      var n :| n in t && t[n] == i;
    }
    if Named(t, i) ==> Named(after, i) {
      forall n | n in t && t[n] !in {m} ensures exists x :: x in after && after[x] == t[n] {
        if t[n] == i { assert Named(t, i); }
      }
    }
  }

  /** Inode `i` has a name besides `n`. */
  ghost predicate OtherName(t: Table, n: Name, i: Ino)
  {
    exists m :: m != n && m in t && t[m] == i
  }

  /** Taking a name away from an inode with another one is safe for everybody. */
  lemma UnlinkKeeps(earlier: seq<Event>, log: seq<Event>, from: nat, t: Table, q: Name)
    requires q in t && OtherName(t, q, t[q])
    requires SafeSince(earlier, from, {}) && log == earlier + [Changed(t, t - {q})]
    ensures SafeSince(log, from, {})
  {
    var m :| m != q && m in t && t[m] == t[q];
    forall n | n in t ensures exists x :: x in t - {q} && (t - {q})[x] == t[n] {
      if n == q { assert m in t - {q}; } else { assert n in t - {q}; }
    }
  }

  /** The other names of what is at `name` are those of what is at `q` after the rename. */
  lemma OtherMoved(t: Table, name: Name, q: Name)
    requires name in t && q !in t && name != q
    ensures OtherName((t - {name})[q := t[name]], q, t[name]) <==> OtherName(t, name, t[name])
  {
    var after := (t - {name})[q := t[name]];
    if OtherName(t, name, t[name]) {
      var m :| m != name && m in t && t[m] == t[name];
      assert m != q && m in after;
    }
    if OtherName(after, q, t[name]) {
      var m :| m != q && m in after && after[m] == t[name];
      assert m in t;
    }
  }

  /** An inode that only `name` held lost its last name with the guard's unlink. */
  lemma LastNameLost(log: seq<Event>, from: nat, t: Table, name: Name, q: Name, own: set<Ino>)
    requires name in t && q !in t && name != q && UnlinkedSince(log, from, t, name, q)
    requires !OtherName(t, name, t[name]) && t[name] !in own
    ensures !SafeSince(log, from, own)
  {
    var k :| from <= k < |log| && log[k] == Changed((t - {name})[q := t[name]], t - {name});
    var before, after := log[k].before, log[k].after;
    assert q in before && before[q] == t[name];
    forall m | m in after ensures after[m] != t[name] { assert m in t && m != name; }
    assert !SafeChange(before, after, own);
  }

  /** The record's inode is bound to exactly one of the two names. */
  ghost predicate OneName(t: Table, name: Name, held: Name, ino: Ino)
  {
    (name in t && t[name] == ino) != (held in t && t[held] == ino)
  }

  ghost predicate OneNameSince(log: seq<Event>, from: nat, name: Name, held: Name, ino: Ino)
  {
    forall k :: from <= k < |log| && log[k].Changed? ==> OneName(log[k].after, name, held, ino)
  }

  type Attrs = map<Ino, Attr>

  /** What somebody else makes of the directory. */
  type Move = (Table, Attrs, nat) -> (Table, Attrs, nat)

  /** What comes before a primitive: a change by somebody else, the death of the recorded process, a failure. */
  datatype Turn = Turn(move: Option<Move>, dies: bool, fail: bool)

  const NOTHING := Turn(None, false, false)

  /** A file of somebody else's, and the move that puts it in the place of what is at `n`. */
  const FOREIGN := Attr(Regular, 1000, 1000, 420, 1, 0, 0, [1])

  function Swap(n: Name): Move { (t: Table, a: Attrs, i: nat) => (t[n := i], a[i := FOREIGN], i + 1) }

  /** The directory as it was at one moment. */
  datatype Sight = Sight(names: Table, attrs: Attrs, alive: bool, clock: nat, faults: nat)

  datatype Seen = SeenId(id: Id) | SeenNothing | SeenFailure

  /** All names have inodes with attributes, and all inodes are numbered below `next`. */
  ghost predicate Bounded(t: Table, a: Attrs, next: nat)
  {
    (forall n :: n in t ==> t[n] in a) && (forall i :: i in a ==> i < next)
  }

  class Directory {
    var names: Table
    var attrs: Attrs
    var next: nat
    var alive: bool              // does the recorded process run?
    const euid: nat
    const turns: nat -> Turn     // what happens before each primitive
    var clock: nat
    var faults: nat              // how many failures there may still be
    ghost var log: seq<Event>

    ghost predicate Valid()
      reads this
    {
      Bounded(names, attrs, next)
    }

    /** Nobody interferes before the next primitive. */
    ghost predicate Still()
      reads this
    {
      turns(clock).move.None? && !turns(clock).dies
    }

    /** Nobody interferes before the next `n` primitives. */
    ghost predicate StillFor(n: nat)
      reads this
    {
      forall k :: clock <= k < clock + n ==> turns(k).move.None? && !turns(k).dies
    }

    /** Nobody interferes any more. */
    ghost predicate Alone()
      reads this
    {
      forall k :: clock <= k ==> turns(k).move.None? && !turns(k).dies
    }

    /** From primitive number `k` on nobody interferes. */
    ghost predicate CalmFrom(k: nat)
    {
      forall j :: k <= j ==> turns(j).move.None? && !turns(j).dies
    }

    /** Since that moment nobody interfered and nothing failed. */
    ghost predicate QuietSince(s: Sight)
    {
      CalmFrom(s.clock) && s.faults == 0
    }

    /** The directory is as it was at that moment. */
    ghost predicate LooksLike(s: Sight)
      reads this
    {
      Quiet() && names == s.names && attrs == s.attrs && alive == s.alive
    }

    /** Nobody interferes and nothing fails. */
    ghost predicate Quiet()
      reads this
    {
      Alone() && faults == 0
    }

    /** Nothing happens but that before primitive `k` somebody puts another file in the place of `n`. */
    ghost predicate OnlySwap(n: Name, k: nat)
      reads this
    {
      faults == 0 && clock <= k && turns(k) == Turn(Some(Swap(n)), false, false)
      && forall j :: clock <= j && j != k ==> turns(j) == NOTHING
    }

    constructor (names: Table, attrs: Attrs, next: nat, euid: nat, alive: bool, faults: nat, turns: nat -> Turn)
      requires Bounded(names, attrs, next)
      ensures Valid() && this.names == names && this.attrs == attrs && this.next == next && this.alive == alive
      ensures this.euid == euid && this.turns == turns && clock == 0 && this.faults == faults && log == []
    {
      this.names, this.attrs, this.next, this.alive, this.euid, this.turns, clock, this.faults, log :=
        names, attrs, next, alive, euid, turns, 0, faults, [];
    }

    predicate Allowed(t: Table, a: Attrs, n: nat)
      reads this
    {
      && n >= next && MayBecome(names, t, n)
      && (forall x :: x in t.Keys ==> t[x] in a) && (forall i :: i in a.Keys ==> i < n)
    }

    /** Somebody else's turn: any public name may be rebound and any attribute changed. */
    method Interfere() returns (fail: bool)
      requires Valid()
      modifies this`names, this`attrs, this`next, this`alive, this`clock, this`faults
      ensures Valid() && SameQuarantine(old(names), names) && next >= old(next)
      ensures clock == old(clock) + 1 && (old(Alone()) ==> Alone())
      ensures old(Still()) ==> names == old(names) && attrs == old(attrs) && next == old(next) && alive == old(alive)
      ensures faults == old(faults) - if fail then 1 else 0
      ensures fail <==> turns(old(clock)).fail && old(faults) > 0
      ensures alive <==> old(alive) && !turns(old(clock)).dies
      ensures turns(old(clock)).move.Some? ==>
        var r := turns(old(clock)).move.value(old(names), old(attrs), old(next));
        r.2 >= old(next) && MayBecome(old(names), r.0, r.2) && Bounded(r.0, r.1, r.2) ==>
          names == r.0 && attrs == r.1 && next == r.2
    {
      hide Swap;
      var turn := turns(clock);
      if turn.move.Some? {
        var (t, a, n) := turn.move.value(names, attrs, next);
        if Allowed(t, a, n) { names, attrs, next := t, a, n; }
      }
      if turn.dies { alive := false; }
      clock := clock + 1;
      fail := turn.fail && faults > 0;
      if fail { faults := faults - 1; }
    }

    /** Anybody may put a new file in the place of a public name. */
    lemma SwapAllowed(n: Name)
      requires Valid() && n.Public?
      ensures MayBecome(names, names[n := next], next + 1)
        && Bounded(names[n := next], attrs[next := FOREIGN], next + 1)
      ensures Swap(n)(names, attrs, next) == (names[n := next], attrs[next := FOREIGN], next + 1)
    {
    }

    /** `os.stat(name, dir_fd=..., follow_symlinks=False)`. */
    method Stat(n: Name) returns (r: Seen)
      requires Valid()
      modifies this
      ensures Valid() && faults <= old(faults) && SameQuarantine(old(names), names) && next >= old(next)
      ensures clock == old(clock) + 1 && (old(Alone()) ==> Alone()) && (old(Still()) ==> alive == old(alive))
      ensures log == if r.SeenId? then old(log) + [Saw(n, r.id.ino)] else old(log)
      ensures old(Still()) ==> names == old(names) && attrs == old(attrs) && next == old(next)
      ensures r.SeenId? ==> n in names && r.id == IdOf(names[n], attrs[names[n]])
      ensures r.SeenNothing? ==> n !in names
      ensures old(Still()) && faults == old(faults) ==> (r.SeenNothing? <==> n !in names) && !r.SeenFailure?
      ensures r.SeenFailure? <==> faults < old(faults)
      ensures n.Public? && turns(old(clock)).move == Some(Swap(n)) ==>
        names == old(names)[n := old(next)] && attrs == old(attrs)[old(next) := FOREIGN]
          && (faults == old(faults) ==> r.SeenId?)
    {
      hide Allowed, SameQuarantine, MayBecome, Swap;
      if n.Public? { SwapAllowed(n); }
      var fail := Interfere();
      if fail { return SeenFailure; }
      if n !in names { return SeenNothing; }
      log := log + [Saw(n, names[n])];
      r := SeenId(IdOf(names[n], attrs[names[n]]));
    }

    /** `_read`: the contents and the identity of a private, bounded regular file. */
    method Read(n: Name) returns (r: Option<(seq<int>, Id)>)
      requires Valid()
      modifies this
      ensures Valid() && faults <= old(faults) && SameQuarantine(old(names), names) && next >= old(next)
      ensures clock == old(clock) + 1 && (old(Alone()) ==> Alone()) && (old(Still()) ==> alive == old(alive))
      ensures log == if r.Some? then old(log) + [Saw(n, r.value.1.ino)] else old(log)
      ensures old(Still()) ==> names == old(names) && attrs == old(attrs) && next == old(next)
      ensures r.Some? ==> n in names && Readable(attrs[names[n]], euid)
                          && r.value == (attrs[names[n]].data, IdOf(names[n], attrs[names[n]])) && faults == old(faults)
      ensures old(Still()) && faults == old(faults) ==> (r.Some? <==> n in names && Readable(attrs[names[n]], euid))
    {
      hide Allowed, MayBecome, Swap;
      var fail := Interfere();
      if fail || n !in names { return None; }
      var a := attrs[names[n]];
      if a.kind != Regular || a.uid != euid || a.mode != 0x180 || a.nlink != 1 { return None; }  // 0o600
      if a.data == [] || |a.data| > 4096 { return None; }
      log := log + [Saw(n, names[n])];
      r := Some((attrs[names[n]].data, IdOf(names[n], attrs[names[n]])));
    }

    /** `renameat2` with RENAME_NOREPLACE; it changes the change time of what it moves. */
    method Rename(source: Name, target: Name, ghost own: set<Ino>) returns (ok: bool)
      requires Valid() && source != target
      modifies this
      ensures Valid() && faults <= old(faults) && next >= old(next)
      ensures clock == old(clock) + 1 && (old(Alone()) ==> Alone()) && (old(Still()) ==> alive == old(alive))
      ensures old(log) <= log && SafeSince(log, |old(log)|, own) && |log| <= |old(log)| + 1
      ensures forall n: Name :: n.Quarantine? && n != source && n != target ==> AgreeAt(old(names), names, n)
      ensures !ok ==> SameQuarantine(old(names), names) && log == old(log)
      ensures ok ==> target in names && source !in names && faults == old(faults)
      ensures ok ==> var t := Before(old(log), log, names);
        && source in t && target !in t && names == (t - {source})[target := t[source]]
        && Logged(old(log), log, old(names), t, names)
      ensures old(Still()) ==> next == old(next)
      ensures old(Still()) && !ok ==> names == old(names) && attrs == old(attrs)
      ensures old(Still()) && ok ==>
        && source in old(names) && target !in old(names)
        && names == (old(names) - {source})[target := old(names)[source]]
        && log == old(log) + [Changed(old(names), names)]
        && Touched(old(attrs), attrs, old(names)[source])
      ensures old(Still()) && faults == old(faults) ==> (ok <==> source in old(names) && target !in old(names))
    {
      hide Allowed, MayBecome, Swap, SafeChange, Bounded, Touched;
      var fail := Interfere();
      if fail || source !in names || target in names { return false; }
      RenameSafe(names, source, target, own);
      var i := names[source];
      var when: int := *;
      RenameBounded(names, attrs, next, source, target, when);
      log := log + [Changed(names, (names - {source})[target := i])];
      names, attrs := (names - {source})[target := i], attrs[i := attrs[i].(ctime := when)];
      ok := true;
    }

    /** `os.mkfifo`. */
    method Mkfifo(n: Name, ghost own: set<Ino>) returns (made: Option<Ino>)
      requires Valid() && n.Public?
      modifies this
      ensures Valid() && faults <= old(faults) && SameQuarantine(old(names), names) && next >= old(next)
      ensures clock == old(clock) + 1 && (old(Alone()) ==> Alone()) && (old(Still()) ==> alive == old(alive))
      ensures old(log) <= log && SafeSince(log, |old(log)|, own) && |log| <= |old(log)| + 1
      ensures made.None? ==> log == old(log)
      ensures made.Some? ==> made.value >= old(next) && n in names && names[n] == made.value && faults == old(faults)
      ensures made.Some? ==> var t := Before(old(log), log, names);
        n !in t && names == t[n := made.value] && Logged(old(log), log, old(names), t, names)
      ensures old(Still()) && made.None? ==> names == old(names) && attrs == old(attrs) && next == old(next)
      ensures old(Still()) && made.Some? ==>
        && made.value == old(next) && next == old(next) + 1
        && n !in old(names) && names == old(names)[n := made.value] && log == old(log) + [Changed(old(names), names)]
        && made.value !in old(attrs) && made.value in attrs && attrs == old(attrs)[made.value := attrs[made.value]]
        && var a := attrs[made.value]; a.kind == Fifo && a.mode == PRIVATE && a.nlink == 1
      ensures old(Still()) && faults == old(faults) ==> (made.Some? <==> n !in old(names))
    {
      hide Allowed, MayBecome, Swap;
      var fail := Interfere();
      if fail || n in names { return None; }
      var i, when: int := next, *;
      CreateSafe(names, n, i, own);
      log := log + [Changed(names, names[n := i])];
      names, attrs, next := names[n := i], attrs[i := Attr(Fifo, euid, 0, PRIVATE, 1, when, when, [])], next + 1;
      made := Some(i);
    }

    /** `os.unlink` of a quarantined object. */
    method Unlink(q: Name, ghost own: set<Ino>) returns (ok: bool)
      requires Valid() && q.Quarantine? && q in names && names[q] in own
      modifies this
      ensures Valid() && faults <= old(faults) && next >= old(next)
      ensures clock == old(clock) + 1 && (old(Alone()) ==> Alone()) && (old(Still()) ==> alive == old(alive))
      ensures old(log) <= log && SafeSince(log, |old(log)|, own) && |log| <= |old(log)| + 1
      ensures !ok ==> log == old(log)
      ensures ok ==> faults == old(faults)
      ensures ok ==> var t := Before(old(log), log, names);
        q in t && names == t - {q} && Logged(old(log), log, old(names), t, names)
      ensures old(Still()) ==> attrs == old(attrs) && next == old(next)
      ensures old(Still()) ==> names == if ok then old(names) - {q} else old(names)
      ensures old(Still()) && ok ==> log == old(log) + [Changed(old(names), names)]
      ensures old(Still()) && faults == old(faults) ==> ok
    {
      hide Allowed, MayBecome, Swap;
      var fail := Interfere();
      if fail { return false; }
      assert AgreeAt(old(names), names, q);
      UnlinkSafe(names, q, own);
      log := log + [Changed(names, names - {q})];
      names := names - {q};
      ok := true;
    }

    /** Anything that may fail without touching the directory: the directory check, fsync. */
    method Work(task: Task) returns (ok: bool)
      requires Valid()
      modifies this
      ensures Valid() && faults <= old(faults) && SameQuarantine(old(names), names) && next >= old(next)
      ensures log == if ok then old(log) + [Did(task)] else old(log)
      ensures clock == old(clock) + 1 && (old(Alone()) ==> Alone()) && (old(Still()) ==> alive == old(alive))
      ensures old(Still()) ==> names == old(names) && attrs == old(attrs) && next == old(next)
      ensures old(Still()) && faults == old(faults) ==> ok
    {
      hide Allowed, MayBecome, Swap;
      var fail := Interfere();
      ok := !fail;
      if ok { log := log + [Did(task)]; }
    }

    /** `_live`: the recorded process is the one that runs. */
    method Live() returns (ok: bool)
      requires Valid()
      modifies this
      ensures Valid() && faults <= old(faults) && log == old(log) && SameQuarantine(old(names), names)
        && next >= old(next)
      ensures clock == old(clock) + 1 && (old(Alone()) ==> Alone()) && (old(Still()) ==> alive == old(alive))
      ensures old(Still()) ==> names == old(names) && attrs == old(attrs) && next == old(next)
      ensures ok ==> alive && faults == old(faults)
      ensures old(Still()) && faults == old(faults) ==> (ok <==> alive)
    {
      hide Allowed, MayBecome, Swap;
      var fail := Interfere();
      ok := !fail && alive;
    }

    /** `_live` and `_same_directory`. */
    method LiveHere() returns (ok: bool)
      requires Valid()
      modifies this
      ensures Valid() && faults <= old(faults) && next >= old(next)
      ensures log == if ok then old(log) + [Did(Compare)] else old(log)
      ensures (ok ==> clock == old(clock) + 2) && (old(Alone()) ==> Alone())
      ensures old(StillFor(2)) ==>
        names == old(names) && attrs == old(attrs) && next == old(next) && alive == old(alive)
      ensures old(StillFor(2) && faults == 0) ==> (ok <==> alive)
    {
      hide Bounded, SameQuarantine;
      ok := Live();
      if ok { ok := Work(Compare); }
    }
  }

  /** Only the change time of inode `i` may differ. */
  ghost predicate Touched(a: map<Ino, Attr>, b: map<Ino, Attr>, i: Ino)
  {
    i in a && i in b && b == a[i := b[i]] && b[i] == a[i].(ctime := b[i].ctime)
  }

  /** That directory holds, under the name `held`, a readable record with these bytes and this identity. */
  ghost predicate HeldIn(t: Table, a: Attrs, held: Name, id: Option<Id>, data: seq<int>, euid: nat)
  {
    && id.Some? && held in t && t[held] == id.value.ino && t[held] in a
    && Readable(a[t[held]], euid) && a[t[held]].data == data && IdOf(t[held], a[t[held]]) == id.value
  }

  lemma RenameBounded(t: Table, a: Attrs, next: nat, source: Name, target: Name, when: int)
    requires Bounded(t, a, next) && source in t
    ensures t[source] in a
    ensures var i := t[source]; var b := a[i := a[i].(ctime := when)];
      Bounded((t - {source})[target := i], b, next) && Touched(a, b, i)
  {
  }

  /** The inodes that the guard may deprive of their last name: the one it recorded as its placeholder. */
  function Own(fifo: Option<Id>): set<Ino>
  {
    if fifo.Some? then {fifo.value.ino} else {}
  }

  function Mine(recorded: Option<Ino>): set<Ino>
  {
    if recorded.Some? then {recorded.value} else {}
  }

  /** The guard's own unlink: what was at `name` went through `q`. */
  ghost predicate UnlinkedSince(log: seq<Event>, from: nat, t: Table, name: Name, q: Name)
    requires name in t
  {
    exists k :: from <= k < |log| && log[k] == Changed((t - {name})[q := t[name]], t - {name})
  }

  /** The directory was synced and compared. */
  ghost predicate Settled(log: seq<Event>, from: nat)
  {
    DidSince(log, from, Sync) && DidSince(log, from, Compare)
  }

  lemma SettledStill(earlier: seq<Event>, later: seq<Event>, from: nat, since: nat)
    requires earlier <= later && since <= from && Settled(earlier, from)
    ensures Settled(later, since)
  {
    DidStill(earlier, later, from, since, Sync);
    DidStill(earlier, later, from, since, Compare);
  }

  class HiddenRecord {
    const dir: Directory
    const name: Name
    const held: Name
    const placeholder: bool
    const fits: seq<int> -> bool     // does a record describe the export and the binary?
    var data: seq<int>
    var original: Option<Id>
    var heldId: Option<Id>
    var fifoId: Option<Id>
    var hidden: bool
    ghost var made: Option<Ino>      // the inode of the guard's own `mkfifo`
    ghost var recorded: Option<Ino>  // the inode that the look after it recorded
    ghost var sight: Sight           // the directory at that look

    constructor (dir: Directory, name: string, held: string, placeholder: bool, fits: seq<int> -> bool)
      ensures this.dir == dir && this.name == Public(name) && this.held == Public(held)
      ensures this.placeholder == placeholder && this.fits == fits
      ensures original == None && heldId == None && fifoId == None && !hidden && made == None && recorded == None
    {
      this.dir, this.name, this.held, this.placeholder, this.fits := dir, Public(name), Public(held), placeholder, fits;
      data, original, heldId, fifoId, hidden, made, recorded := [], None, None, None, false, None, None;
      sight := Sight(map[], map[], false, 0, 0);
    }

    ghost predicate Valid()
      reads this, dir
    {
      && dir.Valid() && name.Public? && held.Public? && name != held
      && (fifoId.Some? ==> made.Some? && recorded == Some(fifoId.value.ino))
    }

    /** A record that `bind` accepts is at the name. */
    ghost predicate Bindable()
      reads this, dir
    {
      && dir.Valid() && name in dir.names && Readable(dir.attrs[dir.names[name]], dir.euid)
      && fits(dir.attrs[dir.names[name]].data) && dir.alive
    }

    /** It has been read and its identity taken. */
    ghost predicate Bound()
      reads this, dir
    {
      && dir.Valid() && original.Some? && name in dir.names && Readable(dir.attrs[dir.names[name]], dir.euid)
      && original.value == IdOf(dir.names[name], dir.attrs[dir.names[name]]) && data == dir.attrs[dir.names[name]].data
    }

    /** The record has its name again, with the bytes that were bound. */
    ghost predicate Back(ino: Ino)
      reads this, dir
    {
      name in dir.names && dir.names[name] == ino && ino in dir.attrs && dir.attrs[ino].data == data
    }

    /** The held record is exactly what was hidden, and nothing foreign is at the record's name. */
    ghost predicate Restorable(q: Name)
      reads this, dir
    {
      AsLeft() && (fifoId.Some? ==> q !in dir.names)
    }

    ghost predicate RecordAt(ino: Ino)
      reads this, dir
    {
      dir.Valid() && held in dir.names && dir.names[held] == ino && Readable(dir.attrs[ino], dir.euid)
        && dir.attrs[ino].data == data
    }

    ghost predicate HeldAsLeft()
      reads this, dir
    {
      dir.Valid() && HeldIn(dir.names, dir.attrs, held, heldId, data, dir.euid)
    }

    /** The recorded inode is the one that was at the name when the guard looked. */
    ghost predicate Looked()
      reads this
    {
      recorded.Some? && name in sight.names && sight.names[name] == recorded.value && recorded.value in sight.attrs
    }

    /** Its identity then is the one recorded, and a directory that was quiet since is as it was. */
    ghost predicate Watched()
      reads this, dir
    {
      && Looked() && fifoId == Some(IdOf(recorded.value, sight.attrs[recorded.value]))
      && (dir.QuietSince(sight) ==> dir.LooksLike(sight))
    }

    /** What the look saw is a private FIFO with one name, the record is held as it was left and its process runs. */
    ghost predicate Sound()
      reads this
    {
      && Looked() && HeldIn(sight.names, sight.attrs, held, heldId, data, dir.euid) && sight.alive
      && PrivateFifo(IdOf(recorded.value, sight.attrs[recorded.value]))
    }

    /** A file that the guard did not make is about to lose its only name: it was recorded as the placeholder,
        nothing refuses its removal, and it has no other name. */
    ghost predicate Doomed(q: Name)
      reads this
    {
      && Looked() && recorded != made && HeldIn(sight.names, sight.attrs, held, heldId, data, dir.euid)
      && q !in sight.names
      && !OtherName(sight.names, name, recorded.value)
    }

    /** Everything is as the guard left it. */
    ghost predicate AsLeft()
      reads this, dir
    {
      && HeldAsLeft()
      && if fifoId.Some?
         then name in dir.names && IdOf(dir.names[name], dir.attrs[dir.names[name]]) == fifoId.value
         else name !in dir.names
    }

    /** The record's inode has exactly one of the two names. */
    ghost predicate One(ino: Ino)
      reads this, dir
    {
      OneName(dir.names, name, held, ino)
    }

    /** In a directory that was quiet since the look, that file is doomed whose removal the exit will not refuse. */
    lemma DoomedMeans(q: Name)
      requires Watched() && dir.Valid() && dir.QuietSince(sight)
      ensures Doomed(q) <==> recorded != made && Restorable(q) && !OtherName(dir.names, name, recorded.value)
      ensures Doomed(q) ==> heldId.Some?
    {
      hide OtherName, IdOf, Readable;
    }

    /** `bind`: reads the record twice around the checks of the process behind it. */
    method Bind() returns (ok: bool)
      requires Valid()
      modifies this`data, this`original, dir
      ensures Valid() && dir.faults <= old(dir.faults) && (old(dir.Alone()) ==> dir.Alone())
      ensures old(dir.log) <= dir.log && SafeSince(dir.log, |old(dir.log)|, {})
      ensures Idle(dir.log, |old(dir.log)|)
      ensures ok ==> original.Some? && fits(data) && dir.clock == old(dir.clock) + 4
      ensures ok ==> DidSince(dir.log, |old(dir.log)|, Compare)
      ensures old(dir.StillFor(4)) ==>
        dir.names == old(dir.names) && dir.attrs == old(dir.attrs) && dir.next == old(dir.next)
          && dir.alive == old(dir.alive)
      ensures ok ==> Bound()
      ensures old(dir.StillFor(4) && dir.faults == 0) ==> (ok <==> old(Bindable()))
    {
      hide Readable, IdOf, SameQuarantine, AgreeAt, DidSince, Idle, SafeSince;
      assert Idle(dir.log, |dir.log|) by { NoneYet(dir.log); }
      LooksOnly(dir.log, |dir.log|);
      var first := dir.Read(name);
      ghost var mid := dir.log;
      if first.None? { return false; }
      OneLook(old(dir.log), dir.log, Saw(name, first.value.1.ino));
      LooksOnly(dir.log, |old(dir.log)|);
      data := first.value.0;
      if !fits(data) { return false; }
      ok := SameAgain(first.value);
      IdleStill(mid, dir.log, |old(dir.log)|);
      LooksOnly(dir.log, |old(dir.log)|);
      if !ok { return false; }
      DidStill(dir.log, dir.log, |mid|, |old(dir.log)|, Compare);
      original := Some(first.value.1);
    }

    /** The checks of the process, and the second reading. */
    method SameAgain(first: (seq<int>, Id)) returns (ok: bool)
      requires Valid()
      modifies dir
      ensures Valid() && dir.faults <= old(dir.faults) && (old(dir.Alone()) ==> dir.Alone())
      ensures old(dir.log) <= dir.log && Idle(dir.log, |old(dir.log)|)
      ensures ok ==> DidSince(dir.log, |old(dir.log)|, Compare) && dir.clock == old(dir.clock) + 3
      ensures ok ==> name in dir.names && Readable(dir.attrs[dir.names[name]], dir.euid)
                     && first == (dir.attrs[dir.names[name]].data, IdOf(dir.names[name], dir.attrs[dir.names[name]]))
      ensures old(dir.StillFor(3)) ==>
        dir.names == old(dir.names) && dir.attrs == old(dir.attrs) && dir.next == old(dir.next)
          && dir.alive == old(dir.alive)
      ensures old(dir.StillFor(3) && dir.faults == 0 && name in dir.names
                  && Readable(dir.attrs[dir.names[name]], dir.euid)
                  && first == (dir.attrs[dir.names[name]].data, IdOf(dir.names[name], dir.attrs[dir.names[name]]))) ==>
        (ok <==> old(dir.alive))
    {
      hide Readable, IdOf, SameQuarantine, AgreeAt;
      var live := dir.LiveHere();
      if !live { return false; }
      var again := dir.Read(name);
      if again.None? || again.value != first { return false; }
      assert dir.log[|old(dir.log)|] == Did(Compare);
      ok := true;
    }

    /** Takes the placeholder away through a private name; anything else found there is put back. */
    method RemovePlaceholder(q: Name) returns (ok: bool)
      requires Valid() && fifoId.Some? && q.Quarantine?
      modifies this`fifoId, dir
      ensures Valid() && dir.faults <= old(dir.faults) && (old(dir.Alone()) ==> dir.Alone())
      ensures old(dir.log) <= dir.log && SafeSince(dir.log, |old(dir.log)|, Own(old(fifoId)))
      ensures fifoId == if ok then None else old(fifoId)
      ensures old(dir.Alone()) && ok ==>
        && name in old(dir.names) && dir.names == old(dir.names) - {name}
        && Touched(old(dir.attrs), dir.attrs, old(dir.names)[name])
        && UnlinkedSince(dir.log, |old(dir.log)|, old(dir.names), name, q)
      ensures old(dir.Quiet()) ==>
        && (ok <==> name in old(dir.names) && q !in old(dir.names)
                    && IdOf(old(dir.names)[name], old(dir.attrs)[old(dir.names)[name]]) == old(fifoId).value)
        && (!ok ==> dir.names == old(dir.names) && dir.attrs == old(dir.attrs) && Idle(dir.log, |old(dir.log)|))
      ensures old(dir.Alone()) && OtherName(old(dir.names), name, old(fifoId).value.ino) ==>
        SafeSince(dir.log, |old(dir.log)|, {})
      ensures old(dir.Alone()) ==> forall k :: |old(dir.log)| <= k < |dir.log| && dir.log[k].Changed? ==>
        name !in dir.log[k].after && AgreeExcept(old(dir.names), dir.log[k].after, {name, q})
    {
      hide SafeChange, MayBecome, UnlinkedSince, OtherName, SafeSince, SameButCtime;
      var seen := dir.Stat(name);
      LooksOnly(dir.log, |old(dir.log)|);
      SafeWider(dir.log, |old(dir.log)|, {}, Own(fifoId));
      if !seen.SeenId? || seen.id != fifoId.value { return false; }
      ghost var own, mid := Own(fifoId), dir.log;
      var moved := dir.Rename(name, q, {});
      SafeLater(mid, dir.log, |old(dir.log)|, {});
      SafeWider(dir.log, |old(dir.log)|, {}, own);
      if !moved { return false; }
      if old(dir.Alone()) { Moved(old(dir.names), old(dir.attrs), dir.attrs, name, q); }
      mid := dir.log;
      ok := DropPlaceholder(q);
      SafeLater(mid, dir.log, |old(dir.log)|, own);
      SafeLaterIf(mid, dir.log, |old(dir.log)|, {});
      if old(dir.Alone()) && ok { DropMeans(old(dir.names), mid, dir.log, |old(dir.log)|, name, q); }
    }

    /** At `q` is what was recorded as the placeholder, but for the change time. */
    ghost predicate Recorded(q: Name)
      reads this, dir
      requires dir.Valid() && q in dir.names && fifoId.Some?
    {
      SameButCtime(IdOf(dir.names[q], dir.attrs[dir.names[q]]), fifoId.value)
    }

    /** The steps after the placeholder's rename. */
    method DropPlaceholder(q: Name) returns (ok: bool)
      requires Valid() && fifoId.Some? && q.Quarantine? && q in dir.names && name !in dir.names
      modifies this`fifoId, dir
      ensures Valid() && dir.faults <= old(dir.faults) && (old(dir.Alone()) ==> dir.Alone())
      ensures old(dir.log) <= dir.log && SafeSince(dir.log, |old(dir.log)|, Own(old(fifoId)))
      ensures fifoId == if ok then None else old(fifoId)
      ensures old(dir.Alone()) && OtherName(old(dir.names), q, old(fifoId).value.ino) ==>
        SafeSince(dir.log, |old(dir.log)|, {})
      ensures old(dir.Alone()) && ok ==>
        && dir.names == old(dir.names) - {q} && dir.attrs == old(dir.attrs)
        && |dir.log| == |old(dir.log)| + 2
        && dir.log[|old(dir.log)| + 1] == Changed(old(dir.names), old(dir.names) - {q})
      ensures old(dir.Quiet() && Recorded(q)) ==> ok
      ensures old(dir.Alone() && Recorded(q)) ==>
        forall k :: |old(dir.log)| <= k < |dir.log| && dir.log[k].Changed? ==> dir.log[k].after == old(dir.names) - {q}
    {
      hide SafeChange, MayBecome, OtherName, SafeSince;
      ghost var own := Own(fifoId);
      var now := dir.Stat(q);
      ghost var mid := dir.log;
      LooksOnly(mid, |old(dir.log)|);
      SafeWider(mid, |old(dir.log)|, {}, own);
      if !now.SeenId? { return false; }
      if !SameButCtime(now.id, fifoId.value) {
        var back := dir.Rename(q, name, {});
        SafeLater(mid, dir.log, |old(dir.log)|, {});
        SafeWider(dir.log, |old(dir.log)|, {}, own);
        return false;
      }
      var gone := dir.Unlink(q, own);
      SafeLater(mid, dir.log, |old(dir.log)|, own);
      if !gone { return false; }
      if old(dir.Alone()) && OtherName(old(dir.names), q, fifoId.value.ino) {
        UnlinkKeeps(mid, dir.log, |old(dir.log)|, old(dir.names), q);
      }
      fifoId := None;
      ok := true;
    }

    /** What the rename to the private name means for the placeholder. */
    lemma Moved(t: Table, a: Attrs, b: Attrs, name: Name, q: Name)
      requires name in t && q !in t && name != q && Touched(a, b, t[name])
      ensures var after := (t - {name})[q := t[name]];
        && after - {q} == t - {name} && SameButCtime(IdOf(t[name], b[t[name]]), IdOf(t[name], a[t[name]]))
        && (OtherName(after, q, t[name]) <==> OtherName(t, name, t[name]))
    {
      OtherMoved(t, name, q);
    }

    lemma DropMeans(t: Table, mid: seq<Event>, log: seq<Event>, from: nat, name: Name, q: Name)
      requires from <= |mid| && mid <= log && |log| == |mid| + 2 && name in t && q !in t && q != name
      requires log[|mid| + 1] == Changed((t - {name})[q := t[name]], (t - {name})[q := t[name]] - {q})
      ensures UnlinkedSince(log, from, t, name, q)
    {
      assert (t - {name})[q := t[name]] - {q} == t - {name};
    }

    /** `__exit__`.  In a quiet directory it restores exactly when everything is as the guard left it, and
        otherwise refuses without a change.  Whatever interferes, no change of it overwrites a name or takes
        the last name of an inode other than the recorded one.  In a quiet directory its changes are safe but for
        the FIFO that the guard made if and only if that was recorded, or the record cannot be restored, or the
        recorded inode has another name before the call. */
    method Exit(q: Name) returns (ok: bool)
      requires Valid() && q.Quarantine?
      modifies this`hidden, this`fifoId, dir
      ensures Valid() && dir.faults <= old(dir.faults) && (old(dir.Alone()) ==> dir.Alone())
      ensures old(dir.log) <= dir.log && SafeSince(dir.log, |old(dir.log)|, Own(old(fifoId)))
      ensures old(fifoId).Some? ==>
        (SafeSince(dir.log, |old(dir.log)|, {made.value})
         <==> recorded == made || KeepsNamed(dir.log, |old(dir.log)|, recorded.value))
      ensures old(dir.Quiet()) && old(fifoId).Some? ==>
        (SafeSince(dir.log, |old(dir.log)|, {made.value})
         <==> recorded == made || !old(hidden && Restorable(q)) || OtherName(old(dir.names), name, recorded.value))
      ensures !old(hidden) ==> ok && dir.log == old(dir.log) && !hidden
      ensures heldId.None? ==> dir.log == old(dir.log)
      ensures ok && old(hidden) ==>
        && !hidden && old(heldId).Some? && SawSince(dir.log, |old(dir.log)|, name, heldId.value.ino)
        && DidSince(dir.log, |old(dir.log)|, Compare) && DidSince(dir.log, |old(dir.log)|, Sync)
        && Back(heldId.value.ino)
      ensures old(hidden) && old(dir.Quiet()) ==> (ok <==> old(Restorable(q)))
      ensures old(hidden) && old(dir.Quiet()) && !ok ==> dir.names == old(dir.names) && dir.attrs == old(dir.attrs)
      ensures old(hidden) && old(dir.Alone()) && ok ==> Restored(old(dir.names), old(dir.attrs))
      ensures old(hidden) && old(dir.Alone()) && ok && old(fifoId).Some? ==>
        name in old(dir.names) && UnlinkedSince(dir.log, |old(dir.log)|, old(dir.names), name, q)
      ensures old(dir.Alone()) && heldId.Some? && old(One(heldId.value.ino)) ==>
        OneNameSince(dir.log, |old(dir.log)|, name, held, heldId.value.ino)
    {
      hide SafeChange, MayBecome, Readable, SafeSince, OneNameSince, UnlinkedSince, SawSince, KeepsNamed, Restored;
      hide OtherName, HeldIn, DidSince;
      ghost var was, t := fifoId, dir.names;
      if !hidden {
        NoChange(dir.log, Own(fifoId), name, held);
        NoChange(dir.log, {}, name, held);
        ok := true;
      } else {
        ok := Restore(q);
      }
      if was.Some? {
        SafeForIff(dir.log, |old(dir.log)|, was.value.ino, made.value);
        if old(dir.Quiet()) { ExitExact(dir.log, |old(dir.log)|, t, name, q, was.value.ino, made.value); }
      }
    }

    /** The changes of an exit are safe but for `m` if and only if that was recorded, nothing was unlinked or
        the recorded inode `x` had another name. */
    lemma ExitExact(log: seq<Event>, from: nat, t: Table, name: Name, q: Name, x: Ino, m: Ino)
      requires SafeSince(log, from, {x}) && (OtherName(t, name, x) ==> SafeSince(log, from, {}))
      ensures x == m || SafeSince(log, from, {}) || OtherName(t, name, x) ==> SafeSince(log, from, {m})
      ensures name in t && t[name] == x && q !in t && q != name && UnlinkedSince(log, from, t, name, q) ==>
        (SafeSince(log, from, {m}) <==> x == m || OtherName(t, name, x))
    {
      hide SafeSince, OtherName, UnlinkedSince;
      if SafeSince(log, from, {}) { SafeWider(log, from, {}, {m}); }
      if name in t && t[name] == x && q !in t && q != name && UnlinkedSince(log, from, t, name, q)
         && x != m && !OtherName(t, name, x) {
        LastNameLost(log, from, t, name, q, {m});
      }
    }

    lemma NoChange(log: seq<Event>, own: set<Ino>, name: Name, held: Name)
      ensures SafeSince(log, |log|, own) && forall ino :: OneNameSince(log, |log|, name, held, ino)
    {
    }

    /** The record is back: its inode at its name with its bytes, the held name and the placeholder gone. */
    ghost predicate Restored(t: Table, a: Attrs)
      reads this, dir
    {
      held in t && dir.names == (t - {held, name})[name := t[held]] && Alike(a, dir.attrs, t[held])
    }

    /** `__exit__` while the record is hidden. */
    method Restore(q: Name) returns (ok: bool)
      requires Valid() && q.Quarantine? && hidden
      modifies this`hidden, this`fifoId, dir
      ensures Valid() && dir.faults <= old(dir.faults) && (old(dir.Alone()) ==> dir.Alone())
      ensures old(dir.log) <= dir.log && SafeSince(dir.log, |old(dir.log)|, Own(old(fifoId)))
      ensures ok ==> !hidden && heldId.Some? && SawSince(dir.log, |old(dir.log)|, name, heldId.value.ino)
      ensures ok ==> Back(heldId.value.ino)
      ensures ok ==> DidSince(dir.log, |old(dir.log)|, Compare) && DidSince(dir.log, |old(dir.log)|, Sync)
      ensures heldId.None? ==> dir.log == old(dir.log)
      ensures old(dir.Quiet()) ==> (ok <==> old(Restorable(q)))
      ensures old(dir.Quiet()) && !ok ==>
        dir.names == old(dir.names) && dir.attrs == old(dir.attrs) && SafeSince(dir.log, |old(dir.log)|, {})
      ensures old(dir.Alone()) && old(fifoId).Some? && OtherName(old(dir.names), name, old(fifoId).value.ino) ==>
        SafeSince(dir.log, |old(dir.log)|, {})
      ensures old(dir.Alone()) && ok ==> Restored(old(dir.names), old(dir.attrs))
      ensures old(dir.Alone()) && ok && old(fifoId).Some? ==>
        name in old(dir.names) && UnlinkedSince(dir.log, |old(dir.log)|, old(dir.names), name, q)
      ensures old(dir.Alone()) && heldId.Some? && old(One(heldId.value.ino)) ==>
        OneNameSince(dir.log, |old(dir.log)|, name, held, heldId.value.ino)
    {
      hide SafeChange, MayBecome, Readable, UnlinkedSince, SawSince, OtherName, SafeSince, OneNameSince, IdOf, Touched,
           Alike, DidSince;
      NoChange(dir.log, Own(fifoId), name, held);
      NoChange(dir.log, {}, name, held);
      if heldId.None? { return false; }
      ghost var own, t, a := Own(fifoId), dir.names, dir.attrs;
      var ino := heldId.value.ino;
      var cleared := Clear(q);
      if !cleared { return false; }
      ghost var mid, b := dir.log, dir.attrs;
      ok := PutBack(ino);
      SafeLaterIf(mid, dir.log, |old(dir.log)|, {});
      SafeWider(dir.log, |mid|, {}, own);
      SafeLater(mid, dir.log, |old(dir.log)|, own);
      OneLater(mid, dir.log, |old(dir.log)|, name, held, ino);
      DidStill(mid, dir.log, |old(dir.log)|, |old(dir.log)|, Compare);
      if ok {
        SawStill(dir.log, dir.log, |mid|, |old(dir.log)|, name, ino);
        DidStill(dir.log, dir.log, |mid|, |old(dir.log)|, Sync);
      }
      if ok && old(dir.Alone()) { AlikeTwice(a, b, dir.attrs, ino); }
      if old(dir.Alone()) && old(fifoId).Some? {
        UnlinkedStill(mid, dir.log, |old(dir.log)|, |old(dir.log)|, t, name, q);
      }
    }

    /** The checks before the record is put back, and the removal of the placeholder. */
    method Clear(q: Name) returns (ok: bool)
      requires Valid() && q.Quarantine? && heldId.Some?
      modifies this`fifoId, dir
      ensures Valid() && dir.faults <= old(dir.faults) && (old(dir.Alone()) ==> dir.Alone())
      ensures old(dir.log) <= dir.log && SafeSince(dir.log, |old(dir.log)|, Own(old(fifoId)))
      ensures old(dir.Quiet()) ==> (ok <==> if old(fifoId).Some? then old(Restorable(q)) else old(HeldAsLeft()))
      ensures old(dir.Quiet()) && !ok ==>
        dir.names == old(dir.names) && dir.attrs == old(dir.attrs) && SafeSince(dir.log, |old(dir.log)|, {})
      ensures old(dir.Alone()) && (old(fifoId).None? || OtherName(old(dir.names), name, old(fifoId).value.ino)) ==>
        SafeSince(dir.log, |old(dir.log)|, {})
      ensures old(dir.Alone()) && ok ==>
        && RecordAt(heldId.value.ino) && Alike(old(dir.attrs), dir.attrs, heldId.value.ino)
        && dir.names == (if old(fifoId).Some? then old(dir.names) - {name} else old(dir.names))
        && (old(fifoId).None? ==> dir.attrs == old(dir.attrs))
      ensures old(dir.Alone()) && ok && old(fifoId).Some? ==>
        name in old(dir.names) && UnlinkedSince(dir.log, |old(dir.log)|, old(dir.names), name, q)
      ensures old(dir.Alone()) ==> OneNameSince(dir.log, |old(dir.log)|, name, held, heldId.value.ino)
      ensures ok ==> DidSince(dir.log, |old(dir.log)|, Compare)
    {
      hide DidSince;
      hide SafeChange, MayBecome, Readable, UnlinkedSince, OtherName, SafeSince, OneNameSince, Touched, IdOf, Idle,
           Alike, AgreeExcept, SameButCtime;
      var ino := heldId.value.ino;
      ok := HeldIntact();
      LooksOnly(dir.log, |old(dir.log)|);
      SafeWider(dir.log, |old(dir.log)|, {}, Own(fifoId));
      OnlyLooks(dir.log, |old(dir.log)|, name, held, ino);
      if ok && old(dir.Alone()) { AlikeSelf(dir.attrs, ino); }
      if !ok || fifoId.None? { return; }
      ghost var early, own := dir.log, Own(fifoId);
      ok := RemovePlaceholder(q);
      DidStill(early, dir.log, |old(dir.log)|, |old(dir.log)|, Compare);
      SafeLater(early, dir.log, |old(dir.log)|, own);
      SafeLaterIf(early, dir.log, |old(dir.log)|, {});
      LooksOnlyIf(early, dir.log, |old(dir.log)|);
      if old(dir.Alone()) {
        KeepsOneName(old(dir.names), dir.log, |early|, name, held, q, ino);
        OneLater(early, dir.log, |old(dir.log)|, name, held, ino);
        if ok {
          StillReadable(old(dir.attrs), dir.attrs, old(dir.names)[name], ino, dir.euid);
          UnlinkedStill(dir.log, dir.log, |early|, |old(dir.log)|, old(dir.names), name, q);
        }
      }
    }

    /** The held record is what was hidden, and the directory is the same. */
    method HeldIntact() returns (ok: bool)
      requires Valid() && heldId.Some?
      modifies dir
      ensures Valid() && dir.faults <= old(dir.faults) && old(dir.log) <= dir.log && (old(dir.Alone()) ==> dir.Alone())
      ensures Idle(dir.log, |old(dir.log)|)
      ensures old(dir.Alone()) ==> dir.names == old(dir.names) && dir.attrs == old(dir.attrs)
      ensures old(dir.Alone()) && ok ==> HeldAsLeft()
      ensures old(dir.Quiet()) ==> (ok <==> old(HeldAsLeft()))
      ensures ok ==> DidSince(dir.log, |old(dir.log)|, Compare)
    {
      hide Readable, SameQuarantine, AgreeAt;
      var record := dir.Read(held);
      if record.None? || record.value != (data, heldId.value) { return false; }
      ok := dir.Work(Compare);
      if ok { assert dir.log[|dir.log| - 1] == Did(Compare); }
    }

    lemma UnlinkedStill(earlier: seq<Event>, later: seq<Event>, from: nat, since: nat, t: Table, name: Name, q: Name)
      requires name in t && earlier <= later && since <= from && UnlinkedSince(earlier, from, t, name, q)
      ensures UnlinkedSince(later, since, t, name, q)
    {
      var k :| from <= k < |earlier| && earlier[k] == Changed((t - {name})[q := t[name]], t - {name});
      assert later[k] == earlier[k];
    }

    /** The last steps of a restoration: the rename back and the final reading. */
    method PutBack(ino: Ino) returns (ok: bool)
      requires Valid()
      modifies this`hidden, dir
      ensures Valid() && dir.faults <= old(dir.faults) && (old(dir.Alone()) ==> dir.Alone())
      ensures old(dir.log) <= dir.log && SafeSince(dir.log, |old(dir.log)|, {})
      ensures ok ==> !hidden && SawSince(dir.log, |old(dir.log)|, name, ino) && DidSince(dir.log, |old(dir.log)|, Sync)
      ensures ok ==> Back(ino)
      ensures old(dir.Alone()) && ok ==>
        && held in old(dir.names) && dir.names == (old(dir.names) - {held})[name := old(dir.names)[held]]
        && name !in old(dir.names) && Touched(old(dir.attrs), dir.attrs, old(dir.names)[held])
      ensures old(dir.Quiet() && RecordAt(ino)) ==>
        (ok <==> name !in old(dir.names)) && (!ok ==> dir.names == old(dir.names) && dir.attrs == old(dir.attrs))
      ensures old(dir.Alone()) && held in old(dir.names) && old(dir.names)[held] == ino ==>
        OneNameSince(dir.log, |old(dir.log)|, name, held, ino)
    {
      hide SafeChange, MayBecome, Readable, Alike, SameButCtime, Logged, Before, SameQuarantine, AgreeAt, SawSince,
           DidSince, Idle, SafeSince;
      var back := dir.Rename(held, name, {});
      if !back { return false; }
      hidden := false;
      ghost var mid := dir.log;
      if old(RecordAt(ino)) && old(dir.Alone()) { StillReadable(old(dir.attrs), dir.attrs, ino, ino, dir.euid); }
      ok := Confirm(ino);
      LooksOnly(dir.log, |mid|);
      SafeLater(mid, dir.log, |old(dir.log)|, {});
      OneStill(mid, dir.log, |old(dir.log)|, name, held, ino);
      if ok {
        SawStill(dir.log, dir.log, |mid|, |old(dir.log)|, name, ino);
        DidStill(dir.log, dir.log, |mid|, |old(dir.log)|, Sync);
      }
    }

    /** The sync after the rename and the final reading. */
    method Confirm(ino: Ino) returns (ok: bool)
      requires Valid()
      modifies dir
      ensures Valid() && dir.faults <= old(dir.faults) && (old(dir.Alone()) ==> dir.Alone())
      ensures old(dir.log) <= dir.log && Idle(dir.log, |old(dir.log)|)
      ensures ok ==> SawSince(dir.log, |old(dir.log)|, name, ino) && DidSince(dir.log, |old(dir.log)|, Sync)
      ensures ok ==> Back(ino)
      ensures old(dir.Alone()) ==> dir.names == old(dir.names) && dir.attrs == old(dir.attrs)
      ensures old(dir.Quiet() && dir.Valid() && Back(ino) && Readable(dir.attrs[ino], dir.euid)) ==> ok
    {
      hide Readable, SameQuarantine, AgreeAt;
      var synced := dir.Work(Sync);
      if !synced { return false; }
      var restored := dir.Read(name);
      if restored.None? || restored.value.0 != data || restored.value.1.ino != ino { return false; }
      assert dir.log[|dir.log| - 1] == Saw(name, ino) && dir.log[|old(dir.log)|] == Did(Sync);
      ok := true;
    }

    /** `check_hidden`. */
    method CheckHidden() returns (ok: bool)
      requires Valid() && heldId.Some?
      modifies dir
      ensures Valid() && dir.faults <= old(dir.faults) && old(dir.log) <= dir.log && (old(dir.Alone()) ==> dir.Alone())
      ensures Idle(dir.log, |old(dir.log)|)
      ensures old(dir.Alone()) ==>
        dir.names == old(dir.names) && dir.attrs == old(dir.attrs) && dir.alive == old(dir.alive)
      ensures ok ==> dir.alive && DidSince(dir.log, |old(dir.log)|, Compare)
      ensures old(dir.Alone()) && ok ==> AsLeft()
      ensures old(dir.Quiet()) ==> (ok <==> old(AsLeft()) && old(dir.alive))
    {
      hide Readable, SameQuarantine, AgreeAt;
      var same := dir.Work(Compare);
      if !same { return false; }
      assert dir.log[|old(dir.log)|] == Did(Compare);
      var record := dir.Read(held);
      if record.None? || record.value != (data, heldId.value) { return false; }
      var seen := dir.Stat(name);
      if fifoId.Some? {
        if !seen.SeenId? || seen.id != fifoId.value { return false; }
      } else if !seen.SeenNothing? {
        return false;
      }
      ok := dir.Live();
    }

    /** Nothing but that somebody puts another file in the FIFO's place before it is looked at. */
    ghost predicate SwapAhead(n: nat)
      reads this, dir
    {
      placeholder && dir.OnlySwap(name, dir.clock + n)
    }

    /** The FIFO at the record's name.  Its identity is recorded before it is examined, and it is whatever
        the name holds by then. */
    method PlacePlaceholder() returns (ok: bool)
      requires Valid() && fifoId.None?
      modifies this`fifoId, this`made, this`recorded, this`sight, dir
      ensures Valid() && dir.faults <= old(dir.faults) && (old(dir.Alone()) ==> dir.Alone())
      ensures old(dir.log) <= dir.log && SafeSince(dir.log, |old(dir.log)|, {})
      ensures ok ==> fifoId.Some? && fifoId.value.kind == Fifo
      ensures fifoId.Some? ==> Watched() && (ok <==> PrivateFifo(fifoId.value))
      ensures fifoId.None? ==> recorded == old(recorded)
      ensures fifoId.Some? ==> SawSince(dir.log, |old(dir.log)|, name, fifoId.value.ino)
      ensures old(dir.Alone()) && fifoId.Some? ==> recorded == made
      ensures old(dir.Alone()) ==> dir.alive == old(dir.alive)
      ensures old(dir.Alone()) && ok ==>
        && name !in old(dir.names) && dir.names == old(dir.names)[name := fifoId.value.ino]
        && fifoId.value.ino !in old(dir.attrs)
        && IdOf(dir.names[name], dir.attrs[dir.names[name]]) == fifoId.value
        && forall i :: i in old(dir.attrs) ==> i in dir.attrs && dir.attrs[i] == old(dir.attrs)[i]
      ensures old(dir.Alone()) && heldId.Some? && old(RecordAt(heldId.value.ino)) && name !in old(dir.names) ==>
        One(heldId.value.ino) && OneNameSince(dir.log, |old(dir.log)|, name, held, heldId.value.ino)
      ensures old(dir.Alone() && HeldAsLeft()) ==> HeldAsLeft()
      ensures old(dir.Quiet()) && name !in old(dir.names) ==> ok
      ensures old(SwapAhead(1)) && name !in old(dir.names) ==>
        !ok && Swapped(old(dir.names), old(dir.attrs), old(dir.next))
    {
      hide SafeChange, MayBecome, Swap, SawSince, Watched, PrivateFifo, Readable, SafeSince, OneNameSince, HeldIn,
           SameQuarantine, AgreeAt;
      var there := MakeFifo();
      if !there { return false; }
      ghost var mid := dir.log;
      ok := Recognize();
      LooksAfter(mid, dir.log, |old(dir.log)|, {});
      OneStill(mid, dir.log, |old(dir.log)|, name, held, if heldId.Some? then heldId.value.ino else 0);
      if fifoId.Some? { SawNow(dir.log, |old(dir.log)|, name, fifoId.value.ino); }
    }

    /** `os.mkfifo` at the record's name, and what it leaves of the held record. */
    method MakeFifo() returns (ok: bool)
      requires Valid() && fifoId.None?
      modifies this`made, dir
      ensures Valid() && dir.faults <= old(dir.faults) && (old(dir.Alone()) ==> dir.Alone())
        && dir.clock == old(dir.clock) + 1
      ensures old(dir.log) <= dir.log && SafeSince(dir.log, |old(dir.log)|, {})
      ensures ok ==> made.Some?
      ensures old(dir.Still()) ==> dir.alive == old(dir.alive)
      ensures old(dir.Still()) && !ok ==> dir.names == old(dir.names) && dir.attrs == old(dir.attrs)
      ensures old(dir.Still()) && ok ==>
        && made == Some(old(dir.next)) && dir.next == old(dir.next) + 1 && name !in old(dir.names)
        && dir.names == old(dir.names)[name := old(dir.next)] && old(dir.next) !in old(dir.attrs)
        && old(dir.next) in dir.attrs
        && dir.attrs == old(dir.attrs)[old(dir.next) := dir.attrs[old(dir.next)]]
        && PrivateFifo(IdOf(old(dir.next), dir.attrs[old(dir.next)]))
      ensures old(dir.Still()) && dir.faults == old(dir.faults) ==> (ok <==> name !in old(dir.names))
      ensures old(dir.Still()) && heldId.Some? && old(RecordAt(heldId.value.ino)) && name !in old(dir.names) ==>
        One(heldId.value.ino) && OneNameSince(dir.log, |old(dir.log)|, name, held, heldId.value.ino)
      ensures old(dir.Still() && HeldAsLeft()) ==> HeldAsLeft()
    {
      hide SafeChange, MayBecome, SameQuarantine, Readable, SafeSince, OneNameSince;
      var fifo := dir.Mkfifo(name, {});
      ok := fifo.Some?;
      if !ok {
        OnlyLooks(dir.log, |dir.log|, name, held, if heldId.Some? then heldId.value.ino else 0);
        return;
      }
      made := fifo;
      if old(dir.Still() && heldId.Some? && RecordAt(heldId.value.ino)) {
        PlacedOne(dir.log, |old(dir.log)|, old(dir.names), name, held, heldId.value.ino, fifo.value);
      }
    }

    /** The look at the placeholder, whose identity is recorded and then examined. */
    method Recognize() returns (ok: bool)
      requires Valid() && fifoId.None? && made.Some?
      modifies this`fifoId, this`recorded, this`sight, dir
      ensures Valid() && dir.faults <= old(dir.faults) && (old(dir.Alone()) ==> dir.Alone())
        && dir.clock == old(dir.clock) + 1
      ensures dir.log == old(dir.log) + if fifoId.Some? then [Saw(name, fifoId.value.ino)] else []
      ensures recorded == if fifoId.Some? then Some(fifoId.value.ino) else old(recorded)
      ensures ok ==> fifoId.Some? && fifoId.value.kind == Fifo
      ensures fifoId.Some? ==>
        Watched() && (ok <==> PrivateFifo(fifoId.value)) && sight.clock == dir.clock && sight.faults == dir.faults
      ensures old(dir.Still()) ==>
        && dir.names == old(dir.names) && dir.attrs == old(dir.attrs) && dir.alive == old(dir.alive)
        && (fifoId.Some? ==> name in dir.names && fifoId.value == IdOf(dir.names[name], dir.attrs[dir.names[name]]))
      ensures old(dir.Still()) && dir.faults == old(dir.faults) && name in dir.names ==> fifoId.Some?
      ensures dir.turns(old(dir.clock)).move == Some(Swap(name)) && old(dir.faults) == 0 ==>
        && !ok && dir.names == old(dir.names)[name := old(dir.next)]
        && dir.attrs == old(dir.attrs)[old(dir.next) := FOREIGN]
        && fifoId == Some(IdOf(old(dir.next), FOREIGN))
    {
      hide Swap, SameQuarantine;
      var seen := dir.Stat(name);
      if !seen.SeenId? { return false; }
      fifoId, recorded := Some(seen.id), Some(seen.id.ino);
      sight := Sight(dir.names, dir.attrs, dir.alive, dir.clock, dir.faults);
      ok := seen.id.kind == Fifo && seen.id.nlink == 1 && seen.id.mode == 0x180;  // 0o600
    }

    /** The state after the swap: the guard made inode `next`, recorded the foreign file `next + 1`, and nothing
        more will happen. */
    ghost predicate Swapped(t: Table, a: Attrs, next: nat)
      reads this, dir
    {
      && dir.Quiet() && dir.QuietSince(sight)
      && made == Some(next) && fifoId == Some(IdOf(next + 1, FOREIGN)) && recorded == Some(next + 1)
      && dir.names == t[name := next + 1] && next + 1 in dir.attrs && dir.attrs[next + 1] == FOREIGN
      && forall i :: i in a ==> i in dir.attrs && dir.attrs[i] == a[i]
    }

    /** The placeholder, if one is wanted, and the final check of `__enter__`. */
    method Cover() returns (ok: bool)
      requires Valid() && heldId.Some? && fifoId.None?
      modifies this`fifoId, this`made, this`recorded, this`sight, dir
      ensures Valid() && dir.faults <= old(dir.faults) && (old(dir.Alone()) ==> dir.Alone())
      ensures old(dir.log) <= dir.log && SafeSince(dir.log, |old(dir.log)|, {})
      ensures ok ==> fifoId.Some? == placeholder && dir.alive && Settled(dir.log, |old(dir.log)|)
      ensures fifoId.Some? ==> Watched() && (dir.QuietSince(sight) ==> (ok <==> Sound()))
      ensures fifoId.None? ==> recorded == old(recorded)
      ensures fifoId.Some? ==> placeholder && SawSince(dir.log, |old(dir.log)|, name, fifoId.value.ino)
      ensures old(dir.Alone()) && fifoId.Some? ==> recorded == made
      ensures old(dir.Alone()) && ok ==> AsLeft()
      ensures old(dir.Alone()) && ok ==>
        dir.names == old(dir.names) + (if placeholder then map[name := fifoId.value.ino] else map[])
      ensures old(dir.Alone()) && ok && placeholder ==> fifoId.value.ino !in old(dir.attrs)
      ensures old(dir.Quiet()) && name !in old(dir.names) && old(AsLeft()) ==> (ok <==> old(dir.alive))
      ensures old(dir.Alone() && RecordAt(heldId.value.ino)) && name !in old(dir.names) ==>
        One(heldId.value.ino) && OneNameSince(dir.log, |old(dir.log)|, name, held, heldId.value.ino)
      ensures old(SwapAhead(1)) && name !in old(dir.names) ==>
        !ok && Swapped(old(dir.names), old(dir.attrs), old(dir.next))
    {
      hide SafeChange, MayBecome, Readable, SawSince, Swapped, HeldIn, PrivateFifo, IdOf, SafeSince, OneNameSince,
           Settled;
      LooksOnly(dir.log, |old(dir.log)|);
      OnlyLooks(dir.log, |old(dir.log)|, name, held, heldId.value.ino);
      if placeholder {
        var placed := PlacePlaceholder();
        if !placed { return false; }
      }
      ghost var mid := dir.log;
      ok := Settle();
      if ok { SettledStill(dir.log, dir.log, |mid|, |old(dir.log)|); }
      LooksAfter(mid, dir.log, |old(dir.log)|, {});
      OneStill(mid, dir.log, |old(dir.log)|, name, held, heldId.value.ino);
      if fifoId.Some? { SawStill(mid, dir.log, |old(dir.log)|, |old(dir.log)|, name, fifoId.value.ino); }
      if old(dir.Alone()) && ok && !placeholder { assert dir.names == old(dir.names) + map[]; }
    }

    /** The sync of the directory and the check. */
    method Settle() returns (ok: bool)
      requires Valid() && heldId.Some?
      modifies dir
      ensures Valid() && dir.faults <= old(dir.faults) && old(dir.log) <= dir.log && (old(dir.Alone()) ==> dir.Alone())
      ensures Idle(dir.log, |old(dir.log)|)
      ensures old(dir.Alone()) ==>
        dir.names == old(dir.names) && dir.attrs == old(dir.attrs) && dir.alive == old(dir.alive)
      ensures ok ==> dir.alive && Settled(dir.log, |old(dir.log)|)
      ensures old(dir.Alone()) && ok ==> AsLeft()
      ensures old(dir.Quiet()) ==> (ok <==> old(AsLeft()) && old(dir.alive))
    {
      hide HeldIn, IdOf;
      var synced := dir.Work(Sync);
      if !synced { return false; }
      ghost var mid := dir.log;
      assert mid[|old(dir.log)|] == Did(Sync);
      ok := CheckHidden();
      if ok {
        DidStill(mid, dir.log, |old(dir.log)|, |old(dir.log)|, Sync);
        DidStill(dir.log, dir.log, |mid|, |old(dir.log)|, Compare);
      }
    }

    /** The part of `__enter__` after the binding. */
    method Hide() returns (ok: bool)
      requires Valid() && original.Some? && !hidden && heldId.None? && fifoId.None?
      modifies this`hidden, this`heldId, this`fifoId, this`made, this`recorded, this`sight, dir
      ensures Valid() && dir.faults <= old(dir.faults) && (old(dir.Alone()) ==> dir.Alone())
      ensures old(dir.log) <= dir.log && SafeSince(dir.log, |old(dir.log)|, {})
      ensures ok ==> hidden && heldId.Some? && fifoId.Some? == placeholder && dir.alive
      ensures ok ==> Settled(dir.log, |old(dir.log)|)
      ensures heldId.Some? ==> hidden && heldId.value.ino == original.value.ino
      ensures fifoId.Some? ==> Watched() && (dir.QuietSince(sight) ==> (ok <==> Sound()))
      ensures fifoId.None? ==> recorded == old(recorded)
      ensures fifoId.Some? ==> placeholder && SawSince(dir.log, |old(dir.log)|, name, fifoId.value.ino)
      ensures old(dir.Alone()) && fifoId.Some? ==> recorded == made
      ensures old(dir.Alone()) && ok ==> Hidden(old(dir.names), old(dir.attrs))
      ensures old(dir.Quiet() && Bound()) ==> (ok <==> held !in old(dir.names) && old(dir.alive))
      ensures old(dir.Alone() && Bound()) && OneName(old(dir.names), name, held, original.value.ino) ==>
        (heldId.Some? ==> One(original.value.ino))
          && OneNameSince(dir.log, |old(dir.log)|, name, held, original.value.ino)
      ensures old(SwapAhead(4) && Bound()) && held !in old(dir.names) ==>
        !ok && fifoId.Some? && SwapHidden(old(dir.names), old(dir.next))
    {
      hide SafeChange, MayBecome, Readable, SawSince, SafeSince, Watched, Sound, HeldIn, IdOf, Touched, OneNameSince,
           SameButCtime, OtherName, Swapped, SwapHidden, Bounded, Settled;
      var taken := Take();
      if !taken { return false; }
      ghost var mid, t, a, next := dir.log, dir.names, dir.attrs, dir.next;
      ok := Cover();
      if ok { SettledStill(dir.log, dir.log, |mid|, |old(dir.log)|); }
      SafeLater(mid, dir.log, |old(dir.log)|, {});
      OneLater(mid, dir.log, |old(dir.log)|, name, held, original.value.ino);
      if old(SwapAhead(4) && Bound()) && held !in old(dir.names) { SwapLeaves(old(dir.names), t, a, next); }
      if fifoId.Some? { SawStill(dir.log, dir.log, |mid|, |old(dir.log)|, name, fifoId.value.ino); }
    }

    /** The record is hidden, the foreign file is what was recorded and it has no other name. */
    ghost predicate SwapHidden(t: Table, next: nat)
      reads this, dir
    {
      && dir.Quiet() && dir.QuietSince(sight) && hidden && AsLeft() && fifoId.Some?
      && made == Some(next) && recorded == Some(next + 1) && !OtherName(dir.names, name, next + 1)
      && name in t && held !in t && dir.names == (t - {name})[held := t[name]][name := next + 1]
    }

    lemma SwapLeaves(before: Table, t: Table, a: Attrs, next: nat)
      requires dir.Valid() && HeldIn(t, a, held, heldId, data, dir.euid) && name != held && hidden
      requires name in before && held !in before && t == (before - {name})[held := before[name]]
      requires Swapped(t, a, next) && Bounded(t, a, next)
      ensures SwapHidden(before, next)
    {
    }

    /** The exit that follows will remove it, and then the names are those from before the guard. */
    lemma SwapDoomed(t: Table, next: nat, q: Name)
      requires SwapHidden(t, next) && Watched() && Valid() && q.Quarantine? && q !in t
      ensures Doomed(q) && hidden && Restorable(q) && made == Some(next) && recorded == Some(next + 1)
      ensures dir.Quiet() && dir.QuietSince(sight)
      ensures held in dir.names && (dir.names - {held, name})[name := dir.names[held]] == t
    {
      hide OtherName, HeldIn, IdOf;
      DoomedMeans(q);
    }

    /** The rename to the held name, and the reading of what came there. */
    method Take() returns (ok: bool)
      requires Valid() && original.Some? && !hidden && heldId.None?
      modifies this`hidden, this`heldId, dir
      ensures Valid() && dir.faults <= old(dir.faults) && (old(dir.Alone()) ==> dir.Alone())
      ensures old(dir.log) <= dir.log && SafeSince(dir.log, |old(dir.log)|, {})
      ensures ok <==> heldId.Some?
      ensures ok ==> hidden && heldId.value.ino == original.value.ino && dir.clock == old(dir.clock) + 3
      ensures old(dir.StillFor(3)) && ok ==>
        Taken(old(dir.names), old(dir.attrs)) && dir.next == old(dir.next) && dir.alive == old(dir.alive)
      ensures old(dir.StillFor(3) && dir.faults == 0 && Bound()) ==> (ok <==> held !in old(dir.names))
      ensures old(dir.Alone() && Bound()) && OneName(old(dir.names), name, held, original.value.ino) ==>
        OneNameSince(dir.log, |old(dir.log)|, name, held, original.value.ino)
    {
      hide SafeChange, MayBecome, Readable, OneNameSince, SafeSince, SameQuarantine, AgreeAt, Alike;
      ghost var ino := original.value.ino;
      var moved := MoveRecord();
      if !moved { return false; }
      hidden := true;
      if old(dir.StillFor(3)) { StillReadable(old(dir.attrs), dir.attrs, ino, ino, dir.euid); }
      ghost var mid := dir.log;
      var record := dir.Read(held);
      LooksAfter(mid, dir.log, |old(dir.log)|, {});
      OneStill(mid, dir.log, |old(dir.log)|, name, held, ino);
      if record.None? || record.value.0 != data || record.value.1.ino != original.value.ino { return false; }
      heldId := Some(record.value.1);
      ok := true;
    }

    /** The look at the record and its rename. */
    method MoveRecord() returns (ok: bool)
      requires Valid() && original.Some?
      modifies dir
      ensures Valid() && dir.faults <= old(dir.faults) && (old(dir.Alone()) ==> dir.Alone())
      ensures old(dir.log) <= dir.log && SafeSince(dir.log, |old(dir.log)|, {})
      ensures ok ==> dir.clock == old(dir.clock) + 2
      ensures old(dir.StillFor(2)) ==> dir.next == old(dir.next) && dir.alive == old(dir.alive)
      ensures old(dir.StillFor(2)) && ok ==>
        && name in old(dir.names) && held !in old(dir.names) && old(dir.names)[name] == original.value.ino
        && IdOf(original.value.ino, old(dir.attrs)[original.value.ino]) == original.value
        && dir.names == (old(dir.names) - {name})[held := original.value.ino]
        && Touched(old(dir.attrs), dir.attrs, original.value.ino)
      ensures old(dir.StillFor(2) && dir.faults == 0 && Bound()) ==> (ok <==> held !in old(dir.names))
      ensures old(dir.Alone() && Bound()) ==> OneNameSince(dir.log, |old(dir.log)|, name, held, original.value.ino)
    {
      hide SafeChange, MayBecome, Readable, OneNameSince;
      ghost var ino, t := original.value.ino, dir.names;
      var seen := dir.Stat(name);
      OnlyLooks(dir.log, |old(dir.log)|, name, held, ino);
      if !seen.SeenId? || seen.id != original.value { return false; }
      ok := dir.Rename(name, held, {});
      if old(dir.Alone() && Bound()) && ok { MovedOne(dir.log, |old(dir.log)|, t, name, held, ino); }
    }

    /** The record has changed its name and its change time only. */
    ghost predicate Taken(t: Table, a: Attrs)
      reads this, dir
    {
      && heldId.Some? && HeldAsLeft() && name in t && held !in t && t[name] == heldId.value.ino
      && dir.names == (t - {name})[held := heldId.value.ino] && Touched(a, dir.attrs, heldId.value.ino)
      && RecordAt(heldId.value.ino) && heldId.value.ino in a && dir.attrs.Keys == a.Keys
      && SameButCtime(heldId.value, IdOf(heldId.value.ino, a[heldId.value.ino]))
    }

    /** The record is under the held name, unchanged but for its change time, with the placeholder in its place. */
    ghost predicate Hidden(t: Table, a: Attrs)
      reads this, dir
    {
      && name in t && held !in t && AsLeft() && heldId.value.ino == t[name]
      && fifoId.Some? == placeholder && (placeholder ==> fifoId.value.ino !in a)
      && dir.names == (t - {name})[held := heldId.value.ino]
         + (if placeholder then map[name := fifoId.value.ino] else map[])
      && heldId.value.ino in a && SameButCtime(heldId.value, IdOf(heldId.value.ino, a[heldId.value.ino]))
    }

    /** What there is to restore from a hidden record. */
    lemma HiddenMeans(t: Table, a: Attrs, q: Name)
      requires Hidden(t, a) && data == a[heldId.value.ino].data && Valid() && q.Quarantine?
      ensures name in t && held !in t && heldId.value.ino == t[name] && Alike(a, dir.attrs, t[name])
      ensures held in dir.names && dir.names[held] == t[name] && (dir.names - {held, name})[name := t[name]] == t
      ensures One(t[name]) && (q !in t ==> Restorable(q))
    {
    }

    /** `__enter__`, with the exit that a failure triggers.  Whatever interferes, nothing is overwritten and only
        the recorded inode may lose its last name.  In a directory that is quiet from the look after `mkfifo` on,
        the changes are safe but for the FIFO that the guard made if and only if what the look met is sound, so
        that there is no exit yet, or holds no foreign file that the exit would deprive of its only name. */
    method Enter(q: Name) returns (ok: bool)
      requires Valid() && q.Quarantine? && !hidden && heldId.None? && fifoId.None? && recorded.None?
      modifies this, dir
      ensures Valid() && dir.faults <= old(dir.faults) && (old(dir.Alone()) ==> dir.Alone())
      ensures old(dir.log) <= dir.log && SafeSince(dir.log, |old(dir.log)|, Mine(recorded))
      ensures recorded.Some? ==>
        && placeholder && made.Some? && SawSince(dir.log, |old(dir.log)|, name, recorded.value)
        && (SafeSince(dir.log, |old(dir.log)|, {made.value})
            <==> recorded == made || KeepsNamed(dir.log, |old(dir.log)|, recorded.value))
      ensures recorded.Some? && dir.QuietSince(sight) ==>
        && Looked() && (ok <==> Sound())
        && (SafeSince(dir.log, |old(dir.log)|, {made.value}) <==> Sound() || !Doomed(q))
      ensures old(dir.Alone()) && recorded.Some? ==> recorded == made
      ensures ok ==> hidden && heldId.Some? && fifoId.Some? == placeholder && dir.alive
      ensures ok ==> Settled(dir.log, |old(dir.log)|)
      ensures ok ==> if placeholder then Watched() else recorded.None?
      ensures old(dir.Alone()) && ok ==>
        Hidden(old(dir.names), old(dir.attrs)) && data == old(dir.attrs)[heldId.value.ino].data
      ensures old(dir.Quiet()) ==> (ok <==> old(Bindable()) && held !in old(dir.names))
      ensures old(dir.Alone()) && name in old(dir.names)
              && OneName(old(dir.names), name, held, old(dir.names)[name]) ==>
        OneNameSince(dir.log, |old(dir.log)|, name, held, old(dir.names)[name])
      ensures old(SwapAhead(8) && Bindable()) && held !in old(dir.names) && q !in old(dir.names) ==>
        && !ok && dir.names == old(dir.names) && made == Some(old(dir.next)) && recorded == Some(old(dir.next) + 1)
        && !KeepsNamed(dir.log, |old(dir.log)|, old(dir.next) + 1)
    {
      hide SafeChange, MayBecome, Readable, SawSince, SafeSince, OneNameSince, KeepsNamed, UnlinkedSince, HeldIn,
           OtherName, Sound, Doomed, Looked, Watched, Bounded, Settled, DidSince, Idle;
      ok := Bind();
      ghost var early := dir.log;
      OnlyLooks(early, |old(dir.log)|, name, held, if name in old(dir.names) then old(dir.names)[name] else 0);
      if !ok { return; }
      ok := HideOrExit(q);
      if ok { SettledStill(dir.log, dir.log, |early|, |old(dir.log)|); }
      AfterLooks(early, dir.log, |old(dir.log)|, name, held, original.value.ino, recorded, made);
    }

    /** The part of `__enter__` after the binding, and the exit if it fails. */
    method HideOrExit(q: Name) returns (ok: bool)
      requires Valid() && original.Some? && q.Quarantine? && !hidden && heldId.None? && fifoId.None? && recorded.None?
      modifies this`hidden, this`heldId, this`fifoId, this`made, this`recorded, this`sight, dir
      ensures Valid() && dir.faults <= old(dir.faults) && (old(dir.Alone()) ==> dir.Alone())
      ensures old(dir.log) <= dir.log && SafeSince(dir.log, |old(dir.log)|, Mine(recorded))
      ensures recorded.Some? ==> placeholder && made.Some? && SawSince(dir.log, |old(dir.log)|, name, recorded.value)
      ensures recorded.Some? && dir.QuietSince(sight) ==>
        && Looked() && (ok <==> Sound())
        && (SafeSince(dir.log, |old(dir.log)|, {made.value}) <==> Sound() || !Doomed(q))
      ensures old(dir.Alone()) && recorded.Some? ==> recorded == made
      ensures ok ==> hidden && heldId.Some? && fifoId.Some? == placeholder && dir.alive
      ensures ok ==> Settled(dir.log, |old(dir.log)|)
      ensures ok ==> if placeholder then Watched() else recorded.None?
      ensures old(dir.Alone()) && ok ==> Hidden(old(dir.names), old(dir.attrs))
      ensures old(dir.Quiet() && Bound()) ==> (ok <==> held !in old(dir.names) && old(dir.alive))
      ensures old(dir.Alone() && Bound()) && OneName(old(dir.names), name, held, original.value.ino) ==>
        OneNameSince(dir.log, |old(dir.log)|, name, held, original.value.ino)
      ensures old(SwapAhead(4) && Bound()) && held !in old(dir.names) && q !in old(dir.names) ==>
        && !ok && dir.names == old(dir.names) && made == Some(old(dir.next)) && recorded == Some(old(dir.next) + 1)
        && dir.QuietSince(sight) && Doomed(q) && !Sound()
    {
      hide SafeChange, MayBecome, Readable, SawSince, SafeSince, OneNameSince, KeepsNamed, UnlinkedSince, HeldIn,
           OtherName, IdOf, Hidden, Bounded, Doomed, Sound, Looked, SwapHidden, Restorable, Settled;
      ok := Hide();
      ghost var mid := dir.log;
      SafeWider(mid, |old(dir.log)|, {}, Mine(recorded));
      if made.Some? { SafeWider(mid, |old(dir.log)|, {}, {made.value}); }
      if ok { return; }
      if old(SwapAhead(4) && Bound()) && held !in old(dir.names) && q !in old(dir.names) {
        SwapDoomed(old(dir.names), old(dir.next), q);
      }
      Abort(q);
      SafeLater(mid, dir.log, |old(dir.log)|, Mine(recorded));
      OneLater(mid, dir.log, |old(dir.log)|, name, held, original.value.ino);
      if recorded.Some? {
        SawStill(mid, dir.log, |old(dir.log)|, |old(dir.log)|, name, recorded.value);
        ExactLater(mid, dir.log, |old(dir.log)|, {made.value});
      }
    }

    /** The exit that a failing `__enter__` triggers. */
    method Abort(q: Name)
      requires Valid() && q.Quarantine? && original.Some?
        && (heldId.Some? ==> hidden && heldId.value.ino == original.value.ino)
      requires if fifoId.Some? then Watched() else recorded.None?
      modifies this`hidden, this`fifoId, dir
      ensures Valid() && dir.faults <= old(dir.faults) && (old(dir.Alone()) ==> dir.Alone())
      ensures old(dir.log) <= dir.log && SafeSince(dir.log, |old(dir.log)|, Mine(recorded))
      ensures recorded.Some? && dir.QuietSince(sight) ==>
        (SafeSince(dir.log, |old(dir.log)|, {made.value}) <==> !Doomed(q))
      ensures Looked() == old(Looked()) && Sound() == old(Sound()) && Doomed(q) == old(Doomed(q))
      ensures old(dir.Alone()) && (heldId.Some? ==> old(One(original.value.ino))) ==>
        OneNameSince(dir.log, |old(dir.log)|, name, held, original.value.ino)
      ensures old(dir.Quiet() && hidden && Restorable(q)) ==>
        held in old(dir.names) && dir.names == (old(dir.names) - {held, name})[name := old(dir.names)[held]]
    {
      hide SafeChange, MayBecome, Readable, SawSince, SafeSince, OneNameSince, KeepsNamed, UnlinkedSince, HeldIn,
           OtherName, IdOf, Alike;
      if fifoId.Some? && dir.QuietSince(sight) { DoomedMeans(q); }
      OnlyLooks(dir.log, |old(dir.log)|, name, held, original.value.ino);
      var restored := Exit(q);
    }
  }

  /** What is said of a log is said of it from some looks earlier. */
  lemma AfterLooks(early: seq<Event>, later: seq<Event>, from: nat, name: Name, held: Name, ino: Ino,
      recorded: Option<Ino>, made: Option<Ino>)
    requires early <= later && from <= |early| && Idle(early, from) && SafeSince(later, |early|, Mine(recorded))
    requires recorded.Some? ==> made.Some? && SawSince(later, |early|, name, recorded.value)
    ensures SafeSince(later, from, Mine(recorded))
    ensures OneNameSince(later, |early|, name, held, ino) ==> OneNameSince(later, from, name, held, ino)
    ensures recorded.Some? ==>
      && SawSince(later, from, name, recorded.value)
      && (SafeSince(later, from, {made.value}) <==> recorded == made || KeepsNamed(later, from, recorded.value))
      && (SafeSince(later, from, {made.value}) <==> SafeSince(later, |early|, {made.value}))
  {
    hide SafeSince, OneNameSince, SawSince, KeepsNamed, Idle;
    SafeIdle(early, from, Mine(recorded));
    SafeLater(early, later, from, Mine(recorded));
    OnlyLooks(early, from, name, held, ino);
    OneLater(early, later, from, name, held, ino);
    if recorded.Some? {
      SawStill(later, later, |early|, from, name, recorded.value);
      SafeForIff(later, from, recorded.value, made.value);
      SafeIdle(early, from, {made.value});
      ExactLater(early, later, from, {made.value});
    }
  }

  lemma OneLater(earlier: seq<Event>, later: seq<Event>, from: nat, name: Name, held: Name, ino: Ino)
    requires earlier <= later
    ensures OneNameSince(earlier, from, name, held, ino) && OneNameSince(later, |earlier|, name, held, ino) ==>
      OneNameSince(later, from, name, held, ino)
  {
  }

  lemma NoneYet(log: seq<Event>)
    ensures Idle(log, |log|)
  {
  }

  lemma OneLook(earlier: seq<Event>, later: seq<Event>, e: Event)
    requires later == earlier + [e] && !e.Changed?
    ensures Idle(later, |earlier|)
  {
  }

  lemma IdleStill(earlier: seq<Event>, later: seq<Event>, from: nat)
    requires earlier <= later && Idle(earlier, from) && Idle(later, |earlier|)
    ensures Idle(later, from)
  {
    forall k | from <= k < |later| ensures !later[k].Changed? {
      if k < |earlier| { assert later[k] == earlier[k]; }
    }
  }

  lemma LooksOnly(log: seq<Event>, from: nat)
    requires Idle(log, from)
    ensures SafeSince(log, from, {})
  {
  }

  lemma LooksOnlyIf(earlier: seq<Event>, later: seq<Event>, from: nat)
    requires earlier <= later && Idle(earlier, from)
    ensures Idle(later, |earlier|) ==> SafeSince(later, from, {})
  {
  }

  lemma LooksAfter(earlier: seq<Event>, later: seq<Event>, from: nat, own: set<Ino>)
    requires earlier <= later && from <= |earlier| && SafeSince(earlier, from, own) && Idle(later, |earlier|)
    ensures SafeSince(later, from, own)
  {
  }

  lemma SafeLaterIf(earlier: seq<Event>, later: seq<Event>, from: nat, own: set<Ino>)
    requires earlier <= later
    ensures SafeSince(earlier, from, own) && SafeSince(later, |earlier|, own) ==> SafeSince(later, from, own)
  {
  }

  lemma ExactLater(earlier: seq<Event>, later: seq<Event>, from: nat, own: set<Ino>)
    requires earlier <= later && from <= |earlier| && SafeSince(earlier, from, own)
    ensures SafeSince(later, from, own) <==> SafeSince(later, |earlier|, own)
  {
  }

  lemma OnlyLooks(log: seq<Event>, from: nat, name: Name, held: Name, ino: Ino)
    requires Idle(log, from)
    ensures OneNameSince(log, from, name, held, ino)
  {
  }

  lemma MovedOne(log: seq<Event>, from: nat, t: Table, name: Name, held: Name, ino: Ino)
    requires name != held && forall k :: from <= k < |log| && log[k].Changed? ==>
      log[k].after == (t - {name})[held := ino]
    ensures OneNameSince(log, from, name, held, ino)
  {
  }

  lemma OneStill(earlier: seq<Event>, later: seq<Event>, from: nat, name: Name, held: Name, ino: Ino)
    requires earlier <= later && Idle(later, |earlier|)
    ensures OneNameSince(earlier, from, name, held, ino) ==> OneNameSince(later, from, name, held, ino)
  {
  }

  lemma PlacedOne(log: seq<Event>, from: nat, t: Table, name: Name, held: Name, ino: Ino, i: Ino)
    requires name != held && held in t && t[held] == ino && ino != i
    requires |log| == from + 1 && log[from] == Changed(t, t[name := i])
    ensures OneNameSince(log, from, name, held, ino)
  {
  }

  /** Inode `i` is the same but for its change time. */
  ghost predicate Alike(a: Attrs, b: Attrs, i: Ino)
  {
    i in a && i in b && SameButCtime(IdOf(i, b[i]), IdOf(i, a[i])) && b[i].data == a[i].data
  }

  lemma AlikeSelf(a: Attrs, i: Ino)
    requires i in a
    ensures Alike(a, a, i)
  {
  }

  lemma AlikeTwice(a: Attrs, b: Attrs, c: Attrs, i: Ino)
    requires Alike(a, b, i) && (Touched(b, c, i) || Alike(b, c, i))
    ensures Alike(a, c, i)
  {
  }

  lemma StillReadable(a: Attrs, b: Attrs, j: Ino, i: Ino, euid: nat)
    requires Touched(a, b, j) && i in a
    ensures i in b && (Readable(a[i], euid) <==> Readable(b[i], euid)) && Alike(a, b, i) && a[i].data == b[i].data
  {
  }

  lemma KeepsOneName(before: Table, log: seq<Event>, from: nat, name: Name, held: Name, q: Name, ino: Ino)
    requires held !in {name, q} && name != q && held in before && before[held] == ino
    requires forall k :: from <= k < |log| && log[k].Changed? ==>
      name !in log[k].after && AgreeExcept(before, log[k].after, {name, q})
    ensures OneNameSince(log, from, name, held, ino)
  {
  }

  // ---------------------------------------------------------------- the whole protocol

  /** Hide, look, restore.  Whatever interferes, the safety of `Enter` and `Exit`.  In a directory that is quiet
      from the look at the placeholder on, the changes are safe but for the FIFO that the guard made if and only
      if no foreign file was doomed at that look.  With nobody else about, the record's inode has exactly one of
      the two names after every change.  In a quiet directory the original inode is back at its name with its
      bytes, and the held name and the placeholder are gone: the directory is as it was. */
  method HideAndRestore(guard: HiddenRecord, q: Name) returns (ok: bool)
    requires guard.Valid() && q.Quarantine?
    requires !guard.hidden && guard.heldId.None? && guard.fifoId.None? && guard.recorded.None?
    modifies guard, guard.dir
    ensures guard.Valid() && (ok ==> !guard.hidden)
    ensures ok ==> guard.heldId.Some? && guard.Back(guard.heldId.value.ino)
    ensures var dir := guard.dir; old(dir.log) <= dir.log && SafeSince(dir.log, |old(dir.log)|, Mine(guard.recorded))
    ensures var dir := guard.dir; guard.recorded.Some? ==>
      && guard.made.Some? && SawSince(dir.log, |old(dir.log)|, guard.name, guard.recorded.value)
      && (SafeSince(dir.log, |old(dir.log)|, {guard.made.value})
          <==> guard.recorded == guard.made || KeepsNamed(dir.log, |old(dir.log)|, guard.recorded.value))
    ensures var dir := guard.dir; guard.recorded.Some? && dir.QuietSince(guard.sight) ==>
      guard.Looked() && (SafeSince(dir.log, |old(dir.log)|, {guard.made.value}) <==> !guard.Doomed(q))
    ensures var dir := guard.dir;
      old(dir.Alone()) && guard.name in old(dir.names)
      && OneName(old(dir.names), guard.name, guard.held, old(dir.names)[guard.name]) ==>
      OneNameSince(dir.log, |old(dir.log)|, guard.name, guard.held, old(dir.names)[guard.name])
    ensures var dir := guard.dir; old(dir.Quiet()) && q !in old(dir.names) ==>
      && (ok <==> old(guard.Bindable()) && guard.held !in old(dir.names))
      && (ok ==> dir.names == old(dir.names)
                 && Alike(old(dir.attrs), dir.attrs, old(dir.names)[guard.name]))
  {
    hide SafeChange, MayBecome, Readable, SafeSince, OneNameSince, SawSince, KeepsNamed, UnlinkedSince, OtherName,
         Alike, HiddenRecord.Hidden, HiddenRecord.Restorable, HiddenRecord.Sound, HiddenRecord.Watched;
    var dir := guard.dir;
    ok := guard.Enter(q);
    if !ok { return; }
    ghost var mid, a := dir.log, dir.attrs;
    if old(dir.Alone()) { guard.HiddenMeans(old(dir.names), old(dir.attrs), q); }
    ok := Release(guard, q);
    SafeLater(mid, dir.log, |old(dir.log)|, Mine(guard.recorded));
    if guard.recorded.Some? {
      SawStill(mid, dir.log, |old(dir.log)|, |old(dir.log)|, guard.name, guard.recorded.value);
      SafeForIff(dir.log, |old(dir.log)|, guard.recorded.value, guard.made.value);
      if dir.QuietSince(guard.sight) { ExactLater(mid, dir.log, |old(dir.log)|, {guard.made.value}); }
    }
    OneLater(mid, dir.log, |old(dir.log)|, guard.name, guard.held, guard.heldId.value.ino);
    if old(dir.Alone()) && ok { AlikeTwice(old(dir.attrs), a, dir.attrs, guard.heldId.value.ino); }
  }

  /** The look at the hidden record, and its restoration. */
  method Release(guard: HiddenRecord, q: Name) returns (ok: bool)
    requires guard.Valid() && q.Quarantine? && guard.hidden && guard.heldId.Some?
    requires if guard.fifoId.Some? then guard.Watched() else guard.recorded.None?
    modifies guard`hidden, guard`fifoId, guard.dir
    ensures guard.Valid() && (ok ==> !guard.hidden)
    ensures ok ==> guard.heldId.Some? && guard.Back(guard.heldId.value.ino)
    ensures var dir := guard.dir; old(dir.log) <= dir.log && SafeSince(dir.log, |old(dir.log)|, Mine(guard.recorded))
    ensures var dir := guard.dir; guard.recorded.Some? && dir.QuietSince(guard.sight) ==>
      (SafeSince(dir.log, |old(dir.log)|, {guard.made.value}) <==> !guard.Doomed(q))
    ensures var dir := guard.dir; old(dir.Alone() && guard.One(guard.heldId.value.ino)) ==>
      OneNameSince(dir.log, |old(dir.log)|, guard.name, guard.held, guard.heldId.value.ino)
    ensures old(guard.dir.Quiet()) ==> (ok <==> old(guard.Restorable(q) && guard.dir.alive))
    ensures old(guard.dir.Alone()) && ok ==> guard.Restored(old(guard.dir.names), old(guard.dir.attrs))
  {
    hide SafeChange, MayBecome, Readable, SafeSince, OneNameSince, SawSince, KeepsNamed, UnlinkedSince, HeldIn,
         OtherName, IdOf, Alike;
    var dir := guard.dir;
    ok := guard.CheckHidden();
    LooksOnly(dir.log, |old(dir.log)|);
    OnlyLooks(dir.log, |old(dir.log)|, guard.name, guard.held, guard.heldId.value.ino);
    SafeWider(dir.log, |old(dir.log)|, {}, Mine(guard.recorded));
    ghost var late, own := dir.log, Own(guard.fifoId);
    if guard.recorded.Some? {
      SafeWider(late, |old(dir.log)|, {}, {guard.made.value});
      if dir.QuietSince(guard.sight) { guard.DoomedMeans(q); }
    }
    var restored := guard.Exit(q);
    SafeMine(late, dir.log, |old(dir.log)|, own, Mine(guard.recorded));
    OneLater(late, dir.log, |old(dir.log)|, guard.name, guard.held, guard.heldId.value.ino);
    if guard.recorded.Some? { ExactLater(late, dir.log, |old(dir.log)|, {guard.made.value}); }
    ok := ok && restored;
  }

  lemma SafeMine(earlier: seq<Event>, later: seq<Event>, from: nat, own: set<Ino>, mine: set<Ino>)
    requires earlier <= later && SafeSince(earlier, from, mine) && SafeSince(later, |earlier|, own) && own <= mine
    ensures SafeSince(later, from, mine)
  {
    SafeWider(later, |earlier|, own, mine);
    SafeLater(earlier, later, from, mine);
  }

  /** A run in which a foreign file is recorded as the placeholder and removed: the guard makes inode 1, before
      its look at the name somebody puts inode 2 there, and the exit that the refusal triggers takes the only
      name of inode 2. */
  method SwappedRun() returns (guard: HiddenRecord, ok: bool)
    ensures !ok && guard.made == Some(1) && guard.recorded == Some(2)
    ensures SafeSince(guard.dir.log, 0, {2}) && !SafeSince(guard.dir.log, 0, {1}) && !KeepsNamed(guard.dir.log, 0, 2)
  {
    var record := Attr(Regular, 0, 0, PRIVATE, 1, 0, 0, [1]);
    var swap := Turn(Some(Swap(Public("record"))), false, false);
    var turns := (k: nat) => if k == 8 then swap else NOTHING;
    var dir := new Directory(map[Public("record") := 0], map[0 := record], 1, 0, true, 0, turns);
    guard := new HiddenRecord(dir, "record", "held", true, (d: seq<int>) => true);
    assert dir.turns(8) == swap;
    assert guard.SwapAhead(8);
    ok := guard.Enter(Quarantine("q", 0));
  }
}
