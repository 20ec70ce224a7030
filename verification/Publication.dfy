/**
 `runtime_safe_publish.py`: no-replace publication with exact-identity rollback.

 The file system is a table from names to inodes.  Before every primitive the environment may
 rebind any public name (not the private quarantine names), and a primitive may fail before its
 effect.  Every effect of the code itself is recorded, so that what it did in the middle of a run
 can be stated for every interleaving.
 */
module Publication {

  /** An inode identity (device and inode number). */
  type Ino = nat

  /** Quarantine names carry the identity that they are made for. */
  datatype Name = Public(text: string) | Quarantine(of: string, expected: Ino)

  type Table = map<Name, Ino>

  /** Work that leaves the names alone. */
  datatype Task = Sync | Write | Admit | Copy | Normalize | Stamp | Format | Check | Compare | Live | Close | Other

  /** An effect of the code on the table, an identity it observed, or work it completed. */
  datatype Event = Changed(before: Table, after: Table) | Saw(name: Name, ino: Ino) | Did(task: Task)

  /** A primitive about to be executed. */
  datatype Step =
    | Looking(name: Name)
    | Linking(source: Name, destination: Name)
    | Renaming(source: Name, destination: Name)
    | Unlinking(name: Name)
    | Making(name: Name)
    | Recording(name: Name)
    | Working(task: Task)

  /** A failure here leaves an object behind: it is not yet known by its identity, or it has no public name any
      more. */
  ghost predicate Lasting(s: Step) { s.Recording? || s.Unlinking? || (s.Looking? && s.name.Quarantine?) }

  datatype Look = Found(ino: Ino) | Missing | LookFailed
  datatype Done = Ok | Absent | Exists | Failed
  datatype Removal = Removed | NotRemoved | Raised
  datatype Outcome = Published(ino: Ino) | Refused

  /** No name is rebound, and every inode other than the code's own keeps a name. */
  ghost predicate SafeChange(before: Table, after: Table, own: set<Ino>)
  {
    && (forall n :: n in before && n in after ==> after[n] == before[n])
    && (forall n :: n in before && before[n] !in own ==> exists m :: m in after && after[m] == before[n])
  }

  ghost predicate SafeSince(log: seq<Event>, from: nat, own: set<Ino>)
  {
    forall k :: from <= k < |log| && log[k].Changed? ==> SafeChange(log[k].before, log[k].after, own)
  }

  /** The two tables agree outside `names`. */
  ghost predicate AgreeExcept(a: Table, b: Table, names: set<Name>)
  {
    forall n :: n !in names ==> (n in a <==> n in b) && (n in a && n in b ==> a[n] == b[n])
  }

  ghost predicate AgreeAt(a: Table, b: Table, n: Name)
  {
    (n in a <==> n in b) && (n in a && n in b ==> a[n] == b[n])
  }

  ghost predicate SameQuarantine(a: Table, b: Table)
  {
    forall n: Name :: n.Quarantine? ==> AgreeAt(a, b, n)
  }

  /** All inodes in the table, and all that quarantine names are made for, are known. */
  ghost predicate Known(t: Table, next: nat)
  {
    forall n :: n in t ==> t[n] < next && (n.Quarantine? ==> n.expected < next)
  }

  predicate MayBecome(a: Table, b: Table, next: nat)
  {
    && (forall n :: n in b.Keys ==> b[n] < next && (n.Quarantine? ==> n in a.Keys && a[n] == b[n]))
    && (forall n :: n in a.Keys ==> n.Quarantine? ==> n in b.Keys)
  }

  /** Public names outside `texts` are bound as before. */
  ghost predicate PublicAgree(a: Table, b: Table, texts: set<string>)
  {
    forall t :: t !in texts ==> AgreeAt(a, b, Public(t))
  }

  /** Quarantine names of inodes that existed before are bound as before. */
  ghost predicate OldQuarantine(a: Table, b: Table, next: nat)
  {
    forall n: Name :: n.Quarantine? && n.expected < next ==> AgreeAt(a, b, n)
  }

  lemma SafeWider(log: seq<Event>, from: nat, own: set<Ino>, more: set<Ino>)
    requires SafeSince(log, from, own) && own <= more
    ensures SafeSince(log, from, more)
  {
  }

  lemma CreateSafe(t: Table, n: Name, i: Ino, own: set<Ino>)
    requires n !in t
    ensures SafeChange(t, t[n := i], own)
  {
    forall m | m in t ensures m in t[n := i] && t[n := i][m] == t[m] { }
  }

  lemma SafeLater(earlier: seq<Event>, later: seq<Event>, from: nat, own: set<Ino>)
    requires earlier <= later && SafeSince(earlier, from, own) && SafeSince(later, |earlier|, own)
    ensures SafeSince(later, from, own)
  {
  }

  /** Since `from` no name was touched. */
  ghost predicate Idle(log: seq<Event>, from: nat)
  {
    forall k :: from <= k < |log| ==> !log[k].Changed?
  }

  lemma SafeIdle(log: seq<Event>, from: nat, own: set<Ino>)
    requires Idle(log, from)
    ensures SafeSince(log, from, own)
  {
  }

  lemma LinkSafe(t: Table, s: Name, d: Name, own: set<Ino>)
    requires s in t && d !in t
    ensures SafeChange(t, t[d := t[s]], own)
  {
    forall n | n in t ensures n in t[d := t[s]] && t[d := t[s]][n] == t[n] { }
  }

  lemma RenameSafe(t: Table, s: Name, d: Name, own: set<Ino>)
    requires s in t && d !in t
    ensures SafeChange(t, (t - {s})[d := t[s]], own)
  {
    var after := (t - {s})[d := t[s]];
    forall n | n in t ensures exists m :: m in after && after[m] == t[n] {
      if n == s { assert d in after; } else { assert n in after; }
    }
  }

  lemma UnlinkSafe(t: Table, s: Name, own: set<Ino>)
    requires s in t && t[s] in own
    ensures SafeChange(t, t - {s}, own)
  {
    forall n | n in t && t[n] !in own ensures exists m :: m in t - {s} && (t - {s})[m] == t[n] {
      assert n in t - {s};
    }
  }

  /** The code itself saw inode `ino` at `n`. */
  ghost predicate SawSince(log: seq<Event>, from: nat, n: Name, ino: Ino)
  {
    exists k :: from <= k < |log| && log[k] == Saw(n, ino)
  }

  lemma SawStill(earlier: seq<Event>, later: seq<Event>, from: nat, since: nat, n: Name, ino: Ino)
    requires earlier <= later && since <= from && SawSince(earlier, from, n, ino)
    ensures SawSince(later, since, n, ino)
  {
    var k :| from <= k < |earlier| && earlier[k] == Saw(n, ino);
    assert later[k] == Saw(n, ino);
  }

  lemma SawNow(log: seq<Event>, from: nat, n: Name, ino: Ino)
    requires from < |log| && log[|log| - 1] == Saw(n, ino)
    ensures SawSince(log, from, n, ino)
  {
  }

  /** The code itself completed this work. */
  ghost predicate DidSince(log: seq<Event>, from: nat, task: Task)
  {
    exists k :: from <= k < |log| && log[k] == Did(task)
  }

  lemma DidStill(earlier: seq<Event>, later: seq<Event>, from: nat, since: nat, task: Task)
    requires earlier <= later && since <= from && DidSince(earlier, from, task)
    ensures DidSince(later, since, task)
  {
    var k :| from <= k < |earlier| && earlier[k] == Did(task);
    assert later[k] == Did(task);
  }

  /** The last thing the code did was a sync of the directory. */
  ghost predicate Synced(log: seq<Event>) { log != [] && log[|log| - 1] == Did(Sync) }

  function Min(a: int, b: int): int { if a < b then a else b }

  /** Some name is bound to `i`. */
  ghost predicate Named(t: Table, i: Ino)
  {
    exists n :: n in t && t[n] == i
  }

  /** Somebody else's table, with the next inode and the free inodes they leave. */
  datatype Move = Nothing | Rebind(table: Table, next: nat, free: int)

  /** The primitive made one change, from `before` on, and it is logged. */
  ghost predicate Logged(earlier: seq<Event>, later: seq<Event>, was: Table, before: Table, now: Table)
  {
    later == earlier + [Changed(before, now)] && SameQuarantine(was, before)
  }

  /** The table that the change was made to. */
  ghost function Before(earlier: seq<Event>, later: seq<Event>, now: Table): Table
  {
    if |later| > |earlier| && later[|earlier|].Changed? then later[|earlier|].before else now
  }

  class World {
    var names: Table
    var nextIno: nat
    const disturbed: bool                // may anybody else rebind public names?
    var faults: nat                      // how many primitives may still fail
    const fails: (nat, Step) -> bool     // which ones do, by their number and kind
    const moves: nat -> Move             // what somebody else does before a primitive, if it may be done
    const copied: nat -> nat             // how much of a copy is there when it fails
    var clock: nat
    var free: int                        // free inodes of the file system
    var inside: map<Ino, nat>            // how many inodes a directory holds below itself
    ghost var low: int                   // the fewest free inodes there were after an effect of the code
    ghost var log: seq<Event>

    ghost predicate Valid()
      reads this
    {
      Known(names, nextIno) && forall i :: i in inside ==> i < nextIno
    }

    constructor (names: Table, nextIno: nat, disturbed: bool, faults: nat, fails: (nat, Step) -> bool,
        moves: nat -> Move, copied: nat -> nat, free: int)
      requires Known(names, nextIno)
      ensures Valid() && this.names == names && this.nextIno == nextIno && this.disturbed == disturbed
      ensures this.faults == faults && this.fails == fails && this.moves == moves && this.copied == copied && clock == 0
      ensures this.free == free && inside == map[] && low == free && log == []
    {
      this.names, this.nextIno, this.disturbed, this.faults, this.fails := names, nextIno, disturbed, faults, fails;
      this.moves, this.copied := moves, copied;
      clock, this.free, inside, low, log := 0, free, map[], free, [];
    }

    /** Exactly the renames away from `text` fail, as long as anything may. */
    ghost predicate Sticks(text: string)
    {
      forall k, s :: fails(k, s) <==> s.Renaming? && s.source == Public(text)
    }

    /** Nothing fails in a way that leaves an object behind. */
    ghost predicate Gentle()
    {
      forall k, s :: fails(k, s) ==> !Lasting(s)
    }

    /** An inode and what it holds. */
    function Weight(i: Ino): nat
      reads this
    {
      1 + if i in inside then inside[i] else 0
    }

    /** Since the counts were `free` and `low`, at most `n` inodes more than then were in use. */
    ghost predicate Spent(free: int, low: int, n: nat)
      reads this
    {
      !disturbed ==> this.free >= free - n && Min(low, free - n) <= this.low <= low
    }

    /** Somebody else's turn, and then possibly a failure of the primitive. */
    method Interfere(step: Step) returns (fail: bool)
      requires Valid()
      modifies this`names, this`nextIno, this`faults, this`clock, this`free
      ensures Valid() && nextIno >= old(nextIno)
      ensures SameQuarantine(old(names), names)
      ensures !disturbed ==> names == old(names) && nextIno == old(nextIno) && free == old(free)
      ensures faults == old(faults) - if fail then 1 else 0
      ensures fail <==> old(faults) > 0 && fails(old(clock), step)
      ensures clock == old(clock) + 1
      ensures var move := moves(old(clock));
        disturbed && move.Rebind? && move.next >= old(nextIno) && MayBecome(old(names), move.table, move.next) ==>
          names == move.table && nextIno == move.next && free == move.free
    {
      var move := moves(clock);
      if disturbed && move.Rebind? && move.next >= nextIno && MayBecome(names, move.table, move.next) {
        names, nextIno, free := move.table, move.next, move.free;
      }
      fail := faults > 0 && fails(clock, step);
      clock := clock + 1;
      if fail { faults := faults - 1; }
    }

    /** `file_identity`. */
    method Identify(n: Name) returns (r: Look)
      requires Valid()
      modifies this
      ensures Valid() && nextIno >= old(nextIno) && faults <= old(faults)
      ensures log == if r.Found? then old(log) + [Saw(n, r.ino)] else old(log)
      ensures SameQuarantine(old(names), names)
      ensures r.Found? ==> r.ino < nextIno
      ensures n.Quarantine? && r.Found? ==> n in names && names[n] == r.ino
      ensures !disturbed ==> names == old(names) && nextIno == old(nextIno)
      ensures !disturbed && r.Found? ==> n in names && r.ino == names[n]
      ensures !disturbed && r.Missing? ==> n !in names
      ensures r.LookFailed? <==> faults < old(faults)
      ensures !disturbed ==> free == old(free)
      ensures low == old(low) && inside == old(inside)
      ensures faults < old(faults) ==> fails(old(clock), Looking(n))
    {
      var fail := Interfere(Looking(n));
      if fail { return LookFailed; }
      if n !in names { return Missing; }
      log := log + [Saw(n, names[n])];
      r := Found(names[n]);
    }

    /** `os.link`. */
    method Link(source: Name, destination: Name, ghost own: set<Ino>) returns (r: Done)
      requires Valid() && source.Public? && destination.Public?
      modifies this
      ensures Valid() && nextIno >= old(nextIno) && faults <= old(faults)
      ensures old(log) <= log && SafeSince(log, |old(log)|, own)
      ensures SameQuarantine(old(names), names)
      ensures !disturbed ==> nextIno == old(nextIno)
      ensures !disturbed && r.Ok? ==> && source in old(names) && destination !in old(names)
                                      && names == old(names)[destination := old(names)[source]]
      ensures !disturbed && !r.Ok? ==> names == old(names)
      ensures !disturbed && r.Exists? ==> destination in names
      ensures !disturbed && r.Absent? ==> source !in names
      ensures r.Failed? <==> faults < old(faults)
      ensures !disturbed ==> free == old(free)
      ensures low == old(low) && inside == old(inside)
      ensures faults < old(faults) ==> fails(old(clock), Linking(source, destination))
      ensures !r.Ok? ==> log == old(log)
      ensures r.Ok? ==> var t := Before(old(log), log, names);
        && source in t && destination !in t && names == t[destination := t[source]]
        && Logged(old(log), log, old(names), t, names)
    {
      var fail := Interfere(Linking(source, destination));
      if fail { return Failed; }
      if destination in names { return Exists; }
      if source !in names { return Absent; }
      LinkSafe(names, source, destination, own);
      log := log + [Changed(names, names[destination := names[source]])];
      names := names[destination := names[source]];
      r := Ok;
    }

    /** `renameat2` with RENAME_NOREPLACE. */
    method Rename(source: Name, destination: Name, ghost own: set<Ino>) returns (r: Done)
      requires Valid() && (destination.Quarantine? ==> destination.expected < nextIno)
      modifies this
      ensures Valid() && nextIno >= old(nextIno) && faults <= old(faults)
      ensures old(log) <= log && SafeSince(log, |old(log)|, own)
      ensures forall n: Name :: n.Quarantine? && n != source && n != destination ==> AgreeAt(old(names), names, n)
      ensures !r.Ok? ==> SameQuarantine(old(names), names)
      ensures r.Ok? ==> destination in names
      ensures !disturbed ==> nextIno == old(nextIno)
      ensures !disturbed && r.Ok? ==> && source in old(names) && destination !in old(names)
                                      && names == (old(names) - {source})[destination := old(names)[source]]
      ensures !disturbed && !r.Ok? ==> names == old(names)
      ensures !disturbed && r.Absent? ==> source !in names
      ensures r.Failed? <==> faults < old(faults)
      ensures !disturbed ==> free == old(free)
      ensures low == old(low) && inside == old(inside)
      ensures r.Failed? <==> old(faults) > 0 && fails(old(clock), Renaming(source, destination))
      ensures !r.Ok? ==> log == old(log)
      ensures r.Exists? ==> destination in names
      ensures r.Ok? ==> var t := Before(old(log), log, names);
        && source in t && destination !in t && names == (t - {source})[destination := t[source]]
        && Logged(old(log), log, old(names), t, names)
    {
      var fail := Interfere(Renaming(source, destination));
      if fail { return Failed; }
      if source !in names { return Absent; }
      if destination in names { return Exists; }
      RenameSafe(names, source, destination, own);
      log := log + [Changed(names, (names - {source})[destination := names[source]])];
      names := (names - {source})[destination := names[source]];
      r := Ok;
    }

    /** `unlink` (or `rmtree`) of a quarantine name, whose inode must be one of the code's own.  With its last
        name an inode is free again, and what it held. */
    method Unlink(q: Name, ghost own: set<Ino>) returns (r: Done)
      requires Valid() && q.Quarantine? && q in names && names[q] in own
      modifies this
      ensures Valid() && nextIno >= old(nextIno) && faults <= old(faults)
      ensures old(log) <= log && SafeSince(log, |old(log)|, own)
      ensures forall n: Name :: n.Quarantine? && n != q ==> AgreeAt(old(names), names, n)
      ensures !disturbed ==> nextIno == old(nextIno) && names == if r.Ok? then old(names) - {q} else old(names)
      ensures r.Ok? || r.Failed?
      ensures r.Failed? <==> faults < old(faults)
      ensures inside == old(inside) && Spent(old(free), old(low), 0)
      ensures !disturbed ==>
        free == old(free) + if r.Failed? || Named(old(names) - {q}, old(names)[q]) then 0 else Weight(old(names)[q])
      ensures faults < old(faults) ==> fails(old(clock), Unlinking(q))
      ensures !r.Ok? ==> log == old(log)
      ensures r.Ok? ==> var t := Before(old(log), log, names);
        q in t && names == t - {q} && Logged(old(log), log, old(names), t, names)
    {
      var fail := Interfere(Unlinking(q));
      if fail { return Failed; }
      assert AgreeAt(old(names), names, q);
      UnlinkSafe(names, q, own);
      var i := names[q];
      log := log + [Changed(names, names - {q})];
      names := names - {q};
      if !(exists n | n in names.Keys :: names[n] == i) {
        free := free + Weight(i);
      }
      low := Min(low, free);
      r := Ok;
    }

    /** Anything that may fail but does not touch the table: fsync, chmod, writing, a subprocess. */
    method Work(task: Task) returns (r: Done)
      requires Valid()
      modifies this
      ensures Valid() && nextIno >= old(nextIno) && faults <= old(faults)
      ensures log == if r.Ok? then old(log) + [Did(task)] else old(log)
      ensures SameQuarantine(old(names), names)
      ensures !disturbed ==> names == old(names) && nextIno == old(nextIno)
      ensures r.Ok? || r.Failed?
      ensures r.Failed? <==> faults < old(faults)
      ensures !disturbed ==> free == old(free)
      ensures low == old(low) && inside == old(inside)
      ensures faults < old(faults) ==> fails(old(clock), Working(task))
    {
      var fail := Interfere(Working(task));
      if fail { return Failed; }
      log := log + [Did(task)];
      r := Ok;
    }

    /** The identity of what was just created under `n` is taken by its descriptor. */
    method Record(n: Name) returns (r: Done)
      requires Valid()
      modifies this
      ensures Valid() && nextIno >= old(nextIno) && faults <= old(faults) && log == old(log)
      ensures SameQuarantine(old(names), names)
      ensures !disturbed ==> names == old(names) && nextIno == old(nextIno)
      ensures r.Ok? || r.Failed?
      ensures r.Failed? <==> faults < old(faults)
      ensures !disturbed ==> free == old(free)
      ensures low == old(low) && inside == old(inside)
      ensures faults < old(faults) ==> fails(old(clock), Recording(n))
    {
      var fail := Interfere(Recording(n));
      r := if fail then Failed else Ok;
    }

    /** `n` new inodes below the directory `i`: a subdirectory, or a copied tree.  A failure may come after
        some of them. */
    method Fill(i: Ino, n: nat) returns (r: Done)
      requires Valid() && i < nextIno
      modifies this
      ensures Valid() && nextIno >= old(nextIno) && faults <= old(faults) && log == old(log)
      ensures SameQuarantine(old(names), names)
      ensures !disturbed ==> names == old(names) && nextIno == old(nextIno)
      ensures r.Ok? || r.Failed?
      ensures r.Failed? <==> faults < old(faults)
      ensures Spent(old(free), old(low), n)
      ensures !disturbed ==> free + Weight(i) == old(free) + old(Weight(i))
      ensures inside.Keys == old(inside).Keys + {i} && forall j :: j in old(inside) && j != i ==>
        inside[j] == old(inside)[j]
      ensures !disturbed && r.Ok? ==> free == old(free) - n && low == Min(old(low), free)
      ensures var made := if r.Failed? && copied(old(clock)) < n then copied(old(clock)) else n;
        inside == old(inside)[i := made + if i in old(inside) then old(inside)[i] else 0]
      ensures faults < old(faults) ==> fails(old(clock), Working(Copy))
    {
      hide MayBecome, SameQuarantine, AgreeAt;
      var there := copied(clock);
      var fail := Interfere(Working(Copy));
      var made := if fail && there < n then there else n;
      free := free - made;
      inside := inside[i := made + if i in inside then inside[i] else 0];
      low := Min(low, free);
      r := if fail then Failed else Ok;
    }

    /** An unnamed temporary file, gone when it is closed. */
    method Scratch() returns (r: Done)
      requires Valid()
      modifies this
      ensures Valid() && nextIno >= old(nextIno) && faults <= old(faults)
      ensures old(log) <= log && forall k :: |old(log)| <= k < |log| ==> log[k] == Did(Stamp)
      ensures r.Ok? ==> |log| == |old(log)| + 2
      ensures SameQuarantine(old(names), names)
      ensures !disturbed ==> names == old(names) && nextIno == old(nextIno)
      ensures r.Ok? || r.Failed?
      ensures r.Failed? <==> faults < old(faults)
      ensures inside == old(inside) && Spent(old(free), old(low), 1)
      ensures !disturbed ==> free == old(free)
      ensures !disturbed && r.Ok? ==> low == Min(old(low), old(free) - 1)
    {
      r := Work(Stamp);
      if r.Failed? { return; }
      low := Min(low, free - 1);
      r := Work(Stamp);
    }

    // -------------------------------------------------------------- the code

    /** `remove_if_identity`, and `remove_directory_if_identity`, whose `rmtree` takes the place of the
        unlink.  In an undisturbed world it removes exactly the expected object. */
    method RemoveIfIdentity(path: string, expected: Ino) returns (r: Removal)
      requires Valid() && expected < nextIno
      modifies this
      ensures Valid() && nextIno >= old(nextIno) && faults <= old(faults)
      ensures old(log) <= log && SafeSince(log, |old(log)|, {expected})
      ensures !disturbed ==> nextIno == old(nextIno)
      ensures !disturbed ==> AgreeExcept(old(names), names, {Public(path), Quarantine(path, expected)})
      ensures !disturbed && r.Removed? ==> Public(path) in old(names) && names == old(names) - {Public(path)}
      ensures !disturbed && r.NotRemoved? ==>
        names == old(names) && (Public(path) in names ==> names[Public(path)] != expected)
      ensures !disturbed && Public(path) in names ==> AgreeAt(old(names), names, Public(path))
      ensures !disturbed && Quarantine(path, expected) in names ==>
        Quarantine(path, expected) in old(names) || Public(path) !in names
      ensures !disturbed && r.Raised? && faults == old(faults) ==>
        Quarantine(path, expected) in old(names) && Public(path) in old(names) && old(names)[Public(path)] == expected
      ensures !disturbed && !(Public(path) in old(names) && old(names)[Public(path)] == expected) ==>
        names == old(names)
      ensures !disturbed && Public(path) in old(names) && old(names)[Public(path)] == expected
              && Quarantine(path, expected) in old(names) ==>
        r.Raised? && names == old(names)
      ensures !r.Raised? ==> faults == old(faults)
      ensures r.Raised? && faults == old(faults) && |log| == |old(log)| + 1 ==> Quarantine(path, expected) in names
      ensures !disturbed && r.NotRemoved? ==> free == old(free)
      ensures inside == old(inside) && Spent(old(free), old(low), 0)
      ensures !disturbed && Elsewhere(old(names), path, expected) ==> free == old(free)
      ensures !disturbed && r.Removed? && !Elsewhere(old(names), path, expected) ==>
        free == old(free) + Weight(expected)
      ensures !disturbed && Gentle() && Quarantine(path, expected) !in old(names) ==>
        || (names == old(names) && free == old(free))
        || (names == old(names) - {Public(path)} && Public(path) in old(names) && old(names)[Public(path)] == expected
            && free == old(free) + if Elsewhere(old(names), path, expected) then 0 else Weight(expected))
      ensures r.Removed? ==> Synced(log)
      ensures forall x :: Sticks(x) && x != path ==> faults == old(faults)
      ensures !disturbed && Sticks(path) && old(faults) > 0 && Public(path) in old(names)
              && old(names)[Public(path)] == expected ==>
        r.Raised? && names == old(names)
    {
      hide SafeChange, MayBecome, Named, SafeSince;
      var p, q := Public(path), Quarantine(path, expected);
      var seen := Identify(p);
      SafeIdle(log, |old(log)|, {expected});
      if seen.LookFailed? { return Raised; }
      if seen.Missing? || seen.ino != expected { return NotRemoved; }
      ghost var early := log;
      var moved := Rename(p, q, {expected});
      SafeLater(early, log, |old(log)|, {expected});
      if moved.Absent? { return NotRemoved; }
      if !moved.Ok? { return Raised; }
      ghost var start := log;
      if !disturbed { assert names - {q} == old(names) - {p} == old(names) - {p, q}; }
      r := Discard(path, expected);
      SafeLater(start, log, |old(log)|, {expected});
    }

    /** The steps of `remove_if_identity` from the quarantine on. */
    method Discard(path: string, expected: Ino) returns (r: Removal)
      requires Valid() && expected < nextIno && Quarantine(path, expected) in names
      modifies this
      ensures Valid() && nextIno >= old(nextIno) && faults <= old(faults)
      ensures old(log) <= log && SafeSince(log, |old(log)|, {expected})
      ensures r.Removed? || r.Raised?
      ensures !disturbed ==> nextIno == old(nextIno)
      ensures var p, q := Public(path), Quarantine(path, expected);
        && (!disturbed && r.Removed? ==> old(names)[q] == expected && names == old(names) - {q})
        && (!disturbed && old(names)[q] == expected ==> names == old(names) || names == old(names) - {q})
        && (!disturbed ==> AgreeExcept(old(names), names, {p, q}))
        && (!disturbed && r.Raised? && faults == old(faults) ==> old(names)[q] != expected)
        && (!disturbed && Named(old(names) - {q}, expected) ==> free == old(free))
        && (!disturbed && Gentle() && old(names)[q] == expected ==>
              && names == old(names) - {q}
              && free == old(free) + if Named(old(names) - {q}, expected) then 0 else Weight(expected))
        && (!disturbed && r.Removed? && !Named(old(names) - {q}, expected) ==> free == old(free) + Weight(expected))
      ensures r.Removed? ==> faults == old(faults) && Synced(log)
      ensures inside == old(inside) && Spent(old(free), old(low), 0)
      ensures forall x :: Sticks(x) ==> faults == old(faults)
    {
      hide SafeChange, MayBecome, Named;
      var p, q := Public(path), Quarantine(path, expected);
      var seen := Identify(q);
      if !seen.Found? { return Raised; }
      if seen.ino != expected {
        var back := Rename(q, p, {expected});
        return Raised;
      }
      var gone := Unlink(q, {expected});
      if gone.Failed? { return Raised; }
      var synced := Work(Sync);
      if synced.Failed? { return Raised; }
      r := Removed;
    }

    /** The inode has a name that a removal at `path` does not touch. */
    ghost predicate Elsewhere(t: Table, path: string, i: Ino)
    {
      Named(t - {Public(path), Quarantine(path, i)}, i)
    }

    /** `publish_existing`.  In every interleaving no effect of it replaces a binding or takes the last
        name of a foreign inode, and a normal return means that the destination was seen to be the
        expected inode.  Undisturbed and with at most one failure it either moves the inode to the
        destination or leaves the destination as it was. */
    method PublishExisting(source: string, destination: string, expected: Ino) returns (r: Outcome)
      requires Valid() && expected < nextIno && source != destination
      modifies this
      ensures Valid() && nextIno >= old(nextIno) && faults <= old(faults)
      ensures old(log) <= log && SafeSince(log, |old(log)|, {expected})
      ensures r.Published? ==> r.ino == expected
      ensures r.Published? ==> SawSince(log, |old(log)|, Public(destination), expected)
      ensures r.Published? ==> SawSince(log, |old(log)|, Public(source), expected)
      ensures !disturbed && !(Public(source) in old(names) && old(names)[Public(source)] == expected) ==>
        r.Refused? && names == old(names) && free == old(free)
      ensures !disturbed ==> nextIno == old(nextIno)
      ensures Quiet(source, destination, expected, old(names), old(faults)) && r.Published? ==>
        && faults == old(faults) && Public(destination) !in old(names)
        && names == (old(names) - {Public(source)})[Public(destination) := expected] && free == old(free)
      ensures Quiet(source, destination, expected, old(names), old(faults)) && r.Refused? ==>
        && (faults < old(faults) || Public(destination) in old(names))
        && (Quarantine(source, expected) in names ==> Public(source) !in names)
        && AgreeExcept(old(names), names,
           {Public(source), Quarantine(source, expected), Quarantine(destination, expected)})
      ensures Quiet(source, destination, expected, old(names), old(faults)) && r.Refused? && Gentle() ==>
        || (names == old(names) && free == old(free) && faults < old(faults))
        || (names == old(names) - {Public(source)}
            && free == old(free) + if Elsewhere(old(names), source, expected) then 0 else Weight(expected))
      ensures r.Published? ==> Synced(log) && faults == old(faults)
      ensures inside == old(inside) && Spent(old(free), old(low), 0)
      ensures forall x :: Quiet(source, destination, expected, old(names), old(faults)) && Sticks(x) && x != source ==>
        faults == old(faults)
    {
      hide SafeChange, MayBecome, Known, Sticks, Named, SafeSince, SawSince, Elsewhere;
      StickyOnlyRenames();
      var s, d := Public(source), Public(destination);
      var seen := Identify(s);
      SafeIdle(log, |old(log)|, {expected});
      if !seen.Found? || seen.ino != expected { return Refused; }
      ghost var start, sighted := log, log;
      SawNow(log, |old(log)|, s, expected);
      var linked := Link(s, d, {expected});
      SafeLater(start, log, |old(log)|, {expected});
      start := log;
      if linked.Ok? {
        if Quiet(source, destination, expected, old(names), old(faults)) {
          ElsewhereMoved(old(names), source, destination, expected);
        }
        var done := PublishLinked(source, destination, expected, old(names));
        SafeLater(start, log, |old(log)|, {expected});
        if done { SawStill(log, log, |start|, |old(log)|, d, expected); }
        SawStill(sighted, log, |old(log)|, |old(log)|, s, expected);
        return if done then Published(expected) else Refused;
      }
      var second := RemoveIfIdentity(source, expected);
      SafeLater(start, log, |old(log)|, {expected});
      r := Refused;
    }

    /** `publish_existing` from the link on: the remaining steps, or both names taken back. */
    method PublishLinked(source: string, destination: string, expected: Ino, ghost before: Table) returns (done: bool)
      requires Valid() && expected < nextIno && source != destination
      modifies this
      ensures Valid() && nextIno >= old(nextIno) && faults <= old(faults)
      ensures old(log) <= log && SafeSince(log, |old(log)|, {expected})
      ensures done ==> SawSince(log, |old(log)|, Public(destination), expected) && Synced(log) && faults == old(faults)
      ensures !disturbed ==> nextIno == old(nextIno)
      ensures LinkedFrom(before, source, destination, expected, old(names), old(faults)) && done ==>
        faults == old(faults) && names == old(names) - {Public(source)} && free == old(free)
      ensures LinkedFrom(before, source, destination, expected, old(names), old(faults)) && !done ==>
        && faults < old(faults) && (Quarantine(source, expected) in names ==> Public(source) !in names)
        && AgreeExcept(before, names, {Public(source), Quarantine(source, expected), Quarantine(destination, expected)})
      ensures LinkedFrom(before, source, destination, expected, old(names), old(faults)) && !done && Gentle() ==>
        && names == before - {Public(source)}
        && free == old(free) + if Elsewhere(before, source, expected) then 0 else Weight(expected)
      ensures inside == old(inside) && Spent(old(free), old(low), 0)
      ensures LinkedFrom(before, source, destination, expected, old(names), old(faults)) ==>
        forall x :: Sticks(x) && x != source ==> faults == old(faults)
    {
      hide SafeChange, MayBecome, Known, Sticks, Named, SafeSince, SawSince, Elsewhere;
      var s, d := Public(source), Public(destination);
      ghost var linked := LinkedFrom(before, source, destination, expected, names, faults);
      if linked {
        ElsewhereMoved(before, source, destination, expected);
        ElsewhereToo(names, source, destination, expected);
      }
      done := Finish(source, destination, expected);
      if done { return; }
      ghost var start := log;
      var first := RemoveIfIdentity(destination, expected);
      SafeLater(start, log, |old(log)|, {expected});
      if first.Raised? { return; }
      if linked && names == before - {s} { assert names - {s} == names; }
      start := log;
      var second := RemoveIfIdentity(source, expected);
      SafeLater(start, log, |old(log)|, {expected});
    }

    /** The destination was just linked, in a quiet world. */
    ghost predicate LinkedFrom(before: Table, source: string, destination: string, expected: Ino, t: Table, faults: nat)
    {
      Quiet(source, destination, expected, before, faults) && Public(destination) !in before
      && t == before[Public(destination) := expected]
    }

    /** What else the inode has, seen from the source before the link and from the destination after it. */
    lemma ElsewhereMoved(t: Table, source: string, destination: string, i: Ino)
      requires source != destination && Public(destination) !in t
      requires Quarantine(source, i) !in t && Quarantine(destination, i) !in t
      ensures var d, s := Public(destination), Public(source);
        && t[d := i] - {d} == t && (t[d := i] - {s}) - {d} == t - {s}
        && (Elsewhere(t[d := i] - {s}, destination, i) <==> Elsewhere(t, source, i))
        && (s in t && t[s] == i ==> Elsewhere(t[d := i], destination, i))
    {
      var d, s := Public(destination), Public(source);
      assert (t[d := i] - {s}) - {d, Quarantine(destination, i)} == t - {s, Quarantine(source, i)};
      if s in t { assert s in t[d := i] - {d, Quarantine(destination, i)}; }
    }

    lemma ElsewhereToo(t: Table, source: string, destination: string, i: Ino)
      requires source != destination
      ensures Public(destination) in t && t[Public(destination)] == i ==> Elsewhere(t, source, i)
    {
      if Public(destination) in t { assert Public(destination) in t - {Public(source), Quarantine(source, i)}; }
    }

    /** Nobody interferes, at most one primitive fails, and the private names are free. */
    ghost predicate Quiet(source: string, destination: string, expected: Ino, before: Table, faults: nat)
    {
      && !disturbed && faults <= 1
      && Public(source) in before && before[Public(source)] == expected
      && Quarantine(source, expected) !in before && Quarantine(destination, expected) !in before
    }

    /** The steps of `publish_existing` after the link. */
    method Finish(source: string, destination: string, expected: Ino) returns (done: bool)
      requires Valid() && expected < nextIno && source != destination
      modifies this
      ensures Valid() && nextIno >= old(nextIno) && faults <= old(faults)
      ensures old(log) <= log && SafeSince(log, |old(log)|, {expected})
      ensures done ==> SawSince(log, |old(log)|, Public(destination), expected) && Synced(log) && faults == old(faults)
      ensures !disturbed ==> nextIno == old(nextIno)
      ensures !disturbed ==> AgreeExcept(old(names), names, {Public(source), Quarantine(source, expected)})
      ensures !disturbed && Quarantine(source, expected) in names ==>
        Quarantine(source, expected) in old(names) || Public(source) !in names
      ensures !disturbed && done ==> names == old(names) - {Public(source)} && faults == old(faults)
      ensures !disturbed && Gentle() && Quarantine(source, expected) !in old(names) ==>
        names == old(names) || names == old(names) - {Public(source)}
      ensures Quiet(source, destination, expected, old(names), old(faults)) && !done ==>
        faults < old(faults) || Public(destination) !in old(names) || old(names)[Public(destination)] != expected
      ensures inside == old(inside) && Spent(old(free), old(low), 0)
      ensures !disturbed && Elsewhere(old(names), source, expected) ==> free == old(free)
      ensures forall x :: Sticks(x) && x != source ==> faults == old(faults)
    {
      hide SafeChange, MayBecome, Known, SafeSince, SawSince, Elsewhere;
      var d := Public(destination);
      var seen := Identify(d);
      SafeIdle(log, |old(log)|, {expected});
      if !seen.Found? || seen.ino != expected { return false; }
      SawNow(log, |old(log)|, d, expected);
      ghost var start := log;
      var cleared := ClearSource(source, expected);
      SafeLater(start, log, |old(log)|, {expected});
      SawStill(start, log, |old(log)|, |old(log)|, d, expected);
      if !cleared { return false; }
      start := log;
      var synced := Work(Sync);
      SafeIdle(log, |start|, {expected});
      SafeLater(start, log, |old(log)|, {expected});
      SawStill(start, log, |old(log)|, |old(log)|, d, expected);
      done := synced.Ok?;
    }

    /** The removal of the source, which may be gone already but nothing else. */
    method ClearSource(source: string, expected: Ino) returns (ok: bool)
      requires Valid() && expected < nextIno
      modifies this
      ensures Valid() && nextIno >= old(nextIno) && faults <= old(faults)
      ensures old(log) <= log && SafeSince(log, |old(log)|, {expected})
      ensures !disturbed ==> nextIno == old(nextIno)
      ensures !disturbed ==> AgreeExcept(old(names), names, {Public(source), Quarantine(source, expected)})
      ensures !disturbed && Quarantine(source, expected) in names ==>
        Quarantine(source, expected) in old(names) || Public(source) !in names
      ensures ok ==> faults == old(faults)
      ensures !disturbed && ok ==> names == old(names) - {Public(source)}
      ensures !disturbed && Gentle() && Quarantine(source, expected) !in old(names) ==>
        names == old(names) || names == old(names) - {Public(source)}
      ensures !disturbed && !ok && Quarantine(source, expected) !in old(names) && Public(source) in old(names)
              && old(names)[Public(source)] == expected ==>
        faults < old(faults)
      ensures inside == old(inside) && Spent(old(free), old(low), 0)
      ensures !disturbed && Elsewhere(old(names), source, expected) ==> free == old(free)
      ensures forall x :: Sticks(x) && x != source ==> faults == old(faults)
    {
      hide SafeChange, MayBecome, Known, SafeSince, Elsewhere;
      var removed := RemoveIfIdentity(source, expected);
      if removed.Raised? { return false; }
      if removed.NotRemoved? {
        ghost var start := log;
        var seen := Identify(Public(source));
        SafeIdle(log, |start|, {expected});
        SafeLater(start, log, |old(log)|, {expected});
        if !seen.Missing? { return false; }
      }
      ok := true;
    }

    /** `mkstemp` and `mkdtemp`: a new inode under a name that nobody uses. */
    method Create(text: string, ghost own: set<Ino>) returns (r: Look)
      requires Valid()
      modifies this
      ensures Valid() && nextIno >= old(nextIno) && faults <= old(faults)
      ensures old(log) <= log && SafeSince(log, |old(log)|, own)
      ensures SameQuarantine(old(names), names)
      ensures r.Found? ==> old(nextIno) <= r.ino < nextIno
      ensures r.Found? ==> forall n :: n in names && n.Quarantine? ==> n.expected < r.ino
      ensures !disturbed && r.Found? ==> && Public(text) !in old(names)
                                         && names == old(names)[Public(text) := r.ino]
      ensures !disturbed && !r.Found? ==> names == old(names)
      ensures !disturbed && r.Missing? ==> Public(text) in names
      ensures r.LookFailed? <==> faults < old(faults)
      ensures inside == old(inside) && Spent(old(free), old(low), 1)
      ensures !disturbed ==> free == old(free) - if r.Found? then 1 else 0
      ensures !disturbed ==> low == if r.Found? then Min(old(low), free) else old(low)
      ensures faults < old(faults) ==> fails(old(clock), Making(Public(text)))
      ensures !r.Found? ==> log == old(log)
      ensures r.Found? ==> var t := Before(old(log), log, names);
        Public(text) !in t && names == t[Public(text) := r.ino] && Logged(old(log), log, old(names), t, names)
    {
      var fail := Interfere(Making(Public(text)));
      if fail { return LookFailed; }
      if Public(text) in names { return Missing; }
      CreateSafe(names, Public(text), nextIno, own);
      log := log + [Changed(names, names[Public(text) := nextIno])];
      names := names[Public(text) := nextIno];
      free := free - 1;
      low := Min(low, free);
      r := Found(nextIno);
      nextIno := nextIno + 1;
    }

    /** `atomic_write` from the identified temporary file on: writing, publication and the cleanup. */
    method WriteHeld(path: string, temporary: string, expected: Ino) returns (r: Outcome)
      requires Valid() && expected < nextIno && temporary != path
      modifies this
      ensures Valid() && nextIno >= old(nextIno) && faults <= old(faults)
      ensures old(log) <= log && SafeSince(log, |old(log)|, {expected})
      ensures r.Published? ==> r.ino == expected
      ensures r.Published? ==> SawSince(log, |old(log)|, Public(path), expected)
      ensures !disturbed ==> nextIno == old(nextIno)
      ensures Quiet(temporary, path, expected, old(names), old(faults)) && r.Published? ==>
        && faults == old(faults) && Public(path) !in old(names)
        && names == (old(names) - {Public(temporary)})[Public(path) := expected] && free == old(free)
      ensures Quiet(temporary, path, expected, old(names), old(faults)) && r.Refused? ==>
        && (faults < old(faults) || Public(path) in old(names))
        && AgreeExcept(old(names), names,
           {Public(temporary), Quarantine(temporary, expected), Quarantine(path, expected)})
      ensures Quiet(temporary, path, expected, old(names), old(faults)) && r.Refused? && Gentle() ==>
        && names == old(names) - {Public(temporary)}
        && free == old(free) + if Elsewhere(old(names), temporary, expected) then 0 else Weight(expected)
      ensures r.Published? ==> Synced(log) && DidSince(log, |old(log)|, Write) && faults == old(faults)
      ensures inside == old(inside) && Spent(old(free), old(low), 0)
      ensures forall x :: Quiet(temporary, path, expected, old(names), old(faults)) && Sticks(x) && x != temporary ==>
        faults == old(faults)
    {
      hide SafeChange, MayBecome, Known, Sticks;
      r := Refused;
      var written := Work(Write);
      SafeIdle(log, |old(log)|, {expected});
      ghost var start := log;
      StickyOnlyRenames();
      if written.Ok? {
        assert start[|old(log)|] == Did(Write);
        r := PublishExisting(temporary, path, expected);
        DidStill(start, log, |old(log)|, |old(log)|, Write);
        SafeLater(start, log, |old(log)|, {expected});
        if r.Published? { SawStill(log, log, |start|, |old(log)|, Public(path), expected); }
      }
      if r.Refused? {
        start := log;
        if !disturbed && names == old(names) - {Public(temporary)} { assert names - {Public(temporary)} == names; }
        var cleaned := RemoveIfIdentity(temporary, expected);
        SafeLater(start, log, |old(log)|, {expected});
      }
    }

    lemma StickyOnlyRenames()
      ensures forall x, k, s: Step :: Sticks(x) && !s.Renaming? ==> !fails(k, s)
    {
    }

    /** A new inode has the one name it was created under. */
    lemma NewAlone(t: Table, next: nat, text: string, i: Ino)
      requires Known(t, next) && next <= i && Public(text) !in t
      ensures !Elsewhere(t[Public(text) := i], text, i) && t[Public(text) := i] - {Public(text)} == t
    {
      var b := t[Public(text) := i] - {Public(text), Quarantine(text, i)};
      forall m | m in b ensures b[m] != i { assert m in t; }
    }

    /** `atomic_write`; `temporary` is the name that `mkstemp` picks.  The inodes it may give up are only
        ones it created. */
    method AtomicWrite(path: string, temporary: string) returns (r: Outcome, ghost own: set<Ino>)
      requires Valid() && temporary != path
      modifies this
      ensures Valid() && nextIno >= old(nextIno) && faults <= old(faults)
      ensures forall i :: i in own ==> old(nextIno) <= i
      ensures old(log) <= log && SafeSince(log, |old(log)|, own)
      ensures r.Published? ==> r.ino in own && r.ino < nextIno
      ensures r.Published? ==> SawSince(log, |old(log)|, Public(path), r.ino)
      ensures !disturbed && old(faults) <= 1 && Public(temporary) !in old(names) && r.Published? ==>
        && faults == old(faults) && Public(path) !in old(names)
        && names == old(names)[Public(path) := r.ino] && Quarantine(path, r.ino) !in names
        && free == old(free) - 1 && low == Min(old(low), free)
      ensures !disturbed && old(faults) <= 1 && Public(temporary) !in old(names) && r.Refused? ==>
        && (faults < old(faults) || Public(path) in old(names))
        && PublicAgree(old(names), names, {temporary}) && OldQuarantine(old(names), names, old(nextIno))
        && (Gentle() ==> names == old(names) && free == old(free))
      ensures r.Published? ==> Synced(log) && DidSince(log, |old(log)|, Write) && faults == old(faults)
      ensures inside == old(inside) && Spent(old(free), old(low), 1)
      ensures !disturbed && old(faults) <= 1 && Public(temporary) !in old(names) ==>
        forall x :: Sticks(x) && x != temporary ==> faults == old(faults)
    {
      hide SafeChange, MayBecome, Known;
      r, own := Refused, {};
      var made := Work(Other);
      SafeIdle(log, |old(log)|, {});
      if made.Failed? { return; }
      ghost var start := log;
      var created := Create(temporary, {});
      SafeLater(start, log, |old(log)|, {});
      if !created.Found? { return; }
      var expected := created.ino;
      own := {expected};
      SafeWider(log, |old(log)|, {}, own);
      var identified := Record(Public(temporary));
      if identified.Failed? { return; }
      start := log;
      if !disturbed { NewAlone(old(names), old(nextIno), temporary, expected); }
      r := WriteHeld(path, temporary, expected);
      SafeLater(start, log, |old(log)|, own);
      if r.Published? {
        SawStill(log, log, |start|, |old(log)|, Public(path), expected);
        DidStill(log, log, |start|, |old(log)|, Write);
      }
    }
  }
}
