/**
 `target_trusted` of `harden-kerf-installation.py`: every alias on the way to a symlink's target must
 be in trusted hands.
 */
module Trust {
  import opened Modes
  import opened Options

  type Path = seq<string>

  /** What `readlink` returns, split into components. */
  datatype Target = Target(absolute: bool, parts: Path)

  datatype Stat = Stat(uid: nat, mode: Mode, link: Option<Target>)

  /** The file system as the check sees it, the code tree and the required owner. */
  datatype Disk = Disk(lstat: Path -> Option<Stat>, resolve: Path -> Option<Path>, tree: Path, uid: nat)

  const LIMIT := 128

  function Parent(p: Path): Path { if p == [] then [] else p[..|p| - 1] }

  /** Where a link at `p` leads. */
  function Hop(p: Path, t: Target): Path { if t.absolute then t.parts else Parent(p) + t.parts }

  /** `os.path.normpath` of an absolute path. */
  function Normal(p: Path): Path
  {
    if p == [] then []
    else
      var before, last := Normal(p[..|p| - 1]), p[|p| - 1];
      if last == ".." then Parent(before) else before + [last]
  }

  /** The checks of one prefix of a visited path. */
  predicate PartFine(d: Disk, path: Path, k: nat)
    requires k <= |path|
  {
    match d.lstat(path[..k])
    case None => false
    case Some(st) =>
      && (st.uid == 0 || st.uid == d.uid)
      && (st.link.Some? || !Exposed(st.mode) || d.tree <= Normal(path[..k])
          || (k < |path| && st.uid == 0 && st.mode & STICKY != 0))
  }

  ghost predicate Fine(d: Disk, path: Path)
  {
    d.resolve(path).Some? && forall k :: 0 <= k <= |path| ==> PartFine(d, path, k)
  }

  function HopAt(d: Disk, path: Path, k: nat): Option<Path>
    requires k <= |path|
  {
    match d.lstat(path[..k])
    case None => None
    case Some(st) => if st.link.Some? then Some(Hop(path[..k], st.link.value)) else None
  }

  /** The next paths that following `path` depends on. */
  ghost predicate Leads(d: Disk, path: Path, next: Path)
  {
    d.resolve(path) == Some(next) || exists k :: 0 <= k <= |path| && HopAt(d, path, k) == Some(next)
  }

  ghost predicate Known(d: Disk, path: Path, within: set<Path>)
  {
    Fine(d, path) && forall next :: Leads(d, path, next) ==> next in within
  }

  /** A set of paths in trusted hands that no link leads out of. */
  ghost predicate Trusted(d: Disk, paths: set<Path>)
  {
    forall q :: q in paths ==> Known(d, q, paths)
  }

  /** However many links are followed, every path that is met is fine. */
  lemma {:induction false} ChainFine(d: Disk, paths: set<Path>, chain: seq<Path>)
    requires Trusted(d, paths) && chain != [] && chain[0] in paths
    requires forall i :: 0 <= i < |chain| - 1 ==> Leads(d, chain[i], chain[i + 1])
    ensures chain[|chain| - 1] in paths && Fine(d, chain[|chain| - 1])
  {
    hide Fine, Leads;
    if |chain| == 1 {
      assert Known(d, chain[0], paths);
    } else {
      var before := chain[..|chain| - 1];
      ChainFine(d, paths, before);
      assert Leads(d, chain[|chain| - 2], chain[|chain| - 1]);
      assert before[|before| - 1] == chain[|chain| - 2];
      assert Known(d, chain[|chain| - 2], paths);
      assert Known(d, chain[|chain| - 1], paths);
    }
  }

  lemma {:induction false} SubsetSize(a: set<Path>, b: set<Path>)
    requires a <= b
    ensures |a| <= |b|
  {
    if a != {} {
      var x :| x in a;
      SubsetSize(a - {x}, b - {x});
    }
  }

  // ---------------------------------------------------------------- the search

  /** What the search promises of the paths it added. */
  ghost predicate Settled(d: Disk, seen: set<Path>, after: set<Path>)
  {
    seen <= after && forall q :: q in after && q !in seen ==> Known(d, q, after)
  }

  /** No more was added than every trusted set around the start has. */
  ghost predicate Least(d: Disk, path: Path, seen: set<Path>, after: set<Path>)
  {
    forall paths: set<Path> :: Trusted(d, paths) && path in paths && seen <= paths ==> after <= paths
  }

  ghost predicate Hopeless(d: Disk, path: Path, seen: set<Path>)
  {
    forall paths: set<Path> :: Trusted(d, paths) && path in paths && seen <= paths ==> |paths| > LIMIT
  }

  lemma MembersFine(d: Disk, paths: set<Path>, path: Path)
    ensures Trusted(d, paths) && path in paths ==> Fine(d, path)
  {
    hide Fine, Leads;
    if Trusted(d, paths) && path in paths { assert Known(d, path, paths); }
  }

  lemma NotFine(d: Disk, path: Path, seen: set<Path>)
    requires !Fine(d, path)
    ensures Hopeless(d, path, seen)
  {
    hide Fine, Trusted;
    forall paths: set<Path> ensures Trusted(d, paths) && path in paths ==> Fine(d, path) {
      MembersFine(d, paths, path);
    }
  }

  lemma TooMany(d: Disk, path: Path, seen: set<Path>, after: set<Path>)
    requires Least(d, path, seen, after) && |after| > LIMIT
    ensures Hopeless(d, path, seen)
  {
    hide Trusted;
    forall paths: set<Path> | Trusted(d, paths) && path in paths && seen <= paths ensures |paths| > LIMIT {
      SubsetSize(after, paths);
    }
  }

  /** What is hopeless after following a link was hopeless before. */
  lemma HopelessFrom(d: Disk, path: Path, seen: set<Path>, after: set<Path>, next: Path)
    requires Least(d, path, seen, after) && Leads(d, path, next) && Hopeless(d, next, after)
    ensures Hopeless(d, path, seen)
  {
    hide Fine, Leads;
    forall paths: set<Path> | Trusted(d, paths) && path in paths && seen <= paths ensures |paths| > LIMIT {
      assert Known(d, path, paths);
      assert next in paths;
    }
  }

  lemma LeastFrom(d: Disk, path: Path, seen: set<Path>, after: set<Path>, next: Path, more: set<Path>)
    requires Least(d, path, seen, after) && Leads(d, path, next) && Least(d, next, after, more)
    ensures Least(d, path, seen, more)
  {
    hide Fine, Leads;
    forall paths: set<Path> | Trusted(d, paths) && path in paths && seen <= paths ensures more <= paths {
      assert Known(d, path, paths);
      assert next in paths;
    }
  }

  lemma SettledFrom(d: Disk, seen: set<Path>, after: set<Path>, more: set<Path>)
    requires Settled(d, seen, after) && Settled(d, after, more)
    ensures Settled(d, seen, more)
  {
    hide Fine, Leads;
    forall q | q in more && q !in seen ensures Known(d, q, more) {
      if q in after { assert Known(d, q, after); }
    }
  }

  /** The prefixes from `k` on have been checked and followed. */
  ghost predicate PartsDone(d: Disk, path: Path, k: int, after: set<Path>)
    requires 0 <= k
  {
    forall j :: k <= j <= |path| ==>
      PartFine(d, path, j) && (HopAt(d, path, j).Some? ==> HopAt(d, path, j).value in after)
  }

  lemma PathSettled(d: Disk, path: Path, seen: set<Path>, after: set<Path>)
    requires Settled(d, seen + {path}, after) && PartsDone(d, path, 0, after)
    requires d.resolve(path).Some? && d.resolve(path).value in after
    ensures Settled(d, seen, after)
  {
    hide HopAt, PartFine;
    assert Known(d, path, after);
  }

  /** `os.path.normpath` of an absolute path: `..` takes the last component away. */
  method NormPath(p: Path) returns (r: Path)
    ensures r == Normal(p)
  {
    r := [];
    var i := 0;
    while i < |p|
      invariant 0 <= i <= |p| && r == Normal(p[..i])
    {
      assert p[..i + 1][..i] == p[..i];
      if p[i] == ".." {
        if r != [] { r := r[..|r| - 1]; }
      } else {
        r := r + [p[i]];
      }
      i := i + 1;
    }
    assert p[..i] == p;
  }

  /** The loop body of `visit` for one prefix: owner, link, write bits. */
  method Check(d: Disk, path: Path, k: nat) returns (fine: bool, hop: Option<Path>)
    requires k <= |path|
    ensures fine <==> PartFine(d, path, k)
    ensures fine ==> hop == HopAt(d, path, k)
  {
    hide Normal;
    var p := path[..k];
    var found := d.lstat(p);
    if found.None? { return false, None; }
    var st := found.value;
    if st.uid != 0 && st.uid != d.uid { return false, None; }
    if st.link.Some? {
      var above := if p == [] then [] else p[..|p| - 1];
      var to := st.link.value;
      return true, Some(if to.absolute then to.parts else above + to.parts);
    }
    ExposedBits(st.mode);
    var normal := NormPath(p);
    var pending := d.tree <= normal;
    if (st.mode & 0x10 != 0 || st.mode & 0x02 != 0) && !pending {
      if !(k < |path| && st.uid == 0 && st.mode & 0x200 != 0) { return false, None; }
    }
    fine, hop := true, None;
  }

  /** The nested `visit`. */
  method Visit(d: Disk, path: Path, seen: set<Path>) returns (ok: bool, after: set<Path>)
    requires |seen| <= LIMIT
    ensures ok ==> path in after && |after| <= LIMIT && Settled(d, seen, after) && Least(d, path, seen, after)
    ensures !ok ==> Hopeless(d, path, seen)
    decreases LIMIT - |seen|
  {
    hide Known, Fine, Trusted, Least, Settled, Hopeless, PartFine, HopAt;
    LeastStart(d, path, seen);
    if path in seen { return true, seen; }
    after := seen + {path};
    if |after| > 128 {
      TooMany(d, path, seen, after);
      return false, after;
    }
    var k := |path|;
    while k >= 0
      invariant -1 <= k <= |path| && path in after && |seen| < |after| <= LIMIT
      invariant Settled(d, seen + {path}, after) && Least(d, path, seen, after)
      invariant PartsDone(d, path, k + 1, after)
    {
      var fine, hop := Check(d, path, k);
      if !fine {
        PartFails(d, path, k);
        NotFine(d, path, seen);
        return false, after;
      }
      if hop.Some? {
        ghost var was := after;
        assert Leads(d, path, hop.value);
        ok, after := Visit(d, hop.value, after);
        if !ok {
          HopelessFrom(d, path, seen, was, hop.value);
          return;
        }
        Grow(d, path, seen, was, hop.value, after, k + 1);
      }
      k := k - 1;
    }
    var resolved := d.resolve(path);
    if resolved.None? {
      assert !Fine(d, path) by { Unresolved(d, path); }
      NotFine(d, path, seen);
      return false, after;
    }
    if resolved.value != path {
      ghost var was := after;
      assert Leads(d, path, resolved.value);
      ok, after := Visit(d, resolved.value, after);
      if !ok {
        HopelessFrom(d, path, seen, was, resolved.value);
        return;
      }
      Grow(d, path, seen, was, resolved.value, after, 0);
    }
    PathSettled(d, path, seen, after);
    ok := true;
  }

  lemma LeastStart(d: Disk, path: Path, seen: set<Path>)
    ensures Least(d, path, seen, seen) && Least(d, path, seen, seen + {path})
    ensures Settled(d, seen, seen) && Settled(d, seen + {path}, seen + {path})
  {
    hide Trusted, Known;
  }

  lemma PartFails(d: Disk, path: Path, k: nat)
    requires k <= |path| && !PartFine(d, path, k)
    ensures !Fine(d, path)
  {
    hide PartFine;
  }

  lemma Unresolved(d: Disk, path: Path)
    requires d.resolve(path).None?
    ensures !Fine(d, path)
  {
    hide PartFine;
  }

  lemma Grow(d: Disk, path: Path, seen: set<Path>, was: set<Path>, next: Path, after: set<Path>, k: nat)
    requires path in was && |seen| < |was| && Settled(d, seen + {path}, was) && Least(d, path, seen, was)
    requires Leads(d, path, next) && Settled(d, was, after) && Least(d, next, was, after) && PartsDone(d, path, k, was)
    ensures path in after && |was| <= |after| && was <= after
    ensures Settled(d, seen + {path}, after) && Least(d, path, seen, after) && PartsDone(d, path, k, after)
  {
    LeastFrom(d, path, seen, was, next, after);
    SettledFrom(d, seen + {path}, was, after);
    hide Known, Fine, Trusted, Least, Leads, PartFine, HopAt;
    SubsetSize(was, after);
  }

  /** Some trusted set of at most 128 paths has the target: every path met on the way is fine, and there are
      at most 128 of them. */
  ghost predicate Reliable(d: Disk, target: Path)
  {
    exists paths: set<Path> :: target in paths && Trusted(d, paths) && |paths| <= LIMIT
  }

  /** `target_trusted` accepts exactly the reliable targets. */
  method TargetTrusted(d: Disk, target: Path) returns (ok: bool)
    ensures ok <==> Reliable(d, target)
  {
    hide Known;
    ghost var after;
    ok, after := Visit(d, target, {});
    if ok {
      assert Trusted(d, after);
    }
  }

  // ---------------------------------------------------------------- the plan keeps trust

  /** The same file system with group and other write access taken away in places. */
  ghost predicate Tightened(a: Disk, b: Disk)
  {
    && b.resolve == a.resolve && b.tree == a.tree && b.uid == a.uid
    && forall p :: match a.lstat(p)
         case None => b.lstat(p) == None
         case Some(st) => b.lstat(p) == Some(st) || b.lstat(p) == Some(st.(mode := Closed(st.mode)))
  }

  lemma PartKept(a: Disk, b: Disk, path: Path, k: nat)
    requires Tightened(a, b) && k <= |path| && PartFine(a, path, k)
    ensures PartFine(b, path, k) && HopAt(b, path, k) == HopAt(a, path, k)
  {
    var st := a.lstat(path[..k]).value;
    ClosedMode(st.mode);
  }

  /** Taking write access away leaves every trusted set trusted: the plan cannot make its own second
      inspection refuse a link. */
  lemma TrustKept(a: Disk, b: Disk, paths: set<Path>)
    requires Tightened(a, b) && Trusted(a, paths)
    ensures Trusted(b, paths)
  {
    forall q | q in paths ensures Known(b, q, paths) {
      assert Known(a, q, paths);
      hide Tightened, PartFine, HopAt;
      forall k | 0 <= k <= |q| ensures PartFine(b, q, k) && HopAt(b, q, k) == HopAt(a, q, k) { PartKept(a, b, q, k); }
      assert b.resolve == a.resolve by { Resolved(a, b); }
      forall next | Leads(b, q, next) ensures next in paths { assert Leads(a, q, next); }
    }
  }

  lemma Resolved(a: Disk, b: Disk)
    requires Tightened(a, b)
    ensures b.resolve == a.resolve
  {
  }

  lemma ReliableKept(a: Disk, b: Disk, target: Path)
    requires Tightened(a, b) && Reliable(a, target)
    ensures Reliable(b, target)
  {
    hide Tightened, Trusted;
    var paths: set<Path> :| target in paths && Trusted(a, paths) && |paths| <= LIMIT;
    TrustKept(a, b, paths);
  }
}
