/**
 The explicit-stack walks of `_scan_held` and `_revalidate_tree`.
 */
module Scan {
  import opened Bytes
  import opened Entries
  import opened Tree

  // ---------------------------------------------------------------- the walk

  /** What is still to be listed: the stack from its top. */
  function Pending(stack: seq<Keyed<Tree>>): seq<Item>
  {
    if stack == [] then []
    else Preorder(stack[|stack| - 1].key, stack[|stack| - 1].item) + Pending(stack[..|stack| - 1])
  }

  /** The children of a directory as they are pushed: last name first. */
  function Pushed(path: bytes, cs: seq<Keyed<Tree>>): (r: seq<Keyed<Tree>>)
    ensures |r| == |cs|
  {
    if cs == [] then [] else Pushed(path, cs[1..]) + [Keyed(Join(path, cs[0].key), cs[0].item)]
  }

  lemma {:induction false} PendingPushed(stack: seq<Keyed<Tree>>, path: bytes, cs: seq<Keyed<Tree>>, within: Tree)
    requires forall c :: c in cs ==> c.item < within
    ensures Pending(stack + Pushed(path, cs)) == PreorderAll(path, cs, within) + Pending(stack)
    decreases |cs|
  {
    if cs == [] {
      assert stack + Pushed(path, cs) == stack;
    } else {
      var top := Keyed(Join(path, cs[0].key), cs[0].item);
      var s := stack + Pushed(path, cs);
      assert s == (stack + Pushed(path, cs[1..])) + [top];
      assert s[..|s| - 1] == stack + Pushed(path, cs[1..]);
      PendingPushed(stack, path, cs[1..], within);
    }
  }

  ghost predicate AllSafe(stack: seq<Keyed<Tree>>)
  {
    forall i :: 0 <= i < |stack| ==> Safe(stack[i].item)
  }

  lemma {:induction false} AllSafePushed(path: bytes, cs: seq<Keyed<Tree>>, within: Tree)
    requires forall c :: c in cs ==> c.item < within
    requires forall i :: 0 <= i < |cs| ==> SafeName(cs[i].key)
    ensures AllSafe(Pushed(path, cs)) <==> SafeAll(cs, within)
    decreases |cs|
  {
    if cs != [] {
      AllSafePushed(path, cs[1..], within);
      var p := Pushed(path, cs);
      assert p[|p| - 1].item == cs[0].item;
      assert forall i :: 0 <= i < |cs[1..]| ==> p[i] == Pushed(path, cs[1..])[i];
    }
  }

  lemma {:induction false} UnsafeName(cs: seq<Keyed<Tree>>, within: Tree, i: int)
    requires forall c :: c in cs ==> c.item < within
    requires 0 <= i < |cs| && !SafeName(cs[i].key)
    ensures !SafeAll(cs, within)
    decreases |cs|
  {
    if i > 0 { UnsafeName(cs[1..], within, i - 1); }
  }

  /** Pushing one directory's children, refusing an unsafe component.  The source checks and pushes in
      one pass over the reversed listing; a refusal discards the stack. */
  method PushChildren(stack: seq<Keyed<Tree>>, path: bytes, cs: seq<Keyed<Tree>>)
    returns (safe: bool, next: seq<Keyed<Tree>>)
    ensures safe <==> forall i :: 0 <= i < |cs| ==> SafeName(cs[i].key)
    ensures safe ==> next == stack + Pushed(path, cs)
  {
    next := stack;
    var i := |cs|;
    assert cs[i..] == [];
    while i > 0
      invariant 0 <= i <= |cs|
      invariant forall j :: i <= j < |cs| ==> SafeName(cs[j].key)
      invariant next == stack + Pushed(path, cs[i..])
    {
      i := i - 1;
      var name := cs[i].key;
      if name == [46] || name == [46, 46] || 47 in name || 0 in name { return false, next; }
      assert cs[i..][1..] == cs[i + 1..];
      var child := if path == [46] then name else path + [47] + name;
      next := next + [Keyed(child, cs[i].item)];
    }
    assert cs[0..] == cs;
    safe := true;
  }

  lemma PopSplit(stack: seq<Keyed<Tree>>)
    requires stack != []
    ensures var top := stack[|stack| - 1];
      Pending(stack) == [Keyed(top.key, top.item.info)]
                        + (PreorderAll(top.key, Listing(top.item), top.item) + Pending(stack[..|stack| - 1]))
  {
    hide PreorderAll, Listing;
    var top := stack[|stack| - 1];
    var a, b, c := [Keyed(top.key, top.item.info)], PreorderAll(top.key, Listing(top.item), top.item),
      Pending(stack[..|stack| - 1]);
    assert Pending(stack) == Preorder(top.key, top.item) + c == (a + b) + c;
    Associate(a, b, c);
  }

  lemma Associate(a: seq<Item>, b: seq<Item>, c: seq<Item>)
    ensures (a + b) + c == a + (b + c)
  {
  }

  lemma SafeStep(rest: seq<Keyed<Tree>>, top: Keyed<Tree>)
    ensures AllSafe(rest + [top]) <==> AllSafe(rest) && Safe(top.item)
    ensures (forall i :: 0 <= i < |Listing(top.item)| ==> SafeName(Listing(top.item)[i].key)) ==>
      (AllSafe(rest + Pushed(top.key, Listing(top.item))) <==> AllSafe(rest) && Safe(top.item))
    ensures (exists i :: 0 <= i < |Listing(top.item)| && !SafeName(Listing(top.item)[i].key)) ==> !Safe(top.item)
  {
    var cs := Listing(top.item);
    AllSafeConcat(rest, [top]);
    AllSafeConcat(rest, Pushed(top.key, cs));
    assert [top][0] == top;
    if forall i :: 0 <= i < |cs| ==> SafeName(cs[i].key) {
      AllSafePushed(top.key, cs, top.item);
    } else {
      var i :| 0 <= i < |cs| && !SafeName(cs[i].key);
      UnsafeName(cs, top.item, i);
    }
  }

  lemma AllSafeConcat(a: seq<Keyed<Tree>>, b: seq<Keyed<Tree>>)
    ensures AllSafe(a + b) <==> AllSafe(a) && AllSafe(b)
  {
    if AllSafe(a + b) {
      forall i | 0 <= i < |a| ensures Safe(a[i].item) { assert (a + b)[i] == a[i]; }
      forall i | 0 <= i < |b| ensures Safe(b[i].item) { assert (a + b)[|a| + i] == b[i]; }
    }
  }

  /** `sorted(os.scandir(...))` of a directory, by the bytes of the names. */
  method Children(t: Tree) returns (cs: seq<Keyed<Tree>>)
    ensures cs == Listing(t)
  {
    if t.info.mode / 0x1000 != 4 { return []; }
    cs := Sort(t.children);
  }

  /** The first loop of `_scan_held`: every node exactly once, in preorder; refused exactly when some
      name of the tree is unsafe. */
  method Walk(root: Tree) returns (safe: bool, raw: seq<Item>)
    ensures safe <==> Safe(root)
    ensures safe ==> raw == Preorder(ROOT, root)
  {
    hide Safe, Preorder, PreorderAll, AllSafe, Pending, SafeName, Pushed, Listing;
    var stack := [Keyed(ROOT, root)];
    raw := [];
    WalkStart(root);
    while stack != []
      invariant raw + Pending(stack) == Preorder(ROOT, root)
      invariant AllSafe(stack) <==> Safe(root)
      decreases |Pending(stack)|
    {
      var top, rest := stack[|stack| - 1], stack[..|stack| - 1];
      WalkStep(stack);
      raw := raw + [Keyed(top.key, top.item.info)];
      var children := Children(top.item);
      var ok, next := PushChildren(rest, top.key, children);
      if !ok { return false, raw; }
      stack := next;
    }
    AllSafeNone();
    safe := true;
  }

  lemma WalkStart(root: Tree)
    ensures Pending([Keyed(ROOT, root)]) == Preorder(ROOT, root) && (AllSafe([Keyed(ROOT, root)]) <==> Safe(root))
  {
    hide Safe, Preorder;
    var stack := [Keyed(ROOT, root)];
    assert stack[..0] == [];
    assert Pending(stack[..0]) == [];
  }

  /** Popping the top and pushing its children lists the top and leaves the rest pending. */
  lemma WalkStep(stack: seq<Keyed<Tree>>)
    requires stack != []
    ensures var top, rest := stack[|stack| - 1], stack[..|stack| - 1];
      var next := rest + Pushed(top.key, Listing(top.item));
      && Pending(stack) == [Keyed(top.key, top.item.info)] + Pending(next)
      && ((forall i :: 0 <= i < |Listing(top.item)| ==> SafeName(Listing(top.item)[i].key)) ==>
         (AllSafe(next) <==> AllSafe(stack)))
      && ((exists i :: 0 <= i < |Listing(top.item)| && !SafeName(Listing(top.item)[i].key)) ==> !AllSafe(stack))
  {
    hide Safe, Preorder, PreorderAll, AllSafe, Pending, SafeName, Pushed, Listing;
    var top, rest := stack[|stack| - 1], stack[..|stack| - 1];
    PopSplit(stack);
    SafeStep(rest, top);
    assert stack == rest + [top];
    PendingPushed(rest, top.key, Listing(top.item), top.item);
  }

  lemma AllSafeNone()
    ensures AllSafe([]) && Pending([]) == []
  {
  }

  // ---------------------------------------------------------------- revalidation

  datatype Identity = Identity(dev: nat, ino: nat, mode: nat, uid: nat, gid: nat, size: nat, mtime: int, ctime: int)

  function IdentityOf(i: Info): Identity
  {
    Identity(i.dev, i.ino, i.mode, i.uid, i.gid, i.size, i.mtime, i.ctime)
  }

  /** The dictionary a walk builds. */
  function IdentityMap(items: seq<Item>): map<bytes, Identity>
  {
    if items == [] then map[]
    else IdentityMap(items[..|items| - 1])[items[|items| - 1].key := IdentityOf(items[|items| - 1].item)]
  }

  lemma IdentityMapNext(items: seq<Item>, x: Item)
    ensures IdentityMap(items + [x]) == IdentityMap(items)[x.key := IdentityOf(x.item)]
  {
    assert (items + [x])[..|items|] == items;
  }

  method PushAll(stack: seq<Keyed<Tree>>, path: bytes, cs: seq<Keyed<Tree>>) returns (next: seq<Keyed<Tree>>)
    ensures next == stack + Pushed(path, cs)
  {
    next := stack;
    var i := |cs|;
    assert cs[i..] == [];
    while i > 0
      invariant 0 <= i <= |cs| && next == stack + Pushed(path, cs[i..])
    {
      i := i - 1;
      assert cs[i..][1..] == cs[i + 1..];
      var child := if path == [46] then cs[i].key else path + [47] + cs[i].key;
      next := next + [Keyed(child, cs[i].item)];
    }
    assert cs[0..] == cs;
  }

  /** The second walk. */
  method Observe(later: Tree) returns (observed: map<bytes, Identity>)
    ensures observed == IdentityMap(Preorder(ROOT, later))
  {
    hide Preorder, PreorderAll, IdentityMap;
    observed := map[];
    var stack := [Keyed(ROOT, later)];
    ghost var seen: seq<Item> := [];
    assert Pending(stack) == Preorder(ROOT, later) by { assert stack[..0] == []; assert Pending(stack[..0]) == []; }
    IdentityMapNone();
    while stack != []
      invariant seen + Pending(stack) == Preorder(ROOT, later)
      invariant observed == IdentityMap(seen)
      decreases |Pending(stack)|
    {
      var top, rest := stack[|stack| - 1], stack[..|stack| - 1];
      PopSplit(stack);
      PendingPushed(rest, top.key, Listing(top.item), top.item);
      IdentityMapNext(seen, Keyed(top.key, top.item.info));
      var info := top.item.info;
      var identity := Identity(info.dev, info.ino, info.mode, info.uid, info.gid, info.size, info.mtime, info.ctime);
      observed := observed[top.key := identity];
      seen := seen + [Keyed(top.key, top.item.info)];
      var children := Children(top.item);
      stack := PushAll(rest, top.key, children);
    }
    assert seen == Preorder(ROOT, later);
  }

  /** `_revalidate_tree`: accepts exactly when the second walk finds the same paths with the same
      identities. */
  method Revalidate(later: Tree, raw: seq<Item>) returns (accepted: bool)
    ensures accepted <==> IdentityMap(Preorder(ROOT, later)) == IdentityMap(raw)
  {
    hide Preorder, PreorderAll, IdentityMap;
    var expected := BuildExpected(raw);
    var observed := Observe(later);
    if expected.Keys != observed.Keys { return false; }
    var remaining := expected.Keys;
    while remaining != {}
      invariant remaining <= expected.Keys
      invariant forall k :: k in expected.Keys - remaining ==> observed[k] == expected[k]
    {
      var k :| k in remaining;
      if observed[k] != expected[k] { return false; }
      remaining := remaining - {k};
    }
    accepted := true;
  }

  lemma IdentityMapNone()
    ensures IdentityMap([]) == map[]
  {
  }

  method BuildExpected(raw: seq<Item>) returns (expected: map<bytes, Identity>)
    ensures expected == IdentityMap(raw)
  {
    expected := map[];
    var i := 0;
    while i < |raw|
      invariant i <= |raw| && expected == IdentityMap(raw[..i])
    {
      assert raw[..i + 1] == raw[..i] + [raw[i]];
      IdentityMapNext(raw[..i], raw[i]);
      var info := raw[i].item;
      var identity := Identity(info.dev, info.ino, info.mode, info.uid, info.gid, info.size, info.mtime, info.ctime);
      expected := expected[raw[i].key := identity];
      i := i + 1;
    }
    assert raw[..i] == raw;
  }
}
