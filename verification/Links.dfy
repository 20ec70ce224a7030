/**
 Symlink targets by counting: a relative target stays inside the root if and only if no prefix of it has more
 steps up than the link lies deep and the prefix goes down.
 */
module Links {
  import opened Options
  import opened Bytes
  import opened Entries
  import opened Tree
  import opened Admission
  import opened RootFS
  import opened Split

  /** The number of `..` parts. */
  function Ups(parts: seq<bytes>): nat
  {
    if parts == [] then 0 else (if parts[0] == [46, 46] then 1 else 0) + Ups(parts[1..])
  }

  /** The number of parts that name something. */
  function Downs(parts: seq<bytes>): nat
  {
    if parts == [] then 0
    else (if parts[0] == [] || parts[0] == [46] || parts[0] == [46, 46] then 0 else 1) + Downs(parts[1..])
  }

  /** From `depth` directories below the root the first `j` parts do not climb above it. */
  predicate Inside(depth: nat, parts: seq<bytes>, j: nat)
    requires j <= |parts|
  {
    Ups(parts[..j]) <= depth + Downs(parts[..j])
  }

  ghost predicate StaysInside(depth: nat, parts: seq<bytes>)
  {
    forall j :: 0 <= j <= |parts| ==> Inside(depth, parts, j)
  }

  lemma InsideStep(depth: nat, parts: seq<bytes>, j: nat)
    requires j < |parts|
    ensures parts[0] == [] || parts[0] == [46] ==> (Inside(depth, parts, j + 1) <==> Inside(depth, parts[1..], j))
    ensures parts[0] == [46, 46] && depth > 0 ==> (Inside(depth, parts, j + 1) <==> Inside(depth - 1, parts[1..], j))
    ensures parts[0] !in {[], [46], [46, 46]} ==> (Inside(depth, parts, j + 1) <==> Inside(depth + 1, parts[1..], j))
    ensures parts[0] == [46, 46] && depth == 0 && j == 0 ==> !Inside(depth, parts, j + 1)
  {
    assert parts[..j + 1][1..] == parts[1..][..j];
    if j == 0 { assert parts[..1][1..] == []; }
  }

  /** One step of the walk. */
  lemma StaysStep(depth: nat, parts: seq<bytes>)
    requires parts != []
    ensures StaysInside(depth, parts)
      <==> if parts[0] == [] || parts[0] == [46] then StaysInside(depth, parts[1..])
           else if parts[0] == [46, 46] then depth > 0 && StaysInside(depth - 1, parts[1..])
           else StaysInside(depth + 1, parts[1..])
  {
    assert Inside(depth, parts, 0);
    hide Inside;
    var rest, next := parts[1..], Next(depth, parts[0]);
    InsideStep(depth, parts, 0);
    if next.Some? {
      if StaysInside(depth, parts) {
        forall j | 0 <= j <= |rest| ensures Inside(next.value, rest, j) {
          InsideStep(depth, parts, j);
          assert Inside(depth, parts, j + 1);
        }
      }
      if StaysInside(next.value, rest) {
        forall j | 0 <= j <= |parts| ensures Inside(depth, parts, j) {
          if j > 0 {
            InsideStep(depth, parts, j - 1);
            assert Inside(next.value, rest, j - 1);
          }
        }
      }
    }
  }

  function Next(depth: nat, part: bytes): Option<nat>
  {
    if part == [] || part == [46] then Some(depth)
    else if part == [46, 46] then if depth == 0 then None else Some(depth - 1)
    else Some(depth + 1)
  }

  lemma {:induction false} ResolveCounts(at: seq<bytes>, parts: seq<bytes>)
    ensures Resolve(at, parts).Some? <==> StaysInside(|at|, parts)
    decreases |parts|
  {
    if parts == [] {
      assert parts[..0] == [];
    } else {
      StaysStep(|at|, parts);
      hide StaysInside;
      if parts[0] == [] || parts[0] == [46] {
        ResolveCounts(at, parts[1..]);
      } else if parts[0] == [46, 46] {
        if at != [] { ResolveCounts(at[..|at| - 1], parts[1..]); }
      } else {
        ResolveCounts(at + [parts[0]], parts[1..]);
      }
    }
  }

  // ---------------------------------------------------------------- the depth of a link

  /** Names that a path can be made of. */
  predicate Names(names: seq<bytes>)
  {
    forall i :: 0 <= i < |names| ==> Name(names[i])
  }

  predicate Name(n: bytes) { n != [] && n != [46] && n != [46, 46] && 47 !in n && 0 !in n }

  lemma {:induction false} SplitNames(names: seq<bytes>)
    requires names != [] && Names(names)
    ensures SplitOn(JoinWith(names, 47), 47) == names
  {
    if |names| == 1 {
      SplitPart(names[0], 47);
    } else {
      SplitNames(names[1..]);
      SplitFirst(names[0], JoinWith(names[1..], 47), 47);
      assert names == [names[0]] + names[1..];
    }
  }

  lemma {:induction false} NamedAll(names: seq<bytes>)
    requires Names(names)
    ensures Named(names) == names
  {
    if names != [] {
        NamedAll(names[1..]);
      assert names == [names[0]] + names[1..];
    }
  }

  lemma ParentOfNames(above: seq<bytes>, last: bytes)
    requires above != [] && Name(last)
    ensures Parent(JoinWith(above + [last], 47)) == Some(JoinWith(above, 47))
  {
    JoinConcat(above, [last], 47);
    assert JoinWith([last], 47) == last;
    hide JoinWith, Parent;
    ParentOfJoined(JoinWith(above, 47), last);
  }

  lemma TopDirectory(name: bytes)
    requires Name(name)
    ensures DirectoryOf(name) == []
  {
    hide Named, SplitOn;
    ParentOfName(name);
  }

  lemma InnerDirectory(above: seq<bytes>, last: bytes)
    requires above != [] && Names(above) && Name(last)
    ensures DirectoryOf(JoinWith(above + [last], 47)) == above
  {
    hide SplitOn, Named, Parent, JoinWith, Name;
    ParentOfNames(above, last);
    SplitNames(above);
    NamedAll(above);
  }

  /** The directory of a path of `k` names has `k - 1` of them. */
  lemma DirectoryNames(names: seq<bytes>)
    requires names != [] && Names(names)
    ensures DirectoryOf(JoinWith(names, 47)) == names[..|names| - 1]
  {
    hide DirectoryOf, Name;
    var k := |names| - 1;
    if k == 0 {
      TopDirectory(names[0]);
      assert names[..0] == [] && JoinWith(names, 47) == names[0];
    } else {
      hide JoinWith;
      assert names == names[..k] + [names[k]];
      InnerDirectory(names[..k], names[k]);
    }
  }

  /** A relative target of the link at n1/../nk is contained if and only if no prefix of its parts has more `..`
      than k - 1 and the names in it. */
  lemma TargetCounted(names: seq<bytes>, target: bytes)
    requires names != [] && Names(names)
    ensures Contained(JoinWith(names, 47), target)
      <==> (target != [] && target[0] == 47) || StaysInside(|names| - 1, SplitOn(target, 47))
  {
    hide Resolve, StaysInside, SplitOn, JoinWith, DirectoryOf;
    DirectoryNames(names);
    ResolveCounts(names[..|names| - 1], SplitOn(target, 47));
  }

  /** Directly below the root no target may begin with `..`. */
  lemma TopRefused(name: bytes, rest: bytes)
    requires Names([name])
    ensures !Contained(name, [46, 46]) && !Contained(name, [46, 46, 47] + rest)
  {
    var up: bytes := [46, 46];
    SplitPart(up, 47);
    SplitFirst(up, rest, 47);
    assert [46, 46, 47] + rest == up + [47] + rest;
    UpRefused(name, up);
    UpRefused(name, up + [47] + rest);
  }

  lemma UpRefused(name: bytes, target: bytes)
    requires Names([name]) && target != [] && target[0] != 47 && SplitOn(target, 47)[0] == [46, 46]
    ensures !Contained(name, target)
  {
    hide SplitOn, Contained;
    assert JoinWith([name], 47) == name;
    TargetCounted([name], target);
    var parts := SplitOn(target, 47);
    InsideStep(0, parts, 0);
    assert !Inside(0, parts, 1);
  }

  // ---------------------------------------------------------------- links of a scanned tree

  /** Following `names` from the top of the tree leads to an object with this `stat` result. */
  ghost predicate Holds(t: Tree, names: seq<bytes>, info: Info)
    decreases |names|
  {
    if names == [] then t.info == info
    else IsDir(t.info) && exists c :: c in t.children && c.key == names[0] && Holds(c.item, names[1..], info)
  }

  lemma {:induction false} PreorderChild(path: bytes, cs: seq<Keyed<Tree>>, within: Tree, c: Keyed<Tree>, x: Item)
    requires (forall c :: c in cs ==> c.item < within) && c in cs && x in Preorder(Join(path, c.key), c.item)
    ensures x in PreorderAll(path, cs, within)
    decreases |cs|
  {
    if c != cs[0] { PreorderChild(path, cs[1..], within, c, x); }
  }

  lemma InListing(t: Tree, c: Keyed<Tree>)
    requires IsDir(t.info) && c in t.children
    ensures c in Listing(t)
  {
    SortMembers(t.children, c);
  }

  function Joined(path: bytes, names: seq<bytes>): bytes
    decreases |names|
  {
    if names == [] then path else Joined(Join(path, names[0]), names[1..])
  }

  lemma {:induction false} HeldListed(path: bytes, t: Tree, names: seq<bytes>, info: Info)
    requires Safe(t) && Proper(t) && Holds(t, names, info)
    ensures Keyed(Joined(path, names), info) in Preorder(path, t) && Names(names)
    decreases |names|
  {
    if names != [] {
      var c :| c in t.children && c.key == names[0] && Holds(c.item, names[1..], info);
      InListing(t, c);
      SafeMember(Listing(t), t, c);
      ProperMember(Listing(t), t, c);
      HeldListed(Join(path, c.key), c.item, names[1..], info);
      PreorderChild(path, Listing(t), t, c, Keyed(Joined(path, names), info));
      assert names == [names[0]] + names[1..];
    }
  }

  lemma {:induction false} ProperMember(cs: seq<Keyed<Tree>>, within: Tree, c: Keyed<Tree>)
    requires (forall c :: c in cs ==> c.item < within) && ProperAll(cs, within) && c in cs
    ensures c.key != [] && Proper(c.item)
    decreases |cs|
  {
    if c != cs[0] { ProperMember(cs[1..], within, c); }
  }

  lemma {:induction false} JoinedBelow(path: bytes, names: seq<bytes>)
    requires path != ROOT && names != [] && Names(names)
    ensures Joined(path, names) == path + [47] + JoinWith(names, 47)
    decreases |names|
  {
    var next := Join(path, names[0]);
    if |names| > 1 {
      JoinNotRoot(path, names[0]);
      JoinedBelow(next, names[1..]);
      assert path + [47] + (names[0] + [47] + JoinWith(names[1..], 47))
        == (path + [47] + names[0]) + [47] + JoinWith(names[1..], 47);
    }
  }

  lemma JoinedNames(names: seq<bytes>)
    requires names != [] && Names(names)
    ensures Joined(ROOT, names) == JoinWith(names, 47)
  {
    if |names| > 1 {
      JoinNotRoot(ROOT, names[0]);
      JoinedBelow(names[0], names[1..]);
    }
  }

  /** In an admitted tree every link at depth k that is not absolute stays inside the root. */
  lemma AdmittedInside(root: Tree, names: seq<bytes>, info: Info)
    requires Safe(root) && Proper(root) && Admissible(Listed(root))
    requires Holds(root, names, info) && names != [] && info.mode / 4096 == 10
    ensures (info.data != [] && info.data[0] == 47) || StaysInside(|names| - 1, SplitOn(info.data, 47))
  {
    hide Preorder, Safe, Proper, Sort, Holds, StaysInside, SplitOn, LinksInside, Contained, XattrsOk;
    HeldListed(ROOT, root, names, info);
    JoinedNames(names);
    SortedListing(root);
    var x := Keyed(JoinWith(names, 47), info);
    assert x in Listed(root);
    var i :| 0 <= i < |Listed(root)| && Listed(root)[i] == x;
    assert ItemOk(Listed(root)[i]);
    TargetCounted(names, info.data);
  }
}
