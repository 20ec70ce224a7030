/**
 Entries of a scanned root, and what an archive of them has to mean: the tree that an
 extractor must end up with, whatever archive format carried it.
 */
module Entries {
  import opened Options
  import opened Bytes

  datatype Kind = Directory | Regular | Symlink

  /** One scanned object.  `hardlink` names the group of a multiply linked regular file. */
  datatype Entry = Entry(path: bytes, mode: nat, uid: nat, gid: nat, size: nat, kind: Kind,
                         target: Option<bytes>, hardlink: Option<bytes>)

  type Contents = map<bytes, bytes>

  const PERMISSIONS := 4096  // 0o7777 is everything below the file-type bits
  /** The file-type nibble of `st_mode`. */
  function TypeBits(kind: Kind): nat
  {
    match kind
    case Directory => 4
    case Regular => 8
    case Symlink => 10
  }

  function Body(e: Entry, contents: Contents): bytes
  {
    if e.path in contents then contents[e.path] else []
  }

  /** The path up to its last slash; none for a name directly below the root. */
  function Parent(p: bytes): (r: Option<bytes>)
    ensures r.Some? ==> r.value < p
  {
    if p == [] then None
    else if p[|p| - 1] == SLASH then Some(p[..|p| - 1])
    else Parent(p[..|p| - 1])
  }

  /** Two entries stand for one inode. */
  predicate SameFile(es: seq<Entry>, i: int, j: int)
    requires 0 <= i < |es| && 0 <= j < |es|
  {
    i == j || (es[i].hardlink.Some? && es[i].hardlink == es[j].hardlink)
  }

  /** An extracted tree: names bound to nodes, so that shared nodes are hard links. */
  datatype Node = Node(mode: nat, uid: nat, gid: nat, data: bytes)
  datatype Image = Image(names: map<bytes, nat>, nodes: seq<Node>)

  const EMPTY_IMAGE := Image(map[], [])

  predicate IsDirectory(n: Node) { n.mode / 0x1000 == 4 }

  /** A name can be created only inside a directory that already exists. */
  predicate ParentReady(img: Image, path: bytes)
  {
    match Parent(path)
    case None => true
    case Some(p) =>
      p in img.names && img.names[p] < |img.nodes| && IsDirectory(img.nodes[img.names[p]])
  }

  function NodeOf(e: Entry, contents: Contents): Node
  {
    Node(e.mode, e.uid, e.gid, Body(e, contents))
  }

  /** The paths of the first `n` entries. */
  function Paths(es: seq<Entry>, n: nat): (r: set<bytes>)
    requires n <= |es|
    ensures forall i :: 0 <= i < n ==> es[i].path in r
  {
    if n == 0 then {} else Paths(es, n - 1) + {es[n - 1].path}
  }

  lemma {:induction false} PathIndex(es: seq<Entry>, n: nat, p: bytes) returns (i: nat)
    requires n <= |es| && p in Paths(es, n)
    ensures i < n && es[i].path == p
  {
    if es[n - 1].path == p { i := n - 1; } else { i := PathIndex(es, n - 1, p); }
  }

  ghost predicate NodesMatch(img: Image, es: seq<Entry>, contents: Contents, n: nat)
    requires n <= |es|
  {
    forall i :: 0 <= i < n ==>
      es[i].path in img.names && img.names[es[i].path] < |img.nodes|
      && img.nodes[img.names[es[i].path]] == NodeOf(es[i], contents)
  }

  /** The node that an entry's path is bound to. */
  function Bound(names: map<bytes, nat>, e: Entry): nat
  {
    if e.path in names then names[e.path] else 0
  }

  ghost predicate LinksMatch(names: map<bytes, nat>, es: seq<Entry>, n: nat)
    requires n <= |es|
  {
    forall i, j :: 0 <= i < n && 0 <= j < n ==>
      (Bound(names, es[i]) == Bound(names, es[j]) <==> SameFile(es, i, j))
  }

  /** `img` is the tree of the first `n` entries: the same paths, for every path the same type, mode,
      owner and bytes, and exactly the same hard-link partition. */
  ghost predicate DenotesPrefix(img: Image, es: seq<Entry>, contents: Contents, n: nat)
    requires n <= |es|
  {
    img.names.Keys == Paths(es, n) && NodesMatch(img, es, contents, n) && LinksMatch(img.names, es, n)
  }

  ghost predicate Denotes(img: Image, es: seq<Entry>, contents: Contents)
  {
    DenotesPrefix(img, es, contents, |es|)
  }

  ghost predicate Sorted(es: seq<Entry>)
  {
    forall i, j :: 0 <= i < j < |es| ==> Below(es[i].path, es[j].path)
  }

  /** Every parent directory is an entry too. */
  ghost predicate ParentsListed(es: seq<Entry>)
  {
    forall i :: 0 <= i < |es| && Parent(es[i].path).Some? ==>
      exists d :: 0 <= d < |es| && es[d].path == Parent(es[i].path).value && es[d].kind == Directory
  }

  ghost predicate EntryOk(e: Entry, contents: Contents)
  {
    && e.mode / PERMISSIONS == TypeBits(e.kind)
    && (e.kind == Directory <==> e.path !in contents)
    && (e.hardlink.Some? ==> e.kind == Regular)
    && (e.kind == Symlink ==> e.target == Some(Body(e, contents)))
    && (e.kind == Regular ==> e.size == |Body(e, contents)|)
  }

  /** What a scan guarantees about its result. */
  ghost predicate Scanned(es: seq<Entry>, contents: Contents)
  {
    && Sorted(es)
    && ParentsListed(es)
    && (forall i :: 0 <= i < |es| ==> EntryOk(es[i], contents))
    && (forall i, j :: 0 <= i < |es| && 0 <= j < |es| && SameFile(es, i, j) ==>
          NodeOf(es[i], contents) == NodeOf(es[j], contents))
  }

  lemma SortedDistinct(es: seq<Entry>, i: int, j: int)
    requires Sorted(es) && 0 <= i < |es| && 0 <= j < |es| && es[i].path == es[j].path
    ensures i == j
  {
    BelowIrreflexive(es[i].path);
  }

  /** After the byte sort every directory precedes everything below it. */
  lemma ParentEarlier(es: seq<Entry>, i: int) returns (d: int)
    requires Sorted(es) && ParentsListed(es) && 0 <= i < |es| && Parent(es[i].path).Some?
    ensures 0 <= d < i && es[d].path == Parent(es[i].path).value && es[d].kind == Directory
  {
    d :| 0 <= d < |es| && es[d].path == Parent(es[i].path).value && es[d].kind == Directory;
    PrefixBelow(es[d].path, es[i].path);
    if i <= d {
      if i < d { BelowTransitive(es[i].path, es[d].path, es[i].path); }
      BelowIrreflexive(es[i].path);
      assert false;
    }
  }

  /** Extraction order is sound: when an entry's turn comes its directory is in the image. */
  lemma DirectoryFirst(img: Image, es: seq<Entry>, contents: Contents, n: nat)
    requires Scanned(es, contents) && n < |es| && DenotesPrefix(img, es, contents, n)
    ensures ParentReady(img, es[n].path)
    ensures es[n].path !in img.names
  {
    if Parent(es[n].path).Some? {
      var d := ParentEarlier(es, n);
    }
    if es[n].path in img.names {
      var i := PathIndex(es, n, es[n].path);
      SortedDistinct(es, i, n);
      assert false;
    }
  }

  /** One more name, bound like its group's representative (or to a node nobody has). */
  lemma LinksExtend(names: map<bytes, nat>, es: seq<Entry>, n: nat, k: nat)
    requires n < |es| && LinksMatch(names, es, n)
    requires forall i :: 0 <= i < n ==> es[i].path != es[n].path
    requires forall i :: 0 <= i < n ==> (Bound(names, es[i]) == k <==> SameFile(es, i, n))
    ensures LinksMatch(names[es[n].path := k], es, n + 1)
  {
    var next := names[es[n].path := k];
    forall i, j | 0 <= i < n + 1 && 0 <= j < n + 1
      ensures Bound(next, es[i]) == Bound(next, es[j]) <==> SameFile(es, i, j)
    {
    }
  }

  /** Adding the next entry as a node of its own. */
  lemma ExtendFresh(img: Image, es: seq<Entry>, contents: Contents, n: nat)
    requires n < |es| && DenotesPrefix(img, es, contents, n) && es[n].path !in img.names
    requires forall j :: 0 <= j < n ==> !SameFile(es, j, n)
    ensures DenotesPrefix(Image(img.names[es[n].path := |img.nodes|], img.nodes + [NodeOf(es[n], contents)]),
                          es, contents, n + 1)
  {
    LinksExtend(img.names, es, n, |img.nodes|);
  }

  /** Adding the next entry as one more name of an earlier member of its group. */
  lemma ExtendLink(img: Image, es: seq<Entry>, contents: Contents, n: nat, j: nat)
    requires j < n < |es| && DenotesPrefix(img, es, contents, n) && es[n].path !in img.names
    requires SameFile(es, j, n) && NodeOf(es[j], contents) == NodeOf(es[n], contents)
    ensures DenotesPrefix(Image(img.names[es[n].path := img.names[es[j].path]], img.nodes), es, contents, n + 1)
  {
    var k := img.names[es[j].path];
    forall i | 0 <= i < n ensures Bound(img.names, es[i]) == k <==> SameFile(es, i, n) {
      assert Bound(img.names, es[i]) == Bound(img.names, es[j]) <==> SameFile(es, i, j);
    }
    LinksExtend(img.names, es, n, k);
  }

  /** Any two images of one scan agree: on the paths, on what each path holds, and on which paths
      are the same file. */
  lemma DenotationUnique(a: Image, b: Image, es: seq<Entry>, contents: Contents)
    requires Denotes(a, es, contents) && Denotes(b, es, contents)
    ensures a.names.Keys == b.names.Keys
    ensures forall p :: p in a.names ==>
      a.names[p] < |a.nodes| && b.names[p] < |b.nodes| && a.nodes[a.names[p]] == b.nodes[b.names[p]]
    ensures forall p, q :: p in a.names && q in a.names ==>
      (a.names[p] == a.names[q] <==> b.names[p] == b.names[q])
  {
    forall p | p in a.names
      ensures a.names[p] < |a.nodes| && b.names[p] < |b.nodes| && a.nodes[a.names[p]] == b.nodes[b.names[p]]
    {
      var i := PathIndex(es, |es|, p);
    }
    forall p, q | p in a.names && q in a.names
      ensures a.names[p] == a.names[q] <==> b.names[p] == b.names[q]
    {
      var i := PathIndex(es, |es|, p);
      var j := PathIndex(es, |es|, q);
      assert Bound(a.names, es[i]) == Bound(a.names, es[j]) <==> SameFile(es, i, j);
      assert Bound(b.names, es[i]) == Bound(b.names, es[j]) <==> SameFile(es, i, j);
    }
  }
}
