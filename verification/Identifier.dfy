/**
 Content addresses of deployments: `identifier`, and the recomputation in `verify_deployment`.
 The digest is a parameter; where a result needs it not to collide, it says on which inputs.
 */
module Identifier {
  import opened Bytes

  const LF: byte := 10

  type Files = map<bytes, bytes>
  type Hash = bytes -> bytes

  predicate HexByte(b: byte) { 48 <= b <= 57 || 97 <= b <= 102 }

  /** `re.fullmatch(r"[0-9a-f]{64}", ...)`. */
  predicate Hex64(s: bytes)
  {
    |s| == 64 && forall i :: 0 <= i < 64 ==> HexByte(s[i])
  }

  ghost predicate Digests(hash: Hash)
  {
    forall b :: Hex64(hash(b))
  }

  /** `{name: digest(data)}`. */
  function DigestMap(files: Files, hash: Hash): Files
  {
    map name | name in files :: hash(files[name])
  }

  // ---------------------------------------------------------------- sorted(files)

  /** The items of a map in the order of their names. */
  ghost function Lines(m: Files): (r: seq<Keyed<bytes>>)
    ensures Ascending(r)
    ensures forall x :: x in r <==> x.key in m && m[x.key] == x.item
  {
    if m == map[] then []
    else
      var k :| k in m;
      var rest := Lines(m - {k});
      InsertLine(m, k, rest);
      Insert(Keyed(k, m[k]), rest)
  }

  ghost predicate LinesOf(m: Files, r: seq<Keyed<bytes>>)
  {
    Ascending(r) && forall x :: x in r <==> x.key in m && m[x.key] == x.item
  }

  lemma InsertLine(m: Files, k: bytes, rest: seq<Keyed<bytes>>)
    requires k in m && LinesOf(m - {k}, rest)
    ensures LinesOf(m, Insert(Keyed(k, m[k]), rest))
  {
    hide Ascending, Insert;
    var x := Keyed(k, m[k]);
    InsertAscending(x, rest);
    var r := Insert(x, rest);
    forall y ensures y in r <==> y in rest || y == x {
      assert y in r <==> y in multiset(r);
      assert y in rest <==> y in multiset(rest);
    }
  }

  /** Any way of sorting the names gives these lines. */
  method SortedItems(m: Files) returns (r: seq<Keyed<bytes>>)
    ensures r == Lines(m)
  {
    r := [];
    var left := m.Keys;
    while left != {}
      invariant left <= m.Keys
      invariant Ascending(r)
      invariant forall x :: x in r <==> x.key in m.Keys - left && m[x.key] == x.item
    {
      var k :| k in left;
      var x := Keyed(k, m[k]);
      InsertAscending(x, r);
      ghost var before := r;
      r := Insert(x, r);
      forall y ensures y in r <==> y == x || y in before {
        assert y in r <==> y in multiset(r);
        assert y in before <==> y in multiset(before);
      }
      left := left - {k};
    }
    AscendingUnique(r, Lines(m));
  }

  // ---------------------------------------------------------------- the encoding

  function Line(x: Keyed<bytes>): bytes
  {
    x.key + [NUL] + x.item + [LF]
  }

  lemma LineIs(x: Keyed<bytes>)
    ensures Line(x) == x.key + [0] + x.item + [10]
  {
  }

  function Encode(xs: seq<Keyed<bytes>>): bytes
  {
    if xs == [] then [] else Encode(xs[..|xs| - 1]) + Line(xs[|xs| - 1])
  }

  lemma {:induction false} EncodeFront(x: Keyed<bytes>, xs: seq<Keyed<bytes>>)
    ensures Encode([x] + xs) == Line(x) + Encode(xs)
  {
    hide Line;
    if xs == [] {
      assert ([x] + xs)[..0] == [];
    } else {
      var n := |xs| - 1;
      assert ([x] + xs)[..n + 1] == [x] + xs[..n];
      EncodeFront(x, xs[..n]);
      assert Line(x) + Encode(xs[..n]) + Line(xs[n]) == Line(x) + (Encode(xs[..n]) + Line(xs[n]));
    }
  }

  lemma EncodeNext(xs: seq<Keyed<bytes>>, i: nat)
    requires i < |xs|
    ensures Encode(xs[..i + 1]) == Encode(xs[..i]) + Line(xs[i])
  {
    hide Line;
    assert xs[..i + 1][..i] == xs[..i];
  }

  predicate Decodable(x: Keyed<bytes>)
  {
    NUL !in x.key && |x.item| == 64
  }

  /** A NUL-free name is delimited by the first NUL. */
  lemma {:induction false} NameDelimited(a: bytes, b: bytes, s: bytes, t: bytes)
    requires NUL !in a && NUL !in b && a + [NUL] + s == b + [NUL] + t
    ensures a == b && s == t
  {
    var x, y := a + [NUL] + s, b + [NUL] + t;
    assert x[0] == y[0];
    if a != [] && b != [] {
      assert x[1..] == a[1..] + [NUL] + s && y[1..] == b[1..] + [NUL] + t;
      NameDelimited(a[1..], b[1..], s, t);
      assert a == [a[0]] + a[1..] && b == [b[0]] + b[1..];
    } else {
      assert a == [] && b == [];
      assert x[1..] == s && y[1..] == t;
    }
  }

  lemma LineDelimited(x: Keyed<bytes>, y: Keyed<bytes>, s: bytes, t: bytes)
    requires Decodable(x) && Decodable(y) && Line(x) + s == Line(y) + t
    ensures x == y && s == t
  {
    var p, q := x.item + [LF] + s, y.item + [LF] + t;
    assert Line(x) + s == x.key + [NUL] + p;
    assert Line(y) + t == y.key + [NUL] + q;
    NameDelimited(x.key, y.key, p, q);
    assert x.item == p[..64] == q[..64] == y.item;
    assert s == p[65..] && t == q[65..];
  }

  /** The encoding of a listing is injective on NUL-free names and 64-byte digests. */
  lemma {:induction false} EncodeInjective(xs: seq<Keyed<bytes>>, ys: seq<Keyed<bytes>>)
    requires forall i :: 0 <= i < |xs| ==> Decodable(xs[i])
    requires forall i :: 0 <= i < |ys| ==> Decodable(ys[i])
    requires Encode(xs) == Encode(ys)
    ensures xs == ys
  {
    if xs != [] && ys != [] {
      assert xs == [xs[0]] + xs[1..] && ys == [ys[0]] + ys[1..];
      EncodeFront(xs[0], xs[1..]);
      EncodeFront(ys[0], ys[1..]);
      LineDelimited(xs[0], ys[0], Encode(xs[1..]), Encode(ys[1..]));
      EncodeInjective(xs[1..], ys[1..]);
    } else {
      EncodeEmpty(xs);
      EncodeEmpty(ys);
    }
  }

  lemma EncodeEmpty(xs: seq<Keyed<bytes>>)
    ensures Encode(xs) == [] <==> xs == []
  {
  }

  // ---------------------------------------------------------------- identifiers

  ghost function ManifestId(manifest: Files, hash: Hash): bytes
  {
    hash(Encode(Lines(manifest)))
  }

  ghost function IdOf(files: Files, hash: Hash): bytes
  {
    ManifestId(DigestMap(files, hash), hash)
  }

  /** `identifier`. */
  method ComputeIdentifier(files: Files, hash: Hash) returns (id: bytes)
    ensures id == IdOf(files, hash)
  {
    hide Line, Encode, Lines;
    var xs := SortedItems(DigestMap(files, hash));
    assert Encode(xs[..0]) == [] by { EncodeEmpty(xs[..0]); }
    var value: bytes := [];
    var i := 0;
    while i < |xs|
      invariant i <= |xs| && value == Encode(xs[..i])
    {
      EncodeNext(xs, i);
      LineIs(xs[i]);
      value := value + (xs[i].key + [0] + xs[i].item + [10]);
      i := i + 1;
    }
    assert xs[..i] == xs;
    id := hash(value);
  }

  /** No two different inputs among these have the same digest. */
  ghost predicate NoCollision(hash: Hash, inputs: set<bytes>)
  {
    forall a, b :: a in inputs && b in inputs && hash(a) == hash(b) ==> a == b
  }

  ghost predicate NulFree(files: Files)
  {
    forall name :: name in files ==> NUL !in name
  }

  lemma LinesDecodable(files: Files, hash: Hash)
    requires NulFree(files) && Digests(hash)
    ensures forall i :: 0 <= i < |Lines(DigestMap(files, hash))| ==> Decodable(Lines(DigestMap(files, hash))[i])
  {
    var xs := Lines(DigestMap(files, hash));
    forall i | 0 <= i < |xs| ensures Decodable(xs[i]) {
      assert xs[i] in xs;
    }
  }

  lemma LinesDetermine(a: Files, b: Files)
    requires Lines(a) == Lines(b)
    ensures a == b
  {
    hide Lines, Ascending;
    forall k | k in a ensures k in b && b[k] == a[k] {
      assert Keyed(k, a[k]) in Lines(b);
    }
    forall k | k in b ensures k in a {
      assert Keyed(k, b[k]) in Lines(a);
    }
  }

  /** Equal identifiers mean equal file sets, unless the digest collides on these very inputs. */
  lemma EqualIdsEqualFiles(a: Files, b: Files, hash: Hash)
    requires NulFree(a) && NulFree(b) && Digests(hash)
    requires NoCollision(hash, a.Values + b.Values
      + {Encode(Lines(DigestMap(a, hash))), Encode(Lines(DigestMap(b, hash)))})
    requires IdOf(a, hash) == IdOf(b, hash)
    ensures a == b
  {
    LinesDecodable(a, hash);
    LinesDecodable(b, hash);
    EncodeInjective(Lines(DigestMap(a, hash)), Lines(DigestMap(b, hash)));
    LinesDetermine(DigestMap(a, hash), DigestMap(b, hash));
    forall k | k in a ensures k in b && b[k] == a[k] {
      assert k in DigestMap(a, hash);
      assert k in DigestMap(b, hash);
      assert hash(a[k]) == hash(b[k]);
      assert a[k] in a.Values && b[k] in b.Values;
    }
    forall k | k in b ensures k in a { assert k in DigestMap(b, hash); }
  }

  // ---------------------------------------------------------------- verification

  /** An installed generation: the manifest's fields and the files found in the directory. */
  datatype Generation = Generation(deployment: bytes, manifest: Files, files: Files)

  function Fresh(id: bytes, files: Files, hash: Hash): Generation
  {
    Generation(id, DigestMap(files, hash), files)
  }

  ghost predicate Verifies(g: Generation, id: bytes, hash: Hash, known: set<set<bytes>>)
  {
    && Hex64(id) && g.deployment == id && g.manifest.Keys in known
    && (forall name :: name in g.manifest ==>
          Hex64(g.manifest[name]) && name in g.files && hash(g.files[name]) == g.manifest[name])
    && ManifestId(g.manifest, hash) == id
  }

  /** `re.fullmatch(r"[0-9a-f]{64}", s)`. */
  method CheckHex(s: bytes) returns (ok: bool)
    ensures ok <==> Hex64(s)
  {
    if |s| != 64 { return false; }
    var i := 0;
    while i < 64
      invariant 0 <= i <= 64 && forall j :: 0 <= j < i ==> HexByte(s[j])
    {
      if !(48 <= s[i] <= 57 || 97 <= s[i] <= 102) { return false; }
      i := i + 1;
    }
    ok := true;
  }

  /** `verify_deployment`: its own loop over the manifest, hashing what it reads. */
  method VerifyGeneration(g: Generation, id: bytes, hash: Hash, known: set<set<bytes>>) returns (ok: bool)
    ensures ok <==> Verifies(g, id, hash, known)
  {
    hide Line, Encode, Lines, Hex64;
    var wellFormed := CheckHex(id);
    if !wellFormed || g.deployment != id || g.manifest.Keys !in known { return false; }
    var xs := SortedItems(g.manifest);
    assert Encode(xs[..0]) == [] by { EncodeEmpty(xs[..0]); }
    var identity: bytes := [];
    var i := 0;
    while i < |xs|
      invariant i <= |xs| && identity == Encode(xs[..i])
      invariant forall j :: 0 <= j < i ==>
        Hex64(xs[j].item) && xs[j].key in g.files && hash(g.files[xs[j].key]) == xs[j].item
    {
      assert xs[i] in xs;
      wellFormed := CheckHex(xs[i].item);
      if !wellFormed { return false; }
      EncodeNext(xs, i);
      LineIs(xs[i]);
      identity := identity + (xs[i].key + [0] + xs[i].item + [10]);
      if xs[i].key !in g.files || hash(g.files[xs[i].key]) != xs[i].item { return false; }
      i := i + 1;
    }
    assert xs[..i] == xs;
    forall name | name in g.manifest
      ensures Hex64(g.manifest[name]) && name in g.files && hash(g.files[name]) == g.manifest[name]
    {
      assert Keyed(name, g.manifest[name]) in xs;
    }
    ok := hash(identity) == id;
  }

  /** What `install_files` has just written verifies exactly when its file set is a known one. */
  lemma FreshVerifies(files: Files, hash: Hash, known: set<set<bytes>>)
    requires Digests(hash)
    ensures Verifies(Fresh(IdOf(files, hash), files, hash), IdOf(files, hash), hash, known) <==> files.Keys in known
  {
    assert DigestMap(files, hash).Keys == files.Keys;
  }
}
