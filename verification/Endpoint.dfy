/**
 `project_endpoint`: the length-framed bytes whose digest describes a network endpoint, and their
 unique decoding.  Strings are given by their UTF-8 bytes.
 */
module Endpoint {
  import opened Options
  import opened Bytes

  const STRING_LIMIT := 4096
  const TOTAL_LIMIT := 65536
  const U64 := 0x1_0000_0000_0000_0000

  /** `mkruntime-network-descriptor-v1` and a NUL. */
  const PREFIX: bytes := [109, 107, 114, 117, 110, 116, 105, 109, 101, 45, 110, 101, 116, 119, 111, 114, 107, 45,
                          100, 101, 115, 99, 114, 105, 112, 116, 111, 114, 45, 118, 49, 0]

  /** A DNS list of the JSON object. */
  datatype DnsList = Absent | Null | Values(values: seq<bytes>)

  /** The described fields: container, network, interface, namespace, address, gateway; MTU; DNS domain;
      name servers, search domains, options. */
  datatype Endpoint = Endpoint(strings: seq<bytes>, mtu: int, domain: Option<bytes>, lists: seq<DnsList>)

  ghost predicate Shaped(e: Endpoint) { |e.strings| == 6 && |e.lists| == 3 }

  function ListOf(l: DnsList): seq<bytes> { if l.Values? then l.values else [] }

  function DomainOf(d: Option<bytes>): bytes { if d.Some? then d.value else [] }

  /** What the descriptor means: absent, null and empty lists are the same, and so are absent and empty domain. */
  datatype Meaning = Meaning(strings: seq<bytes>, mtu: int, domain: bytes, lists: seq<seq<bytes>>)

  function MeaningOf(e: Endpoint): Meaning
  {
    Meaning(e.strings, e.mtu, DomainOf(e.domain), Lists(e.lists))
  }

  function Lists(ls: seq<DnsList>): (r: seq<seq<bytes>>)
    ensures |r| == |ls| && forall i :: 0 <= i < |r| ==> r[i] == ListOf(ls[i])
  {
    seq(|ls|, i requires 0 <= i < |ls| => ListOf(ls[i]))
  }

  // ---------------------------------------------------------------- framing

  /** `n` in `k` bytes, most significant first. */
  function BigEndian(n: nat, k: nat): (r: bytes)
    ensures |r| == k
  {
    if k == 0 then [] else BigEndian(n / 256, k - 1) + [n % 256]
  }

  function FromBigEndian(s: bytes): nat
  {
    if s == [] then 0 else 256 * FromBigEndian(s[..|s| - 1]) + s[|s| - 1]
  }

  function Pow256(k: nat): nat { if k == 0 then 1 else 256 * Pow256(k - 1) }

  lemma {:induction false} BigEndianRoundTrip(n: nat, k: nat)
    requires n < Pow256(k)
    ensures FromBigEndian(BigEndian(n, k)) == n
  {
    if k > 0 {
      BigEndianRoundTrip(n / 256, k - 1);
      assert BigEndian(n, k)[..k - 1] == BigEndian(n / 256, k - 1);
    }
  }

  lemma EightBytes()
    ensures Pow256(8) == U64
  {
    assert Pow256(4) == 0x1_0000_0000;
    assert Pow256(8) == 0x1_0000_0000 * Pow256(4);
  }

  function Number(n: nat): bytes { BigEndian(n, 8) }

  function Framed(s: bytes): bytes { Number(|s|) + s }

  function FramedAll(ss: seq<bytes>): bytes
  {
    if ss == [] then [] else FramedAll(ss[..|ss| - 1]) + Framed(ss[|ss| - 1])
  }

  function FramedList(ss: seq<bytes>): bytes { Number(|ss|) + FramedAll(ss) }

  function FramedLists(ls: seq<seq<bytes>>): bytes
  {
    if ls == [] then [] else FramedLists(ls[..|ls| - 1]) + FramedList(ls[|ls| - 1])
  }

  /** The bytes that are hashed. */
  function Descriptor(m: Meaning): bytes
    requires m.mtu >= 0
  {
    PREFIX + FramedAll(m.strings) + Number(m.mtu) + Framed(m.domain) + FramedLists(m.lists)
  }

  // ---------------------------------------------------------------- the reader

  function ReadNumber(s: bytes): (r: Option<(nat, bytes)>)
    ensures r.Some? ==> |r.value.1| < |s|
  {
    if |s| < 8 then None else Some((FromBigEndian(s[..8]), s[8..]))
  }

  function ReadString(s: bytes): (r: Option<(bytes, bytes)>)
    ensures r.Some? ==> |r.value.1| < |s|
  {
    match ReadNumber(s)
    case None => None
    case Some((n, rest)) => if |rest| < n then None else Some((rest[..n], rest[n..]))
  }

  function ReadStrings(s: bytes, k: nat): (r: Option<(seq<bytes>, bytes)>)
    ensures r.Some? ==> |r.value.1| <= |s|
    decreases k
  {
    if k == 0 then Some(([], s))
    else match ReadString(s)
      case None => None
      case Some((x, rest)) =>
        match ReadStrings(rest, k - 1)
        case None => None
        case Some((xs, end)) => Some(([x] + xs, end))
  }

  function ReadLists(s: bytes, k: nat): Option<(seq<seq<bytes>>, bytes)>
    decreases k
  {
    if k == 0 then Some(([], s))
    else match ReadNumber(s)
      case None => None
      case Some((n, rest)) =>
        match ReadStrings(rest, n)
        case None => None
        case Some((x, more)) =>
          match ReadLists(more, k - 1)
          case None => None
          case Some((xs, end)) => Some(([x] + xs, end))
  }

  function Decode(s: bytes): Option<Meaning>
  {
    if !(PREFIX <= s) then None else
    match ReadStrings(s[|PREFIX|..], 6)
    case None => None
    case Some((strings, s1)) =>
      match ReadNumber(s1)
      case None => None
      case Some((mtu, s2)) =>
        match ReadString(s2)
        case None => None
        case Some((domain, s3)) =>
          match ReadLists(s3, 3)
          case None => None
          case Some((lists, s4)) => if s4 != [] then None else Some(Meaning(strings, mtu, domain, lists))
  }

  lemma NumberRead(n: nat, rest: bytes)
    requires n < U64
    ensures ReadNumber(Number(n) + rest) == Some((n, rest))
  {
    EightBytes();
    BigEndianRoundTrip(n, 8);
    var s := Number(n) + rest;
    assert s[..8] == Number(n) && s[8..] == rest;
  }

  lemma StringRead(x: bytes, rest: bytes)
    requires |x| < U64
    ensures ReadString(Framed(x) + rest) == Some((x, rest))
  {
    assert Framed(x) + rest == Number(|x|) + (x + rest);
    NumberRead(|x|, x + rest);
    assert (x + rest)[..|x|] == x && (x + rest)[|x|..] == rest;
  }

  lemma {:induction false} FramedFront(x: bytes, xs: seq<bytes>)
    ensures FramedAll([x] + xs) == Framed(x) + FramedAll(xs)
  {
    hide Framed;
    if xs == [] {
      assert ([x] + xs)[..0] == [];
    } else {
      var n := |xs| - 1;
      assert ([x] + xs)[..n + 1] == [x] + xs[..n];
      FramedFront(x, xs[..n]);
      assert (Framed(x) + FramedAll(xs[..n])) + Framed(xs[n]) == Framed(x) + (FramedAll(xs[..n]) + Framed(xs[n]));
    }
  }

  ghost predicate Short(xs: seq<bytes>) { forall i :: 0 <= i < |xs| ==> |xs[i]| < U64 }

  lemma {:induction false} StringsRead(xs: seq<bytes>, rest: bytes)
    requires Short(xs)
    ensures ReadStrings(FramedAll(xs) + rest, |xs|) == Some((xs, rest))
  {
    hide Framed, ReadString;
    if xs == [] {
      assert FramedAll(xs) + rest == rest;
    } else {
      assert xs == [xs[0]] + xs[1..];
      FramedFront(xs[0], xs[1..]);
      var tail := FramedAll(xs[1..]) + rest;
      assert FramedAll(xs) + rest == Framed(xs[0]) + tail;
      StringRead(xs[0], tail);
      StringsRead(xs[1..], rest);
    }
  }

  lemma {:induction false} ListsFront(x: seq<bytes>, xs: seq<seq<bytes>>)
    ensures FramedLists([x] + xs) == FramedList(x) + FramedLists(xs)
  {
    hide FramedList;
    if xs == [] {
      assert ([x] + xs)[..0] == [];
    } else {
      var n := |xs| - 1;
      assert ([x] + xs)[..n + 1] == [x] + xs[..n];
      ListsFront(x, xs[..n]);
      assert (FramedList(x) + FramedLists(xs[..n])) + FramedList(xs[n])
        == FramedList(x) + (FramedLists(xs[..n]) + FramedList(xs[n]));
    }
  }

  ghost predicate ShortLists(ls: seq<seq<bytes>>)
  {
    forall i :: 0 <= i < |ls| ==> |ls[i]| < U64 && Short(ls[i])
  }

  lemma {:induction false} ListsRead(ls: seq<seq<bytes>>, rest: bytes)
    requires ShortLists(ls)
    ensures ReadLists(FramedLists(ls) + rest, |ls|) == Some((ls, rest))
  {
    hide FramedAll, Number, ReadNumber, ReadStrings;
    if ls == [] {
      assert FramedLists(ls) + rest == rest;
    } else {
      assert ls == [ls[0]] + ls[1..];
      ListsFront(ls[0], ls[1..]);
      var tail := FramedLists(ls[1..]) + rest;
      assert FramedLists(ls) + rest == Number(|ls[0]|) + (FramedAll(ls[0]) + tail);
      NumberRead(|ls[0]|, FramedAll(ls[0]) + tail);
      StringsRead(ls[0], tail);
      ListsRead(ls[1..], rest);
    }
  }

  ghost predicate Encodable(m: Meaning)
  {
    && |m.strings| == 6 && Short(m.strings) && 0 <= m.mtu < U64 && |m.domain| < U64
    && |m.lists| == 3 && ShortLists(m.lists)
  }

  /** The descriptor bytes are uniquely decodable. */
  lemma DescriptorRoundTrip(m: Meaning)
    requires Encodable(m)
    ensures Decode(Descriptor(m)) == Some(m)
  {
    hide FramedAll, Number, Framed, FramedLists, ReadNumber, ReadStrings, ReadString, ReadLists;
    var s3 := FramedLists(m.lists) + [];
    var s2 := Framed(m.domain) + s3;
    var s1 := Number(m.mtu) + s2;
    var s0 := FramedAll(m.strings) + s1;
    assert Descriptor(m) == PREFIX + s0;
    assert Descriptor(m)[|PREFIX|..] == s0;
    StringsRead(m.strings, s1);
    NumberRead(m.mtu, s2);
    StringRead(m.domain, s3);
    ListsRead(m.lists, []);
  }

  // ---------------------------------------------------------------- the projection

  function Length(ss: seq<bytes>): nat { if ss == [] then 0 else Length(ss[..|ss| - 1]) + |ss[|ss| - 1]| }

  function LengthAll(ls: seq<seq<bytes>>): nat
  {
    if ls == [] then 0 else LengthAll(ls[..|ls| - 1]) + Length(ls[|ls| - 1])
  }

  ghost predicate Bounded(ss: seq<bytes>) { forall i :: 0 <= i < |ss| ==> |ss[i]| <= STRING_LIMIT }

  /** The bounds under which an endpoint is described at all. */
  ghost predicate Accepted(m: Meaning)
  {
    && Bounded(m.strings) && |m.domain| <= STRING_LIMIT && 576 <= m.mtu <= 65535
    && (forall i :: 0 <= i < |m.lists| ==> |m.lists[i]| <= 65536 && Bounded(m.lists[i]))
    && Length(m.strings) + |m.domain| + LengthAll(m.lists) <= TOTAL_LIMIT
  }

  /** One `string` call: the running total, and what is fed to the digest. */
  datatype State = State(fed: bytes, total: nat)

  method PutString(st: State, s: bytes) returns (r: Option<State>)
    ensures r.Some? <==> |s| <= STRING_LIMIT && st.total + |s| <= TOTAL_LIMIT
    ensures r.Some? ==> r.value == State(st.fed + Framed(s), st.total + |s|)
  {
    var total := st.total + |s|;
    if |s| > 4096 || total > 65536 { return None; }
    r := Some(State(st.fed + Number(|s|) + s, total));
    assert st.fed + Number(|s|) + s == st.fed + Framed(s);
  }

  lemma {:induction false} LengthMonotone(ss: seq<bytes>, i: nat)
    requires i <= |ss|
    ensures Length(ss[..i]) <= Length(ss)
  {
    if i < |ss| {
      LengthMonotone(ss[..|ss| - 1], i);
      assert ss[..|ss| - 1][..i] == ss[..i];
    } else {
      assert ss[..i] == ss;
    }
  }

  lemma PutNext(ss: seq<bytes>, i: nat)
    requires i < |ss|
    ensures FramedAll(ss[..i + 1]) == FramedAll(ss[..i]) + Framed(ss[i])
    ensures Length(ss[..i + 1]) == Length(ss[..i]) + |ss[i]| <= Length(ss)
  {
    hide Framed;
    assert ss[..i + 1][..i] == ss[..i];
    LengthMonotone(ss, i + 1);
  }

  method PutStrings(st: State, ss: seq<bytes>) returns (r: Option<State>)
    requires st.total <= TOTAL_LIMIT
    ensures r.Some? <==> Bounded(ss) && st.total + Length(ss) <= TOTAL_LIMIT
    ensures r.Some? ==> r.value == State(st.fed + FramedAll(ss), st.total + Length(ss))
  {
    hide FramedAll, Framed, Length;
    var cur := st;
    var i := 0;
    StartStrings(ss);
    assert st.fed + [] == st.fed;
    while i < |ss|
      invariant 0 <= i <= |ss| && cur == State(st.fed + FramedAll(ss[..i]), st.total + Length(ss[..i]))
      invariant (forall j :: 0 <= j < i ==> |ss[j]| <= STRING_LIMIT) && cur.total <= TOTAL_LIMIT
    {
      PutNext(ss, i);
      var next := PutString(cur, ss[i]);
      if next.None? { return None; }
      assert (st.fed + FramedAll(ss[..i])) + Framed(ss[i]) == st.fed + (FramedAll(ss[..i]) + Framed(ss[i]));
      cur := next.value;
      i := i + 1;
    }
    assert ss[..i] == ss;
    r := Some(cur);
  }

  lemma StartStrings(ss: seq<bytes>)
    ensures FramedAll(ss[..0]) == [] && Length(ss[..0]) == 0
  {
  }

  lemma {:induction false} LengthAllMonotone(ls: seq<seq<bytes>>, i: nat)
    requires i <= |ls|
    ensures LengthAll(ls[..i]) <= LengthAll(ls)
  {
    if i < |ls| {
      LengthAllMonotone(ls[..|ls| - 1], i);
      assert ls[..|ls| - 1][..i] == ls[..i];
    } else {
      assert ls[..i] == ls;
    }
  }

  lemma PutListNext(ls: seq<seq<bytes>>, i: nat)
    requires i < |ls|
    ensures FramedLists(ls[..i + 1]) == FramedLists(ls[..i]) + FramedList(ls[i])
    ensures LengthAll(ls[..i + 1]) == LengthAll(ls[..i]) + Length(ls[i]) <= LengthAll(ls)
  {
    hide FramedList, Length;
    assert ls[..i + 1][..i] == ls[..i];
    LengthAllMonotone(ls, i + 1);
  }

  method PutLists(st: State, ls: seq<DnsList>) returns (r: Option<State>)
    requires st.total <= TOTAL_LIMIT
    ensures r.Some? <==> && (forall i :: 0 <= i < |ls| ==> |Lists(ls)[i]| <= 65536 && Bounded(Lists(ls)[i]))
                         && st.total + LengthAll(Lists(ls)) <= TOTAL_LIMIT
    ensures r.Some? ==> r.value == State(st.fed + FramedLists(Lists(ls)), st.total + LengthAll(Lists(ls)))
  {
    hide FramedLists, LengthAll, Length, FramedAll, Number, Bounded;
    ghost var all := Lists(ls);
    var cur := st;
    var i := 0;
    StartLists(all);
    assert st.fed + [] == st.fed;
    while i < |ls|
      invariant 0 <= i <= |ls| && cur == State(st.fed + FramedLists(all[..i]), st.total + LengthAll(all[..i]))
      invariant (forall j :: 0 <= j < i ==> |all[j]| <= 65536 && Bounded(all[j])) && cur.total <= TOTAL_LIMIT
    {
      PutListNext(all, i);
      var values: seq<bytes> := match ls[i] case Absent => [] case Null => [] case Values(vs) => vs;
      if |values| > 65536 { return None; }
      var next := PutStrings(State(cur.fed + Number(|values|), cur.total), values);
      if next.None? { return None; }
      Associate(st.fed, FramedLists(all[..i]), Number(|values|), FramedAll(values));
      cur := next.value;
      i := i + 1;
    }
    assert all[..i] == all;
    r := Some(cur);
  }

  lemma Associate(a: bytes, b: bytes, c: bytes, d: bytes)
    ensures ((a + b) + c) + d == a + (b + (c + d))
  {
  }

  lemma StartLists(ls: seq<seq<bytes>>)
    ensures FramedLists(ls[..0]) == [] && LengthAll(ls[..0]) == 0
  {
  }

  /** `project_endpoint`: what is fed to the digest, or a refusal. */
  method ProjectEndpoint(e: Endpoint) returns (r: Option<bytes>)
    requires Shaped(e)
    ensures r.Some? <==> Accepted(MeaningOf(e))
    ensures r.Some? ==> r.value == Descriptor(MeaningOf(e))
  {
    hide FramedLists, LengthAll, Length, FramedAll, Number, Bounded, Framed;
    var prefix: bytes := [109, 107, 114, 117, 110, 116, 105, 109, 101, 45, 110, 101, 116, 119, 111, 114, 107, 45,
                          100, 101, 115, 99, 114, 105, 112, 116, 111, 114, 45, 118, 49, 0];
    var st := PutStrings(State(prefix, 0), e.strings);
    if st.None? || e.mtu < 576 || e.mtu > 65535 { return None; }
    var domain: bytes := match e.domain case None => [] case Some(d) => d;
    var st2 := PutString(st.value.(fed := st.value.fed + Number(e.mtu)), domain);
    if st2.None? { return None; }
    var st3 := PutLists(st2.value, e.lists);
    if st3.None? { return None; }
    r := Some(st3.value.fed);
  }

  lemma AcceptedEncodable(e: Endpoint)
    requires Shaped(e) && Accepted(MeaningOf(e))
    ensures Encodable(MeaningOf(e))
  {
  }

  /** The same domain, or none on both sides: absent or empty. */
  predicate SameDomain(x: Option<bytes>, y: Option<bytes>)
  {
    || (x.Some? && y.Some? && x.value == y.value)
    || ((x.None? || x.value == []) && (y.None? || y.value == []))
  }

  /** The same values, or none on both sides: absent, null or empty. */
  predicate SameList(x: DnsList, y: DnsList)
  {
    || (x.Values? && y.Values? && x.values == y.values)
    || ((x.Absent? || x.Null? || x == Values([])) && (y.Absent? || y.Null? || y == Values([])))
  }

  predicate SameEndpoint(a: Endpoint, b: Endpoint)
    requires |a.lists| == 3 && |b.lists| == 3
  {
    && a.strings == b.strings && a.mtu == b.mtu && SameDomain(a.domain, b.domain)
    && SameList(a.lists[0], b.lists[0]) && SameList(a.lists[1], b.lists[1]) && SameList(a.lists[2], b.lists[2])
  }

  lemma SameMeaning(a: Endpoint, b: Endpoint)
    requires Shaped(a) && Shaped(b)
    ensures MeaningOf(a) == MeaningOf(b) <==> SameEndpoint(a, b)
  {
    var x, y := Lists(a.lists), Lists(b.lists);
    assert x == y <==> x[0] == y[0] && x[1] == y[1] && x[2] == y[2];
  }

  /** Two accepted endpoints feed the same bytes if and only if they have the same six strings, MTU, domain and
      three lists, where an absent domain is an empty one and an absent or null list an empty one. */
  lemma DescriptorsEqualIff(a: Endpoint, b: Endpoint)
    requires Shaped(a) && Shaped(b) && Accepted(MeaningOf(a)) && Accepted(MeaningOf(b))
    ensures Descriptor(MeaningOf(a)) == Descriptor(MeaningOf(b)) <==> SameEndpoint(a, b)
  {
    hide Descriptor, Decode, Encodable, MeaningOf, SameEndpoint;
    AcceptedEncodable(a);
    AcceptedEncodable(b);
    DescriptorRoundTrip(MeaningOf(a));
    DescriptorRoundTrip(MeaningOf(b));
    SameMeaning(a, b);
  }
}
