/**
 The "newc" cpio stream: the printer used by the rootfs builder and the reader that the
 Linux document "initramfs buffer format" prescribes (cpio_header field table, cpio_file grammar).
 */
module Cpio {
  import opened Options
  import opened Bytes

  const LIMIT := 0x1_0000_0000  // a header field is eight hexadecimal digits
  const MAGIC: bytes := [48, 55, 48, 55, 48, 49]  // "070701"
  const TRAILER: bytes := [84, 82, 65, 73, 76, 69, 82, 33, 33, 33]  // "TRAILER!!!"

  datatype Record = Record(name: bytes, ino: nat, mode: nat, uid: nat, gid: nat, nlink: nat, data: bytes, extra: Extra)

  /** The header fields that the builder has no use for: modification time, device of the archive, device that
      a node stands for, checksum. */
  datatype Extra = Extra(mtime: nat, maj: nat, min: nat, rmaj: nat, rmin: nat, check: nat)

  const PLAIN := Extra(0, 0, 0, 0, 0, 0)

  // ---------------------------------------------------------------- hexadecimal fields

  function HexDigit(d: nat): byte
    requires d < 16
  {
    if d < 10 then 48 + d else 87 + d
  }

  function DigitValue(b: byte): (r: Option<nat>)
    ensures r.Some? ==> r.value < 16
  {
    if 48 <= b <= 57 then Some(b - 48)
    else if 97 <= b <= 102 then Some(b - 87)
    else if 65 <= b <= 70 then Some(b - 55)
    else None
  }

  /** `f"{n:0{w}x}"`: at least `w` digits, wider when `n` does not fit. */
  function Hex(n: nat, w: nat): bytes
    decreases n + w
  {
    if w == 0 && n == 0 then [] else Hex(n / 16, if w == 0 then 0 else w - 1) + [HexDigit(n % 16)]
  }

  function ReadHex(s: bytes): Option<nat>
  {
    if s == [] then Some(0)
    else match (ReadHex(s[..|s| - 1]), DigitValue(s[|s| - 1]))
         case (Some(v), Some(d)) => Some(16 * v + d)
         case _ => None
  }

  function Pow16(w: nat): nat
  {
    if w == 0 then 1 else 16 * Pow16(w - 1)
  }

  lemma {:induction false} ReadHexBound(s: bytes)
    ensures ReadHex(s).Some? ==> ReadHex(s).value < Pow16(|s|)
  {
    if s != [] { ReadHexBound(s[..|s| - 1]); }
  }

  lemma {:induction false} HexRoundTrip(n: nat, w: nat)
    requires n < Pow16(w)
    ensures |Hex(n, w)| == w && ReadHex(Hex(n, w)) == Some(n)
  {
    if w > 0 {
      HexRoundTrip(n / 16, w - 1);
      assert Hex(n, w)[..w - 1] == Hex(n / 16, w - 1);
      assert DigitValue(HexDigit(n % 16)) == Some(n % 16);
    }
  }

  /** The digits are lower-case. */
  lemma {:induction false} HexLower(n: nat, w: nat)
    ensures forall i :: 0 <= i < |Hex(n, w)| ==> 48 <= Hex(n, w)[i] <= 57 || 97 <= Hex(n, w)[i] <= 102
    decreases n + w
  {
    if w > 0 || n > 0 { HexLower(n / 16, if w == 0 then 0 else w - 1); }
  }

  lemma {:induction false} HexWide(n: nat, w: nat)
    ensures |Hex(n, w)| >= w
    ensures n >= Pow16(w) ==> |Hex(n, w)| > w
    decreases n + w
  {
    if w > 0 { HexWide(n / 16, w - 1); }
  }

  lemma EightDigits()
    ensures Pow16(8) == LIMIT
  {
    assert Pow16(4) == 65536;
    assert Pow16(8) == 65536 * Pow16(4);
  }

  function PrintFields(fs: seq<nat>): bytes
  {
    if fs == [] then [] else Hex(fs[0], 8) + PrintFields(fs[1..])
  }

  function ReadFields(s: bytes, k: nat): (r: Option<seq<nat>>)
    ensures r.Some? ==> |r.value| == k && |s| >= 8 * k
  {
    if k == 0 then Some([])
    else if |s| < 8 then None
    else match (ReadHex(s[..8]), ReadFields(s[8..], k - 1))
         case (Some(v), Some(vs)) => Some([v] + vs)
         case _ => None
  }

  ghost predicate Narrow(fs: seq<nat>)
  {
    forall i :: 0 <= i < |fs| ==> fs[i] < LIMIT
  }

  lemma {:induction false} FieldsRoundTrip(fs: seq<nat>, rest: bytes)
    requires Narrow(fs)
    ensures |PrintFields(fs)| == 8 * |fs|
    ensures ReadFields(PrintFields(fs) + rest, |fs|) == Some(fs)
  {
    if fs != [] {
      EightDigits();
      HexRoundTrip(fs[0], 8);
      FieldsRoundTrip(fs[1..], rest);
      hide Hex, ReadHex, Narrow, Pow16;
      var s := PrintFields(fs) + rest;
      assert s == Hex(fs[0], 8) + (PrintFields(fs[1..]) + rest);
      assert s[..8] == Hex(fs[0], 8);
      assert s[8..] == PrintFields(fs[1..]) + rest;
      assert fs == [fs[0]] + fs[1..];
    }
  }

  /** A field that needs a ninth digit is misread: the eight digits consumed denote another number. */
  lemma {:induction false} FieldsWide(fs: seq<nat>, rest: bytes) returns (j: nat)
    requires !Narrow(fs)
    ensures j < |fs| && fs[j] >= LIMIT
    ensures var r := ReadFields(PrintFields(fs) + rest, |fs|); r.Some? ==> r.value[j] < LIMIT
  {
    EightDigits();
    var s := PrintFields(fs) + rest;
    HexWide(fs[0], 8);
    if fs[0] >= LIMIT {
      j := 0;
      ReadHexBound(s[..8]);
    } else {
      HexRoundTrip(fs[0], 8);
      assert s[8..] == PrintFields(fs[1..]) + rest;
      assert fs == [fs[0]] + fs[1..];
      assert !Narrow(fs[1..]) by {
        var i :| 0 <= i < |fs| && fs[i] >= LIMIT;
        assert fs[1..][i - 1] == fs[i];
      }
      j := FieldsWide(fs[1..], rest);
      j := j + 1;
    }
  }

  // ---------------------------------------------------------------- one record

  function Zeros(n: nat): (r: bytes)
    ensures |r| == n
  {
    seq(n, i => NUL)
  }

  /** Bytes to the next multiple of four, `(-count) % 4`. */
  function Gap(count: nat): (r: nat)
    ensures r < 4 && (count + r) % 4 == 0
  {
    (4 - count % 4) % 4
  }

  function Fields(r: Record): (fs: seq<nat>)
    ensures |fs| == 13
  {
    [r.ino, r.mode, r.uid, r.gid, r.nlink, r.extra.mtime, |r.data|, r.extra.maj, r.extra.min, r.extra.rmaj,
     r.extra.rmin, |r.name| + 1, r.extra.check]
  }

  /** What one `emit` call appends to the stream. */
  function Encode(r: Record): bytes
  {
    MAGIC + PrintFields(Fields(r)) + (r.name + [NUL]) + Zeros(Gap(110 + |r.name| + 1)) + r.data + Zeros(Gap(|r.data|))
  }

  /** `emit`: the magic, the thirteen fields, the name, the data, and zeros up to multiples of four. */
  method Emit(stream: bytes, name: bytes, mode: nat, uid: nat, gid: nat, nlink: nat, ino: nat, data: bytes)
      returns (out: bytes)
    ensures out == stream + Encode(Record(name, ino, mode, uid, gid, nlink, data, PLAIN))
  {
    hide Hex;
    var encoded := name + [0];
    var fields: seq<nat> := [ino, mode, uid, gid, nlink, 0, |data|, 0, 0, 0, 0, |encoded|, 0];
    ghost var r := Record(name, ino, mode, uid, gid, nlink, data, PLAIN);
    assert fields == Fields(r);
    var header: bytes := [];
    var i := 0;
    while i < 13
      invariant 0 <= i <= 13 && header + PrintFields(fields[i..]) == PrintFields(fields)
    {
      assert fields[i..][1..] == fields[i + 1..];
      header := header + Hex(fields[i], 8);
      i := i + 1;
    }
    out := stream + [48, 55, 48, 55, 48, 49] + header + encoded;
    out := out + seq((-(110 + |encoded|)) % 4, k => 0);
    out := out + data;
    out := out + seq((-|data|) % 4, k => 0);
    EmitParts(stream, r, header, out);
  }

  /** `_pad`. */
  lemma Padding(count: int)
    requires count >= 0
    ensures Zeros(Gap(count)) == seq((-count) % 4, k => 0)
  {
  }

  lemma EmitParts(stream: bytes, r: Record, header: bytes, out: bytes)
    requires header == PrintFields(Fields(r))
    requires out == stream + [48, 55, 48, 55, 48, 49] + header + (r.name + [0])
      + seq((-(110 + |r.name| + 1)) % 4, k => 0) + r.data + seq((-|r.data|) % 4, k => 0)
    ensures out == stream + Encode(r)
  {
    hide PrintFields, Fields, Zeros, Gap;
    Padding(110 + |r.name| + 1);
    Padding(|r.data|);
    Nest(stream, MAGIC, header, r.name + [NUL], Zeros(Gap(110 + |r.name| + 1)), r.data, Zeros(Gap(|r.data|)));
    Nest([], MAGIC, header, r.name + [NUL], Zeros(Gap(110 + |r.name| + 1)), r.data, Zeros(Gap(|r.data|)));
  }

  function CString(s: bytes): (r: bytes)
    ensures |r| <= |s|
    ensures NUL in s ==> |r| < |s|
  {
    if s == [] || s[0] == NUL then [] else [s[0]] + CString(s[1..])
  }

  lemma {:induction false} CStringOf(name: bytes)
    ensures NUL !in name ==> CString(name + [NUL]) == name
    ensures NUL in name ==> |CString(name + [NUL])| < |name|
  {
    if name != [] {
      assert (name + [NUL])[1..] == name[1..] + [NUL];
      assert name == [name[0]] + name[1..];
      CStringOf(name[1..]);
    }
  }

  /** What is left of the stream after one record, and its offset. */
  datatype Reading = Reading(record: Record, rest: bytes, pos: nat)

  /** The grammar's cpio_file: align, header, NUL-terminated name, align, data.  `pos` is the offset of
      `s` in the stream. */
  function ReadRecord(s: bytes, pos: nat): (r: Option<Reading>)
    ensures r.Some? ==> |r.value.rest| < |s|
  {
    if |s| < Gap(pos) + 110 then None else
    var header := s[Gap(pos)..];
    if header[..6] != MAGIC then None else
    match ReadFields(header[6..], 13)
    case None => None
    case Some(f) => ReadBody(f, header[6..][104..], pos + Gap(pos) + 110)
  }

  function ReadBody(f: seq<nat>, s: bytes, pos: nat): (r: Option<Reading>)
    requires |f| == 13
    ensures r.Some? ==> |r.value.rest| <= |s|
  {
    var named := f[11];
    if named == 0 || |s| < named || s[named - 1] != NUL then None else
    var gap := Gap(pos + named);
    if |s| < named + gap + f[6] then None else
    var body := s[named..][gap..];
    Some(Reading(Record(CString(s[..named]), f[0], f[1], f[2], f[3], f[4], body[..f[6]],
                        Extra(f[5], f[7], f[8], f[9], f[10], f[12])),
                 body[f[6]..], pos + named + gap + f[6]))
  }

  /** Every header field fits its eight digits. */
  predicate Fits(r: Record)
  {
    && r.ino < LIMIT && r.mode < LIMIT && r.uid < LIMIT && r.gid < LIMIT && r.nlink < LIMIT
    && |r.data| < LIMIT && |r.name| + 1 < LIMIT
    && r.extra.mtime < LIMIT && r.extra.maj < LIMIT && r.extra.min < LIMIT && r.extra.rmaj < LIMIT
    && r.extra.rmin < LIMIT && r.extra.check < LIMIT
  }

  lemma FitsFields(r: Record)
    ensures Fits(r) <==> Narrow(Fields(r))
  {
    var fs := Fields(r);
    if Narrow(fs) {
      assert fs[0] < LIMIT && fs[1] < LIMIT && fs[2] < LIMIT && fs[3] < LIMIT && fs[4] < LIMIT;
      assert fs[5] < LIMIT && fs[6] < LIMIT && fs[7] < LIMIT && fs[8] < LIMIT && fs[9] < LIMIT;
      assert fs[10] < LIMIT && fs[11] < LIMIT && fs[12] < LIMIT;
    }
  }

  lemma Nest(a: bytes, b: bytes, c: bytes, d: bytes, e: bytes, f: bytes, rest: bytes)
    ensures a + b + c + d + e + f + rest == a + (b + (c + (d + (e + (f + rest)))))
  {
  }

  /** What follows the header of a record. */
  function BodyOf(r: Record, rest: bytes): bytes
  {
    (r.name + [NUL]) + (Zeros(Gap(110 + |r.name| + 1)) + (r.data + (Zeros(Gap(|r.data|)) + rest)))
  }

  lemma EncodeNested(r: Record, rest: bytes)
    ensures Encode(r) + rest == MAGIC + (PrintFields(Fields(r)) + BodyOf(r, rest))
  {
    Nest(MAGIC, PrintFields(Fields(r)), r.name + [NUL], Zeros(Gap(110 + |r.name| + 1)), r.data,
         Zeros(Gap(|r.data|)), rest);
  }

  lemma Peel(s: bytes, a: bytes, b: bytes, c: bytes, d: bytes)
    requires s == a + (b + (c + d))
    ensures |s| == |a| + |b| + |c| + |d| && s[..|a|] == a
    ensures s[|a|..][|b|..] == c + d && (c + d)[..|c|] == c && (c + d)[|c|..] == d
  {
    assert s[|a|..] == b + (c + d);
  }

  lemma ReadBodyParts(f: seq<nat>, named: bytes, data: bytes, rest: bytes, pos: nat, s: bytes)
    requires |f| == 13 && f[11] == |named| > 0 && f[6] == |data| && named[|named| - 1] == NUL
    requires s == named + (Zeros(Gap(pos + |named|)) + (data + rest))
    ensures ReadBody(f, s, pos)
      == Some(Reading(Record(CString(named), f[0], f[1], f[2], f[3], f[4], data,
                             Extra(f[5], f[7], f[8], f[9], f[10], f[12])),
                      rest, pos + |named| + Gap(pos + |named|) + |data|))
  {
    hide CString, Zeros, Gap, ReadBody;
    var gap := Gap(pos + |named|);
    Peel(s, named, Zeros(gap), data, rest);
    assert s[|named| - 1] == s[..|named|][|named| - 1];
    ReadBodyIs(f, s, pos);
  }

  lemma ReadBodyIs(f: seq<nat>, s: bytes, pos: nat)
    requires |f| == 13 && f[11] > 0 && |s| >= f[11] + Gap(pos + f[11]) + f[6] && s[f[11] - 1] == NUL
    ensures var gap := Gap(pos + f[11]); var body := s[f[11]..][gap..];
      ReadBody(f, s, pos) == Some(Reading(Record(CString(s[..f[11]]), f[0], f[1], f[2], f[3], f[4], body[..f[6]],
                                                 Extra(f[5], f[7], f[8], f[9], f[10], f[12])),
                                          body[f[6]..], pos + f[11] + gap + f[6]))
  {
    hide CString, Gap;
  }

  lemma GapPeriodic(a: nat, b: nat)
    requires a % 4 == b % 4
    ensures Gap(a) == Gap(b)
  {
  }

  /** Behind the header the paddings do not depend on the position. */
  lemma GapsAlign(pos: nat, n: nat, d: nat)
    requires (pos + 2) % 4 == 0
    ensures Gap(pos + n) == Gap(110 + n) && Gap(pos + n + Gap(110 + n) + d) == Gap(d)
  {
    GapPeriodic(pos + n, 110 + n);
    assert (pos + n + Gap(110 + n)) % 4 == 0;
    GapPeriodic(pos + n + Gap(110 + n) + d, d);
  }

  lemma BodyNested(r: Record, rest: bytes)
    ensures BodyOf(r, rest)
      == (r.name + [NUL]) + (Zeros(Gap(110 + |r.name| + 1)) + (r.data + (Zeros(Gap(|r.data|)) + rest)))
  {
    hide Zeros, Gap;
  }

  lemma ReadBodyOf(r: Record, rest: bytes, pos: nat)
    requires (pos + 2) % 4 == 0
    ensures var end := pos + |r.name| + 1 + Gap(110 + |r.name| + 1) + |r.data|;
      ReadBody(Fields(r), BodyOf(r, rest), pos)
      == Some(Reading(r.(name := CString(r.name + [NUL])), Zeros(Gap(end)) + rest, end))
  {
    hide CString, Zeros, ReadBody, Gap, BodyOf;
    var named := r.name + [NUL];
    GapsAlign(pos, |named|, |r.data|);
    BodyNested(r, rest);
    ReadBodyParts(Fields(r), named, r.data, Zeros(Gap(|r.data|)) + rest, pos, BodyOf(r, rest));
  }

  /** Reading a record that fits, at whatever alignment the stream has reached. */
  lemma ReadOne(r: Record, rest: bytes, pos: nat) returns (end: nat)
    requires Fits(r)
    ensures ReadRecord(Zeros(Gap(pos)) + (Encode(r) + rest), pos)
            == Some(Reading(r.(name := CString(r.name + [NUL])), Zeros(Gap(end)) + rest, end))
  {
    hide Encode, BodyOf, ReadBody, PrintFields, ReadFields, CString, Zeros, Fields;
    EncodeNested(r, rest);
    FitsFields(r);
    FieldsRoundTrip(Fields(r), BodyOf(r, rest));
    var start := pos + Gap(pos) + 110;
    ReadBodyOf(r, rest, start);
    end := start + |r.name| + 1 + Gap(110 + |r.name| + 1) + |r.data|;
    var s := Zeros(Gap(pos)) + (Encode(r) + rest);
    assert s[Gap(pos)..] == MAGIC + (PrintFields(Fields(r)) + BodyOf(r, rest));
    assert s[Gap(pos)..][6..] == PrintFields(Fields(r)) + BodyOf(r, rest);
  }

  /** A record with a field that does not fit is never read back as itself. */
  lemma ReadWide(r: Record, rest: bytes, pos: nat)
    requires !Fits(r)
    ensures var got := ReadRecord(Zeros(Gap(pos)) + (Encode(r) + rest), pos); got.Some? ==> got.value.record != r
  {
    hide Encode, BodyOf, ReadBody, PrintFields, ReadFields, CString, Zeros, Fields, Hex;
    FitsFields(r);
    EncodeNested(r, rest);
    var s := Zeros(Gap(pos)) + (Encode(r) + rest);
    assert s[Gap(pos)..] == MAGIC + (PrintFields(Fields(r)) + BodyOf(r, rest));
    assert s[Gap(pos)..][6..] == PrintFields(Fields(r)) + BodyOf(r, rest);
    var j := FieldsWide(Fields(r), BodyOf(r, rest));
    var f := ReadFields(PrintFields(Fields(r)) + BodyOf(r, rest), 13);
    if f.Some? {
      WideDiffers(r, j, f.value, s[Gap(pos)..][6..][104..], pos + Gap(pos) + 110);
    }
  }

  lemma WideDiffers(r: Record, j: nat, f: seq<nat>, s: bytes, pos: nat)
    requires j < 13 && |f| == 13 && Fields(r)[j] >= LIMIT > f[j]
    ensures var got := ReadBody(f, s, pos); got.Some? ==> got.value.record != r
  {
    if j == 11 && ReadBody(f, s, pos).Some? {
      assert s[..f[11]][f[11] - 1] == NUL;
      assert NUL in s[..f[11]];
    }
  }

  // ---------------------------------------------------------------- the whole stream

  function EncodeAll(rs: seq<Record>): bytes
  {
    if rs == [] then [] else EncodeAll(rs[..|rs| - 1]) + Encode(rs[|rs| - 1])
  }

  lemma {:induction false} EncodeFront(r: Record, rs: seq<Record>)
    ensures EncodeAll([r] + rs) == Encode(r) + EncodeAll(rs)
  {
    hide Encode;
    if rs == [] {
      assert ([r] + rs)[..0] == [];
      assert [r] + rs == [r];
    } else {
      var n := |rs| - 1;
      assert ([r] + rs)[..n + 1] == [r] + rs[..n];
      EncodeFront(r, rs[..n]);
    }
  }

  /** Reads records up to the trailer. */
  function ReadAll(s: bytes, pos: nat): Option<seq<Record>>
    decreases |s|
  {
    match ReadRecord(s, pos)
    case None => None
    case Some(Reading(r, rest, next)) =>
      if r.name == TRAILER then Some([])
      else match ReadAll(rest, next)
           case None => None
           case Some(rs) => Some([r] + rs)
  }

  predicate Readable(r: Record)
  {
    Fits(r) && NUL !in r.name && r.name != TRAILER
  }

  /** The stream gives back its records exactly when each of them is readable. */
  lemma {:induction false} RoundTripIff(rs: seq<Record>, last: Record, pos: nat)
    requires Fits(last) && last.name == TRAILER
    ensures ReadAll(Zeros(Gap(pos)) + EncodeAll(rs + [last]), pos) == Some(rs)
            <==> forall i :: 0 <= i < |rs| ==> Readable(rs[i])
  {
    hide Encode, ReadRecord, CString, Zeros, Gap, Fits, ReadAll, EncodeAll, Readable;
    if rs == [] {
      ReadTrailer(last, pos);
      assert rs + [last] == [last];
    } else {
      assert rs + [last] == [rs[0]] + (rs[1..] + [last]);
      EncodeFront(rs[0], rs[1..] + [last]);
      var tail := EncodeAll(rs[1..] + [last]);
      assert rs == [rs[0]] + rs[1..];
      if Readable(rs[0]) {
        var end := ReadGood(rs[0], rs[1..], tail, pos);
        RoundTripIff(rs[1..], last, end);
      } else {
        RoundTripHead(rs[0], rs[1..], tail, pos);
      }
    }
  }

  /** The trailer ends the stream. */
  lemma ReadTrailer(last: Record, pos: nat)
    requires Fits(last) && last.name == TRAILER
    ensures ReadAll(Zeros(Gap(pos)) + EncodeAll([last]), pos) == Some([])
  {
    hide Encode, ReadRecord, CString, Zeros, Fits;
    assert EncodeAll([last]) == Encode(last) + [];
    var end := ReadOne(last, [], pos);
    CStringOf(TRAILER);
  }

  /** A readable first record leaves the result to the others. */
  lemma ReadGood(r: Record, rs: seq<Record>, tail: bytes, pos: nat) returns (end: nat)
    requires Readable(r)
    ensures ReadAll(Zeros(Gap(pos)) + (Encode(r) + tail), pos) == Some([r] + rs)
      <==> ReadAll(Zeros(Gap(end)) + tail, end) == Some(rs)
  {
    hide Encode, ReadRecord, CString, Zeros, Fits;
    end := ReadOne(r, tail, pos);
    CStringOf(r.name);
    var got := ReadAll(Zeros(Gap(end)) + tail, end);
    if got.Some? && [r] + got.value == [r] + rs { assert ([r] + got.value)[1..] == ([r] + rs)[1..]; }
  }

  /** An unreadable first record spoils the whole result. */
  lemma RoundTripHead(r: Record, rs: seq<Record>, tail: bytes, pos: nat)
    ensures !Readable(r) ==> ReadAll(Zeros(Gap(pos)) + (Encode(r) + tail), pos) != Some([r] + rs)
  {
    hide Encode, ReadRecord, CString, Zeros, Fits;
    var got := ReadAll(Zeros(Gap(pos)) + (Encode(r) + tail), pos);
    if got == Some([r] + rs) { assert got.value[0] == r; }
    if !Fits(r) {
      ReadWide(r, tail, pos);
    } else if !Readable(r) {
      var end := ReadOne(r, tail, pos);
      CStringOf(r.name);
    }
  }

  // ---------------------------------------------------------------- what any bytes read as

  lemma {:induction false} ReadFieldsNarrow(s: bytes, k: nat)
    ensures ReadFields(s, k).Some? ==> Narrow(ReadFields(s, k).value)
  {
    if k > 0 && |s| >= 8 {
      EightDigits();
      ReadHexBound(s[..8]);
      ReadFieldsNarrow(s[8..], k - 1);
    }
  }

  lemma {:induction false} CStringFree(s: bytes)
    ensures NUL !in CString(s)
  {
    if s != [] { CStringFree(s[1..]); }
  }

  lemma ReadBodyFits(f: seq<nat>, s: bytes, pos: nat)
    requires |f| == 13 && Narrow(f)
    ensures var got := ReadBody(f, s, pos); got.Some? ==> Fits(got.value.record) && NUL !in got.value.record.name
  {
    if ReadBody(f, s, pos).Some? {
      var named := s[..f[11]];
      CStringFree(named);
      assert named[f[11] - 1] == NUL;
      assert f[0] < LIMIT && f[1] < LIMIT && f[2] < LIMIT && f[3] < LIMIT && f[4] < LIMIT && f[5] < LIMIT;
      assert f[6] < LIMIT && f[7] < LIMIT && f[8] < LIMIT && f[9] < LIMIT && f[10] < LIMIT && f[11] < LIMIT;
      assert f[12] < LIMIT;
    }
  }

  lemma ReadRecordFits(s: bytes, pos: nat)
    ensures var got := ReadRecord(s, pos); got.Some? ==> Fits(got.value.record) && NUL !in got.value.record.name
  {
    hide ReadFields, ReadBody, Fits, Narrow;
    if |s| >= Gap(pos) + 110 {
      var header := s[Gap(pos)..];
      ReadFieldsNarrow(header[6..], 13);
      var f := ReadFields(header[6..], 13);
      if f.Some? { ReadBodyFits(f.value, header[6..][104..], pos + Gap(pos) + 110); }
    }
  }

  /** Whatever the bytes, only readable records come out of them. */
  lemma {:induction false} OnlyReadable(s: bytes, pos: nat)
    ensures ReadAll(s, pos).Some? ==> forall i :: 0 <= i < |ReadAll(s, pos).value| ==>
      Readable(ReadAll(s, pos).value[i])
    decreases |s|
  {
    hide ReadRecord, Fits;
    ReadRecordFits(s, pos);
    var got := ReadRecord(s, pos);
    if got.Some? { OnlyReadable(got.value.rest, got.value.pos); }
  }
}
