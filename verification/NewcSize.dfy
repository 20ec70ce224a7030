/**
 Size of the newc stream, and the admission estimate of `main`: payload + 512 per entry + 1024.
 */
module NewcSize {
  import opened Options
  import opened Bytes
  import opened Entries
  import opened Cpio
  import opened Newc
  import opened NewcMeaning

  function Up4(n: nat): nat
  {
    n + Gap(n)
  }

  lemma Rounded(n: nat, quads: nat)
    requires n <= 4 * quads < n + 4
    ensures Up4(n) == 4 * quads
  {
  }

  lemma EncodeLength(r: Record)
    requires Fits(r)
    ensures |Encode(r)| == Up4(111 + |r.name|) + Up4(|r.data|)
  {
    FitsFields(r);
    FieldsRoundTrip(Fields(r), []);
    assert PrintFields(Fields(r)) + [] == PrintFields(Fields(r));
  }

  /** Bytes of entry `i`'s record. */
  ghost function RecordSize(es: seq<Entry>, contents: Contents, i: int): nat
    requires 0 <= i < |es|
  {
    Up4(111 + |es[i].path|) + if Leads(es, i) then Up4(|Body(es[i], contents)|) else 0
  }

  ghost function TotalSize(es: seq<Entry>, contents: Contents, n: nat): nat
    requires n <= |es|
  {
    if n == 0 then 0 else TotalSize(es, contents, n - 1) + RecordSize(es, contents, n - 1)
  }

  lemma RecordLength(es: seq<Entry>, contents: Contents, i: int)
    requires Encodable(es, contents) && |es| + 1 < LIMIT && 0 <= i < |es|
    ensures |Encode(RecordAt(es, contents, i))| == RecordSize(es, contents, i)
  {
    hide Encode, RecordAt, Fits, Body, Leads, Up4, Encodable;
    RecordFits(es, contents, i);
    EncodeLength(RecordAt(es, contents, i));
    RecordParts(es, contents, i);
    UpNothing();
  }

  lemma UpNothing()
    ensures Up4(0) == 0
  {
  }

  lemma RecordAligned(es: seq<Entry>, contents: Contents, i: int)
    requires 0 <= i < |es|
    ensures RecordSize(es, contents, i) % 4 == 0
  {
    hide Body, Leads;
    Aligned(111 + |es[i].path|);
    Aligned(|Body(es[i], contents)|);
  }

  lemma Aligned(n: nat)
    ensures Up4(n) % 4 == 0
  {
  }

  lemma RecordParts(es: seq<Entry>, contents: Contents, i: int)
    requires 0 <= i < |es|
    ensures var r := RecordAt(es, contents, i);
      r.name == es[i].path && r.data == if Leads(es, i) then Body(es[i], contents) else []
  {
  }

  lemma RecordFits(es: seq<Entry>, contents: Contents, i: int)
    requires Encodable(es, contents) && |es| + 1 < LIMIT && 0 <= i < |es|
    ensures Fits(RecordAt(es, contents, i))
  {
    NumbersFit(es, contents, i);
    assert EntryEncodable(es[i], contents);
    hide Ino, LinkCount, Leads, Body;
  }

  /** Every record starts at a multiple of four, and the offset has a closed form. */
  lemma {:induction false} RecordOffset(es: seq<Entry>, contents: Contents, n: nat)
    requires Encodable(es, contents) && |es| + 1 < LIMIT && n <= |es|
    ensures |EncodeAll(Records(es, contents, n))| == TotalSize(es, contents, n)
    ensures TotalSize(es, contents, n) % 4 == 0
  {
    hide Encode, RecordAt, RecordSize, Encodable, EncodeAll, Records;
    if n == 0 {
      EncodeNone(es, contents);
    } else {
      RecordOffset(es, contents, n - 1);
      RecordLength(es, contents, n - 1);
      RecordAligned(es, contents, n - 1);
      EmitNext(es, contents, n - 1, RecordAt(es, contents, n - 1));
    }
  }

  lemma StreamLength(es: seq<Entry>, contents: Contents)
    requires Encodable(es, contents) && |es| + 1 < LIMIT
    ensures |Stream(es, contents)| == TotalSize(es, contents, |es|) + 124
  {
    hide Encode, Encodable, EncodeAll, Records, Files;
    RecordOffset(es, contents, |es|);
    CountsBounded(es, [], |es|);
    EncodeLast(Records(es, contents, |es|), TrailerOf(es));
    EncodeLength(TrailerOf(es));
    hide Up4;
    Rounded(121, 31);
    UpNothing();
  }

  /** `payload_bytes`: every regular entry counts, hard links included. */
  function Payload(es: seq<Entry>, n: nat): nat
    requires n <= |es|
  {
    if n == 0 then 0 else Payload(es, n - 1) + if es[n - 1].kind == Regular then es[n - 1].size else 0
  }

  /** `worst_case_archive`. */
  function WorstCase(es: seq<Entry>): nat
  {
    Payload(es, |es|) + |es| * 512 + 1024
  }

  /** Names, and for symlinks names and targets together, of at most `limit` bytes. */
  ghost predicate NamesWithin(es: seq<Entry>, contents: Contents, limit: nat)
  {
    forall i :: 0 <= i < |es| ==>
      |es[i].path| + (if es[i].kind == Symlink then |Body(es[i], contents)| else 0) <= limit
  }

  ghost predicate Writable(es: seq<Entry>, contents: Contents)
  {
    Scanned(es, contents) && Encodable(es, contents) && |es| + 1 < LIMIT
  }

  lemma Slack(name: nat, data: nat)
    ensures name <= 397 ==> Up4(111 + name) + Up4(data) <= 512 + data
    ensures name + data <= 397 ==> Up4(111 + name) + Up4(data) <= 512
  {
  }

  lemma RecordBound(es: seq<Entry>, contents: Contents, i: int)
    requires NamesWithin(es, contents, 397) && 0 <= i < |es| && EntryOk(es[i], contents)
    ensures RecordSize(es, contents, i) <= 512 + if es[i].kind == Regular then es[i].size else 0
  {
    hide Leads;
    Slack(|es[i].path|, |Body(es[i], contents)|);
    Slack(|es[i].path|, 0);
  }

  lemma {:induction false} SizeBound(es: seq<Entry>, contents: Contents, n: nat)
    requires Scanned(es, contents) && NamesWithin(es, contents, 397) && n <= |es|
    ensures TotalSize(es, contents, n) <= Payload(es, n) + 512 * n
  {
    hide RecordSize;
    if n > 0 {
      SizeBound(es, contents, n - 1);
      RecordBound(es, contents, n - 1);
    }
  }

  /** The estimate covers every stream whose names stay within 397 bytes. */
  lemma EstimateCovers(es: seq<Entry>, contents: Contents)
    requires Writable(es, contents) && NamesWithin(es, contents, 397)
    ensures |Stream(es, contents)| <= WorstCase(es)
  {
    SizeBound(es, contents, |es|);
    StreamLength(es, contents);
  }
}
