/**
 Accepted environment texts in which the storage-size pattern finds nothing.
 */
module Unmatched {
  import opened Options
  import opened Split
  import opened Environment

  /** One line of a text: padding, key, value. */
  datatype Setting = Setting(pad: string, key: string, value: string)

  function LineOf(s: Setting): string { s.pad + (s.key + "=" + s.value) }

  function LinesOf(ss: seq<Setting>): (ls: seq<string>)
    ensures |ls| == |ss| && forall i :: 0 <= i < |ss| ==> ls[i] == LineOf(ss[i])
  {
    if ss == [] then [] else LinesOf(ss[..|ss| - 1]) + [LineOf(ss[|ss| - 1])]
  }

  function TextOf(ss: seq<Setting>): (t: string)
    ensures t == [] || t[|t| - 1] == '\n'
  {
    if ss == [] then [] else TextOf(ss[..|ss| - 1]) + (LineOf(ss[|ss| - 1]) + "\n")
  }

  ghost predicate Solid(s: string) { s != [] && forall i :: 0 <= i < |s| ==> !IsSpace(s[i]) }

  ghost predicate Tidy(s: Setting)
  {
    && AllSpace(s.pad) && (forall i :: 0 <= i < |s.pad| ==> !IsBreak(s.pad[i]))
    && Solid(s.key) && s.key[0] != '#' && '=' !in s.key && Solid(s.value)
  }

  ghost predicate AllTidy(ss: seq<Setting>) { forall i :: 0 <= i < |ss| ==> Tidy(ss[i]) }

  lemma TidyLine(s: Setting)
    requires Tidy(s)
    ensures LineOf(s) != [] && forall i :: 0 <= i < |LineOf(s)| ==> !IsBreak(LineOf(s)[i])
  {
    var l := LineOf(s);
    forall i | 0 <= i < |l| ensures !IsBreak(l[i]) {
      if i < |s.pad| { assert l[i] == s.pad[i]; }
      else if i < |s.pad| + |s.key| { assert l[i] == s.key[i - |s.pad|]; }
      else if i == |s.pad| + |s.key| { assert l[i] == '='; }
      else { assert l[i] == s.value[i - |s.pad| - |s.key| - 1]; }
    }
  }

  lemma TidyAssigns(s: Setting)
    requires Tidy(s)
    ensures Assign(LineOf(s)) == Pair(s.key, s.value)
  {
    hide IsSpace;
    var body := s.key + "=" + s.value;
    assert body[0] == s.key[0] && body[|body| - 1] == s.value[|s.value| - 1];
    StripPadded(s.pad, body, "");
    assert s.pad + body + "" == LineOf(s);
    EqualsAfter(s.key, s.value);
    assert body[..|s.key|] == s.key && body[|s.key| + 1..] == s.value;
  }

  lemma {:induction false} TextLines(ss: seq<Setting>)
    requires AllTidy(ss)
    ensures Lines(TextOf(ss)) == LinesOf(ss)
  {
    hide Lines, Tidy, LineOf, IsBreak;
    if ss == [] {
      NoLines();
    } else {
      var before, last := ss[..|ss| - 1], ss[|ss| - 1];
      TextLines(before);
      LinesConcat(TextOf(before), LineOf(last) + "\n");
      TidyLine(last);
      LineThen(LineOf(last), "\n");
      assert NextLine("\n") == "";
      NoLines();
    }
  }

  function ValuesOf(ss: seq<Setting>): Values
  {
    if ss == [] then map[] else ValuesOf(ss[..|ss| - 1])[ss[|ss| - 1].key := ss[|ss| - 1].value]
  }

  /** Known keys, no key twice. */
  ghost predicate Keyed(ss: seq<Setting>)
  {
    && (forall i :: 0 <= i < |ss| ==> ss[i].key in ENV_KEYS)
    && (forall i, j :: 0 <= i < j < |ss| ==> ss[i].key != ss[j].key)
  }

  lemma {:induction false} ValueAt(ss: seq<Setting>, k: string)
    ensures k in ValuesOf(ss) <==> exists i :: 0 <= i < |ss| && ss[i].key == k
    ensures Keyed(ss) ==> forall i :: 0 <= i < |ss| && ss[i].key == k ==> ValuesOf(ss)[k] == ss[i].value
  {
    if ss != [] {
      var before := ss[..|ss| - 1];
      ValueAt(before, k);
      assert forall i :: 0 <= i < |before| ==> before[i] == ss[i];
      if k in ValuesOf(before) { var i :| 0 <= i < |before| && before[i].key == k; assert ss[i].key == k; }
    }
  }

  lemma {:induction false} TextParses(ss: seq<Setting>)
    requires AllTidy(ss) && Keyed(ss)
    ensures Parse(LinesOf(ss)) == Some(ValuesOf(ss))
  {
    hide Assign, Tidy, LineOf;
    if ss != [] {
      var before, last := ss[..|ss| - 1], ss[|ss| - 1];
      TextParses(before);
      TidyAssigns(last);
      ValueAt(before, last.key);
      assert LinesOf(ss)[..|ss| - 1] == LinesOf(before);
      assert last.value != [] by { assert Tidy(last); Valued(last); }
    }
  }

  lemma Valued(s: Setting)
    requires Tidy(s)
    ensures s.value != []
  {
  }

  /** If the padding of the size is not all blanks and tabs, the pattern does not match anywhere. */
  lemma PaddingHides(ss: seq<Setting>, x: nat)
    requires AllTidy(ss) && Keyed(ss) && x < |ss| && ss[x].key == STORAGE && ss[x].pad != [] && !IsBlank(ss[x].pad[0])
    ensures Matches(TextOf(ss)) == []
  {
    hide Matches, Proper, Text, Lines, Assign, Tidy, IsSpace, IsBlank;
    var t := TextOf(ss);
    if |Matches(t)| > 0 {
      var c := MatchCut(t, 0);
      CutDigits(c);
      CutLines(c, c.digits);
      LineUnbroken(c, c.digits);
      TextLines(ss);
      var y := |Lines(c.before)|;
      assert Lines(t)[y] == Line(c, c.digits);
      TidyAssigns(ss[y]);
      assert ss[y].key == STORAGE;
      assert y == x;
      FirstOf(c, ss[x]);
    }
  }

  lemma FirstOf(c: Cut, s: Setting)
    requires Proper(c) && Line(c, c.digits) == LineOf(s) && Tidy(s) && s.pad != []
    ensures IsBlank(s.pad[0])
  {
    FirstChar(c);
    assert LineOf(s)[0] == s.pad[0] && IsSpace(s.pad[0]);
    hide Line, LineOf, Proper;
  }

  lemma FirstChar(c: Cut)
    requires Proper(c)
    ensures Line(c, c.digits) != [] && (Line(c, c.digits)[0] == 'M' || IsBlank(Line(c, c.digits)[0]))
  {
    StorageKey();
    if c.left == [] { assert Line(c, c.digits)[0] == PREFIX[0]; } else { assert Line(c, c.digits)[0] == c.left[0]; }
  }

  // ---------------------------------------------------------------- such a text

  lemma KeysSolid(k: string)
    requires k in ENV_KEYS
    ensures Solid(k) && k[0] != '#' && '=' !in k
  {
    hide IsSpace;
    if k in {MOUNT, DEVICE, SERIAL, STORAGE, LABEL, UUID} { StorageKeyUpper(k); } else { OtherKeyUpper(k); }
    assert forall c: char :: 'A' <= c <= '_' ==> !IsSpace(c) && c != '#' && c != '=' by { Letters(); }
    assert k != [];
  }

  lemma StorageKeyUpper(k: string)
    requires k in {MOUNT, DEVICE, SERIAL, STORAGE, LABEL, UUID}
    ensures k != [] && forall i :: 0 <= i < |k| ==> 'A' <= k[i] <= '_'
  {
  }

  lemma OtherKeyUpper(k: string)
    requires k in ENV_KEYS && k !in {MOUNT, DEVICE, SERIAL, STORAGE, LABEL, UUID}
    ensures k != [] && forall i :: 0 <= i < |k| ==> 'A' <= k[i] <= '_'
  {
  }

  lemma Letters()
    ensures forall c: char :: 'A' <= c <= '_' ==> !IsSpace(c) && c != '#' && c != '='
  {
  }

  const SAMPLE_PATH := "/srv/multikernel-storage"
  const SAMPLE_UUID := "00000000-0000-0000-0000-000000000000"

  function ValueFor(k: string): string
  {
    if k == STORAGE then "512"
    else if k == UUID then SAMPLE_UUID
    else if k == MOUNT || k == DEVICE then SAMPLE_PATH
    else "x"
  }

  function SettingFor(k: string): Setting { Setting(if k == STORAGE then "\U{a0}" else "", k, ValueFor(k)) }

  lemma {:induction false} SettingsFor(keys: set<string>) returns (ss: seq<Setting>)
    requires keys <= ENV_KEYS
    ensures Keyed(ss) && Sample(ss, keys)
    decreases keys
  {
    hide SettingFor;
    if keys == {} {
      ss := [];
    } else {
      var k :| k in keys;
      var before := SettingsFor(keys - {k});
      assert SettingFor(k).key == k by { KeyOf(k); }
      ss := before + [SettingFor(k)];
      forall q | q in keys ensures exists i :: 0 <= i < |ss| && ss[i].key == q {
        if q == k { assert ss[|before|].key == k; }
        else { assert q in keys - {k}; var i :| 0 <= i < |before| && before[i].key == q; assert ss[i].key == q; }
      }
    }
  }

  lemma KeyOf(k: string)
    ensures SettingFor(k).key == k
  {
  }

  lemma SolidChars(v: string)
    requires v != [] && forall i :: 0 <= i < |v| ==> '-' <= v[i] <= '9' || 'a' <= v[i] <= 'z'
    ensures Solid(v)
  {
  }

  lemma SolidUuid()
    ensures Solid(SAMPLE_UUID) && SafeUuid(SAMPLE_UUID)
  {
    assert forall i :: 0 <= i < |SAMPLE_UUID| ==>
      if i in {8, 13, 18, 23} then SAMPLE_UUID[i] == '-' else SAMPLE_UUID[i] == '0';
    SolidChars(SAMPLE_UUID);
  }

  lemma SolidPath()
    ensures Solid(SAMPLE_PATH)
  {
    assert forall i :: 0 <= i < |SAMPLE_PATH| ==> '-' <= SAMPLE_PATH[i] <= '9' || 'a' <= SAMPLE_PATH[i] <= 'z';
    SolidChars(SAMPLE_PATH);
  }

  lemma SolidValue(k: string)
    ensures Solid(ValueFor(k))
  {
    SolidUuid();
    SolidPath();
    SolidChars("512");
    SolidChars("x");
    hide Solid;
  }

  lemma SampleParts()
    ensures SplitOn("srv" + ['/'] + "multikernel-storage", '/') == ["srv", "multikernel-storage"]
  {
    hide SplitOn;
    assert '/' !in "srv" && '/' !in "multikernel-storage";
    SplitFirst("srv", "multikernel-storage", '/');
    SplitPart("multikernel-storage", '/');
  }

  lemma SampleChars()
    ensures forall i :: 0 <= i < |SAMPLE_PATH| ==> PathChar(SAMPLE_PATH[i])
  {
    assert forall i :: 0 <= i < |SAMPLE_PATH| ==>
      'a' <= SAMPLE_PATH[i] <= 'z' || SAMPLE_PATH[i] == '/' || SAMPLE_PATH[i] == '-';
  }

  lemma SampleRest()
    ensures |SAMPLE_PATH| == 24 && SAMPLE_PATH[0] == '/' && SAMPLE_PATH[1] == 's'
    ensures SAMPLE_PATH[1..] == "srv" + ['/'] + "multikernel-storage"
  {
  }

  lemma SamplePath()
    ensures SafePath(SAMPLE_PATH)
  {
    SampleRest();
    SampleParts();
    SampleChars();
    hide SplitOn, PathChar;
    var parts := SplitOn(SAMPLE_PATH[1..], '/');
    forall part | part in parts ensures part !in {"", ".", ".."} { assert |part| > 2; }
  }

  lemma SampleSize(nd: Digits)
    requires DigitTable(nd)
    ensures SafeSize("512", nd)
  {
    var s := "512";
    assert s[..2] == "51" && s[..2][..1] == "5" && s[..2][..1][..0] == "";
    assert IsDigit('5') && IsDigit('1') && IsDigit('2');
    assert IntOf("", nd) == Some(0);
    assert IntOf("5", nd) == Some(5);
    assert IntOf("51", nd) == Some(51);
  }

  lemma KeysApart()
    ensures UUID !in {MOUNT, DEVICE, SERIAL, LABEL, STORAGE} && SERIAL !in {MOUNT, DEVICE, STORAGE}
      && LABEL !in {MOUNT, DEVICE, STORAGE}
    ensures STORAGE !in {MOUNT, DEVICE}
  {
    assert |UUID| == 22 && |MOUNT| == 23 && |DEVICE| == 24 && |SERIAL| == 24 && |LABEL| == 23 && |STORAGE| == 23;
    assert SERIAL[18] == 'S' && DEVICE[18] == 'D';
    assert LABEL[18] == 'L' && MOUNT[18] == 'M' && STORAGE[18] == 'B';
  }

  lemma SampleKeys()
    ensures {MOUNT, DEVICE, SERIAL, LABEL, STORAGE, UUID} <= ENV_KEYS
  {
  }

  lemma ValuesAre()
    ensures ValueFor(MOUNT) == ValueFor(DEVICE) == SAMPLE_PATH && ValueFor(SERIAL) == ValueFor(LABEL) == "x"
    ensures ValueFor(UUID) == SAMPLE_UUID && ValueFor(STORAGE) == "512"
  {
    KeysApart();
  }

  ghost predicate Sampled(m: Values, keys: set<string>)
  {
    m.Keys == keys && forall k :: k in m ==> m[k] == ValueFor(k)
  }

  lemma SampleToken()
    ensures SafeToken("x")
  {
  }

  lemma SampleAccepted(m: Values, nd: Digits)
    requires DigitTable(nd) && Sampled(m, ENV_KEYS)
    ensures OthersOk(m) && SafeSize(m[STORAGE], nd)
  {
    hide SafePath, SafeSize, SafeToken, SafeUuid, ValueFor, Solid;
    SamplePath();
    SampleSize(nd);
    SolidUuid();
    ValuesAre();
    SampleKeys();
    SampleToken();
    var wanted := {MOUNT, DEVICE, SERIAL, LABEL, STORAGE, UUID};
    assert wanted <= m.Keys;
    assert MOUNT in m && DEVICE in m && SERIAL in m && LABEL in m && UUID in m && STORAGE in m;
  }

  lemma SettingTidy(k: string)
    requires k in ENV_KEYS
    ensures Tidy(SettingFor(k))
  {
    KeysSolid(k);
    SolidValue(k);
    hide Solid, ValueFor;
  }

  /** `ss` is the sample over the keys. */
  ghost predicate Sample(ss: seq<Setting>, keys: set<string>)
  {
    && (forall i :: 0 <= i < |ss| ==> ss[i].key in keys && ss[i] == SettingFor(ss[i].key))
    && (forall q :: q in keys ==> exists i :: 0 <= i < |ss| && ss[i].key == q)
  }

  lemma SampleTidy(ss: seq<Setting>)
    requires Sample(ss, ENV_KEYS)
    ensures AllTidy(ss)
  {
    hide Tidy, SettingFor;
    forall i | 0 <= i < |ss| ensures Tidy(ss[i]) { SettingTidy(ss[i].key); }
  }

  lemma SampleValue(ss: seq<Setting>, keys: set<string>, k: string)
    requires Keyed(ss) && Sample(ss, keys)
    ensures (k in ValuesOf(ss) <==> k in keys) && (k in ValuesOf(ss) ==> ValuesOf(ss)[k] == ValueFor(k))
  {
    ValueAt(ss, k);
    hide ValueFor, ValuesOf, Keyed;
    if k in ValuesOf(ss) { var i :| 0 <= i < |ss| && ss[i].key == k; assert ss[i].value == ValueFor(k); }
  }

  lemma SampleParses(ss: seq<Setting>, keys: set<string>)
    requires Keyed(ss) && Sample(ss, keys)
    ensures Sampled(ValuesOf(ss), keys)
  {
    hide ValueFor, ValuesOf, Sample, Keyed;
    forall k ensures (k in ValuesOf(ss) <==> k in keys) && (k in ValuesOf(ss) ==> ValuesOf(ss)[k] == ValueFor(k)) {
      SampleValue(ss, keys, k);
    }
  }

  /** An accepted text without a match: the size padded with a no-break space. */
  lemma AcceptedUnmatched(nd: Digits) returns (t: string)
    requires DigitTable(nd)
    ensures Accepts(t, nd) && Matches(t) == [] && !Findable(t)
  {
    hide SettingFor, Tidy, Lines, Parse, Matches, Findable, OthersOk, SafeSize, Sampled, ValuesOf, Keyed, AllTidy;
    StorageKey();
    var ss := SettingsFor(ENV_KEYS);
    t := TextOf(ss);
    SampleTidy(ss);
    SampleParses(ss, ENV_KEYS);
    TextLines(ss);
    TextParses(ss);
    SampleAccepted(ValuesOf(ss), nd);
    assert ValuesOf(ss).Keys == ENV_KEYS by { SampledKeys(ValuesOf(ss)); }
    var x :| 0 <= x < |ss| && ss[x].key == STORAGE && ss[x] == SettingFor(STORAGE);
    PadOf();
    PaddingHides(ss, x);
    Finds(t);
  }

  lemma SampledKeys(m: Values)
    requires Sampled(m, ENV_KEYS)
    ensures m.Keys == ENV_KEYS
  {
  }

  lemma PadOf()
    ensures SettingFor(STORAGE).pad == "\U{a0}" && !IsBlank(SettingFor(STORAGE).pad[0])
  {
  }
}
