/**
 The runtime environment file: `validate_environment`, and the byte splice by which
 `update_storage_size` changes one value of it.

 A text is the sequence of its code points.  The splice's pattern is ASCII, so that matching it on
 the UTF-8 bytes and matching it on the code points select the same places.
 */
module Environment {
  import opened Options
  import opened Split

  const STORAGE := "MKRUNTIME_STORAGE_BYTES"
  const MOUNT := "MKRUNTIME_STORAGE_MOUNT"
  const DEVICE := "MKRUNTIME_STORAGE_DEVICE"
  const SERIAL := "MKRUNTIME_STORAGE_SERIAL"
  const LABEL := "MKRUNTIME_STORAGE_LABEL"
  const UUID := "MKRUNTIME_STORAGE_UUID"

  const ENV_KEYS: set<string> := {
    "MKRUNTIME_POOL_CPUS", "MKRUNTIME_POOL_MEMORY", "MKRUNTIME_POOL_MEMORY_RESERVE",
    "MKRUNTIME_CMDLINE", "MKNETWORK_SUBNET", "MKNETWORK_EGRESS", "MKNETWORK_MTU",
    "MKNETWORK_DNS", MOUNT, DEVICE, SERIAL, STORAGE, LABEL, UUID }

  const MAX_BYTES := 0x8000_0000_0000_0000  // 1 << 63
  const INT_DIGITS := 4300                  // `int` refuses longer digit strings

  // ---------------------------------------------------------------- characters

  /** Where `str.splitlines` ends a line. */
  predicate IsBreak(c: char)
  {
    c in {'\n', '\r', '\U{0b}', '\U{0c}', '\U{1c}', '\U{1d}', '\U{1e}', '\U{85}', '\U{2028}', '\U{2029}'}
  }

  /** What `str.strip` removes. */
  predicate IsSpace(c: char)
  {
    IsBreak(c) || c in {'\t', ' ', '\U{1f}', '\U{a0}', '\U{1680}', '\U{202f}', '\U{205f}', '\U{3000}'}
    || '\U{2000}' <= c <= '\U{200a}'
  }

  predicate IsBlank(c: char) { c == ' ' || c == '\t' }

  predicate IsDigit(c: char) { '0' <= c <= '9' }

  /** The characters by their code points. */
  lemma Codes(c: char)
    ensures var n := c as int;
      && (IsBreak(c) <==> 10 <= n <= 13 || 28 <= n <= 30 || n == 133 || n == 8232 || n == 8233)
      && (IsSpace(c) <==> 9 <= n <= 13 || 28 <= n <= 32 || n in {133, 160, 5760, 8232, 8233, 8239, 8287, 12288}
                          || 8192 <= n <= 8202)
      && (IsBlank(c) <==> n == 9 || n == 32) && (IsDigit(c) <==> 48 <= n <= 57)
  {
  }

  /** The decimal digits that `isdigit` and `int` accept, with their values. */
  type Digits = map<char, nat>

  ghost predicate DigitTable(nd: Digits)
  {
    && (forall c :: IsDigit(c) ==> c in nd && nd[c] == c as int - '0' as int)
    && (forall c :: c in nd ==> nd[c] < 10 && !IsSpace(c) && c != '=')
  }

  // ---------------------------------------------------------------- lines

  function FirstBreak(t: string): (n: nat)
    ensures n <= |t|
  {
    if t == [] || IsBreak(t[0]) then 0 else 1 + FirstBreak(t[1..])
  }

  lemma {:induction false} BreakFacts(t: string)
    ensures var n := FirstBreak(t); (n < |t| ==> IsBreak(t[n])) && forall i :: 0 <= i < n ==> !IsBreak(t[i])
  {
    hide IsBreak;
    if t != [] && !IsBreak(t[0]) {
      BreakFacts(t[1..]);
      var n := FirstBreak(t);
      forall i | 0 <= i < n ensures !IsBreak(t[i]) { if i > 0 { assert t[i] == t[1..][i - 1]; } }
    }
  }

  lemma {:induction false} BreakIs(t: string, n: nat)
    requires n <= |t| && (n < |t| ==> IsBreak(t[n])) && forall i :: 0 <= i < n ==> !IsBreak(t[i])
    ensures FirstBreak(t) == n
  {
    hide IsBreak;
    if n > 0 { BreakIs(t[1..], n - 1); }
  }

  /** The length of the line break at the front of `t`. */
  function BreakSize(t: string): (n: nat)
    requires t != []
    ensures 1 <= n <= |t|
  {
    if t[0] == '\r' && |t| > 1 && t[1] == '\n' then 2 else 1
  }

  /** `str.splitlines`. */
  function Lines(t: string): seq<string>
    decreases |t|
  {
    if t == [] then []
    else if FirstBreak(t) == |t| then [t]
    else [t[..FirstBreak(t)]] + Lines(t[NextStart(t)..])
  }

  /** Where the line after the first one starts. */
  function NextStart(t: string): (k: nat)
    requires FirstBreak(t) < |t|
    ensures FirstBreak(t) < k <= |t|
  {
    FirstBreak(t) + BreakSize(t[FirstBreak(t)..])
  }

  function LStrip(s: string): string
  {
    if s == [] || !IsSpace(s[0]) then s else LStrip(s[1..])
  }

  function RStrip(s: string): string
  {
    if s == [] || !IsSpace(s[|s| - 1]) then s else RStrip(s[..|s| - 1])
  }

  function Strip(s: string): string { RStrip(LStrip(s)) }

  datatype Assignment = Nothing | Malformed | Pair(key: string, value: string)

  function FirstEquals(s: string): (n: nat)
    ensures n <= |s| && (n < |s| ==> s[n] == '=') && forall i :: 0 <= i < n ==> s[i] != '='
  {
    if s == [] || s[0] == '=' then 0 else 1 + FirstEquals(s[1..])
  }

  /** One line of the file. */
  function Assign(line: string): Assignment
  {
    var s := Strip(line);
    if s == [] || s[0] == '#' then Nothing
    else if FirstEquals(s) == |s| then Malformed
    else Pair(s[..FirstEquals(s)], s[FirstEquals(s) + 1..])
  }

  type Values = map<string, string>

  /** The assignments of a file; none if a line is malformed, or its key unknown, repeated or empty. */
  function Parse(lines: seq<string>): Option<Values>
  {
    if lines == [] then Some(map[])
    else match Parse(lines[..|lines| - 1])
      case None => None
      case Some(m) =>
        match Assign(lines[|lines| - 1])
        case Nothing => Some(m)
        case Malformed => None
        case Pair(key, value) =>
          if key !in ENV_KEYS || key in m || value == [] then None else Some(m[key := value])
  }

  // ---------------------------------------------------------------- values

  predicate PathChar(c: char) { 'A' <= c <= 'Z' || 'a' <= c <= 'z' || '0' <= c <= '9' || c in "/._+-" }

  predicate TokenChar(c: char) { PathChar(c) && c != '/' }

  predicate HexChar(c: char) { '0' <= c <= '9' || 'a' <= c <= 'f' }

  /** `os.path.normpath(p) == p` for a path that starts with a slash. */
  predicate Normalized(p: string)
  {
    && |p| >= 1 && p[0] == '/'
    && !(|p| >= 3 && p[1] == '/' && p[2] == '/')
    && var rest := if |p| >= 2 && p[1] == '/' then p[2..] else p[1..];
       rest == [] || forall part :: part in SplitOn(rest, '/') ==> part !in {"", ".", ".."}
  }

  /** `os.path.normpath`, part by part: what is kept after some parts have been met. */
  function Folded(parts: seq<string>, rooted: bool): seq<string>
  {
    if parts == [] then []
    else
      var kept, part := Folded(parts[..|parts| - 1], rooted), parts[|parts| - 1];
      if part == "" || part == "." then kept
      else if part != ".." || (!rooted && kept == []) || (kept != [] && kept[|kept| - 1] == "..") then kept + [part]
      else if kept != [] then kept[..|kept| - 1]
      else kept
  }

  function NormPath(p: string): string
  {
    if p == "" then "." else
    var slashes := if "//" <= p && !("///" <= p) then "//" else if "/" <= p then "/" else "";
    var text := slashes + JoinWith(Folded(SplitOn(p, '/'), slashes != ""), '/');
    if text == "" then "." else text
  }

  /** The characters of some parts and a separator for each. */
  function Extent(parts: seq<string>): nat
  {
    if parts == [] then 0 else Extent(parts[..|parts| - 1]) + |parts[|parts| - 1]| + 1
  }

  ghost predicate AllNamed(parts: seq<string>)
  {
    forall i :: 0 <= i < |parts| ==> parts[i] != "" && parts[i] != "." && parts[i] != ".."
  }

  lemma AllNamedNext(parts: seq<string>, part: string)
    ensures AllNamed(parts + [part]) <==> AllNamed(parts) && part != "" && part != "." && part != ".."
  {
    var all := parts + [part];
    if AllNamed(all) {
      forall i | 0 <= i < |parts| ensures parts[i] != "" && parts[i] != "." && parts[i] != ".." {
        assert all[i] == parts[i];
      }
      assert all[|parts|] == part;
    }
  }

  ghost predicate NoUps(parts: seq<string>) { forall i :: 0 <= i < |parts| ==> parts[i] != ".." }

  function FoldOne(kept: seq<string>, part: string): seq<string>
  {
    if part == "" || part == "." then kept
    else if part != ".." || (kept != [] && kept[|kept| - 1] == "..") then kept + [part]
    else if kept != [] then kept[..|kept| - 1]
    else kept
  }

  lemma FoldOneExtent(kept: seq<string>, part: string)
    requires NoUps(kept)
    ensures NoUps(FoldOne(kept, part))
    ensures if part != "" && part != "." && part != ".." then FoldOne(kept, part) == kept + [part]
            else Extent(FoldOne(kept, part)) <= Extent(kept)
  {
  }

  lemma ExtentNext(parts: seq<string>, part: string)
    ensures Extent(parts + [part]) == Extent(parts) + |part| + 1
  {
    assert (parts + [part])[..|parts|] == parts;
  }

  /** Whatever is dropped makes the result smaller. */
  lemma {:induction false} FoldedExtent(parts: seq<string>)
    ensures if AllNamed(parts) then Folded(parts, true) == parts else Extent(Folded(parts, true)) < Extent(parts)
    ensures NoUps(Folded(parts, true))
  {
    if parts != [] {
      var n := |parts| - 1;
      var part, kept := parts[n], Folded(parts[..n], true);
      assert parts == parts[..n] + [part];
      FoldedExtent(parts[..n]);
      assert Folded(parts, true) == FoldOne(kept, part);
      hide FoldOne, AllNamed, NoUps, Extent, Folded;
      AllNamedNext(parts[..n], part);
      FoldOneExtent(kept, part);
      ExtentNext(parts[..n], part);
      ExtentNext(kept, part);
    }
  }

  lemma {:induction false} JoinExtent(parts: seq<string>)
    requires parts != []
    ensures |JoinWith(parts, '/')| == Extent(parts) - 1
  {
    var n := |parts| - 1;
    if n > 0 {
      JoinExtent(parts[..n]);
      assert parts == parts[..n] + [parts[n]];
      JoinConcat(parts[..n], [parts[n]], '/');
    }
  }

  /** The path after its slashes, and the parts that the slashes leave empty. */
  lemma FrontParts(rest: string)
    ensures SplitOn("/" + rest, '/') == [""] + SplitOn(rest, '/')
    ensures SplitOn("//" + rest, '/') == ["", ""] + SplitOn(rest, '/')
  {
    assert ("/" + rest)[1..] == rest && ("//" + rest)[1..] == "/" + rest;
    assert [""] + ([""] + SplitOn(rest, '/')) == ["", ""] + SplitOn(rest, '/');
  }

  lemma {:induction false} FoldedFront(front: seq<string>, parts: seq<string>)
    requires forall i :: 0 <= i < |front| ==> front[i] == ""
    ensures Folded(front + parts, true) == Folded(parts, true)
  {
    var all := front + parts;
    if parts != [] {
      var n := |parts| - 1;
      assert all[..|all| - 1] == front + parts[..n] && all[|all| - 1] == parts[n];
      FoldedFront(front, parts[..n]);
    } else if front != [] {
      var n := |front| - 1;
      assert all == front && all[..n] == front[..n] + parts && all[n] == "";
      FoldedFront(front[..n], parts);
    }
  }

  /** `normpath` leaves an absolute path alone if and only if it is normalized. */
  lemma NormalizedExactly(p: string)
    ensures Normalized(p) <==> p != [] && p[0] == '/' && NormPath(p) == p
  {
    if p != [] && p[0] == '/' && !("///" <= p) {
      var two := "//" <= p;
      var rest := if two then p[2..] else p[1..];
      assert p == (if two then "//" else "/") + rest;
      NormIff(p, if two then "//" else "/", if two then ["", ""] else [""], rest);
    } else if "///" <= p {
      TripleSlash(p);
    }
  }

  /** Three slashes come back as one. */
  lemma TripleSlash(p: string)
    requires "///" <= p
    ensures NormPath(p) != p
  {
    var parts := SplitOn(p[3..], '/');
    assert p == "/" + ("//" + p[3..]);
    FrontParts(p[3..]);
    FrontParts("//" + p[3..]);
    var front := ["", "", ""];
    assert [""] + (["", ""] + parts) == front + parts;
    FoldedFront(front, parts);
    NoSlashFirst(parts, p[3..]);
    var kept := Folded(parts, true);
    if kept != [] { assert NormPath(p)[1] == JoinWith(kept, '/')[0]; }
  }

  lemma NoSlashFirst(parts: seq<string>, text: string)
    requires parts == SplitOn(text, '/')
    ensures var kept := Folded(parts, true); kept != [] ==> JoinWith(kept, '/') != [] && JoinWith(kept, '/')[0] != '/'
  {
    PartsFree(text);
    FoldedFrom(parts);
    var kept := Folded(parts, true);
    if kept != [] {
      assert kept[0] in parts;
      if |kept| > 1 { assert JoinWith(kept, '/')[0] == kept[0][0]; }
    }
  }

  lemma {:induction false} PartsFree(text: string)
    ensures forall part :: part in SplitOn(text, '/') ==> '/' !in part
  {
    if text != [] { PartsFree(text[1..]); }
  }

  lemma {:induction false} FoldedFrom(parts: seq<string>)
    ensures forall part :: part in Folded(parts, true) ==> part in parts && part != ""
  {
    if parts != [] {
      var n := |parts| - 1;
      FoldedFrom(parts[..n]);
      var kept := Folded(parts[..n], true);
      forall part | part in Folded(parts, true) ensures part in parts && part != "" {
        assert part in kept || part == parts[n];
      }
    }
  }

  lemma NormIff(p: string, slashes: string, front: seq<string>, rest: string)
    requires p == slashes + rest && ((slashes == "/" && front == [""]) || (slashes == "//" && front == ["", ""]))
    requires !("///" <= p) && (slashes == "/" ==> !("//" <= p))
    ensures NormPath(p) == p <==> rest == [] || AllNamed(SplitOn(rest, '/'))
  {
    var parts := SplitOn(rest, '/');
    FrontParts(rest);
    FoldedFront(front, parts);
    FoldedExtent(parts);
    JoinSplit(rest, '/');
    JoinExtent(parts);
    var kept := Folded(parts, true);
    if kept != [] { JoinExtent(kept); }
    assert NormPath(p) == slashes + JoinWith(kept, '/');
    assert NormPath(p) == p <==> JoinWith(kept, '/') == rest by {
      assert (slashes + JoinWith(kept, '/'))[|slashes|..] == JoinWith(kept, '/') && p[|slashes|..] == rest;
    }
    if rest == [] { assert parts == [""]; }
  }

  predicate SafePath(p: string)
  {
    Normalized(p) && 2 <= |p| <= 4096 && forall i :: 0 <= i < |p| ==> PathChar(p[i])
  }

  predicate SafeToken(s: string)
  {
    1 <= |s| <= 128 && s[0] !in "._+-" && forall i :: 0 <= i < |s| ==> TokenChar(s[i])
  }

  predicate SafeUuid(s: string)
  {
    |s| == 36 && forall i :: 0 <= i < 36 ==> if i in {8, 13, 18, 23} then s[i] == '-' else HexChar(s[i])
  }

  function IntOf(s: string, nd: Digits): (r: Option<nat>)
  {
    if s == [] then Some(0)
    else match IntOf(s[..|s| - 1], nd)
      case None => None
      case Some(v) => if s[|s| - 1] in nd then Some(10 * v + nd[s[|s| - 1]]) else None
  }

  predicate SizeOk(n: nat) { 0 < n <= MAX_BYTES && n % 512 == 0 }

  predicate SafeSize(s: string, nd: Digits)
  {
    0 < |s| <= INT_DIGITS && IntOf(s, nd).Some? && SizeOk(IntOf(s, nd).value)
  }

  predicate OthersOk(m: Values)
    requires ENV_KEYS <= m.Keys
  {
    && SafePath(m[MOUNT]) && SafePath(m[DEVICE]) && m[MOUNT] == "/srv/multikernel-storage"
    && SafeToken(m[SERIAL]) && SafeToken(m[LABEL]) && SafeUuid(m[UUID])
  }

  /** `validate_environment` accepts the text. */
  predicate Accepts(t: string, nd: Digits)
  {
    var r := Parse(Lines(t));
    r.Some? && r.value.Keys == ENV_KEYS && OthersOk(r.value) && SafeSize(r.value[STORAGE], nd)
  }

  // ---------------------------------------------------------------- the pattern

  function SkipBlanks(l: string, i: nat): (j: nat)
    requires i <= |l|
    ensures i <= j <= |l| && (forall k :: i <= k < j ==> IsBlank(l[k])) && (j < |l| ==> !IsBlank(l[j]))
    decreases |l| - i
  {
    if i == |l| || !IsBlank(l[i]) then i else SkipBlanks(l, i + 1)
  }

  function SkipDigits(l: string, i: nat): (j: nat)
    requires i <= |l|
    ensures i <= j <= |l| && (forall k :: i <= k < j ==> IsDigit(l[k])) && (j < |l| ==> !IsDigit(l[j]))
    decreases |l| - i
  {
    if i == |l| || !IsDigit(l[i]) then i else SkipDigits(l, i + 1)
  }

  /** Offsets of the pattern's group: the digits. */
  datatype Match = Match(start: nat, end: nat)

  const PREFIX := STORAGE + "="

  /** `[ \t]*MKRUNTIME_STORAGE_BYTES=([0-9]+)[ \t]*\r?` against one LF-delimited line. */
  function MatchLine(l: string): (r: Option<Match>)
    ensures r.Some? ==> r.value.start < r.value.end <= |l|
  {
    var i := SkipBlanks(l, 0);
    if !(PREFIX <= l[i..]) then None else
    var j := i + |PREFIX|;
    var k := SkipDigits(l, j);
    var e := SkipBlanks(l, k);
    if k == j || !(e == |l| || (e + 1 == |l| && l[e] == '\r')) then None else Some(Match(j, k))
  }

  function FirstLF(t: string): (n: nat)
    ensures n <= |t| && (n < |t| ==> t[n] == '\n') && forall i :: 0 <= i < n ==> t[i] != '\n'
  {
    if t == [] || t[0] == '\n' then 0 else 1 + FirstLF(t[1..])
  }

  function Shift(ms: seq<Match>, offset: nat): (r: seq<Match>)
    ensures |r| == |ms| && forall i :: 0 <= i < |ms| ==> r[i] == Match(ms[i].start + offset, ms[i].end + offset)
  {
    if ms == [] then [] else [Match(ms[0].start + offset, ms[0].end + offset)] + Shift(ms[1..], offset)
  }

  function Found(m: Option<Match>): seq<Match> { if m.Some? then [m.value] else [] }

  predicate Within(ms: seq<Match>, size: nat) {
    forall i :: 0 <= i < |ms| ==> ms[i].start < ms[i].end <= size
  }

  function Follow(here: seq<Match>, rest: seq<Match>, offset: nat, size: nat): (ms: seq<Match>)
    requires offset <= size && Within(here, size) && Within(rest, size - offset)
    ensures Within(ms, size)
  {
    here + Shift(rest, offset)
  }

  function FoundIn(l: string, size: nat): (ms: seq<Match>)
    requires |l| <= size
    ensures Within(ms, size)
  {
    Found(MatchLine(l))
  }

  /** `re.finditer` of the multi-line pattern. */
  function Matches(t: string): (ms: seq<Match>)
    ensures Within(ms, |t|)
    decreases |t|
  {
    var n := FirstLF(t);
    var here := FoundIn(t[..n], |t|);
    if n == |t| then here else Follow(here, Matches(t[n + 1..]), n + 1, |t|)
  }

  function Splice(t: string, m: Match, s: string): string
    requires m.start <= m.end <= |t|
  {
    t[..m.start] + s + t[m.end..]
  }

  /** `str(n)`. */
  function Decimal(n: nat): (s: string)
    ensures s != [] && forall i :: 0 <= i < |s| ==> IsDigit(s[i])
  {
    var d := ('0' as int + n % 10) as char;
    if n < 10 then [d] else Decimal(n / 10) + [d]
  }

  lemma {:induction false} DecimalValue(n: nat, nd: Digits)
    requires DigitTable(nd)
    ensures IntOf(Decimal(n), nd) == Some(n)
  {
    var s := Decimal(n);
    if n >= 10 {
      DecimalValue(n / 10, nd);
      assert s[..|s| - 1] == Decimal(n / 10);
    } else {
      assert s[..0] == [];
      assert IntOf(s[..0], nd) == Some(0);
    }
  }

  lemma OneDigit(n: nat)
    ensures |Decimal(n)| <= 1 + |Decimal(n / 10)| && (n < 10 ==> |Decimal(n)| == 1)
  {
  }

  lemma FourDigits(n: nat)
    ensures |Decimal(n)| <= 4 + |Decimal(n / 10_000)|
  {
    hide Decimal;
    OneDigit(n);
    OneDigit(n / 10);
    OneDigit(n / 100);
    OneDigit(n / 1000);
  }

  /** A guarded size has at most 21 digits. */
  lemma DecimalLength(n: nat)
    requires n <= MAX_BYTES
    ensures |Decimal(n)| <= INT_DIGITS
  {
    hide Decimal;
    var a := n / 10_000;
    var b := a / 10_000;
    var c := b / 10_000;
    var d := c / 10_000;
    FourDigits(n);
    FourDigits(a);
    FourDigits(b);
    FourDigits(c);
    FourDigits(d);
    OneDigit(d / 10_000);
  }

  lemma GuardedSize(n: nat, nd: Digits)
    requires DigitTable(nd) && SizeOk(n)
    ensures SafeSize(Decimal(n), nd)
  {
    DecimalLength(n);
    DecimalValue(n, nd);
  }

  // ---------------------------------------------------------------- stripping

  ghost predicate AllSpace(s: string) { forall i :: 0 <= i < |s| ==> IsSpace(s[i]) }

  lemma {:induction false} LStripPadded(a: string, s: string)
    requires AllSpace(a) && s != [] && !IsSpace(s[0])
    ensures LStrip(a + s) == s
  {
    if a == [] { assert a + s == s; } else {
      assert (a + s)[1..] == a[1..] + s;
      LStripPadded(a[1..], s);
    }
  }

  lemma {:induction false} RStripPadded(s: string, b: string)
    requires AllSpace(b) && s != [] && !IsSpace(s[|s| - 1])
    ensures RStrip(s + b) == s
  {
    if b == [] { assert s + b == s; } else {
      assert (s + b)[..|s + b| - 1] == s + b[..|b| - 1];
      RStripPadded(s, b[..|b| - 1]);
    }
  }

  lemma StripPadded(a: string, s: string, b: string)
    requires AllSpace(a) && AllSpace(b) && s != [] && !IsSpace(s[0]) && !IsSpace(s[|s| - 1])
    ensures Strip(a + s + b) == s
  {
    assert a + s + b == a + (s + b);
    LStripPadded(a, s + b);
    RStripPadded(s, b);
  }

  lemma {:induction false} LStripSplit(s: string) returns (a: string)
    ensures s == a + LStrip(s) && AllSpace(a)
  {
    if s == [] || !IsSpace(s[0]) { a := []; } else {
      var rest := LStripSplit(s[1..]);
      a := [s[0]] + rest;
    }
  }

  lemma {:induction false} RStripSplit(s: string) returns (b: string)
    ensures s == RStrip(s) + b && AllSpace(b)
  {
    if s == [] || !IsSpace(s[|s| - 1]) { b := []; } else {
      var rest := RStripSplit(s[..|s| - 1]);
      b := rest + [s[|s| - 1]];
    }
  }

  lemma StripSplit(s: string) returns (a: string, b: string)
    ensures s == a + Strip(s) + b && AllSpace(a) && AllSpace(b)
  {
    a := LStripSplit(s);
    b := RStripSplit(LStrip(s));
  }

  lemma {:induction false} EqualsAfter(key: string, value: string)
    requires '=' !in key
    ensures FirstEquals(key + "=" + value) == |key|
  {
    var s := key + "=" + value;
    if key != [] {
      assert s[1..] == key[1..] + "=" + value;
      EqualsAfter(key[1..], value);
    }
  }

  lemma StorageKey()
    ensures '=' !in STORAGE && STORAGE in ENV_KEYS && |PREFIX| == 24
    ensures STORAGE !in {MOUNT, DEVICE, SERIAL, LABEL, UUID}
    ensures forall i :: 0 <= i < |PREFIX| ==> !IsSpace(PREFIX[i])
    ensures PREFIX[0] == 'M'
  {
    assert forall i :: 0 <= i < |PREFIX| ==> 'A' <= PREFIX[i] <= '_' || PREFIX[i] == '=';
  }

  /** A padded storage line assigns its digits. */
  lemma StorageLine(a: string, digits: string, b: string)
    requires AllSpace(a) && AllSpace(b) && digits != [] && forall i :: 0 <= i < |digits| ==> IsDigit(digits[i])
    ensures Assign(a + PREFIX + digits + b) == Pair(STORAGE, digits)
  {
    hide IsSpace;
    StorageKey();
    var s := PREFIX + digits;
    assert a + PREFIX + digits + b == a + s + b;
    DigitNotSpace(digits[|digits| - 1]);
    StripPadded(a, s, b);
    EqualsAfter(STORAGE, digits);
    assert s == STORAGE + "=" + digits;
    assert s[..|STORAGE|] == STORAGE && s[|STORAGE| + 1..] == digits;
  }

  lemma DigitNotSpace(c: char)
    requires IsDigit(c)
    ensures !IsSpace(c)
  {
  }

  // ---------------------------------------------------------------- lines around a cut

  lemma FirstBreakConcat(a: string, x: string)
    requires FirstBreak(a) < |a|
    ensures FirstBreak(a + x) == FirstBreak(a)
  {
    var n := FirstBreak(a);
    BreakFacts(a);
    assert (a + x)[n] == a[n];
    assert forall i :: 0 <= i < n ==> (a + x)[i] == a[i];
    BreakIs(a + x, n);
  }

  /** A text may be cut after any LF. */
  lemma {:induction false} LinesConcat(a: string, x: string)
    requires a == [] || a[|a| - 1] == '\n'
    ensures Lines(a + x) == Lines(a) + Lines(x)
    decreases |a|
  {
    if a == [] {
      assert a + x == x;
    } else {
      assert FirstBreak(a) < |a| by { BreakFacts(a); assert IsBreak(a[|a| - 1]); }
      hide IsBreak, Lines, BreakSize, FirstBreak, NextStart;
      FirstBreakConcat(a, x);
      BreakConcat(a, x);
      LinesStep(a);
      LinesStep(a + x);
      LinesConcat(a[NextStart(a)..], x);
      AssociateLines([a[..FirstBreak(a)]], Lines(a[NextStart(a)..]), Lines(x));
    }
  }

  lemma AssociateLines(a: seq<string>, b: seq<string>, c: seq<string>)
    ensures (a + b) + c == a + (b + c)
  {
  }

  lemma BreakConcat(a: string, x: string)
    requires FirstBreak(a) < |a| && a[|a| - 1] == '\n' && FirstBreak(a + x) == FirstBreak(a)
    ensures NextStart(a + x) == NextStart(a) && (a + x)[..FirstBreak(a)] == a[..FirstBreak(a)]
    ensures var k := NextStart(a); (a + x)[k..] == a[k..] + x && (k < |a| ==> a[k..][|a[k..]| - 1] == '\n')
  {
    hide FirstBreak;
    var n := FirstBreak(a);
    assert (a + x)[n..] == a[n..] + x;
  }

  lemma FirstBreakOf(c: string, x: string)
    requires (forall i :: 0 <= i < |c| ==> !IsBreak(c[i])) && (x == [] || IsBreak(x[0]))
    ensures FirstBreak(c + x) == |c|
  {
    assert forall i :: 0 <= i < |c| ==> (c + x)[i] == c[i];
    if x != [] { assert (c + x)[|c|] == x[0]; }
    BreakIs(c + x, |c|);
  }

  /** What may follow the pattern on its line. */
  predicate EndsLine(after: string)
  {
    after == "" || after == "\r" || "\n" <= after || "\r\n" <= after
  }

  /** Nothing but an optional carriage return. */
  predicate Bare(after: string)
  {
    after == "" || after == "\r"
  }

  function NextLine(after: string): string
    requires EndsLine(after)
  {
    if after == "" || after == "\r" then "" else if "\n" <= after then after[1..] else after[2..]
  }

  lemma LineThen(c: string, after: string)
    requires c != [] && (forall i :: 0 <= i < |c| ==> !IsBreak(c[i])) && EndsLine(after)
    ensures Lines(c + after) == [c] + Lines(NextLine(after))
  {
    FirstBreakOf(c, after);
    hide IsBreak, FirstBreak, BreakSize, NextStart, NextLine, EndsLine;
    if after == "" {
      assert c + after == c;
      assert NextLine(after) == "" by { NextLineNone(); }
      NoLines();
    } else {
      NextLineIs(after);
      StartAfter(c, after);
      hide Lines;
      LinesStep(c + after);
    }
  }

  lemma NextLineNone()
    ensures EndsLine("") && NextLine("") == ""
  {
  }

  lemma NextLineIs(after: string)
    requires EndsLine(after) && after != ""
    ensures after[BreakSize(after)..] == NextLine(after)
  {
  }

  lemma StartAfter(c: string, after: string)
    requires after != "" && FirstBreak(c + after) == |c|
    ensures (c + after)[..|c|] == c && (c + after)[NextStart(c + after)..] == after[BreakSize(after)..]
  {
    hide FirstBreak, BreakSize;
    var t := c + after;
    assert t[|c|..] == after;
    var k := BreakSize(after);
    assert t[|c| + k..] == after[k..];
  }

  /** Where the pattern matched: `before`, blanks, the key, the digits, blanks, `after`. */
  datatype Cut = Cut(before: string, left: string, digits: string, right: string, after: string)

  function Line(c: Cut, digits: string): string { c.left + PREFIX + digits + c.right }

  function Text(c: Cut, digits: string): string { c.before + (Line(c, digits) + c.after) }

  ghost predicate Proper(c: Cut)
  {
    && (c.before == [] || c.before[|c.before| - 1] == '\n')
    && (forall i :: 0 <= i < |c.left| ==> IsBlank(c.left[i]))
    && (forall i :: 0 <= i < |c.right| ==> IsBlank(c.right[i]))
    && Numeral(c.digits) && EndsLine(c.after)
  }

  ghost predicate Numeral(s: string) { s != [] && forall i :: 0 <= i < |s| ==> IsDigit(s[i]) }

  ghost predicate At(c: Cut, m: Match)
  {
    m.start == |c.before| + |c.left| + |PREFIX| && m.end == m.start + |c.digits|
  }

  lemma LineUnbroken(c: Cut, digits: string)
    requires Proper(c) && Numeral(digits)
    ensures Line(c, digits) != [] && forall i :: 0 <= i < |Line(c, digits)| ==> !IsBreak(Line(c, digits)[i])
    ensures Assign(Line(c, digits)) == Pair(STORAGE, digits)
  {
    StorageKey();
    forall i | 0 <= i < |Line(c, digits)| ensures !IsBreak(Line(c, digits)[i]) {
      var l := Line(c, digits);
      if i < |c.left| { assert l[i] == c.left[i]; }
      else if i < |c.left| + |PREFIX| { assert l[i] == PREFIX[i - |c.left|]; }
      else if i < |c.left| + |PREFIX| + |digits| {
        assert l[i] == digits[i - |c.left| - |PREFIX|];
        DigitNotSpace(l[i]);
      } else { assert l[i] == c.right[i - |c.left| - |PREFIX| - |digits|]; }
    }
    StorageLine(c.left, digits, c.right);
  }

  lemma CutLines(c: Cut, digits: string)
    requires Proper(c) && Numeral(digits)
    ensures Lines(Text(c, digits)) == Lines(c.before) + ([Line(c, digits)] + Lines(NextLine(c.after)))
  {
    hide Line, Lines;
    LineUnbroken(c, digits);
    LinesConcat(c.before, Line(c, digits) + c.after);
    LineThen(Line(c, digits), c.after);
  }

  lemma FiveParts(l: string, i: nat, j: nat, k: nat, e: nat)
    requires i <= j <= k <= e <= |l|
    ensures l == [] + ((l[..i] + l[i..j] + l[j..k] + l[k..e]) + l[e..])
  {
  }

  lemma TextAfter(c: Cut, digits: string, more: string)
    ensures Text(c.(after := c.after + more), digits) == Text(c, digits) + more
  {
    hide Line;
    var l := Line(c, digits);
    assert Line(c.(after := c.after + more), digits) == l by { LineFields(c, c.(after := c.after + more), digits); }
    assert c.before + (l + (c.after + more)) == c.before + (l + c.after) + more;
  }

  lemma TextBefore(c: Cut, digits: string, more: string)
    ensures Text(c.(before := more + c.before), digits) == more + Text(c, digits)
  {
    hide Line;
    var l := Line(c, digits);
    assert Line(c.(before := more + c.before), digits) == l by { LineFields(c, c.(before := more + c.before), digits); }
    assert (more + c.before) + (l + c.after) == more + (c.before + (l + c.after));
  }

  lemma LineFields(c: Cut, d: Cut, digits: string)
    requires c.left == d.left && c.right == d.right
    ensures Line(c, digits) == Line(d, digits)
  {
  }

  lemma PrefixAt(l: string, i: nat)
    requires i <= |l| && PREFIX <= l[i..]
    ensures i + |PREFIX| <= |l| && l[i..i + |PREFIX|] == PREFIX
  {
    assert l[i..][..|PREFIX|] == l[i..i + |PREFIX|];
  }

  lemma PartsText(l: string, i: nat, j: nat, k: nat, e: nat)
    requires i <= j <= k <= e <= |l| && l[i..j] == PREFIX
    ensures l == Text(Cut([], l[..i], l[j..k], l[k..e], l[e..]), l[j..k])
  {
    FiveParts(l, i, j, k, e);
  }

  lemma MatchLineParts(l: string) returns (c: Cut)
    requires MatchLine(l).Some?
    ensures Proper(c) && c.before == [] && Bare(c.after) && l == Text(c, c.digits) && At(c, MatchLine(l).value)
  {
    hide Text, SkipBlanks, SkipDigits, IsBlank, IsDigit;
    var i := SkipBlanks(l, 0);
    PrefixAt(l, i);
    var j := i + |PREFIX|;
    var k := SkipDigits(l, j);
    var e := SkipBlanks(l, k);
    c := Cut([], l[..i], l[j..k], l[k..e], l[e..]);
    PartsBare(l, e);
    hide Proper, At, Bare;
    PartsProper(l, i, j, k, e);
    PartsText(l, i, j, k, e);
    assert At(c, Match(j, k)) by { PartsAt(l, i, j, k, e); }
  }

  lemma PartsBare(l: string, e: nat)
    requires e == |l| || (e + 1 == |l| && l[e] == '\r')
    ensures Bare(l[e..])
  {
    if e < |l| { assert l[e..] == [l[e]]; }
  }

  lemma PartsProper(l: string, i: nat, j: nat, k: nat, e: nat)
    requires i <= j < k <= e <= |l| && Bare(l[e..])
    requires forall x :: 0 <= x < i ==> IsBlank(l[x])
    requires forall x :: j <= x < k ==> IsDigit(l[x])
    requires forall x :: k <= x < e ==> IsBlank(l[x])
    ensures Proper(Cut([], l[..i], l[j..k], l[k..e], l[e..]))
  {
    hide IsBlank, IsDigit;
    assert l[j..k] != [];
  }

  lemma PartsAt(l: string, i: nat, j: nat, k: nat, e: nat)
    requires i <= j <= k <= e <= |l| && j == i + |PREFIX|
    ensures At(Cut([], l[..i], l[j..k], l[k..e], l[e..]), Match(j, k))
  {
  }

  lemma MatchesAt(t: string, x: nat)
    requires x < |Matches(t)|
    ensures var n := FirstLF(t);
      match MatchLine(t[..n])
      case Some(m) =>
        if x == 0 then Matches(t)[x] == m
        else n < |t| && x - 1 < |Matches(t[n + 1..])| && Moved(Matches(t[n + 1..])[x - 1], n + 1) == Matches(t)[x]
      case None => n < |t| && x < |Matches(t[n + 1..])| && Moved(Matches(t[n + 1..])[x], n + 1) == Matches(t)[x]
  {
    hide MatchLine, Shift, FirstLF;
    var n := FirstLF(t);
    if n < |t| { PickMatch(Found(MatchLine(t[..n])), Matches(t[n + 1..]), n + 1, x); }
  }

  lemma PickMatch(here: seq<Match>, rest: seq<Match>, offset: nat, x: nat)
    requires x < |here + Shift(rest, offset)|
    ensures (here + Shift(rest, offset))[x] == if x < |here| then here[x] else Moved(rest[x - |here|], offset)
  {
  }

  function Moved(m: Match, offset: nat): Match { Match(m.start + offset, m.end + offset) }

  lemma ProperMoved(c: Cut, d: Cut)
    requires Proper(c) && d.left == c.left && d.right == c.right && d.digits == c.digits
    requires d.before == [] || d.before[|d.before| - 1] == '\n'
    requires EndsLine(d.after)
    ensures Proper(d)
  {
  }

  /** Every match is such a cut. */
  lemma {:induction false} MatchCut(t: string, x: nat) returns (c: Cut)
    requires x < |Matches(t)|
    ensures Proper(c) && t == Text(c, c.digits) && At(c, Matches(t)[x])
    decreases |t|
  {
    hide Text, Line, Proper, MatchLine, EndsLine, Bare, Matches;
    MatchesAt(t, x);
    var n := FirstLF(t);
    var found := MatchLine(t[..n]);
    if found.Some? && x == 0 {
      c := MatchLineParts(t[..n]);
      var d := c.(after := c.after + t[n..]);
      assert t == t[..n] + t[n..];
      TextAfter(c, c.digits, t[n..]);
      LineEnd(c.after, t, n);
      ProperMoved(c, d);
      c := d;
    } else {
      var d := MatchCut(t[n + 1..], if found.Some? then x - 1 else x);
      c := d.(before := t[..n + 1] + d.before);
      assert t == t[..n + 1] + t[n + 1..];
      TextBefore(d, d.digits, t[..n + 1]);
      CutDigits(d);
      ProperMoved(d, c);
    }
  }

  lemma LineEnd(after: string, t: string, n: nat)
    requires n == FirstLF(t) && Bare(after)
    ensures EndsLine(after + t[n..])
    ensures n < |t| ==> EndsLine(after + t[n..n + 1]) && NextLine(after + t[n..n + 1]) == ""
    ensures EndsLine(after) && NextLine(after) == ""
  {
    if n < |t| { assert t[n..][0] == '\n' && t[n..n + 1] == "\n"; } else { assert after + t[n..] == after; }
  }

  lemma SpliceText(t: string, m: Match, c: Cut, s: string)
    requires t == Text(c, c.digits) && At(c, m)
    ensures m.start <= m.end <= |t| && Splice(t, m, s) == Text(c, s) && t[m.start..m.end] == c.digits
  {
    var head := c.before + c.left + PREFIX;
    var tail := c.right + c.after;
    assert t == head + c.digits + tail;
    assert Text(c, s) == head + s + tail;
    assert t[..m.start] == head && t[m.end..] == tail;
  }

  // ---------------------------------------------------------------- at most one match

  ghost function Count(lines: seq<string>): nat
  {
    if lines == [] then 0
    else Count(lines[..|lines| - 1]) + match Assign(lines[|lines| - 1])
                                       case Pair(k, v) => if k == STORAGE then 1 else 0
                                       case _ => 0
  }

  lemma {:induction false} CountConcat(a: seq<string>, b: seq<string>)
    ensures Count(a + b) == Count(a) + Count(b)
  {
    hide Assign;
    if b == [] { assert a + b == a; } else {
      assert (a + b)[..|a + b| - 1] == a + b[..|b| - 1];
      CountConcat(a, b[..|b| - 1]);
    }
  }

  lemma {:induction false} ParseCount(lines: seq<string>)
    requires Parse(lines).Some?
    ensures Count(lines) == if STORAGE in Parse(lines).value then 1 else 0
  {
    hide Assign;
    if lines != [] { ParseCount(lines[..|lines| - 1]); }
  }

  /** The piece of text up to and including the first LF. */
  function Head(t: string): string
  {
    var n := FirstLF(t);
    t[..if n < |t| then n + 1 else n]
  }

  lemma HeadCount(t: string)
    requires MatchLine(t[..FirstLF(t)]).Some?
    ensures Count(Lines(Head(t))) == 1
  {
    hide Text, Line, Proper, MatchLine, EndsLine, Lines, NextLine;
    var n := FirstLF(t);
    var c := MatchLineParts(t[..n]);
    LineEnd(c.after, t, n);
    var d := c;
    if n < |t| {
      d := c.(after := c.after + t[n..n + 1]);
      TextAfter(c, c.digits, t[n..n + 1]);
      ProperMoved(c, d);
      assert Head(t) == t[..n] + t[n..n + 1];
    }
    CutDigits(d);
    CutLines(d, d.digits);
    LineUnbroken(d, d.digits);
    assert Lines("") == [] by { NoLines(); }
    CountOne(Line(d, d.digits));
  }

  lemma NoLines()
    ensures Lines("") == []
  {
  }

  lemma MatchesSplit(t: string)
    ensures var n := FirstLF(t);
      |Matches(t)| == |Found(MatchLine(t[..n]))| + if n < |t| then |Matches(t[n + 1..])| else 0
  {
    hide MatchLine, FirstLF;
  }

  lemma {:induction false} MatchesCount(t: string)
    ensures |Matches(t)| <= Count(Lines(t))
    decreases |t|
  {
    MatchesSplit(t);
    hide MatchLine, Lines, Count, Matches;
    var n := FirstLF(t);
    if MatchLine(t[..n]).Some? { HeadCount(t); }
    if n < |t| {
      MatchesCount(t[n + 1..]);
      assert t == Head(t) + t[n + 1..];
      LinesConcat(Head(t), t[n + 1..]);
      CountConcat(Lines(Head(t)), Lines(t[n + 1..]));
    } else {
      assert Head(t) == t;
    }
  }

  lemma CountOne(l: string)
    requires Assign(l).Pair? && Assign(l).key == STORAGE
    ensures Count([l]) == 1 && [] + ([l] + []) == [l]
  {
    assert [l][..0] == [];
  }

  // ---------------------------------------------------------------- replacing one value

  lemma {:induction false} ParseReplace(a: seq<string>, x: string, y: string, b: seq<string>, v: string, w: string)
    requires Assign(x) == Pair(STORAGE, v) && Assign(y) == Pair(STORAGE, w) && w != []
    requires Parse(a + ([x] + b)).Some?
    ensures Parse(a + ([x] + b)).value.Keys >= {STORAGE} && Parse(a + ([x] + b)).value[STORAGE] == v
    ensures Parse(a + ([y] + b)) == Some(Parse(a + ([x] + b)).value[STORAGE := w])
  {
    hide Assign;
    var p, q := a + ([x] + b), a + ([y] + b);
    if b == [] {
      assert p[..|p| - 1] == a && q[..|q| - 1] == a;
      var m := Parse(a).value;
      assert m[STORAGE := v][STORAGE := w] == m[STORAGE := w];
    } else {
      var n := |b| - 1;
      assert p[..|p| - 1] == a + ([x] + b[..n]) && q[..|q| - 1] == a + ([y] + b[..n]);
      ParseReplace(a, x, y, b[..n], v, w);
      var m := Parse(a + ([x] + b[..n])).value;
      match Assign(b[n])
      case Pair(k, u) => assert k != STORAGE ==> m[k := u][STORAGE := w] == m[STORAGE := w][k := u];
      case _ =>
    }
  }

  /** The splice commutes with parsing: exactly the one value changes, and every other byte stays. */
  lemma SpliceParses(t: string, x: nat, s: string)
    requires Parse(Lines(t)).Some? && x < |Matches(t)| && Numeral(s)
    ensures var m := Matches(t)[x];
      var before, after := Parse(Lines(t)).value, Parse(Lines(Splice(t, m, s)));
      STORAGE in before && t[m.start..m.end] == before[STORAGE] && after == Some(before[STORAGE := s])
  {
    hide Lines, Parse, Matches, Line, Text, Splice, At, Proper;
    var c := MatchCut(t, x);
    SpliceText(t, Matches(t)[x], c, s);
    CutDigits(c);
    CutLines(c, c.digits);
    CutLines(c, s);
    LineUnbroken(c, c.digits);
    LineUnbroken(c, s);
    ParseReplace(Lines(c.before), Line(c, c.digits), Line(c, s), Lines(NextLine(c.after)), c.digits, s);
  }

  lemma CutDigits(c: Cut)
    requires Proper(c)
    ensures Numeral(c.digits) && EndsLine(c.after)
    ensures c.before == [] || c.before[|c.before| - 1] == '\n'
  {
  }

  lemma OthersKept(m: Values, s: string)
    requires ENV_KEYS <= m.Keys && OthersOk(m)
    ensures OthersOk(m[STORAGE := s]) && m[STORAGE := s].Keys == m.Keys
  {
    StorageKey();
  }

  // ---------------------------------------------------------------- a storage line is matched

  lemma {:induction false} SkipBlanksOver(l: string, i: nat, j: nat)
    requires i <= j <= |l| && (forall k :: i <= k < j ==> IsBlank(l[k])) && (j < |l| ==> !IsBlank(l[j]))
    ensures SkipBlanks(l, i) == j
    decreases j - i
  {
    if i < j { SkipBlanksOver(l, i + 1, j); }
  }

  lemma {:induction false} SkipDigitsOver(l: string, i: nat, j: nat)
    requires i <= j <= |l| && (forall k :: i <= k < j ==> IsDigit(l[k])) && (j < |l| ==> !IsDigit(l[j]))
    ensures SkipDigits(l, i) == j
    decreases j - i
  {
    if i < j { SkipDigitsOver(l, i + 1, j); }
  }

  /** The characters of l are those of a, the key with its equals sign, v, b and cr, in this order. */
  ghost predicate Laid(l: string, a: string, v: string, b: string, cr: string) {
    var j := |a| + |PREFIX|;
    && |l| == j + |v| + |b| + |cr|
    && (forall k :: 0 <= k < |a| ==> l[k] == a[k])
    && PREFIX <= l[|a|..]
    && (forall k :: 0 <= k < |v| ==> l[j + k] == v[k])
    && (forall k :: 0 <= k < |b| ==> l[j + |v| + k] == b[k])
    && (forall k :: 0 <= k < |cr| ==> l[j + |v| + |b| + k] == cr[k])
  }

  lemma LineChars(a: string, v: string, b: string, cr: string)
    ensures Laid((a + PREFIX + v + b) + cr, a, v, b, cr)
  {
    var l := (a + PREFIX + v + b) + cr;
    assert l == a + (PREFIX + (v + b + cr));
    assert l[|a|..] == PREFIX + (v + b + cr);
  }

  lemma MatchPadded(c: Cut, v: string, cr: string)
    requires Proper(c) && Numeral(v) && Bare(cr)
    ensures MatchLine(Line(c, v) + cr).Some?
  {
    hide Laid, MatchLine, Numeral, Bare;
    LineChars(c.left, v, c.right, cr);
    MatchLaid(Line(c, v) + cr, c.left, v, c.right, cr);
  }

  lemma MatchLaid(l: string, a: string, v: string, b: string, cr: string)
    requires Laid(l, a, v, b, cr) && Numeral(v) && Bare(cr)
    requires (forall x :: 0 <= x < |a| ==> IsBlank(a[x])) && (forall x :: 0 <= x < |b| ==> IsBlank(b[x]))
    ensures MatchLine(l).Some?
  {
    BlanksFirst(l, a, v, b, cr);
    DigitsRun(l, |a| + |PREFIX|, v, b, cr);
    BlanksRun(l, |a| + |PREFIX| + |v|, b, cr);
    hide SkipBlanks, SkipDigits;
  }

  lemma BlanksFirst(l: string, a: string, v: string, b: string, cr: string)
    requires Laid(l, a, v, b, cr) && forall x :: 0 <= x < |a| ==> IsBlank(a[x])
    ensures SkipBlanks(l, 0) == |a|
  {
    StorageKey();
    assert l[|a|] == l[|a|..][0] == PREFIX[0];
    SkipBlanksOver(l, 0, |a|);
  }

  lemma DigitsRun(l: string, j: nat, v: string, b: string, cr: string)
    requires |l| == j + |v| + |b| + |cr| && Bare(cr) && Numeral(v) && forall x :: 0 <= x < |b| ==> IsBlank(b[x])
    requires forall x :: 0 <= x < |v| ==> l[j + x] == v[x]
    requires forall x :: 0 <= x < |b| ==> l[j + |v| + x] == b[x]
    requires forall x :: 0 <= x < |cr| ==> l[j + |v| + |b| + x] == cr[x]
    ensures SkipDigits(l, j) == j + |v|
  {
    var k := j + |v|;
    forall x | j <= x < k ensures IsDigit(l[x]) { assert l[j + (x - j)] == v[x - j]; }
    if k < |l| {
      if b != "" { assert l[k + 0] == b[0]; } else { assert l[k + |b| + 0] == cr[0]; }
    }
    SkipDigitsOver(l, j, k);
  }

  lemma BlanksRun(l: string, k: nat, b: string, cr: string)
    requires |l| == k + |b| + |cr| && Bare(cr) && forall x :: 0 <= x < |b| ==> IsBlank(b[x])
    requires forall x :: 0 <= x < |b| ==> l[k + x] == b[x]
    requires forall x :: 0 <= x < |cr| ==> l[k + |b| + x] == cr[x]
    ensures var e := k + |b|; SkipBlanks(l, k) == e && (e == |l| || (e + 1 == |l| && l[e] == '\r'))
  {
    var e := k + |b|;
    forall x | k <= x < e ensures IsBlank(l[x]) { assert l[k + (x - k)] == b[x - k]; }
    if cr != "" { assert l[e + 0] == cr[0]; }
    SkipBlanksOver(l, k, e);
  }

  lemma {:induction false} FirstLFIs(t: string, n: nat)
    requires n <= |t| && (forall i :: 0 <= i < n ==> t[i] != '\n') && (n < |t| ==> t[n] == '\n')
    ensures FirstLF(t) == n
  {
    if n > 0 { FirstLFIs(t[1..], n - 1); }
  }

  lemma LastLine(c: Cut, v: string) returns (cr: string)
    requires Proper(c) && Numeral(v) && c.before == []
    ensures Bare(cr) && Text(c, v)[..FirstLF(Text(c, v))] == Line(c, v) + cr
  {
    LineUnbroken(c, v);
    CutDigits(c);
    hide Line, Proper;
    cr := if "\r" <= c.after then "\r" else "";
    assert Text(c, v) == Line(c, v) + c.after;
    hide Text;
    LineThenLF(Line(c, v), c.after, cr);
  }

  lemma LineThenLF(l: string, after: string, cr: string)
    requires (forall i :: 0 <= i < |l| ==> !IsBreak(l[i])) && EndsLine(after)
    requires cr == if "\r" <= after then "\r" else ""
    ensures (l + after)[..FirstLF(l + after)] == l + cr
  {
    var t := l + after;
    var n := |l| + |cr|;
    assert t[..n] == l + cr;
    forall i | 0 <= i < n ensures t[i] != '\n' { assert t[i] == (l + cr)[i]; if i < |l| { assert !IsBreak(l[i]); } }
    if n < |t| { assert t[n] == after[|cr|]; }
    FirstLFIs(t, n);
  }

  /** A properly cut text is matched somewhere. */
  lemma {:induction false} CutMatches(c: Cut, v: string)
    requires Proper(c) && Numeral(v)
    ensures |Matches(Text(c, v))| >= 1
    decreases |c.before|
  {
    hide Line, MatchLine;
    var t := Text(c, v);
    if c.before == [] {
      var cr := LastLine(c, v);
      MatchPadded(c, v, cr);
    } else {
      var n := FirstLF(c.before);
      assert n < |c.before| by { assert c.before[|c.before| - 1] == '\n'; }
      assert forall i :: 0 <= i <= n ==> t[i] == c.before[i];
      FirstLFIs(t, n);
      var d := c.(before := c.before[n + 1..]);
      ProperMoved(c, d);
      TextBefore(d, v, c.before[..n + 1]);
      assert c.before[..n + 1] + c.before[n + 1..] == c.before;
      assert t[n + 1..] == Text(d, v);
      CutMatches(d, v);
    }
  }

  predicate PlainAt(t: string, i: nat)
    requires i < |t|
  {
    IsSpace(t[i]) ==> IsBlank(t[i]) || t[i] == '\n' || (t[i] == '\r' && i + 1 < |t| && t[i + 1] == '\n')
  }

  /** An LF or CRLF text padded with nothing but blanks and tabs. */
  ghost predicate Plain(t: string)
  {
    forall i :: 0 <= i < |t| ==> PlainAt(t, i)
  }

  lemma Blank(t: string, i: nat)
    requires Plain(t) && i < |t| && IsSpace(t[i]) && !IsBreak(t[i])
    ensures IsBlank(t[i])
  {
    assert PlainAt(t, i);
  }

  lemma AssignedText(line: string, v: string) returns (a: string, b: string)
    requires Assign(line) == Pair(STORAGE, v)
    ensures line == a + PREFIX + v + b && AllSpace(a) && AllSpace(b)
  {
    hide Strip, IsSpace;
    a, b := StripSplit(line);
    var s := Strip(line);
    var n := FirstEquals(s);
    assert s == s[..n] + [s[n]] + s[n + 1..];
    assert s == PREFIX + v;
  }

  lemma FirstLineCut(t: string, v: string) returns (c: Cut)
    requires Plain(t) && t != [] && Assign(t[..FirstBreak(t)]) == Pair(STORAGE, v) && Numeral(v)
    ensures Proper(c) && t == Text(c, v)
  {
    var n := FirstBreak(t);
    BreakFacts(t);
    var a, b := AssignedText(t[..n], v);
    hide Assign, IsSpace, IsBreak, Plain, IsBlank, AllSpace, FirstBreak, EndsLine, Numeral;
    c := Cut([], a, v, b, t[n..]);
    BreakEndsLine(t);
    BlankEnds(t, n, a, v, b);
    FirstText(t, n, c, v);
    hide Text;
  }

  lemma BlankEnds(t: string, n: nat, a: string, v: string, b: string)
    requires Plain(t) && n <= |t| && (forall j :: 0 <= j < n ==> !IsBreak(t[j]))
    requires t[..n] == a + PREFIX + v + b && AllSpace(a) && AllSpace(b)
    ensures (forall k :: 0 <= k < |a| ==> IsBlank(a[k])) && (forall k :: 0 <= k < |b| ==> IsBlank(b[k]))
  {
    hide IsSpace, IsBreak, Plain, IsBlank, AllSpace;
    Ends(t, n, a, PREFIX, v, b);
    SpacesBlank(t, n, 0, a);
    SpacesBlank(t, n, n - |b|, b);
  }

  lemma Ends(t: string, n: nat, a: string, p: string, v: string, b: string)
    requires n <= |t| && t[..n] == a + p + v + b
    ensures |a| + |b| <= n && t[0..|a|] == a && t[n - |b|..n] == b
  {
    var l := t[..n];
    assert l[0..|a|] == a && l[n - |b|..n] == b;
  }

  lemma FirstText(t: string, n: nat, c: Cut, v: string)
    requires n <= |t| && t[..n] == Line(c, v) && c.before == [] && c.after == t[n..]
    ensures t == Text(c, v)
  {
    hide Line;
    assert t == t[..n] + t[n..];
  }

  lemma SpacesBlank(t: string, n: nat, i: nat, s: string)
    requires Plain(t) && n <= |t| && (forall j :: 0 <= j < n ==> !IsBreak(t[j]))
    requires i + |s| <= n && t[i..i + |s|] == s && AllSpace(s)
    ensures forall k :: 0 <= k < |s| ==> IsBlank(s[k])
  {
    hide IsSpace, IsBreak, Plain, IsBlank;
    forall k | 0 <= k < |s| ensures IsBlank(s[k]) {
      assert s[k] == t[i..i + |s|][k] == t[i + k];
      Blank(t, i + k);
    }
  }

  lemma BreakAt(t: string)
    requires Plain(t) && FirstBreak(t) < |t|
    ensures var u := t[FirstBreak(t)..]; u[0] == '\n' || (u[0] == '\r' && |u| > 1 && u[1] == '\n')
  {
    var n := FirstBreak(t);
    BreakFacts(t);
    assert PlainAt(t, n);
  }

  lemma BreakEndsLine(t: string)
    requires Plain(t)
    ensures EndsLine(t[FirstBreak(t)..])
  {
    hide IsBreak, FirstBreak, Plain;
    if FirstBreak(t) < |t| {
      BreakAt(t);
      StartsBreak(t[FirstBreak(t)..]);
    }
  }

  lemma BreakIsLF(t: string)
    requires Plain(t) && FirstBreak(t) < |t|
    ensures t[NextStart(t) - 1] == '\n'
  {
    hide IsBreak, FirstBreak, Plain, EndsLine;
    BreakAt(t);
    StartsBreak(t[FirstBreak(t)..]);
  }

  lemma StartsBreak(u: string)
    requires |u| > 0 && (u[0] == '\n' || (u[0] == '\r' && |u| > 1 && u[1] == '\n'))
    ensures EndsLine(u) && u[BreakSize(u) - 1] == '\n'
  {
    if u[0] == '\n' { assert u[..1] == "\n"; } else { assert u[..2] == "\r\n"; }
  }

  lemma PlainSuffix(t: string, k: nat)
    requires Plain(t) && k <= |t|
    ensures Plain(t[k..])
  {
    hide IsSpace;
    var u := t[k..];
    forall i | 0 <= i < |u| ensures PlainAt(u, i) {
      assert PlainAt(t, k + i);
      assert u[i] == t[k + i];
      if i + 1 < |u| { assert u[i + 1] == t[k + i + 1]; }
    }
  }

  lemma LinesStep(t: string)
    requires t != [] && FirstBreak(t) < |t|
    ensures Lines(t) == [t[..FirstBreak(t)]] + Lines(t[NextStart(t)..])
  {
    hide IsBreak, NextStart, FirstBreak;
  }

  /** In a plain text the line that assigns the storage size is a cut of the text. */
  lemma {:induction false} PlainCut(t: string, x: nat, v: string) returns (c: Cut)
    requires Plain(t) && x < |Lines(t)| && Assign(Lines(t)[x]) == Pair(STORAGE, v) && Numeral(v)
    ensures Proper(c) && t == Text(c, v)
    decreases |t|
  {
    hide Assign, Text, Proper, IsBreak, Plain, Numeral, EndsLine, Lines, NextStart, FirstBreak;
    var n := FirstBreak(t);
    if x == 0 {
      FirstLine(t);
      c := FirstLineCut(t, v);
    } else {
      SingleLine(t);
      LinesStep(t);
      BreakIsLF(t);
      var k := NextStart(t);
      PlainSuffix(t, k);
      c := PlainCut(t[k..], x - 1, v);
      c := CutLater(t, k, v, c);
    }
  }

  lemma CutLater(t: string, k: nat, v: string, d: Cut) returns (c: Cut)
    requires 0 < k <= |t| && t[k - 1] == '\n' && Proper(d) && t[k..] == Text(d, v)
    ensures Proper(c) && t == Text(c, v)
  {
    hide Text, Proper;
    c := d.(before := t[..k] + d.before);
    CutDigits(d);
    assert c.before[|c.before| - 1] == '\n';
    ProperMoved(d, c);
    TextBefore(d, v, t[..k]);
    assert t == t[..k] + t[k..];
  }

  lemma FirstLine(t: string)
    requires |Lines(t)| > 0
    ensures t != [] && Lines(t)[0] == t[..FirstBreak(t)]
  {
    hide IsBreak, FirstBreak, NextStart;
    if FirstBreak(t) == |t| { assert t[..FirstBreak(t)] == t; }
  }

  lemma SingleLine(t: string)
    ensures FirstBreak(t) == |t| ==> |Lines(t)| <= 1
    ensures t == [] ==> Lines(t) == []
  {
  }

  lemma {:induction false} ParseWitness(lines: seq<string>) returns (x: nat)
    requires Parse(lines).Some? && STORAGE in Parse(lines).value
    ensures x < |lines| && Assign(lines[x]) == Pair(STORAGE, Parse(lines).value[STORAGE])
  {
    hide Assign;
    var n := |lines| - 1;
    if Assign(lines[n]).Pair? && Assign(lines[n]).key == STORAGE {
      x := n;
    } else {
      x := ParseWitness(lines[..n]);
    }
  }

  lemma {:induction false} IntDigits(s: string, nd: Digits)
    requires IntOf(s, nd).Some?
    ensures forall i :: 0 <= i < |s| ==> s[i] in nd
  {
    if s != [] { IntDigits(s[..|s| - 1], nd); }
  }

  /** The text uses no other decimal digits than the ASCII ones. */
  ghost predicate AsciiDigits(t: string, nd: Digits) { forall c :: c in t && c in nd ==> IsDigit(c) }

  lemma {:induction false} LineWithin(t: string, x: nat, c: char)
    requires x < |Lines(t)| && c in Lines(t)[x]
    ensures c in t
    decreases |t|
  {
    hide IsBreak, Lines, NextStart, FirstBreak;
    if x == 0 {
      FirstLine(t);
      SliceWithin(t, 0, FirstBreak(t), c);
    } else {
      SingleLine(t);
      LinesStep(t);
      var k := NextStart(t);
      LineWithin(t[k..], x - 1, c);
      SliceWithin(t, k, |t|, c);
    }
  }

  lemma SliceWithin(t: string, i: nat, j: nat, c: char)
    requires i <= j <= |t| && c in t[i..j]
    ensures c in t
  {
  }

  lemma AsciiValue(t: string, x: nat, v: string, nd: Digits)
    requires x < |Lines(t)| && Assign(Lines(t)[x]) == Pair(STORAGE, v) && AsciiDigits(t, nd)
    requires forall i :: 0 <= i < |v| ==> v[i] in nd
    ensures forall i :: 0 <= i < |v| ==> IsDigit(v[i])
  {
    hide Lines, Assign, IsDigit;
    var a, b := AssignedText(Lines(t)[x], v);
    forall i | 0 <= i < |v| ensures IsDigit(v[i]) {
      assert v[i] in a + PREFIX + v + b;
      LineWithin(t, x, v[i]);
    }
  }

  // ---------------------------------------------------------------- the update

  /** The size is assigned on a line that the text's ends or line feeds delimit, a carriage return before the
      second one allowed, with nothing but blanks and tabs around the assignment, in ASCII digits. */
  ghost predicate Findable(t: string)
  {
    exists c: Cut :: Proper(c) && t == Text(c, c.digits)
  }

  /** At most one match in every accepted text, and exactly one if and only if the size is findable in it, which
      it is in every accepted LF or CRLF text padded with blanks and tabs and with ASCII digits. */
  lemma MatchedOnce(t: string, nd: Digits)
    requires DigitTable(nd) && Accepts(t, nd)
    ensures |Matches(t)| <= 1
    ensures |Matches(t)| == 1 <==> Findable(t)
    ensures Plain(t) && AsciiDigits(t, nd) ==> Findable(t)
  {
    Finds(t);
    hide Lines, Parse, Matches, OthersOk, Text, Proper, Assign, Plain, AsciiDigits;
    StorageKey();
    ParseCount(Lines(t));
    MatchesCount(t);
    if Plain(t) && AsciiDigits(t, nd) {
      var v := Parse(Lines(t)).value[STORAGE];
      var x := ParseWitness(Lines(t));
      IntDigits(v, nd);
      AsciiValue(t, x, v, nd);
      var c := PlainCut(t, x, v);
      CutMatches(c, v);
    }
  }

  lemma Finds(t: string)
    ensures |Matches(t)| >= 1 <==> Findable(t)
  {
    hide Matches, Text, Proper;
    if |Matches(t)| >= 1 { var c := MatchCut(t, 0); }
    if Findable(t) {
      var c: Cut :| Proper(c) && t == Text(c, c.digits);
      CutDigits(c);
      CutMatches(c, c.digits);
    }
  }

  /** For every accepted text with a match and every guarded size: the matched digits are the parsed value;
      the spliced text validates again, with exactly that value changed; and it is matched once again. */
  lemma UpdateIsSound(t: string, n: nat, nd: Digits)
    requires DigitTable(nd) && Accepts(t, nd) && SizeOk(n) && |Matches(t)| == 1
    ensures var m := Matches(t)[0];
      var before, u := Parse(Lines(t)).value, Splice(t, m, Decimal(n));
      && t[m.start..m.end] == before[STORAGE]
      && Accepts(u, nd) && Parse(Lines(u)).value == before[STORAGE := Decimal(n)]
      && |Matches(u)| == 1
  {
    hide Lines, Parse, Matches, Decimal, Splice, OthersOk, SafeSize, Text, Proper;
    StorageKey();
    var m := Matches(t)[0];
    SpliceParses(t, 0, Decimal(n));
    GuardedSize(n, nd);
    OthersKept(Parse(Lines(t)).value, Decimal(n));
    var u := Splice(t, m, Decimal(n));
    MatchedOnce(u, nd);
    var c := MatchCut(t, 0);
    SpliceText(t, m, c, Decimal(n));
    CutMatches(c, Decimal(n));
  }

  // ---------------------------------------------------------------- the validator

  lemma ParseNext(lines: seq<string>, i: nat)
    requires i < |lines|
    ensures var p, q := Parse(lines[..i]), Parse(lines[..i + 1]);
      q == match p
           case None => None
           case Some(m) =>
             match Assign(lines[i])
             case Nothing => Some(m)
             case Malformed => None
             case Pair(key, value) =>
               if key !in ENV_KEYS || key in m || value == [] then None else Some(m[key := value])
  {
    hide Assign;
    assert lines[..i + 1][..i] == lines[..i];
  }

  lemma {:induction false} ParseFails(lines: seq<string>, i: nat)
    requires i <= |lines| && Parse(lines[..i]).None?
    ensures Parse(lines).None?
    decreases |lines| - i
  {
    hide Parse;
    if i == |lines| { assert lines[..i] == lines; } else { ParseNext(lines, i); ParseFails(lines, i + 1); }
  }

  lemma KnownKeys()
    ensures ENV_KEYS == {"MKRUNTIME_POOL_CPUS", "MKRUNTIME_POOL_MEMORY", "MKRUNTIME_POOL_MEMORY_RESERVE",
                         "MKRUNTIME_CMDLINE", "MKNETWORK_SUBNET", "MKNETWORK_EGRESS", "MKNETWORK_MTU", "MKNETWORK_DNS",
                         "MKRUNTIME_STORAGE_MOUNT", "MKRUNTIME_STORAGE_DEVICE", "MKRUNTIME_STORAGE_SERIAL",
                         "MKRUNTIME_STORAGE_BYTES", "MKRUNTIME_STORAGE_LABEL", "MKRUNTIME_STORAGE_UUID"}
  {
  }

  /** A storage path: absolute, normal, and of the characters and the length allowed. */
  method CheckPath(v: string) returns (ok: bool)
    ensures ok <==> SafePath(v)
  {
    hide NormPath, Normalized;
    NormalizedExactly(v);
    if v == [] || v[0] != '/' || NormPath(v) != v { return false; }
    if |v| < 2 || |v| > 4096 { return false; }
    var i := 0;
    while i < |v|
      invariant 0 <= i <= |v| && forall j :: 0 <= j < i ==> PathChar(v[j])
    {
      var c := v[i];
      if !('A' <= c <= 'Z' || 'a' <= c <= 'z' || '0' <= c <= '9' || c == '/' || c == '.' || c == '_' || c == '+'
           || c == '-') {
        return false;
      }
      i := i + 1;
    }
    ok := true;
  }

  /** `[A-Za-z0-9][A-Za-z0-9._+-]{0,127}`. */
  method CheckToken(v: string) returns (ok: bool)
    ensures ok <==> SafeToken(v)
  {
    if |v| < 1 || |v| > 128 { return false; }
    var i := 0;
    while i < |v|
      invariant 0 <= i <= |v| && forall j :: 0 <= j < i ==> TokenChar(v[j])
      invariant i > 0 ==> v[0] !in "._+-"
    {
      var c := v[i];
      var plain := 'A' <= c <= 'Z' || 'a' <= c <= 'z' || '0' <= c <= '9';
      if !plain && (i == 0 || !(c == '.' || c == '_' || c == '+' || c == '-')) { return false; }
      i := i + 1;
    }
    ok := true;
  }

  /** Eight, four, four, four and twelve hexadecimal digits with hyphens between. */
  method CheckUuid(v: string) returns (ok: bool)
    ensures ok <==> SafeUuid(v)
  {
    if |v| != 36 { return false; }
    var i := 0;
    while i < 36
      invariant 0 <= i <= 36
      invariant forall j :: 0 <= j < i ==> if j in {8, 13, 18, 23} then v[j] == '-' else HexChar(v[j])
    {
      if i == 8 || i == 13 || i == 18 || i == 23 {
        if v[i] != '-' { return false; }
      } else if !('0' <= v[i] <= '9' || 'a' <= v[i] <= 'f') {
        return false;
      }
      i := i + 1;
    }
    ok := true;
  }

  lemma {:induction false} IntPrefix(v: string, i: nat, nd: Digits)
    requires i < |v|
    ensures IntOf(v[..i + 1], nd) == match IntOf(v[..i], nd)
      case None => None
      case Some(n) => if v[i] in nd then Some(10 * n + nd[v[i]]) else None
  {
    assert v[..i + 1][..i] == v[..i];
  }

  lemma {:induction false} IntFails(v: string, i: nat, nd: Digits)
    requires i <= |v| && IntOf(v[..i], nd).None?
    ensures IntOf(v, nd).None?
    decreases |v| - i
  {
    if i == |v| { assert v[..i] == v; } else { IntPrefix(v, i, nd); IntFails(v, i + 1, nd); }
  }

  /** Decimal digits, at most as many as `int` takes, for a positive multiple of 512 up to 2^63. */
  method CheckSize(v: string, nd: Digits) returns (ok: bool)
    ensures ok <==> SafeSize(v, nd)
  {
    hide IntOf;
    if v == [] || |v| > 4300 { return false; }
    var n: nat := 0;
    var i := 0;
    assert IntOf(v[..0], nd) == Some(0) by { IntNone(nd); assert v[..0] == []; }
    while i < |v|
      invariant 0 <= i <= |v| && IntOf(v[..i], nd) == Some(n)
    {
      IntPrefix(v, i, nd);
      if v[i] !in nd {
        IntFails(v, i + 1, nd);
        return false;
      }
      n := 10 * n + nd[v[i]];
      i := i + 1;
    }
    assert v[..i] == v;
    ok := 0 < n <= 0x8000_0000_0000_0000 && n % 512 == 0;
  }

  lemma IntNone(nd: Digits)
    ensures IntOf([], nd) == Some(0)
  {
  }

  /** The checks of the storage values. */
  method CheckValues(m: Values, nd: Digits) returns (ok: bool)
    requires m.Keys == ENV_KEYS
    ensures ok <==> OthersOk(m) && SafeSize(m[STORAGE], nd)
  {
    hide SafePath, SafeToken, SafeUuid, SafeSize;
    KnownKeys();
    var path := CheckPath(m["MKRUNTIME_STORAGE_MOUNT"]);
    var device := CheckPath(m["MKRUNTIME_STORAGE_DEVICE"]);
    if !path || !device || m["MKRUNTIME_STORAGE_MOUNT"] != "/srv/multikernel-storage" { return false; }
    var serial := CheckToken(m["MKRUNTIME_STORAGE_SERIAL"]);
    var label_ := CheckToken(m["MKRUNTIME_STORAGE_LABEL"]);
    if !serial || !label_ { return false; }
    var size := CheckSize(m["MKRUNTIME_STORAGE_BYTES"], nd);
    if !size { return false; }
    ok := CheckUuid(m["MKRUNTIME_STORAGE_UUID"]);
  }

  /** `validate_environment`: one pass that collects the keys, one that collects the values, the checks. */
  method ValidateEnvironment(t: string, nd: Digits) returns (ok: bool)
    ensures ok <==> Accepts(t, nd)
  {
    hide Parse, Assign, Lines, OthersOk, SafeSize, Strip;
    KnownKeys();
    var known := {"MKRUNTIME_POOL_CPUS", "MKRUNTIME_POOL_MEMORY", "MKRUNTIME_POOL_MEMORY_RESERVE", "MKRUNTIME_CMDLINE",
                  "MKNETWORK_SUBNET", "MKNETWORK_EGRESS", "MKNETWORK_MTU", "MKNETWORK_DNS", "MKRUNTIME_STORAGE_MOUNT",
                  "MKRUNTIME_STORAGE_DEVICE", "MKRUNTIME_STORAGE_SERIAL", "MKRUNTIME_STORAGE_BYTES",
                  "MKRUNTIME_STORAGE_LABEL", "MKRUNTIME_STORAGE_UUID"};
    var lines := Lines(t);
    var seen: set<string> := {};
    ghost var m: Values := map[];
    ParseNone(lines);
    var i := 0;
    while i < |lines|
      invariant i <= |lines| && Parse(lines[..i]) == Some(m) && seen == m.Keys
    {
      ParseNext(lines, i);
      AssignIs(lines[i]);
      var line := Strip(lines[i]);
      if line != [] && line[0] != '#' {
        var e := FirstEquals(line);
        if e == |line| {
          ParseFails(lines, i + 1);
          return false;
        }
        var key, value := line[..e], line[e + 1..];
        if key !in known || key in seen || value == [] {
          ParseFails(lines, i + 1);
          return false;
        }
        seen := seen + {key};
        m := m[key := value];
      }
      i := i + 1;
    }
    assert lines[..i] == lines;
    if seen != known { return false; }
    var values := CollectValues(lines);
    ok := CheckValues(values, nd);
  }

  lemma AssignIs(line: string)
    ensures var s := Strip(line);
      Assign(line) == if s == [] || s[0] == '#' then Nothing
                      else if FirstEquals(s) == |s| then Malformed
                      else Pair(s[..FirstEquals(s)], s[FirstEquals(s) + 1..])
  {
  }

  lemma ParseNone(lines: seq<string>)
    ensures Parse(lines[..0]) == Some(map[])
  {
  }

  method CollectValues(lines: seq<string>) returns (values: Values)
    requires Parse(lines).Some?
    ensures values == Parse(lines).value
  {
    hide Parse, Assign;
    values := map[];
    ParseNone(lines);
    var i := 0;
    while i < |lines|
      invariant i <= |lines| && Parse(lines[..i]) == Some(values)
    {
      ParseNext(lines, i);
      if Parse(lines[..i + 1]).None? { ParseFails(lines, i + 1); }
      AssignIs(lines[i]);
      var line := Strip(lines[i]);
      if line != [] && line[0] != '#' {
        var e := FirstEquals(line);
        values := values[line[..e] := line[e + 1..]];
      }
      i := i + 1;
    }
    assert lines[..i] == lines;
  }
}
