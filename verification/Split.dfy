/** Splitting on a separator and joining back, as `str.split` and `str.join` do. */
module Split {

  function SplitOn<T(==)>(s: seq<T>, sep: T): (r: seq<seq<T>>)
    ensures |r| >= 1
  {
    if s == [] then [[]]
    else
      var rest := SplitOn(s[1..], sep);
      if s[0] == sep then [[]] + rest else [[s[0]] + rest[0]] + rest[1..]
  }

  function JoinWith<T>(parts: seq<seq<T>>, sep: T): seq<T>
  {
    if parts == [] then []
    else if |parts| == 1 then parts[0]
    else parts[0] + [sep] + JoinWith(parts[1..], sep)
  }

  lemma {:induction false} SplitPart<T>(part: seq<T>, sep: T)
    requires sep !in part
    ensures SplitOn(part, sep) == [part]
  {
    if part != [] {
      SplitPart(part[1..], sep);
      assert [part[0]] + part[1..] == part;
    }
  }

  lemma {:induction false} SplitFirst<T>(part: seq<T>, rest: seq<T>, sep: T)
    requires sep !in part
    ensures SplitOn(part + [sep] + rest, sep) == [part] + SplitOn(rest, sep)
  {
    var s := part + [sep] + rest;
    if part == [] {
      assert s[1..] == rest;
    } else {
      assert s[1..] == part[1..] + [sep] + rest;
      SplitFirst(part[1..], rest, sep);
      assert [part[0]] + part[1..] == part;
    }
  }

  lemma {:induction false} JoinSplit<T>(s: seq<T>, sep: T)
    ensures JoinWith(SplitOn(s, sep), sep) == s
  {
    if s != [] {
      var rest := SplitOn(s[1..], sep);
      JoinSplit(s[1..], sep);
      assert s == [s[0]] + s[1..];
      if s[0] == sep {
        assert ([[]] + rest)[1..] == rest;
      } else {
        var parts := [[s[0]] + rest[0]] + rest[1..];
        assert parts[1..] == rest[1..];
        if |rest| > 1 {
          assert [s[0]] + rest[0] + [sep] + JoinWith(rest[1..], sep)
            == [s[0]] + (rest[0] + [sep] + JoinWith(rest[1..], sep));
        }
      }
    }
  }

  /** `SplitOn` of one more element in front. */
  function Grow<T(==)>(x: T, parts: seq<seq<T>>, sep: T): seq<seq<T>>
    requires |parts| >= 1
  {
    if x == sep then [[]] + parts else [[x] + parts[0]] + parts[1..]
  }

  lemma GrowConcat<T>(x: T, a: seq<seq<T>>, b: seq<seq<T>>, sep: T)
    requires |a| >= 1
    ensures Grow(x, a + b, sep) == Grow(x, a, sep) + b
  {
    assert (a + b)[0] == a[0] && (a + b)[1..] == a[1..] + b;
  }

  lemma {:induction false} SplitConcat<T>(s: seq<T>, rest: seq<T>, sep: T)
    ensures SplitOn(s + [sep] + rest, sep) == SplitOn(s, sep) + SplitOn(rest, sep)
  {
    var t := s + [sep] + rest;
    if s == [] {
      assert t[1..] == rest;
      assert SplitOn(t, sep) == [[]] + SplitOn(rest, sep);
    } else {
      assert t[1..] == s[1..] + [sep] + rest;
      SplitConcat(s[1..], rest, sep);
      GrowConcat(s[0], SplitOn(s[1..], sep), SplitOn(rest, sep), sep);
      assert SplitOn(t, sep) == Grow(s[0], SplitOn(t[1..], sep), sep);
      assert SplitOn(s, sep) == Grow(s[0], SplitOn(s[1..], sep), sep);
    }
  }

  lemma {:induction false} JoinConcat<T>(a: seq<seq<T>>, b: seq<seq<T>>, sep: T)
    requires a != [] && b != []
    ensures JoinWith(a + b, sep) == JoinWith(a, sep) + [sep] + JoinWith(b, sep)
  {
    assert (a + b)[1..] == a[1..] + b;
    if |a| == 1 {
      assert a[1..] + b == b;
    } else {
      JoinConcat(a[1..], b, sep);
      assert a[0] + [sep] + (JoinWith(a[1..], sep) + [sep] + JoinWith(b, sep))
             == (a[0] + [sep] + JoinWith(a[1..], sep)) + [sep] + JoinWith(b, sep);
    }
  }

  /** One string continues another past a separator exactly when its parts do. */
  lemma SplitPrefix<T>(p: seq<T>, q: seq<T>, sep: T)
    ensures p + [sep] <= q <==> SplitOn(p, sep) < SplitOn(q, sep)
  {
    hide SplitOn;
    if p + [sep] <= q { PartsContinue(p, q[|p| + 1..], q, sep); }
    if SplitOn(p, sep) < SplitOn(q, sep) { TextContinues(p, q, sep); }
  }

  lemma PartsContinue<T>(p: seq<T>, rest: seq<T>, q: seq<T>, sep: T)
    requires p + [sep] <= q && rest == q[|p| + 1..]
    ensures SplitOn(p, sep) < SplitOn(q, sep)
  {
    hide SplitOn;
    assert q == p + [sep] + rest;
    SplitConcat(p, rest, sep);
    var a, b := SplitOn(p, sep), SplitOn(rest, sep);
    assert SplitOn(q, sep) == a + b && |b| >= 1;
  }

  lemma TextContinues<T>(p: seq<T>, q: seq<T>, sep: T)
    requires SplitOn(p, sep) < SplitOn(q, sep)
    ensures p + [sep] <= q
  {
    hide SplitOn;
    var a, b := SplitOn(p, sep), SplitOn(q, sep);
    JoinSplit(p, sep);
    JoinSplit(q, sep);
    var c := b[|a|..];
    assert b == a + c;
    JoinConcat(a, c, sep);
  }

  lemma SplitInjective<T>(p: seq<T>, q: seq<T>, sep: T)
    requires SplitOn(p, sep) == SplitOn(q, sep)
    ensures p == q
  {
    JoinSplit(p, sep);
    JoinSplit(q, sep);
  }
}
