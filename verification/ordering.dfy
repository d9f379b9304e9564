/**
 * The order the script sorts its records by. The sort key is the string
 * `when.isoformat()`, and Python compares strings code point by code point;
 * for the zero-padded ISO form this is the order of the points in time.
 */
module Ordering {
  import opened Chars

  /** Python's `<` on str: lexicographic by code point, a proper prefix first. */
  predicate StrLess(a: string, b: string)
    decreases |a|
  {
    if a == [] then b != []
    else if b == [] then false
    else if a[0] != b[0] then a[0] < b[0]
    else StrLess(a[1..], b[1..])
  }

  lemma {:induction false} StrLessIrreflexive(a: string)
    ensures !StrLess(a, a)
    decreases |a|
  {
    if a != [] {
      StrLessIrreflexive(a[1..]);
    }
  }

  lemma {:induction false} StrLessTransitive(a: string, b: string, c: string)
    requires StrLess(a, b) && StrLess(b, c)
    ensures StrLess(a, c)
    decreases |a|
  {
    if a != [] && a[0] == b[0] && b[0] == c[0] {
      StrLessTransitive(a[1..], b[1..], c[1..]);
    }
  }

  lemma StrLessAsymmetric(a: string, b: string)
    requires StrLess(a, b)
    ensures !StrLess(b, a)
  {
    if StrLess(b, a) {
      StrLessTransitive(a, b, a);
      StrLessIrreflexive(a);
    }
  }

  /** Any two different strings are ordered one way or the other. */
  lemma {:induction false} StrLessTotal(a: string, b: string)
    ensures StrLess(a, b) || a == b || StrLess(b, a)
    decreases |a|
  {
    if a != [] && b != [] && a[0] == b[0] {
      StrLessTotal(a[1..], b[1..]);
      if a[1..] == b[1..] {
        assert a == [a[0]] + a[1..] && b == [b[0]] + b[1..];
      }
    }
  }

  /** Comparing two strings cut at the same length compares the heads first, then the tails. */
  lemma {:induction false} StrLessConcat(a1: string, b1: string, a2: string, b2: string)
    requires |a1| == |a2|
    ensures StrLess(a1 + b1, a2 + b2) <==> StrLess(a1, a2) || (a1 == a2 && StrLess(b1, b2))
    decreases |a1|
  {
    if a1 == [] {
      assert a1 + b1 == b1 && a2 + b2 == b2;
    } else {
      assert (a1 + b1)[0] == a1[0] && (a2 + b2)[0] == a2[0];
      assert (a1 + b1)[1..] == a1[1..] + b1 && (a2 + b2)[1..] == a2[1..] + b2;
      StrLessConcat(a1[1..], b1, a2[1..], b2);
      if a1[0] == a2[0] && a1[1..] == a2[1..] {
        assert a1 == [a1[0]] + a1[1..] && a2 == [a2[0]] + a2[1..];
      }
    }
  }

  /** Padded numbers of one width are equal exactly when the numbers are. */
  lemma PadInjective(n: nat, m: nat, w: nat)
    requires n < Pow10(w) && m < Pow10(w) && Pad(n, w) == Pad(m, w)
    ensures n == m
  {
    PadValue(n, w);
    PadValue(m, w);
  }

  /** Zero padding to a common width makes string order agree with numeric order. */
  lemma {:induction false} PadLess(n: nat, m: nat, w: nat)
    requires n < Pow10(w) && m < Pow10(w)
    ensures StrLess(Pad(n, w), Pad(m, w)) <==> n < m
    decreases w
  {
    if w == 0 {
      StrLessIrreflexive([]);
    } else {
      var hn, hm := Pad(n / 10, w - 1), Pad(m / 10, w - 1);
      var dn, dm := DigitChar(n % 10), DigitChar(m % 10);
      PadLess(n / 10, m / 10, w - 1);
      StrLessConcat(hn, [dn], hm, [dm]);
      assert StrLess([dn], [dm]) <==> n % 10 < m % 10 by {
        assert [dn][1..] == [] && [dm][1..] == [];
      }
      if hn == hm {
        PadInjective(n / 10, m / 10, w - 1);
      }
      assert n == 10 * (n / 10) + n % 10 && m == 10 * (m / 10) + m % 10;
    }
  }

  /** A number, its separator, then the rest of the timestamp. */
  function Field(n: nat, w: nat, sep: char, rest: string): (s: string)
    requires n < Pow10(w)
    ensures |s| == w + 1 + |rest|
  {
    Pad(n, w) + ([sep] + rest)
  }

  /** Timestamps that agree up to a field compare by that field, then by what follows. */
  lemma FieldLess(n: nat, m: nat, w: nat, sep: char, r1: string, r2: string)
    requires n < Pow10(w) && m < Pow10(w)
    ensures StrLess(Field(n, w, sep, r1), Field(m, w, sep, r2)) <==> n < m || (n == m && StrLess(r1, r2))
  {
    StrLessConcat(Pad(n, w), [sep] + r1, Pad(m, w), [sep] + r2);
    PadLess(n, m, w);
    if Pad(n, w) == Pad(m, w) {
      PadInjective(n, m, w);
    }
    assert ([sep] + r1)[1..] == r1 && ([sep] + r2)[1..] == r2;
  }

  /** A wall-clock time in the script's time zone, down to the second. */
  datatype DateTime = DateTime(year: nat, month: nat, day: nat, hour: nat, minute: nat, second: nat)

  /** The field widths `isoformat` writes: four digits of year, two of everything else. */
  predicate IsoWritable(t: DateTime) {
    t.year < 10000 && t.month < 100 && t.day < 100 && t.hour < 100 && t.minute < 100 && t.second < 100
  }

  /**
   * `t.isoformat()` without the UTC offset: `YYYY-MM-DDTHH:MM:SS`. (Python
   * leaves the seconds in even when they are zero.)
   */
  function Iso(t: DateTime): (s: string)
    requires IsoWritable(t)
    ensures |s| == 19
  {
    Field(t.year, 4, '-', Field(t.month, 2, '-', Field(t.day, 2, 'T',
      Field(t.hour, 2, ':', Field(t.minute, 2, ':', Pad(t.second, 2))))))
  }

  /** Chronological order: the fields compared from the year down to the second. */
  predicate Before(t: DateTime, u: DateTime) {
    || t.year < u.year
    || (t.year == u.year && t.month < u.month)
    || (t.year == u.year && t.month == u.month && t.day < u.day)
    || (t.year == u.year && t.month == u.month && t.day == u.day && t.hour < u.hour)
    || (t.year == u.year && t.month == u.month && t.day == u.day && t.hour == u.hour && t.minute < u.minute)
    || (t.year == u.year && t.month == u.month && t.day == u.day && t.hour == u.hour && t.minute == u.minute
        && t.second < u.second)
  }

  /** Sorting by the ISO string sorts by time. */
  lemma IsoOrder(t: DateTime, u: DateTime)
    requires IsoWritable(t) && IsoWritable(u)
    ensures StrLess(Iso(t), Iso(u)) <==> Before(t, u)
  {
    var ms, mu := Field(t.minute, 2, ':', Pad(t.second, 2)), Field(u.minute, 2, ':', Pad(u.second, 2));
    var hs, hu := Field(t.hour, 2, ':', ms), Field(u.hour, 2, ':', mu);
    var ds, du := Field(t.day, 2, 'T', hs), Field(u.day, 2, 'T', hu);
    var os, ou := Field(t.month, 2, '-', ds), Field(u.month, 2, '-', du);
    PadLess(t.second, u.second, 2);
    FieldLess(t.minute, u.minute, 2, ':', Pad(t.second, 2), Pad(u.second, 2));
    FieldLess(t.hour, u.hour, 2, ':', ms, mu);
    FieldLess(t.day, u.day, 2, 'T', hs, hu);
    FieldLess(t.month, u.month, 2, '-', ds, du);
    FieldLess(t.year, u.year, 4, '-', os, ou);
  }

  /** Different times have different ISO strings. */
  lemma IsoInjective(t: DateTime, u: DateTime)
    requires IsoWritable(t) && IsoWritable(u) && Iso(t) == Iso(u)
    ensures t == u
  {
    IsoOrder(t, u);
    IsoOrder(u, t);
    StrLessIrreflexive(Iso(t));
  }
}
