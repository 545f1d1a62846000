/**
  Release names: the default `release_name` is the UTC time of the deploy
  formatted with `%Y%m%d%H%M%S`. Comparing two such names as strings gives
  the order of their times, which is why sorting the listing of the
  releases directory yields the releases in the order they were created.
 */
module ReleaseNames {
  import opened Strings

  /** A UTC time as Ruby's `Time` reports it, to the second. */
  datatype Timestamp = Timestamp(year: nat, month: nat, day: nat, hour: nat, minute: nat, second: nat)
  {
    /** The ranges of `Time`'s fields; a second of 60 is a leap second. The
        year is kept to four digits, the width `%Y` pads to. */
    predicate Valid()
    {
      year <= 9999 && 1 <= month <= 12 && 1 <= day <= 31 && hour <= 23 && minute <= 59 && second <= 60
    }
  }

  /** Chronological order of timestamps. */
  predicate Before(t: Timestamp, u: Timestamp)
  {
    || t.year < u.year
    || (t.year == u.year && t.month < u.month)
    || (t.year == u.year && t.month == u.month && t.day < u.day)
    || (t.year == u.year && t.month == u.month && t.day == u.day && t.hour < u.hour)
    || (t.year == u.year && t.month == u.month && t.day == u.day && t.hour == u.hour && t.minute < u.minute)
    || (t.year == u.year && t.month == u.month && t.day == u.day && t.hour == u.hour && t.minute == u.minute
        && t.second < u.second)
  }

  function Pow10(n: nat): nat
  {
    if n == 0 then 1 else 10 * Pow10(n - 1)
  }

  function DigitChar(d: nat): char
    requires d < 10
  {
    ('0' as int + d) as char
  }

  predicate IsDigit(ch: char)
  {
    '0' <= ch <= '9'
  }

  /** The decimal digits of `n`, padded with zeros on the left to at least
      `w` characters, as the `%0wd`-style conversions of `strftime` do. */
  function Decimal(n: nat, w: nat): string
    decreases n, w
  {
    if n < 10 && w <= 1 then [DigitChar(n)]
    else Decimal(n / 10, if w == 0 then 0 else w - 1) + [DigitChar(n % 10)]
  }

  /** `Time#strftime("%Y%m%d%H%M%S")`. */
  function Format(t: Timestamp): string
  {
    Decimal(t.year, 4) + (Decimal(t.month, 2) + (Decimal(t.day, 2) + (Decimal(t.hour, 2)
      + (Decimal(t.minute, 2) + Decimal(t.second, 2)))))
  }

  lemma {:induction false} DecimalWidth(n: nat, w: nat)
    requires 1 <= w && n < Pow10(w)
    ensures |Decimal(n, w)| == w
    ensures forall i :: 0 <= i < w ==> IsDigit(Decimal(n, w)[i])
  {
    if w > 1 {
      assert n / 10 < Pow10(w - 1);
      DecimalWidth(n / 10, w - 1);
    }
  }

  /** For numbers of one width, comparing their padded digits as strings
      compares the numbers, and equal digits mean equal numbers. */
  lemma {:induction false} DecimalOrder(n: nat, m: nat, w: nat)
    requires 1 <= w && n < Pow10(w) && m < Pow10(w)
    ensures Less(Decimal(n, w), Decimal(m, w)) <==> n < m
    ensures Decimal(n, w) == Decimal(m, w) <==> n == m
  {
    if w == 1 {
      assert Decimal(n, w) == [DigitChar(n)] && Decimal(m, w) == [DigitChar(m)];
      assert [DigitChar(n)][1..] == [] == [DigitChar(m)][1..];
    } else {
      var hn, hm := Decimal(n / 10, w - 1), Decimal(m / 10, w - 1);
      assert n / 10 < Pow10(w - 1) && m / 10 < Pow10(w - 1);
      DecimalOrder(n / 10, m / 10, w - 1);
      DecimalWidth(n / 10, w - 1);
      DecimalWidth(m / 10, w - 1);
      assert Decimal(n, w) == hn + [DigitChar(n % 10)];
      assert Decimal(m, w) == hm + [DigitChar(m % 10)];
      assert [DigitChar(n % 10)][1..] == [] == [DigitChar(m % 10)][1..];
      if n / 10 == m / 10 {
        LessCommonPrefix(hn, [DigitChar(n % 10)], [DigitChar(m % 10)]);
        assert Decimal(n, w) == Decimal(m, w) <==> n % 10 == m % 10 by {
          if Decimal(n, w) == Decimal(m, w) {
            assert Decimal(n, w)[w - 1] == DigitChar(n % 10);
            assert Decimal(m, w)[w - 1] == DigitChar(m % 10);
          }
        }
      } else {
        LessDifferentHeads(hn, [DigitChar(n % 10)], hm, [DigitChar(m % 10)]);
        assert Decimal(n, w)[..w - 1] == hn && Decimal(m, w)[..w - 1] == hm;
      }
    }
  }

  /** One field followed by the rest: the field decides the order unless the
      fields are equal, and then the rest decides. */
  lemma FieldThenRest(n: nat, m: nat, w: nat, r1: string, r2: string)
    requires 1 <= w && n < Pow10(w) && m < Pow10(w)
    ensures Less(Decimal(n, w) + r1, Decimal(m, w) + r2) <==> n < m || (n == m && Less(r1, r2))
    ensures Decimal(n, w) + r1 == Decimal(m, w) + r2 <==> n == m && r1 == r2
  {
    DecimalOrder(n, m, w);
    DecimalWidth(n, w);
    DecimalWidth(m, w);
    if n == m {
      LessCommonPrefix(Decimal(n, w), r1, r2);
      assert Decimal(n, w) + r1 == Decimal(m, w) + r2 ==> r1 == r2 by {
        if Decimal(n, w) + r1 == Decimal(m, w) + r2 {
          assert r1 == (Decimal(n, w) + r1)[w..];
          assert r2 == (Decimal(m, w) + r2)[w..];
        }
      }
    } else {
      LessDifferentHeads(Decimal(n, w), r1, Decimal(m, w), r2);
      assert (Decimal(n, w) + r1)[..w] == Decimal(n, w);
      assert (Decimal(m, w) + r2)[..w] == Decimal(m, w);
    }
  }

  /** A release name is fourteen digits. */
  lemma FormatDigits(t: Timestamp)
    requires t.Valid()
    ensures |Format(t)| == 14
    ensures forall i :: 0 <= i < 14 ==> IsDigit(Format(t)[i])
  {
    assert Pow10(2) == 100 && Pow10(4) == 10000;
    DecimalWidth(t.year, 4);
    DecimalWidth(t.month, 2);
    DecimalWidth(t.day, 2);
    DecimalWidth(t.hour, 2);
    DecimalWidth(t.minute, 2);
    DecimalWidth(t.second, 2);
  }

  /** Release names compare as strings exactly as their times compare, and
      two times give the same name only when they are the same time. */
  lemma FormatChronological(t: Timestamp, u: Timestamp)
    requires t.Valid() && u.Valid()
    ensures Less(Format(t), Format(u)) <==> Before(t, u)
    ensures Format(t) == Format(u) <==> t == u
  {
    assert Pow10(2) == 100 && Pow10(4) == 10000;
    FieldThenRest(t.minute, u.minute, 2, Decimal(t.second, 2), Decimal(u.second, 2));
    DecimalOrder(t.second, u.second, 2);
    var m1, m2 := Decimal(t.minute, 2) + Decimal(t.second, 2), Decimal(u.minute, 2) + Decimal(u.second, 2);
    FieldThenRest(t.hour, u.hour, 2, m1, m2);
    var h1, h2 := Decimal(t.hour, 2) + m1, Decimal(u.hour, 2) + m2;
    FieldThenRest(t.day, u.day, 2, h1, h2);
    var d1, d2 := Decimal(t.day, 2) + h1, Decimal(u.day, 2) + h2;
    FieldThenRest(t.month, u.month, 2, d1, d2);
    var o1, o2 := Decimal(t.month, 2) + d1, Decimal(u.month, 2) + d2;
    FieldThenRest(t.year, u.year, 4, o1, o2);
  }
}
