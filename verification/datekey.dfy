/** The "YYYY-MM-DD" keys that tie events to calendar days: `formatDate`
    and the facts that make string equality on keys the same as equality
    of dates. */
module DateKey {
  import opened Text
  import opened Gregorian

  /** `String(n).padStart(2, '0')`. */
  function Pad2(n: int): (r: string)
    ensures |r| >= 2
  {
    PadStart(IntToString(n), 2, '0')
  }

  /** The padding only prefixes zeros: `String(n)` is the suffix, and the
      result is two characters long unless the spelling already is longer. */
  lemma Pad2Shape(n: int)
    ensures var r := Pad2(n);
            var digits := IntToString(n);
            && |r| == (if |digits| >= 2 then |digits| else 2)
            && r[|r| - |digits|..] == digits
            && forall i :: 0 <= i < |r| - |digits| ==> r[i] == '0'
  {
    PadStartShape(IntToString(n), 2, '0');
  }

  /** Numbers 0..99 pad to exactly two digits that read back as the number. */
  lemma Pad2Digits(n: int)
    requires 0 <= n < 100
    ensures |Pad2(n)| == 2
    ensures ParseNat(Pad2(n)) == n
    ensures IsDigit(Pad2(n)[0]) && IsDigit(Pad2(n)[1])
  {
    if n < 10 {
      OneDigitPad(n);
      TwoDigitValue('0', DigitChar(n));
    } else {
      NatToStringLength(n);
      NatToStringRoundTrip(n);
    }
  }

  lemma OneDigitPad(n: int)
    requires 0 <= n < 10
    ensures Pad2(n) == ['0', DigitChar(n)]
  {
    assert IntToString(n) == [DigitChar(n)];
    assert ['0'] + [DigitChar(n)] == ['0', DigitChar(n)];
    assert PadStart([DigitChar(n)], 2, '0') == PadStart(['0', DigitChar(n)], 2, '0');
  }

  lemma TwoDigitValue(a: char, b: char)
    requires IsDigit(a) && IsDigit(b)
    ensures ParseNat([a, b]) == 10 * DigitValue(a) + DigitValue(b)
  {
    assert [a, b][..1] == [a];
    assert ParseNat([a]) == DigitValue(a) by {
      assert [a][..0] == [];
    }
  }

  /** `formatDate(year, month, day)` for a zero-based month: the year as
      written by `String`, then the one-based month and the day, each padded
      to two digits, separated by hyphens. */
  function FormatDate(y: int, m: int, d: int): (k: string)
    ensures |k| > |IntToString(y)|
    ensures k[..|IntToString(y)|] == IntToString(y) && k[|IntToString(y)|] == '-'
  {
    IntToString(y) + "-" + Pad2(m + 1) + "-" + Pad2(d)
  }

  /** The key of a date. */
  function KeyOf(c: CivilDate): string
  {
    FormatDate(c.year, c.month, c.day)
  }

  /** Reads a key back: the text before the last six characters is the
      year, then a two-digit month and a two-digit day. */
  function ParseDateKey(k: string): (c: CivilDate)
    requires |k| >= 6
  {
    CivilDate(ParseInt(k[..|k| - 6]), ParseNat(k[|k| - 5..|k| - 3]) - 1, ParseNat(k[|k| - 2..]))
  }

  /** The layout of a key for a valid month and a day below 100: the year's
      spelling, then "-MM-DD" with the hyphens six and three places from
      the end. */
  lemma FormatDateLayout(y: int, m: int, d: int)
    requires ValidMonth(m) && 0 <= d < 100
    ensures var k := FormatDate(y, m, d);
            && |k| == |IntToString(y)| + 6
            && k[..|k| - 6] == IntToString(y)
            && k[|k| - 6] == '-' && k[|k| - 3] == '-'
            && k[|k| - 5..|k| - 3] == Pad2(m + 1)
            && k[|k| - 2..] == Pad2(d)
  {
    Pad2Digits(m + 1);
    Pad2Digits(d);
    var k := FormatDate(y, m, d);
    SplitKey(k, IntToString(y), Pad2(m + 1), Pad2(d));
  }

  lemma SplitKey(k: string, ys: string, mm: string, dd: string)
    requires |mm| == 2 && |dd| == 2
    requires k == ys + "-" + mm + "-" + dd
    ensures && |k| == |ys| + 6
            && k[..|k| - 6] == ys
            && k[|k| - 6] == '-' && k[|k| - 3] == '-'
            && k[|k| - 5..|k| - 3] == mm
            && k[|k| - 2..] == dd
  {
  }

  /** ParseDateKey inverts FormatDate on valid months and days below 100. */
  lemma FormatDateRoundTrip(y: int, m: int, d: int)
    requires ValidMonth(m) && 0 <= d < 100
    ensures |FormatDate(y, m, d)| >= 6
    ensures ParseDateKey(FormatDate(y, m, d)) == CivilDate(y, m, d)
  {
    var k := FormatDate(y, m, d);
    FormatDateLayout(y, m, d);
    Pad2Digits(m + 1);
    Pad2Digits(d);
    IntToStringRoundTrip(y);
    assert ParseInt(k[..|k| - 6]) == y;
    assert ParseNat(k[|k| - 5..|k| - 3]) == m + 1;
    assert ParseNat(k[|k| - 2..]) == d;
  }

  /** Two keys of valid dates are equal exactly when the dates are. */
  lemma FormatDateInjective(a: CivilDate, b: CivilDate)
    requires ValidDate(a) && ValidDate(b)
    ensures KeyOf(a) == KeyOf(b) <==> a == b
  {
    FormatDateRoundTrip(a.year, a.month, a.day);
    FormatDateRoundTrip(b.year, b.month, b.day);
  }

  /** A date in a four-digit year has a ten-character key. */
  lemma FormatDateLength(y: int, m: int, d: int)
    requires 1000 <= y <= 9999 && ValidMonth(m) && 0 <= d < 100
    ensures |FormatDate(y, m, d)| == 10
  {
    FormatDateLayout(y, m, d);
    NatToStringLength(y);
  }

  /** Keys are never empty, so a selected key always counts as present. */
  lemma FormatDateNonEmpty(y: int, m: int, d: int)
    ensures FormatDate(y, m, d) != ""
  {
  }
}
