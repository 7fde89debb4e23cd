/** The date keys of the attendance record: the date part of
    `Date.prototype.toISOString()`, taken in UTC. Years 0..9999 are written
    with four digits, as the `full-date` of section 5.6 of RFC 3339; other
    years get a sign and six digits (ECMAScript's expanded years). */
module IsoDate {

  function Pow10(k: nat): (p: nat)
    ensures p >= 1
  {
    if k == 0 then 1 else 10 * Pow10(k - 1)
  }

  predicate IsDigit(c: char)
  {
    '0' <= c <= '9'
  }

  /** `n` in decimal, zero-padded on the left to exactly `width` characters. */
  function Digits(n: nat, width: nat): (s: string)
    requires n < Pow10(width)
    ensures |s| == width
    ensures forall i :: 0 <= i < |s| ==> IsDigit(s[i])
    decreases width
  {
    if width == 0 then ""
    else Digits(n / 10, width - 1) + [('0' as int + n % 10) as char]
  }

  /** The number a string of decimal digits denotes. */
  function DigitsValue(s: string): int
    decreases |s|
  {
    if s == [] then 0
    else 10 * DigitsValue(s[..|s| - 1]) + (s[|s| - 1] as int - '0' as int)
  }

  /** Reading the padded digits back gives the number. */
  lemma {:induction false} DigitsValueOfDigits(n: nat, width: nat)
    requires n < Pow10(width)
    ensures DigitsValue(Digits(n, width)) == n
    decreases width
  {
    if width > 0 {
      var s := Digits(n, width);
      assert s[..|s| - 1] == Digits(n / 10, width - 1);
      DigitsValueOfDigits(n / 10, width - 1);
    }
  }

  /** The year field of `toISOString()`. */
  function YearField(year: int): (s: string)
    requires -999999 <= year <= 999999
    ensures 0 <= year <= 9999 ==> |s| == 4
    ensures (year < 0 || year > 9999) ==> |s| == 7
  {
    if 0 <= year <= 9999 then Digits(year, 4)
    else if year > 9999 then "+" + Digits(year, 6)
    else "-" + Digits(-year, 6)
  }

  /** The year a year field denotes: a leading sign, if any, then digits. */
  function YearFieldValue(s: string): int
  {
    if s == [] then 0
    else if s[0] == '+' then DigitsValue(s[1..])
    else if s[0] == '-' then -DigitsValue(s[1..])
    else DigitsValue(s)
  }

  /** Reading a year field back gives the year. */
  lemma YearFieldRoundTrip(year: int)
    requires -999999 <= year <= 999999
    ensures YearFieldValue(YearField(year)) == year
  {
    var s := YearField(year);
    if 0 <= year <= 9999 {
      assert IsDigit(s[0]);
      DigitsValueOfDigits(year, 4);
    } else if year > 9999 {
      assert s[1..] == Digits(year, 6);
      DigitsValueOfDigits(year, 6);
    } else {
      assert s[1..] == Digits(-year, 6);
      DigitsValueOfDigits(-year, 6);
    }
  }

  /** The key of day `day` of month `month` (0-based) of `year`:
      `toISOString().split("T")[0]` of that date at midnight UTC. */
  function DateKey(year: int, month: int, day: int): (key: string)
    requires -999999 <= year <= 999999
    requires 0 <= month < 12 && 1 <= day <= 31
    ensures |key| == |YearField(year)| + 6
  {
    YearField(year) + "-" + Digits(month + 1, 2) + "-" + Digits(day, 2)
  }

  /** For years 0..9999 a key has the shape of an RFC 3339 full-date:
      `YYYY-MM-DD`, digits everywhere but at the two dashes. */
  lemma DateKeyShape(year: int, month: int, day: int)
    requires 0 <= year <= 9999
    requires 0 <= month < 12 && 1 <= day <= 31
    ensures var key := DateKey(year, month, day);
      && |key| == 10 && key[4] == '-' && key[7] == '-'
      && (forall i :: 0 <= i < 10 && i != 4 && i != 7 ==> IsDigit(key[i]))
  {
  }

  /** The fields of such a key read back as the year, the 1-based month and
      the day. */
  lemma DateKeyFields(year: int, month: int, day: int)
    requires 0 <= year <= 9999
    requires 0 <= month < 12 && 1 <= day <= 31
    ensures var key := DateKey(year, month, day);
      && |key| == 10
      && DigitsValue(key[..4]) == year
      && DigitsValue(key[5..7]) == month + 1
      && DigitsValue(key[8..]) == day
  {
    var key := DateKey(year, month, day);
    assert key[..4] == Digits(year, 4);
    assert key[5..7] == Digits(month + 1, 2);
    assert key[8..] == Digits(day, 2);
    DigitsValueOfDigits(year, 4);
    DigitsValueOfDigits(month + 1, 2);
    DigitsValueOfDigits(day, 2);
  }

  /** So for years 0..9999 a key is an RFC 3339 full-date whose fields are the
      year, the 1-based month and the day. */
  lemma DateKeyIsFullDate(year: int, month: int, day: int)
    requires 0 <= year <= 9999
    requires 0 <= month < 12 && 1 <= day <= 31
    ensures var key := DateKey(year, month, day);
      && |key| == 10 && key[4] == '-' && key[7] == '-'
      && (forall i :: 0 <= i < 10 && i != 4 && i != 7 ==> IsDigit(key[i]))
      && DigitsValue(key[..4]) == year
      && DigitsValue(key[5..7]) == month + 1
      && DigitsValue(key[8..]) == day
  {
    DateKeyShape(year, month, day);
    DateKeyFields(year, month, day);
  }

  /** The date a key denotes, read from the end: two day digits, a dash,
      two month digits, a dash, and the year field before them. */
  function KeyYear(key: string): int
    requires |key| >= 6
  {
    YearFieldValue(key[..|key| - 6])
  }

  function KeyMonth(key: string): int
    requires |key| >= 6
  {
    DigitsValue(key[|key| - 5..|key| - 3]) - 1
  }

  function KeyDay(key: string): int
    requires |key| >= 6
  {
    DigitsValue(key[|key| - 2..])
  }

  /** Reading a key back gives its year, its 0-based month and its day. */
  lemma DateKeyRoundTrip(year: int, month: int, day: int)
    requires -999999 <= year <= 999999
    requires 0 <= month < 12 && 1 <= day <= 31
    ensures var key := DateKey(year, month, day);
      KeyYear(key) == year && KeyMonth(key) == month && KeyDay(key) == day
  {
    var key := DateKey(year, month, day);
    var n := |key|;
    assert key[..n - 6] == YearField(year);
    YearFieldRoundTrip(year);
    assert key[n - 5..n - 3] == Digits(month + 1, 2);
    DigitsValueOfDigits(month + 1, 2);
    assert key[n - 2..] == Digits(day, 2);
    DigitsValueOfDigits(day, 2);
  }

  /** Distinct dates have distinct keys. */
  lemma DateKeyInjective(y1: int, m1: int, d1: int, y2: int, m2: int, d2: int)
    requires -999999 <= y1 <= 999999 && 0 <= m1 < 12 && 1 <= d1 <= 31
    requires -999999 <= y2 <= 999999 && 0 <= m2 < 12 && 1 <= d2 <= 31
    requires DateKey(y1, m1, d1) == DateKey(y2, m2, d2)
    ensures y1 == y2 && m1 == m2 && d1 == d2
  {
    DateKeyRoundTrip(y1, m1, d1);
    DateKeyRoundTrip(y2, m2, d2);
  }
}
