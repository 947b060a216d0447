/** Calendar dates as the browser computes them: day numbers counted from
    1 January 1970, the date constructor `new Date(year, month, day)` with
    ECMAScript's MakeDay normalisation of out-of-range months and days,
    and the 8-digit YYYYMMDD keys that identify the Hacker News day
    sections.  Times of day, time zones and daylight saving are not part
    of this model: a date is its day number. */
module Calendar {
  import opened Wrappers
  import opened Constants
  import opened JsText

  /** A calendar date with a one-based month, as written in a key. */
  datatype CivilDate = CivilDate(year: int, month: int, day: int)

  predicate IsLeapYear(y: int) {
    y % 4 == 0 && (y % 100 != 0 || y % 400 == 0)
  }

  function DaysInYear(y: int): int {
    if IsLeapYear(y) then 366 else 365
  }

  /** ECMAScript DayFromYear: the day number of 1 January of year y. */
  function DayFromYear(y: int): int {
    365 * (y - 1970) + (y - 1969) / 4 - (y - 1901) / 100 + (y - 1601) / 400
  }

  /** The length of the zero-based month m0 of year y. */
  function DaysInMonth(y: int, m0: int): int
    requires 0 <= m0 < 12
  {
    if m0 == 1 then (if IsLeapYear(y) then 29 else 28)
    else if m0 == 3 || m0 == 5 || m0 == 8 || m0 == 10 then 30
    else 31
  }

  /** The days of year y before the first of the zero-based month m0. */
  function DaysBeforeMonth(y: int, m0: int): int
    requires 0 <= m0 < 12
  {
    var common :=
      if m0 == 0 then 0 else if m0 == 1 then 31 else if m0 == 2 then 59
      else if m0 == 3 then 90 else if m0 == 4 then 120 else if m0 == 5 then 151
      else if m0 == 6 then 181 else if m0 == 7 then 212 else if m0 == 8 then 243
      else if m0 == 9 then 273 else if m0 == 10 then 304 else 334;
    if m0 >= 2 && IsLeapYear(y) then common + 1 else common
  }

  /** ECMAScript MakeDay(year, month, date): a month outside 0..11 carries
      into the year, and a day outside the month simply counts on from its
      first day. */
  function MakeDay(year: int, month: int, date: int): int {
    var ym := year + month / 12;
    var mn := month % 12;
    DayFromYear(ym) + DaysBeforeMonth(ym, mn) + date - 1
  }

  /** `new Date(year, month, day)`: a year from 0 to 99 means 1900 to 1999. */
  function DateConstructor(year: int, month: int, day: int): int {
    var y := if 0 <= year <= 99 then 1900 + year else year;
    MakeDay(y, month, day)
  }

  /** The day number of a calendar date with a one-based month. */
  function DayOf(c: CivilDate): int {
    MakeDay(c.year, c.month - 1, c.day)
  }

  /** A date that the 8-digit key format can write and read back. */
  predicate ValidDate(c: CivilDate) {
    && 100 <= c.year <= 9999
    && 1 <= c.month <= 12
    && 1 <= c.day <= DaysInMonth(c.year, c.month - 1)
  }

  /** String.prototype.slice(i, j) with non-negative bounds: clamped to the
      string's length. */
  function Slice(s: string, i: nat, j: nat): (r: string)
    ensures |r| <= j - i || (|r| == 0 && j < i)
    ensures i <= j <= |s| ==> r == s[i..j]
  {
    var hi := if j <= |s| then j else |s|;
    var lo := if i <= hi then i else hi;
    s[lo..hi]
  }

  /** The key of a date: four year digits, two month digits, two day
      digits, the form `toISOString().slice(0, 10)` takes once its dashes
      are removed. */
  function EncodeKey(c: CivilDate): (k: string)
    requires ValidDate(c)
    ensures |k| == 8
  {
    PadDigits(c.year, 4) + PadDigits(c.month, 2) + PadDigits(c.day, 2)
  }

  lemma EncodeKeyDigits(c: CivilDate)
    requires ValidDate(c)
    ensures AllDigits(EncodeKey(c))
  {
    PadDigitsAllDigits(c.year, 4);
    PadDigitsAllDigits(c.month, 2);
    PadDigitsAllDigits(c.day, 2);
  }

  /** The day a section key names: its first four, next two and last two
      characters are read with parseInt (given no radix, so a "0x" field
      reads as hexadecimal), the month made zero-based, and the three
      passed to the date constructor.  None when one of them is
      NaN: the date is then invalid, and every comparison with it is false. */
  function DecodeKey(id: string): Option<int> {
    var y := ParseIntNoRadix(Slice(id, 0, 4));
    var m := ParseIntNoRadix(Slice(id, 4, 6));
    var d := ParseIntNoRadix(Slice(id, 6, 8));
    if y.NaN? || m.NaN? || d.NaN? then None
    else Some(DateConstructor(y.n, m.n - 1, d.n))
  }

  /** A hexadecimal year field: "0x1F0101" names 1 January of year 31,
      which the date constructor takes as 1931. */
  lemma DecodeHexYear()
    ensures DecodeKey("0x1F0101") == Some(DayOf(CivilDate(1931, 1, 1)))
  {
    TwoDigitYear(31, 0, 1);
    var id: string := "0x1F0101";
    assert Slice(id, 0, 4) == "0x1F";
    assert Slice(id, 4, 6) == "01" && Slice(id, 6, 8) == "01";
    ParseIntNoRadixHex();
    ParseIntNoRadixOfDigits("01");
    assert DigitsValue("01") == 1 by { assert "01"[..1] == "0"; }
  }

  /** `new Date(y, m, d)` with y from 0 to 99 is a date in 1900 + y. */
  lemma TwoDigitYear(y: int, m: int, d: int)
    requires 0 <= y <= 99
    ensures DateConstructor(y, m, d) == MakeDay(1900 + y, m, d)
  {
  }

  /** How a key made of eight digits is read: the year from its first four
      characters, the zero-based month from the next two, the day from the
      last two. */
  lemma DecodeDigitKey(id: string)
    requires |id| == 8 && AllDigits(id)
    ensures DecodeKey(id) == Some(DateConstructor(
              DigitsValue(id[0..4]), DigitsValue(id[4..6]) - 1, DigitsValue(id[6..8])))
  {
    DigitFieldsParse(id);
    DecodeKeyOfParts(id, DigitsValue(id[0..4]), DigitsValue(id[4..6]), DigitsValue(id[6..8]));
  }

  lemma DigitFieldsParse(id: string)
    requires |id| == 8 && AllDigits(id)
    ensures AllDigits(id[0..4]) && AllDigits(id[4..6]) && AllDigits(id[6..8])
    ensures ParseIntNoRadix(Slice(id, 0, 4)) == Int(DigitsValue(id[0..4]))
    ensures ParseIntNoRadix(Slice(id, 4, 6)) == Int(DigitsValue(id[4..6]))
    ensures ParseIntNoRadix(Slice(id, 6, 8)) == Int(DigitsValue(id[6..8]))
  {
    assert Slice(id, 0, 4) == id[0..4] && Slice(id, 4, 6) == id[4..6] && Slice(id, 6, 8) == id[6..8];
    ParseIntNoRadixOfDigits(id[0..4]);
    ParseIntNoRadixOfDigits(id[4..6]);
    ParseIntNoRadixOfDigits(id[6..8]);
  }

  lemma DecodeKeyOfParts(id: string, y: int, m: int, d: int)
    requires ParseIntNoRadix(Slice(id, 0, 4)) == Int(y)
    requires ParseIntNoRadix(Slice(id, 4, 6)) == Int(m)
    requires ParseIntNoRadix(Slice(id, 6, 8)) == Int(d)
    ensures DecodeKey(id) == Some(DateConstructor(y, m - 1, d))
  {
  }

  /** A key's fields read back as the date's year, month and day. */
  lemma KeyFields(c: CivilDate)
    requires ValidDate(c)
    ensures var k := EncodeKey(c);
      && DigitsValue(k[0..4]) == c.year && DigitsValue(k[4..6]) == c.month
      && DigitsValue(k[6..8]) == c.day
  {
    var k := EncodeKey(c);
    Pow10Small();
    assert k[0..4] == PadDigits(c.year, 4);
    assert k[4..6] == PadDigits(c.month, 2);
    assert k[6..8] == PadDigits(c.day, 2);
    PadDigitsValue(c.year, 4);
    PadDigitsValue(c.month, 2);
    PadDigitsValue(c.day, 2);
  }

  lemma Pow10Small()
    ensures Pow10(2) == 100 && Pow10(4) == 10000
  {
    assert Pow10(2) == 100;
    assert Pow10(3) == 1000;
  }

  lemma DateConstructorOfValid(c: CivilDate)
    requires ValidDate(c)
    ensures DateConstructor(c.year, c.month - 1, c.day) == DayOf(c)
  {
  }

  /** Reading a date's key back gives the date's day: the section a key
      names is the day it was written for. */
  lemma DecodeEncodeKey(c: CivilDate)
    requires ValidDate(c)
    ensures DecodeKey(EncodeKey(c)) == Some(DayOf(c))
  {
    EncodeKeyDigits(c);
    KeyFields(c);
    DecodeFields(EncodeKey(c), c);
    DateConstructorOfValid(c);
  }

  lemma DecodeFields(k: string, c: CivilDate)
    requires |k| == 8 && AllDigits(k)
    requires DigitsValue(k[0..4]) == c.year && DigitsValue(k[4..6]) == c.month
    requires DigitsValue(k[6..8]) == c.day
    ensures DecodeKey(k) == Some(DateConstructor(c.year, c.month - 1, c.day))
  {
    DecodeDigitKey(k);
  }

  /** The numeric value of a key is year * 10000 + month * 100 + day. */
  lemma EncodeKeyValue(c: CivilDate)
    requires ValidDate(c)
    ensures DigitsValue(EncodeKey(c)) == KeyNumber(c)
  {
    var ys, ms, ds := PadDigits(c.year, 4), PadDigits(c.month, 2), PadDigits(c.day, 2);
    Pow10Small();
    PadDigitsValue(c.year, 4);
    PadDigitsValue(c.month, 2);
    PadDigitsValue(c.day, 2);
    DigitsValueAppend(ys, ms);
    DigitsValueAppend(ys + ms, ds);
    assert ys + ms + ds == EncodeKey(c);
  }

  lemma FloorStep4(a: int)
    ensures (a + 1) / 4 - a / 4 == if (a + 1) % 4 == 0 then 1 else 0
  {
  }

  lemma FloorStep100(a: int)
    ensures (a + 1) / 100 - a / 100 == if (a + 1) % 100 == 0 then 1 else 0
  {
  }

  lemma FloorStep400(a: int)
    ensures (a + 1) / 400 - a / 400 == if (a + 1) % 400 == 0 then 1 else 0
  {
  }

  /** Shifting by a multiple of m keeps the remainder modulo m. */
  lemma ShiftedMod(y: int, k: int, m: int)
    requires m > 0
    ensures (y - k * m) % m == y % m
  {
    var q, r := y / m, y % m;
    assert y == m * q + r;
    assert y - k * m == m * (q - k) + r;
    DivModUnique(y - k * m, m, q - k, r);
  }

  lemma DivModUnique(a: int, m: int, q: int, r: int)
    requires m > 0 && 0 <= r < m && a == m * q + r
    ensures a % m == r
  {
    var q', r' := a / m, a % m;
    assert m * q' + r' == m * q + r;
    if q' > q {
      assert m * q' >= m * (q + 1) by { MulMonotoneInt(m, q + 1, q'); }
    } else if q' < q {
      assert m * q >= m * (q' + 1) by { MulMonotoneInt(m, q' + 1, q); }
    }
  }

  lemma MulMonotoneInt(m: int, a: int, b: int)
    requires m > 0 && a <= b
    ensures m * a <= m * b
  {
    assert m * b - m * a == m * (b - a);
  }

  lemma ShiftedMods(y: int)
    ensures (y - 1968) % 4 == y % 4
    ensures (y - 1900) % 100 == y % 100
    ensures (y - 1600) % 400 == y % 400
  {
    ShiftedMod(y, 492, 4);
    ShiftedMod(y, 19, 100);
    ShiftedMod(y, 4, 400);
  }

  /** A year has DaysInYear days. */
  lemma DayFromYearStep(y: int)
    ensures DayFromYear(y + 1) == DayFromYear(y) + DaysInYear(y)
  {
    FloorStep4(y - 1969);
    FloorStep100(y - 1901);
    FloorStep400(y - 1601);
    ShiftedMods(y);
  }

  lemma {:induction false} DayFromYearMonotone(y: int, y': int)
    requires y < y'
    ensures DayFromYear(y) + DaysInYear(y) <= DayFromYear(y')
    decreases y' - y
  {
    DayFromYearStep(y);
    if y + 1 < y' {
      DayFromYearMonotone(y + 1, y');
    }
  }

  /** A valid date's day lies inside its year and its month. */
  lemma DayOfParts(c: CivilDate)
    requires ValidDate(c)
    ensures DayOf(c) == DayFromYear(c.year) + DaysBeforeMonth(c.year, c.month - 1) + c.day - 1
    ensures c.month < 12 ==>
      DaysBeforeMonth(c.year, c.month - 1) + c.day - 1 < DaysBeforeMonth(c.year, c.month)
    ensures DaysBeforeMonth(c.year, c.month - 1) + c.day - 1 < DaysInYear(c.year)
  {
  }

  /** Later months start later in the year. */
  lemma DaysBeforeMonthMonotone(y: int, m: int, m': int)
    requires 0 <= m <= m' < 12
    ensures DaysBeforeMonth(y, m) <= DaysBeforeMonth(y, m')
    ensures m < m' ==> DaysBeforeMonth(y, m) < DaysBeforeMonth(y, m')
  {
  }

  /** Later dates have larger day numbers. */
  lemma DayOfStrictlyMonotone(a: CivilDate, b: CivilDate)
    requires ValidDate(a) && ValidDate(b)
    requires a.year < b.year || (a.year == b.year && a.month < b.month)
          || (a.year == b.year && a.month == b.month && a.day < b.day)
    ensures DayOf(a) < DayOf(b)
  {
    if a.year < b.year {
      EarlierYear(a, b);
    } else if a.month < b.month {
      EarlierMonth(a, b);
    } else {
      DayOfParts(a);
      DayOfParts(b);
    }
  }

  lemma EarlierYear(a: CivilDate, b: CivilDate)
    requires ValidDate(a) && ValidDate(b) && a.year < b.year
    ensures DayOf(a) < DayOf(b)
  {
    DayOfParts(a);
    DayOfParts(b);
    DayFromYearMonotone(a.year, b.year);
  }

  lemma EarlierMonth(a: CivilDate, b: CivilDate)
    requires ValidDate(a) && ValidDate(b) && a.year == b.year && a.month < b.month
    ensures DayOf(a) < DayOf(b)
  {
    DayOfParts(a);
    DayOfParts(b);
    DaysBeforeMonthMonotone(a.year, a.month, b.month - 1);
  }

  /** The number a key spells. */
  function KeyNumber(c: CivilDate): int {
    c.year * 10000 + c.month * 100 + c.day
  }

  /** Comparing keys as strings is comparing the numbers they spell. */
  lemma KeyOrderIsNumberOrder(a: CivilDate, b: CivilDate)
    requires ValidDate(a) && ValidDate(b)
    ensures LexLessOrEqual(EncodeKey(a), EncodeKey(b)) <==> KeyNumber(a) <= KeyNumber(b)
  {
    EncodeKeyDigits(a);
    EncodeKeyDigits(b);
    LexOrderIsNumericOrder(EncodeKey(a), EncodeKey(b));
    EncodeKeyValue(a);
    EncodeKeyValue(b);
  }

  /** The key number orders valid dates as their day numbers do. */
  lemma NumberOrderIsDateOrder(a: CivilDate, b: CivilDate)
    requires ValidDate(a) && ValidDate(b)
    ensures KeyNumber(a) <= KeyNumber(b) <==> DayOf(a) <= DayOf(b)
  {
    PositionalLess(a.month, b.month, a.day, b.day, 100);
    PositionalLess(b.month, a.month, b.day, a.day, 100);
    PositionalLess(a.year, b.year, a.month * 100 + a.day, b.month * 100 + b.day, 10000);
    PositionalLess(b.year, a.year, b.month * 100 + b.day, a.month * 100 + a.day, 10000);
    if a.year < b.year || (a.year == b.year && a.month < b.month)
       || (a.year == b.year && a.month == b.month && a.day < b.day) {
      DayOfStrictlyMonotone(a, b);
    } else if b.year < a.year || (a.year == b.year && b.month < a.month)
       || (a.year == b.year && a.month == b.month && b.day < a.day) {
      DayOfStrictlyMonotone(b, a);
    }
  }

  /** For valid dates, comparing their keys as strings, the comparison the
      scroll loop makes, is comparing the dates. */
  lemma KeyOrderIsDateOrder(a: CivilDate, b: CivilDate)
    requires ValidDate(a) && ValidDate(b)
    ensures LexLessOrEqual(EncodeKey(a), EncodeKey(b)) <==> DayOf(a) <= DayOf(b)
  {
    KeyOrderIsNumberOrder(a, b);
    NumberOrderIsDateOrder(a, b);
  }
}
