/** The `YYYY-MM-DD` day keys under which tasks are filed. */
module DateKeys {
  import opened Strings
  import opened Types

  /** What a JavaScript `Date` reports in local time: `getFullYear()`,
      `getMonth()` (0-based) and `getDate()`. */
  datatype LocalDate = LocalDate(year: int, monthIndex: nat, day: nat)

  /** A date a `Date` object can report, with a four-digit year. */
  predicate InRange(d: LocalDate) {
    1000 <= d.year <= 9999 && d.monthIndex < 12 && 1 <= d.day <= 31
  }

  /** Chronological order of calendar dates. */
  predicate Before(a: LocalDate, b: LocalDate) {
    a.year < b.year
    || (a.year == b.year && (a.monthIndex < b.monthIndex
                             || (a.monthIndex == b.monthIndex && a.day < b.day)))
  }

  /** `formatDateToKey`: year, then the 1-based month and the day, each
      left-padded with '0' to two characters, joined by '-'. */
  function FormatDateToKey(d: LocalDate): (key: string)
    ensures InRange(d) ==> |key| == 10 && key[4] == '-' && key[7] == '-'
    ensures InRange(d) ==> forall i :: 0 <= i < 10 && i != 4 && i != 7 ==> IsDigit(key[i])
  {
    var year := IntToString(d.year);
    var month := PadStart2(NatToString(d.monthIndex + 1));
    var day := PadStart2(NatToString(d.day));
    if InRange(d) then
      KeyParts(d);
      KeyLayout(year, month, day);
      year + "-" + month + "-" + day
    else
      year + "-" + month + "-" + day
  }

  /** `getTodayStr`: the same formatting applied to the current local date,
      which the caller supplies. */
  function GetTodayStr(now: LocalDate): (key: string)
    ensures InRange(now) ==> |key| == 10 && key[4] == '-' && key[7] == '-'
  {
    var year := IntToString(now.year);
    var month := PadStart2(NatToString(now.monthIndex + 1));
    var day := PadStart2(NatToString(now.day));
    if InRange(now) then
      KeyParts(now);
      KeyLayout(year, month, day);
      year + "-" + month + "-" + day
    else
      year + "-" + month + "-" + day
  }

  /** The two formatters of the date service agree on every date. */
  lemma TodayIsFormattedKey(now: LocalDate)
    ensures GetTodayStr(now) == FormatDateToKey(now)
  {
  }

  /** `String(n).padStart(2, '0')` is the two-digit rendering of n below 100. */
  lemma PaddedTwoDigits(n: nat)
    requires n < 100
    ensures PadStart2(NatToString(n)) == Digits(n, 2)
  {
    if n < 10 {
      assert NatToString(n) == [Digit(n)];
      assert Digits(n, 2) == Digits(0, 1) + [Digit(n)];
      assert Digits(0, 1) == [Digit(0)];
    } else {
      assert Width(n / 10) == 1;
    }
  }

  /** `String(year)` of a four-digit year is its four-digit rendering. */
  lemma FourDigitYear(y: nat)
    requires 1000 <= y <= 9999
    ensures NatToString(y) == Digits(y, 4)
  {
    assert Width(y / 1000) == 1;
    assert Width(y / 100) == 1 + Width(y / 1000);
    assert Width(y / 10) == 1 + Width(y / 100);
    assert Width(y) == 1 + Width(y / 10);
  }

  lemma KeyParts(d: LocalDate)
    requires InRange(d)
    ensures IntToString(d.year) == Digits(d.year, 4)
    ensures PadStart2(NatToString(d.monthIndex + 1)) == Digits(d.monthIndex + 1, 2)
    ensures PadStart2(NatToString(d.day)) == Digits(d.day, 2)
  {
    FourDigitYear(d.year);
    PaddedTwoDigits(d.monthIndex + 1);
    PaddedTwoDigits(d.day);
  }

  /** Where the fields of a key made of four, two and two digits sit. */
  lemma KeyLayout(y: string, m: string, d: string)
    requires |y| == 4 && |m| == 2 && |d| == 2
    requires AllDigits(y) && AllDigits(m) && AllDigits(d)
    ensures var key := y + "-" + m + "-" + d;
      |key| == 10 && key[4] == '-' && key[7] == '-'
      && key[..4] == y && key[5..7] == m && key[8..] == d
      && forall i :: 0 <= i < 10 && i != 4 && i != 7 ==> IsDigit(key[i])
  {
    var key := y + "-" + m + "-" + d;
    assert forall i :: 0 <= i < 4 ==> key[i] == y[i];
    assert forall i :: 5 <= i < 7 ==> key[i] == m[i - 5];
    assert forall i :: 8 <= i < 10 ==> key[i] == d[i - 8];
  }

  /** The key of an in-range date, written with fixed-width digit fields. */
  lemma KeyFields(d: LocalDate)
    requires InRange(d)
    ensures FormatDateToKey(d)
         == Digits(d.year, 4) + ("-" + (Digits(d.monthIndex + 1, 2) + ("-" + Digits(d.day, 2))))
  {
    KeyParts(d);
    var y, m, dd := Digits(d.year, 4), Digits(d.monthIndex + 1, 2), Digits(d.day, 2);
    assert FormatDateToKey(d) == y + "-" + m + "-" + dd;
    AppendAssoc(m, "-", dd);
    AppendAssoc("-", m, "-" + dd);
    AppendAssoc(y, "-", m + ("-" + dd));
    AppendAssoc(y + "-", m, "-" + dd);
    AppendAssoc(y + "-" + m, "-", dd);
  }

  predicate AllDigits(s: string) {
    forall i :: 0 <= i < |s| ==> IsDigit(s[i])
  }

  /** Reading a day key back into a date. */
  function ParseKey(s: string): (r: Option<LocalDate>)
    ensures r.Some? ==> r.value.monthIndex < 100 && r.value.day < 100
  {
    if |s| == 10 && s[4] == '-' && s[7] == '-'
       && AllDigits(s[..4]) && AllDigits(s[5..7]) && AllDigits(s[8..])
       && ParseDigits(s[5..7]) >= 1
    then
      ParseDigitsBound(s[5..7]);
      ParseDigitsBound(s[8..]);
      Some(LocalDate(ParseDigits(s[..4]), ParseDigits(s[5..7]) - 1, ParseDigits(s[8..])))
    else None
  }

  lemma {:induction false} ParseDigitsBound(s: string)
    requires AllDigits(s)
    ensures ParseDigits(s) < Pow10(|s|)
  {
    if s != [] {
      ParseDigitsBound(s[..|s| - 1]);
    }
  }

  /** Every in-range date can be read back from its key. */
  lemma KeyRoundTrip(d: LocalDate)
    requires InRange(d)
    ensures ParseKey(FormatDateToKey(d)) == Some(d)
  {
    KeyParts(d);
    var y, m, dd := Digits(d.year, 4), Digits(d.monthIndex + 1, 2), Digits(d.day, 2);
    KeyLayout(y, m, dd);
    ParseDigitsOfDigits(d.year, 4);
    ParseDigitsOfDigits(d.monthIndex + 1, 2);
    ParseDigitsOfDigits(d.day, 2);
  }

  /** Comparing keys as strings (JavaScript `<`) is comparing dates in time. */
  lemma KeyOrder(a: LocalDate, b: LocalDate)
    requires InRange(a) && InRange(b)
    ensures LexLess(FormatDateToKey(a), FormatDateToKey(b)) <==> Before(a, b)
  {
    KeyFields(a);
    KeyFields(b);
    DigitFieldOrder(a.year, a.monthIndex + 1, a.day, b.year, b.monthIndex + 1, b.day);
  }

  /** Keys built from zero-padded fields compare as the numbers do, year first. */
  lemma DigitFieldOrder(ya: nat, ma: nat, da: nat, yb: nat, mb: nat, db: nat)
    requires ya < 10000 && yb < 10000 && ma < 100 && mb < 100 && da < 100 && db < 100
    ensures LexLess(Digits(ya, 4) + ("-" + (Digits(ma, 2) + ("-" + Digits(da, 2)))),
                    Digits(yb, 4) + ("-" + (Digits(mb, 2) + ("-" + Digits(db, 2)))))
         <==> ya < yb || (ya == yb && (ma < mb || (ma == mb && da < db)))
  {
    assert Pow10(4) == 10000 && Pow10(2) == 100;
    KeyFieldOrder(Digits(ya, 4), Digits(ma, 2), Digits(da, 2), Digits(yb, 4), Digits(mb, 2), Digits(db, 2));
    DigitsEqual(ya, yb, 4);
    DigitsLexLess(ya, yb, 4);
    DigitsEqual(ma, mb, 2);
    DigitsLexLess(ma, mb, 2);
    DigitsLexLess(da, db, 2);
  }

  /** Keys with fields of equal widths compare field by field. */
  lemma KeyFieldOrder(ya: string, ma: string, da: string, yb: string, mb: string, db: string)
    requires |ya| == |yb| && |ma| == |mb|
    ensures LexLess(ya + ("-" + (ma + ("-" + da))), yb + ("-" + (mb + ("-" + db))))
         == if ya != yb then LexLess(ya, yb) else if ma != mb then LexLess(ma, mb) else LexLess(da, db)
  {
    LexLessEqualLengthPrefix(ya, yb, "-" + (ma + ("-" + da)), "-" + (mb + ("-" + db)));
    LexLessEqualLengthPrefix("-", "-", ma + ("-" + da), mb + ("-" + db));
    LexLessEqualLengthPrefix(ma, mb, "-" + da, "-" + db);
    LexLessEqualLengthPrefix("-", "-", da, db);
  }

  /** Distinct in-range dates have distinct keys. */
  lemma KeyInjective(a: LocalDate, b: LocalDate)
    requires InRange(a) && InRange(b) && a != b
    ensures FormatDateToKey(a) != FormatDateToKey(b)
  {
    KeyOrder(a, b);
    KeyOrder(b, a);
    LexLessIrreflexive(FormatDateToKey(a));
  }
}
