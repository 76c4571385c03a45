/** The parts of the ECMAScript Date object that `toDateTimeLocal` relies on:
    time values (milliseconds since 1970-01-01T00:00:00Z in the proleptic
    Gregorian calendar), TimeClip, the UTC calendar fields of a time value and
    Date.prototype.toISOString (ECMA-262, sections 21.4.1 and 21.4.4.36). */
module JsDate {
  import opened JsValue

  const MsPerMinute: int := 60000
  const MsPerHour: int := 3600000
  const MsPerDay: int := 86400000

  /** The largest magnitude of a time value: 100 000 000 days. */
  const MaxTime: int := 8640000000000000

  predicate ValidTime(t: int) {
    -MaxTime <= t <= MaxTime
  }

  /** TimeClip: out of range, the Date is invalid (its time value is NaN). */
  function TimeClip(x: int): (r: Option<int>)
    ensures r.Some? <==> ValidTime(x)
    ensures r.Some? ==> r.value == x
  {
    if ValidTime(x) then Some(x) else None
  }

  /** Division by a positive number has one quotient and one remainder. */
  lemma DivModUnique(a: int, d: int, q: int, r: int)
    requires d > 0 && a == d * q + r && 0 <= r < d
    ensures a / d == q && a % d == r
  {
    var q', r' := a / d, a % d;
    if q' > q {
      MulMono(d, q + 1, q');
    } else if q' < q {
      MulMono(d, q' + 1, q);
    }
  }

  lemma MulMono(d: int, x: int, y: int)
    requires d > 0 && x <= y
    ensures d * x <= d * y
  {
    assert d * y == d * x + d * (y - x);
  }

  datatype Civil = Civil(year: int, month: int, day: int)

  /** A day number split along the Gregorian cycles, counting from
      0000-03-01 so that the leap day closes each year: the 400-year era, the
      century in it (the last one a day longer), the four-year cycle of 1461
      days in the century, the year in the cycle (the last one a day longer)
      and the day in that year. */
  datatype Cycles = Cycles(era: int, cen: int, quad: int, yq: int, doy: int)

  predicate ValidCycles(p: Cycles) {
    0 <= p.cen <= 3 && 0 <= p.quad <= 24 && 0 <= p.yq <= 3 && 0 <= p.doy <= 365
  }

  function CyclesDays(p: Cycles): int {
    p.era * 146097 + 36524 * p.cen + 1461 * p.quad + 365 * p.yq + p.doy - 719468
  }

  function SplitDays(days: int): (p: Cycles)
    ensures ValidCycles(p) && CyclesDays(p) == days
  {
    var z := days + 719468;
    var doe := z % 146097;
    var cen := if doe / 36524 < 3 then doe / 36524 else 3;
    var doc := doe - 36524 * cen;
    var doq := doc % 1461;
    var yq := if doq / 365 < 3 then doq / 365 else 3;
    Cycles(z / 146097, cen, doc / 1461, yq, doq - 365 * yq)
  }

  /** The calendar date of cycle positions; the year turns on March 1st. */
  function CivilOfCycles(p: Cycles): (c: Civil)
    requires ValidCycles(p)
    ensures 1 <= c.month <= 12 && 1 <= c.day <= 31
  {
    var mp := (5 * p.doy + 2) / 153;
    var m := if mp < 10 then mp + 3 else mp - 9;
    Civil(p.era * 400 + p.cen * 100 + p.quad * 4 + p.yq + (if m <= 2 then 1 else 0), m, p.doy - (153 * mp + 2) / 5 + 1)
  }

  /** The calendar date of a day number (day 0 is 1970-01-01). */
  function CivilFromDays(days: int): (c: Civil)
    ensures 1 <= c.month <= 12 && 1 <= c.day <= 31
  {
    CivilOfCycles(SplitDays(days))
  }

  /** The day number of a calendar date, the inverse of CivilFromDays. */
  function DaysFromCivil(c: Civil): int {
    var y := if c.month <= 2 then c.year - 1 else c.year;
    var era := y / 400;
    var yoe := y % 400;
    var mp := if c.month > 2 then c.month - 3 else c.month + 9;
    var doy := (153 * mp + 2) / 5 + c.day - 1;
    var doe := yoe * 365 + yoe / 4 - yoe / 100 + doy;
    era * 146097 + doe - 719468
  }

  /** Distinct day numbers have distinct calendar dates: DaysFromCivil
      recovers the day number. */
  lemma CivilRoundTrip(days: int)
    ensures DaysFromCivil(CivilFromDays(days)) == days
  {
    CyclesRoundTrip(SplitDays(days));
  }

  lemma CyclesRoundTrip(p: Cycles)
    requires ValidCycles(p)
    ensures DaysFromCivil(CivilOfCycles(p)) == CyclesDays(p)
  {
    var mp := (5 * p.doy + 2) / 153;
    var m := if mp < 10 then mp + 3 else mp - 9;
    var yoe := p.cen * 100 + p.quad * 4 + p.yq;
    var y := p.era * 400 + yoe;
    DivModUnique(y, 400, p.era, yoe);
    DivModUnique(yoe, 4, p.cen * 25 + p.quad, p.yq);
    DivModUnique(yoe, 100, p.cen, p.quad * 4 + p.yq);
    assert 0 <= mp <= 11;
    assert (if m > 2 then m - 3 else m + 9) == mp;
  }

  /** The time-value range covers years -271821 to 275760, so a year always
      fits the six digits of the expanded-year format. */
  lemma YearBound(days: int)
    requires -100000000 <= days <= 100000000
    ensures -300000 < CivilFromDays(days).year < 300000
  {
  }

  /** Time value 0 is 1970-01-01. */
  lemma Epoch()
    ensures CivilFromDays(0) == Civil(1970, 1, 1)
  {
    DivModUnique(719468, 146097, 4, 135080);
    DivModUnique(135080, 36524, 3, 25508);
    DivModUnique(25508, 1461, 17, 671);
    DivModUnique(671, 365, 1, 306);
    assert SplitDays(0) == Cycles(4, 3, 17, 1, 306);
    DivModUnique(5 * 306 + 2, 153, 10, 2);
    DivModUnique(153 * 10 + 2, 5, 306, 2);
  }

  datatype DateTime = DateTime(date: Civil, hour: int, minute: int, second: int, ms: int)

  predicate ValidFields(f: DateTime) {
    1 <= f.date.month <= 12 && 1 <= f.date.day <= 31 &&
    0 <= f.hour < 24 && 0 <= f.minute < 60 && 0 <= f.second < 60 && 0 <= f.ms < 1000
  }

  /** The UTC fields of a time value: Day, HourFromTime, MinFromTime,
      SecFromTime and msFromTime of ECMA-262, section 21.4.1. */
  function UtcFields(t: int): (f: DateTime)
    ensures ValidFields(f)
  {
    DateTime(CivilFromDays(t / MsPerDay), (t / MsPerHour) % 24, (t / MsPerMinute) % 60, (t / 1000) % 60, t % 1000)
  }

  /** The minute count of a time value from its day, hour and minute fields. */
  lemma MinuteDecomposition(t: int)
    ensures t / MsPerMinute == (t / MsPerDay) * 1440 + ((t / MsPerHour) % 24) * 60 + (t / MsPerMinute) % 60
  {
    var m := t / MsPerMinute;
    var h := m / 60;
    var days := h / 24;
    DivModUnique(t, MsPerHour, h, MsPerMinute * (m % 60) + t % MsPerMinute);
    DivModUnique(m, 1440, days, 60 * (h % 24) + m % 60);
    DivModUnique(t, MsPerDay, days, MsPerMinute * (m % 1440) + t % MsPerMinute);
  }

  predicate IsDigit(c: char) {
    '0' <= c <= '9'
  }

  function DigitChar(d: int): (c: char)
    requires 0 <= d < 10
    ensures IsDigit(c) && c as int - '0' as int == d
  {
    (d + '0' as int) as char
  }

  function Pow10(n: nat): (p: nat)
    ensures p > 0
  {
    if n == 0 then 1 else 10 * Pow10(n - 1)
  }

  /** The `width` low decimal digits of `n`, zero-padded on the left. */
  function PadDigits(n: nat, width: nat): (s: string)
    ensures |s| == width
    ensures forall i :: 0 <= i < |s| ==> IsDigit(s[i])
  {
    if width == 0 then "" else PadDigits(n / 10, width - 1) + [DigitChar(n % 10)]
  }

  /** The number a string of decimal digits denotes. */
  function DigitsValue(s: string): int {
    if s == [] then 0 else DigitsValue(s[..|s| - 1]) * 10 + (s[|s| - 1] as int - '0' as int)
  }

  /** Reading back the padded digits of a number that fits gives the number. */
  lemma {:induction false} PadDigitsRoundTrip(n: nat, width: nat)
    requires n < Pow10(width)
    ensures DigitsValue(PadDigits(n, width)) == n
  {
    if width > 0 {
      var s := PadDigits(n / 10, width - 1);
      assert PadDigits(n, width)[..width - 1] == s;
      PadDigitsRoundTrip(n / 10, width - 1);
    }
  }

  lemma PowersOfTen()
    ensures Pow10(2) == 100 && Pow10(4) == 10000 && Pow10(6) == 1000000
  {
    assert Pow10(1) == 10;
    assert Pow10(3) == 1000;
    assert Pow10(5) == 100000;
  }

  /** Years 0 to 9999 take four digits; the others a sign and six digits.
      The digits read back as the magnitude of the year when it fits. */
  function YearString(y: int): (s: string)
    ensures 0 <= y <= 9999 ==> |s| == 4 && AllDigits(s) && DigitsValue(s) == y
    ensures !(0 <= y <= 9999) ==> |s| == 7 && s[0] == (if y < 0 then '-' else '+') && AllDigits(s[1..])
    ensures !(0 <= y <= 9999) && -1000000 < y < 1000000 ==> DigitsValue(s[1..]) == (if y < 0 then -y else y)
  {
    PowersOfTen();
    if 0 <= y <= 9999 then
      PadDigitsRoundTrip(y, 4);
      PadDigits(y, 4)
    else
      var m := if y < 0 then -y else y;
      var sign := if y < 0 then "-" else "+";
      assert (sign + PadDigits(m, 6))[1..] == PadDigits(m, 6);
      if m < 1000000 then
        PadDigitsRoundTrip(m, 6);
        sign + PadDigits(m, 6)
      else
        sign + PadDigits(m, 6)
  }

  /** `YYYY-MM-DDTHH:mm`: the date and the time to the minute. */
  function MinuteText(f: DateTime): (s: string)
    requires ValidFields(f)
    ensures |s| == |YearString(f.date.year)| + 12
  {
    YearString(f.date.year) + ("-" + (PadDigits(f.date.month, 2) + ("-" + (PadDigits(f.date.day, 2) +
    ("T" + (PadDigits(f.hour, 2) + (":" + PadDigits(f.minute, 2))))))))
  }

  /** The Date Time String Format `YYYY-MM-DDTHH:mm:ss.sssZ` of ECMA-262,
      section 21.4.1.32, with the expanded year where it is needed. */
  function DateTimeText(f: DateTime): string
    requires ValidFields(f)
  {
    MinuteText(f) + ":" + PadDigits(f.second, 2) + "." + PadDigits(f.ms, 3) + "Z"
  }

  /** Date.prototype.toISOString of a valid date. */
  function ToIsoString(t: int): (s: string)
    requires ValidTime(t)
    ensures |s| == if 0 <= UtcFields(t).date.year <= 9999 then 24 else 27
    ensures s[|s| - 1] == 'Z'
    ensures var y := UtcFields(t).date.year;
      if 0 <= y <= 9999 then AllDigits(s[..4]) && DigitsValue(s[..4]) == y
      else AllDigits(s[1..7]) && DigitsValue(s[1..7]) == (if y < 0 then -y else y)
  {
    var f := UtcFields(t);
    var ys := YearString(f.date.year);
    var r := DateTimeText(f);
    assert r == ys + (r[|ys|..]);
    assert r[..|ys|] == ys;
    if 0 <= f.date.year <= 9999 then r
    else
      assert -100000000 <= t / MsPerDay <= 100000000;
      YearBound(t / MsPerDay);
      assert r[1..7] == ys[1..];
      r
  }

  predicate AllDigits(s: string) {
    forall i :: 0 <= i < |s| ==> IsDigit(s[i])
  }

  /** The `YYYY-MM-DDTHH:MM` shape of a datetime-local input value. */
  predicate IsDateTimeLocal(s: string) {
    |s| == 16 &&
    AllDigits(s[0..4]) && s[4] == '-' && AllDigits(s[5..7]) && s[7] == '-' && AllDigits(s[8..10]) &&
    s[10] == 'T' && AllDigits(s[11..13]) && s[13] == ':' && AllDigits(s[14..16])
  }

  /** Where each field stands in the minute text of a four-digit year. */
  lemma MinuteTextLayout(f: DateTime)
    requires ValidFields(f) && 0 <= f.date.year <= 9999
    ensures var s := MinuteText(f);
      |s| == 16 &&
      s[0..4] == PadDigits(f.date.year, 4) && s[4] == '-' && s[5..7] == PadDigits(f.date.month, 2) &&
      s[7] == '-' && s[8..10] == PadDigits(f.date.day, 2) && s[10] == 'T' &&
      s[11..13] == PadDigits(f.hour, 2) && s[13] == ':' && s[14..16] == PadDigits(f.minute, 2)
  {
    var y, mo, d, h, mi := PadDigits(f.date.year, 4), PadDigits(f.date.month, 2), PadDigits(f.date.day, 2),
      PadDigits(f.hour, 2), PadDigits(f.minute, 2);
    var s := MinuteText(f);
    var r8 := ":" + mi;
    var r7 := h + r8;
    var r6 := "T" + r7;
    var r5 := d + r6;
    var r4 := "-" + r5;
    var r3 := mo + r4;
    var r2 := "-" + r3;
    assert s == y + r2;
    assert s[4..] == r2;
    assert s[5..] == r2[1..] == r3;
    assert s[7..] == r3[2..] == r4;
    assert s[8..] == r4[1..] == r5;
    assert s[10..] == r5[2..] == r6;
    assert s[11..] == r6[1..] == r7;
    assert s[13..] == r7[2..] == r8;
    assert s[14..] == r8[1..] == mi;
    assert s[5..7] == s[5..][..2];
    assert s[8..10] == s[8..][..2];
    assert s[11..13] == s[11..][..2];
  }

  /** toISOString begins with the minute text. */
  lemma IsoStringStartsWithMinuteText(t: int)
    requires ValidTime(t)
    ensures Slice(ToIsoString(t), 0, 16) == MinuteText(UtcFields(t))[..16]
  {
    var f := UtcFields(t);
    var head := MinuteText(f);
    var tail := ":" + PadDigits(f.second, 2) + "." + PadDigits(f.ms, 3) + "Z";
    assert ToIsoString(t) == head + tail;
    assert (head + tail)[..16] == head[..16];
  }

  /** The minute text of a four-digit year has the datetime-local shape. */
  lemma MinuteTextIsDateTimeLocal(f: DateTime)
    requires ValidFields(f) && 0 <= f.date.year <= 9999
    ensures IsDateTimeLocal(MinuteText(f))
  {
    MinuteTextLayout(f);
  }

  /** The first 16 characters of toISOString: the minute text for a
      four-digit year, a sign, six year digits and `-MM-DDTHH` otherwise. */
  function IsoMinutePrefix(t: int): (s: string)
    requires ValidTime(t)
    ensures |s| == 16
    ensures s == MinuteText(UtcFields(t))[..16]
    ensures 0 <= UtcFields(t).date.year <= 9999 ==> s == MinuteText(UtcFields(t)) && IsDateTimeLocal(s)
  {
    IsoStringStartsWithMinuteText(t);
    if 0 <= UtcFields(t).date.year <= 9999 then
      MinuteTextIsDateTimeLocal(UtcFields(t));
      Slice(ToIsoString(t), 0, 16)
    else
      Slice(ToIsoString(t), 0, 16)
  }

  /** The prefix spells out the year, month, day, hour and minute of the time
      value. */
  lemma IsoMinutePrefixDenotes(t: int)
    requires ValidTime(t) && 0 <= UtcFields(t).date.year <= 9999
    ensures var s, f := IsoMinutePrefix(t), UtcFields(t);
      DigitsValue(s[0..4]) == f.date.year && DigitsValue(s[5..7]) == f.date.month &&
      DigitsValue(s[8..10]) == f.date.day && DigitsValue(s[11..13]) == f.hour &&
      DigitsValue(s[14..16]) == f.minute
  {
    var f := UtcFields(t);
    MinuteTextLayout(f);
    PowersOfTen();
    PadDigitsRoundTrip(f.date.year, 4);
    PadDigitsRoundTrip(f.date.month, 2);
    PadDigitsRoundTrip(f.date.day, 2);
    PadDigitsRoundTrip(f.hour, 2);
    PadDigitsRoundTrip(f.minute, 2);
  }

  /** Equal calendar fields down to the minute mean the same minute count. */
  lemma SameFieldsSameMinute(t1: int, t2: int)
    requires UtcFields(t1).date == UtcFields(t2).date
    requires UtcFields(t1).hour == UtcFields(t2).hour && UtcFields(t1).minute == UtcFields(t2).minute
    ensures t1 / MsPerMinute == t2 / MsPerMinute
  {
    MinuteDecomposition(t1);
    MinuteDecomposition(t2);
    CivilRoundTrip(t1 / MsPerDay);
    CivilRoundTrip(t2 / MsPerDay);
  }

  /** The same minute count means the same calendar fields down to the
      minute. */
  lemma SameMinuteSameFields(t1: int, t2: int)
    requires t1 / MsPerMinute == t2 / MsPerMinute
    ensures UtcFields(t1).date == UtcFields(t2).date
    ensures UtcFields(t1).hour == UtcFields(t2).hour && UtcFields(t1).minute == UtcFields(t2).minute
  {
    MinuteDecomposition(t1);
    MinuteDecomposition(t2);
    var m := t1 / MsPerMinute;
    assert t1 / MsPerDay == m / 1440 == t2 / MsPerDay;
    assert t1 / MsPerHour == m / 60 == t2 / MsPerHour;
  }

  /** Two time values in four-digit years have the same prefix exactly when
      they fall in the same minute: the prefix truncates to the minute and
      loses nothing else. */
  lemma IsoMinutePrefixIsMinute(t1: int, t2: int)
    requires ValidTime(t1) && 0 <= UtcFields(t1).date.year <= 9999
    requires ValidTime(t2) && 0 <= UtcFields(t2).date.year <= 9999
    ensures IsoMinutePrefix(t1) == IsoMinutePrefix(t2) <==> t1 / MsPerMinute == t2 / MsPerMinute
  {
    var f1, f2 := UtcFields(t1), UtcFields(t2);
    if IsoMinutePrefix(t1) == IsoMinutePrefix(t2) {
      IsoMinutePrefixDenotes(t1);
      IsoMinutePrefixDenotes(t2);
      assert f1.date == f2.date;
      SameFieldsSameMinute(t1, t2);
    }
    if t1 / MsPerMinute == t2 / MsPerMinute {
      SameMinuteSameFields(t1, t2);
      assert MinuteText(f1) == MinuteText(f2);
    }
  }
}
