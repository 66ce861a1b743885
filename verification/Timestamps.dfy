/** Decimal fields of fixed width. */
module Decimal {

  predicate IsDigit(c: char) { '0' <= c <= '9' }

  predicate AllDigits(s: string) { forall i :: 0 <= i < |s| ==> IsDigit(s[i]) }

  function DigitChar(n: nat): (c: char)
    requires n < 10
    ensures IsDigit(c) && DigitValue(c) == n
  {
    ('0' as int + n) as char
  }

  function DigitValue(c: char): (n: nat)
    requires IsDigit(c)
    ensures n < 10
  {
    c as int - '0' as int
  }

  function Pow10(n: nat): (p: nat)
    ensures p >= 1
  {
    if n == 0 then 1 else 10 * Pow10(n - 1)
  }

  /** A number in a field of the given width, filled with zeros on the left. */
  function Digits(n: nat, width: nat): string {
    if width == 0 then "" else Digits(n / 10, width - 1) + [DigitChar(n % 10)]
  }

  function Number(s: string): nat
    requires AllDigits(s)
  {
    if s == "" then 0 else 10 * Number(s[..|s| - 1]) + DigitValue(s[|s| - 1])
  }

  lemma {:induction false} NumberOfDigits(n: nat, width: nat)
    requires n < Pow10(width)
    ensures |Digits(n, width)| == width && AllDigits(Digits(n, width))
    ensures Number(Digits(n, width)) == n
  {
    if width > 0 {
      NumberOfDigits(n / 10, width - 1);
      assert Digits(n, width)[..width - 1] == Digits(n / 10, width - 1);
    }
  }

  lemma {:induction false} DigitsOfNumber(s: string)
    requires AllDigits(s)
    ensures Number(s) < Pow10(|s|) && Digits(Number(s), |s|) == s
  {
    if s != "" {
      var front := s[..|s| - 1];
      DigitsOfNumber(front);
      assert s == front + [s[|s| - 1]];
      DigitCharUnique(s[|s| - 1]);
    }
  }

  lemma DigitCharUnique(c: char)
    requires IsDigit(c)
    ensures DigitChar(DigitValue(c)) == c
  {
  }

  lemma SmallPowers()
    ensures Pow10(2) == 100 && Pow10(4) == 10_000 && Pow10(6) == 1_000_000
  {
    assert Pow10(3) == 1000 && Pow10(5) == 100_000;
  }
}

/** The timestamp an identity ends with (habitus/behavior/model.py): local time to the microsecond and the
    offset from UTC in hours and minutes. */
module Timestamps {
  import opened Orders
  import opened Decimal

  datatype Date = Date(year: nat, month: nat, day: nat)

  /** A date and time; the offset from UTC is in microseconds, and missing on a naive time. */
  datatype Stamp = Stamp(date: Date, hour: nat, minute: nat, second: nat, micro: nat, offset: Option<int>)

  const MINUTE := 60_000_000

  predicate IsLeap(year: nat) { year % 4 == 0 && (year % 100 != 0 || year % 400 == 0) }

  function DaysIn(year: nat, month: nat): nat {
    if month == 2 then (if IsLeap(year) then 29 else 28)
    else if month in {4, 6, 9, 11} then 30
    else 31
  }

  predicate ValidDate(d: Date) {
    1 <= d.year <= 9999 && 1 <= d.month <= 12 && 1 <= d.day <= DaysIn(d.year, d.month)
  }

  /** What the calendar admits; an offset is less than a day either way. */
  predicate ValidStamp(s: Stamp) {
    && ValidDate(s.date) && s.hour < 24 && s.minute < 60 && s.second < 60 && s.micro < 1_000_000
    && (s.offset.Some? ==> -1440 * MINUTE < s.offset.value < 1440 * MINUTE)
  }

  predicate WholeMinutes(s: Stamp) { s.offset.Some? && s.offset.value % MINUTE == 0 }

  datatype StampError = NotAware | NotWholeMinutes | FoldedToUtc

  /** The check on behaviour times: aware, a whole number of minutes from UTC, and not at UTC. */
  function LocalTimestamp(s: Stamp): Result<Stamp, StampError> {
    if s.offset.None? then Err(NotAware)
    else if s.offset.value % MINUTE != 0 then Err(NotWholeMinutes)
    else if s.offset.value == 0 then Err(FoldedToUtc)
    else Ok(s)
  }

  function OffsetMinutes(s: Stamp): int
    requires s.offset.Some?
  {
    s.offset.value / MINUTE
  }

  function Absolute(n: int): nat { if n < 0 then -n else n }

  function DateText(d: Date): string {
    Digits(d.year, 4) + Digits(d.month, 2) + Digits(d.day, 2)
  }

  function TimeText(s: Stamp): string {
    Digits(s.hour, 2) + Digits(s.minute, 2) + Digits(s.second, 2) + Digits(s.micro, 6)
  }

  function OffsetText(minutes: int): string {
    (if minutes >= 0 then "+" else "-") + Digits(Absolute(minutes) / 60, 2) + Digits(Absolute(minutes) % 60, 2)
  }

  function Format(s: Stamp): string
    requires s.offset.Some?
  {
    DateText(s.date) + "T" + TimeText(s) + OffsetText(OffsetMinutes(s))
  }

  /** The pattern of the parser: twenty-six characters, digits but for the T and the sign. */
  predicate Matches(s: string) {
    && |s| == 26
    && AllDigits(s[..8]) && s[8] == 'T' && AllDigits(s[9..21]) && s[21] in {'+', '-'} && AllDigits(s[22..])
  }

  function Field(s: string, from: nat, to: nat): nat
    requires from <= to <= |s| && AllDigits(s[from..to])
  {
    Number(s[from..to])
  }

  /** The numbers in the fields of a text that matches. */
  function Fields(s: string): Stamp
    requires Matches(s)
  {
    DigitFields(s);
    var minutes := Field(s, 22, 24) * 60 + Field(s, 24, 26);
    Stamp(
      Date(Field(s, 0, 4), Field(s, 4, 6), Field(s, 6, 8)),
      Field(s, 9, 11), Field(s, 11, 13), Field(s, 13, 15), Field(s, 15, 21),
      Some((if s[21] == '-' then -minutes else minutes) * MINUTE))
  }

  lemma DigitFields(s: string)
    requires Matches(s)
    ensures AllDigits(s[0..4]) && AllDigits(s[4..6]) && AllDigits(s[6..8])
    ensures AllDigits(s[9..11]) && AllDigits(s[11..13]) && AllDigits(s[13..15]) && AllDigits(s[15..21])
    ensures AllDigits(s[22..24]) && AllDigits(s[24..26])
  {
    assert forall i :: 0 <= i < 8 ==> s[i] == s[..8][i];
    assert forall i :: 9 <= i < 21 ==> s[i] == s[9..21][i - 9];
    assert forall i :: 22 <= i < 26 ==> s[i] == s[22..][i - 22];
  }

  /** The numbers must name a time, and writing that time must give back the text. */
  function Parse(s: string): Option<Stamp> {
    if !Matches(s) then None
    else
      var stamp := Fields(s);
      if !ValidStamp(stamp) || Format(stamp) != s then None else Some(stamp)
  }

  // ---- The codec ----

  lemma DateFields(d: Date, rest: string)
    requires ValidDate(d)
    ensures |DateText(d)| == 8 && AllDigits(DateText(d))
    ensures var s := DateText(d) + rest;
            && AllDigits(s[0..4]) && AllDigits(s[4..6]) && AllDigits(s[6..8])
            && Number(s[0..4]) == d.year && Number(s[4..6]) == d.month && Number(s[6..8]) == d.day
  {
    SmallPowers();
    NumberOfDigits(d.year, 4);
    NumberOfDigits(d.month, 2);
    NumberOfDigits(d.day, 2);
    var s := DateText(d) + rest;
    assert s[0..4] == Digits(d.year, 4) && s[4..6] == Digits(d.month, 2) && s[6..8] == Digits(d.day, 2);
  }

  lemma FourFields(before: string, a: string, b: string, c: string, e: string, rest: string)
    requires |before| == 9 && |a| == |b| == |c| == 2 && |e| == 6
    ensures var s := before + (a + b + c + e) + rest;
            s[9..11] == a && s[11..13] == b && s[13..15] == c && s[15..21] == e
  {
    var mid := a + b + c + e;
    assert mid[0..2] == a && mid[2..4] == b && mid[4..6] == c && mid[6..12] == e;
    Slice(before, mid, rest, 0, 2);
    Slice(before, mid, rest, 2, 4);
    Slice(before, mid, rest, 4, 6);
    Slice(before, mid, rest, 6, 12);
  }

  lemma Slice(before: string, mid: string, rest: string, i: nat, j: nat)
    requires i <= j <= |mid|
    ensures (before + mid + rest)[|before| + i..|before| + j] == mid[i..j]
  {
  }

  lemma Digits2(n: nat)
    requires n < 100
    ensures |Digits(n, 2)| == 2 && AllDigits(Digits(n, 2)) && Number(Digits(n, 2)) == n
  {
    SmallPowers();
    NumberOfDigits(n, 2);
  }

  lemma Digits6(n: nat)
    requires n < 1_000_000
    ensures |Digits(n, 6)| == 6 && AllDigits(Digits(n, 6)) && Number(Digits(n, 6)) == n
  {
    SmallPowers();
    NumberOfDigits(n, 6);
  }

  lemma TimeFields(t: Stamp, before: string, rest: string)
    requires ValidStamp(t) && |before| == 9
    ensures |TimeText(t)| == 12 && AllDigits(TimeText(t))
    ensures var s := before + TimeText(t) + rest;
            && AllDigits(s[9..11]) && AllDigits(s[11..13]) && AllDigits(s[13..15]) && AllDigits(s[15..21])
            && Number(s[9..11]) == t.hour && Number(s[11..13]) == t.minute
            && Number(s[13..15]) == t.second && Number(s[15..21]) == t.micro
  {
    Digits2(t.hour);
    Digits2(t.minute);
    Digits2(t.second);
    Digits6(t.micro);
    FourFields(before, Digits(t.hour, 2), Digits(t.minute, 2), Digits(t.second, 2), Digits(t.micro, 6), rest);
  }

  lemma TwoFields(before: string, sign: char, h: string, m: string)
    requires |before| == 21 && |h| == 2 && |m| == 2
    ensures var s := before + ([sign] + h + m);
            |s| == 26 && s[21] == sign && s[22..24] == h && s[24..26] == m
  {
  }

  lemma OffsetFields(minutes: int, before: string)
    requires -1440 < minutes < 1440 && |before| == 21
    ensures var s := before + OffsetText(minutes);
            && |s| == 26 && s[21] == (if minutes >= 0 then '+' else '-') && AllDigits(s[22..24]) && AllDigits(s[24..26])
            && Number(s[22..24]) * 60 + Number(s[24..26]) == Absolute(minutes)
  {
    var a := Absolute(minutes);
    Digits2(a / 60);
    Digits2(a % 60);
    TwoFields(before, if minutes >= 0 then '+' else '-', Digits(a / 60, 2), Digits(a % 60, 2));
  }

  lemma MinutesExact(s: Stamp)
    requires ValidStamp(s) && WholeMinutes(s)
    ensures OffsetMinutes(s) * MINUTE == s.offset.value && -1440 < OffsetMinutes(s) < 1440
  {
  }

  lemma Regrouped(date: string, time: string, zone: string)
    ensures var text := date + "T" + time + zone;
            text == date + ("T" + time + zone) && text == (date + "T") + time + zone && text == (date + "T" + time) + zone
  {
  }

  lemma Assembled(date: string, time: string, zone: string)
    requires |date| == 8 && |time| == 12 && |zone| == 5
    ensures var text := date + "T" + time + zone;
            |text| == 26 && text[..8] == date && text[8] == 'T' && text[9..21] == time
  {
  }

  lemma BeginsWith(date: string, time: string, zone: string)
    requires |date| == 8
    ensures var text := date + "T" + time + zone; |text| >= 8 && text[..8] == date
  {
  }

  /** A timestamp begins with its date. */
  lemma FormatBeginsWithDate(s: Stamp)
    requires ValidStamp(s) && s.offset.Some?
    ensures |Format(s)| >= 8 && Format(s)[..8] == DateText(s.date)
  {
    DateFields(s.date, "");
    BeginsWith(DateText(s.date), TimeText(s), OffsetText(OffsetMinutes(s)));
  }

  lemma TailSplits(s: string)
    requires |s| == 26 && AllDigits(s[22..24]) && AllDigits(s[24..26])
    ensures AllDigits(s[22..])
  {
    assert s[22..] == s[22..24] + s[24..26];
  }

  lemma FormatMatches(s: Stamp)
    requires ValidStamp(s) && WholeMinutes(s)
    ensures Matches(Format(s))
  {
    var minutes := OffsetMinutes(s);
    MinutesExact(s);
    var date, time, zone := DateText(s.date), TimeText(s), OffsetText(minutes);
    DateFields(s.date, "");
    TimeFields(s, date + "T", "");
    OffsetFields(minutes, date + "T" + time);
    Assembled(date, time, zone);
    TailSplits(Format(s));
  }

  lemma OffsetRead(text: string, minutes: int)
    requires Matches(text) && AllDigits(text[22..24]) && AllDigits(text[24..26])
    requires text[21] == (if minutes >= 0 then '+' else '-')
    requires Number(text[22..24]) * 60 + Number(text[24..26]) == Absolute(minutes)
    ensures Fields(text).offset == Some(minutes * MINUTE)
  {
  }

  lemma FormatFields(s: Stamp)
    requires ValidStamp(s) && WholeMinutes(s)
    ensures Matches(Format(s)) && Fields(Format(s)) == s
  {
    FormatMatches(s);
    var text, minutes := Format(s), OffsetMinutes(s);
    MinutesExact(s);
    var date, time, zone := DateText(s.date), TimeText(s), OffsetText(minutes);
    Regrouped(date, time, zone);
    DateFields(s.date, "T" + time + zone);
    TimeFields(s, date + "T", zone);
    OffsetFields(minutes, date + "T" + time);
    OffsetRead(text, minutes);
    DigitFields(text);
  }

  /** Reading back what was written gives the time. */
  lemma ParseOfFormat(s: Stamp)
    requires ValidStamp(s) && WholeMinutes(s)
    ensures Parse(Format(s)) == Some(s) && |Format(s)| == 26
  {
    FormatFields(s);
  }

  lemma WholeMultiple(minutes: int)
    ensures (minutes * MINUTE) % MINUTE == 0
  {
  }

  lemma FieldsAreWhole(text: string)
    requires Matches(text)
    ensures WholeMinutes(Fields(text))
  {
    DigitFields(text);
    var total: int := Number(text[22..24]) * 60 + Number(text[24..26]);
    WholeMultiple(if text[21] == '-' then -total else total);
  }

  lemma ParsedIsFormatted(text: string)
    requires Parse(text).Some?
    ensures var s := Parse(text).value; ValidStamp(s) && WholeMinutes(s) && Format(s) == text
  {
    FieldsAreWhole(text);
  }

  /** The parser accepts exactly what the formatter writes. */
  lemma ParserAcceptsTheImage(text: string)
    ensures Parse(text).Some? <==> exists s :: ValidStamp(s) && WholeMinutes(s) && Format(s) == text
  {
    if Parse(text).Some? {
      ParsedIsFormatted(text);
    }
    forall s | ValidStamp(s) && WholeMinutes(s) && Format(s) == text ensures Parse(text) == Some(s) {
      ParseOfFormat(s);
    }
  }

  lemma DateRendersBack(s: string)
    requires Matches(s)
    ensures DateText(Fields(s).date) == s[..8]
  {
    DigitFields(s);
    DigitsOfNumber(s[0..4]);
    DigitsOfNumber(s[4..6]);
    DigitsOfNumber(s[6..8]);
    assert s[0..4] + s[4..6] + s[6..8] == s[..8];
  }

  lemma TimeRendersBack(s: string)
    requires Matches(s)
    ensures TimeText(Fields(s)) == s[9..21]
  {
    DigitFields(s);
    DigitsOfNumber(s[9..11]);
    DigitsOfNumber(s[11..13]);
    DigitsOfNumber(s[13..15]);
    DigitsOfNumber(s[15..21]);
    assert s[9..11] + s[11..13] + s[13..15] + s[15..21] == s[9..21];
  }

  lemma HoursAndMinutes(h: nat, m: nat)
    requires m < 60
    ensures (h * 60 + m) / 60 == h && (h * 60 + m) % 60 == m
  {
  }

  lemma WholeBack(minutes: int)
    ensures (minutes * MINUTE) / MINUTE == minutes
  {
  }

  lemma MinutesRead(s: string) returns (total: int)
    requires Matches(s)
    ensures AllDigits(s[22..24]) && AllDigits(s[24..26])
    ensures total == Number(s[22..24]) * 60 + Number(s[24..26])
    ensures OffsetMinutes(Fields(s)) == if s[21] == '-' then -total else total
  {
    DigitFields(s);
    total := Number(s[22..24]) * 60 + Number(s[24..26]);
    WholeBack(if s[21] == '-' then -total else total);
  }

  lemma FewMinutes(total: nat, hours: string, rest: string)
    requires |hours| == 2 && |rest| == 2 && AllDigits(hours) && AllDigits(rest) && Number(rest) < 60
    requires total == Number(hours) * 60 + Number(rest)
    ensures Digits(total / 60, 2) == hours && Digits(total % 60, 2) == rest
  {
    HoursAndMinutes(Number(hours), Number(rest));
    DigitsOfNumber(hours);
    DigitsOfNumber(rest);
  }

  lemma ManyMinutes(total: nat, rest: string)
    requires |rest| == 2 && AllDigits(rest) && Number(rest) >= 60
    ensures |Digits(total % 60, 2)| == 2 && Digits(total % 60, 2) != rest
  {
    Digits2(total % 60);
  }

  lemma SameParts(a: char, b: string, c: string, x: char, y: string, z: string)
    requires |b| == |y| && |c| == |z|
    ensures [a] + b + c == [x] + y + z <==> a == x && b == y && c == z
  {
    var s, t := [a] + b + c, [x] + y + z;
    if s == t {
      assert s[0] == t[0];
      assert s[1..|b| + 1] == b && t[1..|b| + 1] == y;
      assert s[|b| + 1..] == c && t[|b| + 1..] == z;
    }
  }

  /** The text of an offset, and the text it was read from, differ only by sixty or more minutes or by a minus
      before nought. */
  lemma OffsetTextCompares(minutes: int, total: int, sign: char, hours: string, rest: string)
    requires |hours| == 2 && |rest| == 2 && AllDigits(hours) && AllDigits(rest) && sign in {'+', '-'}
    requires total == Number(hours) * 60 + Number(rest) && 0 <= total < 1440
    requires minutes == if sign == '-' then -total else total
    ensures OffsetText(minutes) == [sign] + hours + rest <==> Number(rest) < 60 && !(sign == '-' && minutes == 0)
  {
    assert Absolute(minutes) == total;
    Digits2(total / 60);
    Digits2(total % 60);
    SameParts(if minutes >= 0 then '+' else '-', Digits(total / 60, 2), Digits(total % 60, 2), sign, hours, rest);
    if Number(rest) < 60 {
      FewMinutes(total, hours, rest);
    } else {
      ManyMinutes(total, rest);
    }
  }

  lemma OffsetRendersBack(s: string)
    requires Matches(s) && ValidStamp(Fields(s))
    ensures OffsetText(OffsetMinutes(Fields(s))) == s[21..] <==>
            (DigitFields(s); Field(s, 24, 26) < 60) && !(s[21] == '-' && OffsetMinutes(Fields(s)) == 0)
  {
    var total := MinutesRead(s);
    assert s[21..] == [s[21]] + s[22..24] + s[24..26];
    MinutesExact(Fields(s));
    OffsetTextCompares(OffsetMinutes(Fields(s)), total, s[21], s[22..24], s[24..26]);
  }

  /** Among texts of the right shape that name a time, the parser rejects exactly minus nought and sixty or
      more minutes of offset. */
  lemma RejectedAsNotCanonical(s: string)
    requires Matches(s) && ValidStamp(Fields(s))
    ensures Parse(s).None? <==>
            (DigitFields(s); Field(s, 24, 26) >= 60) || (s[21] == '-' && OffsetMinutes(Fields(s)) == 0)
  {
    DigitFields(s);
    DateRendersBack(s);
    TimeRendersBack(s);
    OffsetRendersBack(s);
    var stamp := Fields(s);
    var date, time, zone := DateText(stamp.date), TimeText(stamp), OffsetText(OffsetMinutes(stamp));
    assert s == s[..8] + "T" + s[9..21] + s[21..];
    if Format(stamp) == s {
      assert Format(stamp)[21..] == zone;
    }
  }

  // ---- The calendar ----

  lemma Fours(y: nat)
    requires y >= 1
    ensures y / 4 == (y - 1) / 4 + if y % 4 == 0 then 1 else 0
  {
  }

  lemma Hundreds(y: nat)
    requires y >= 1
    ensures y / 100 == (y - 1) / 100 + if y % 100 == 0 then 1 else 0
  {
  }

  lemma FourHundreds(y: nat)
    requires y >= 1
    ensures y / 400 == (y - 1) / 400 + if y % 400 == 0 then 1 else 0
  {
  }

  lemma FourTimes(k: nat)
    ensures (4 * k) % 4 == 0
  {
  }

  lemma HundredTimes(k: nat)
    ensures (100 * k) % 100 == 0
  {
  }

  lemma HundredsAreFours(y: nat)
    ensures y % 100 == 0 ==> y % 4 == 0
  {
    if y % 100 == 0 {
      assert y == 100 * (y / 100);
      FourTimes(25 * (y / 100));
    }
  }

  lemma FourHundredsAreHundreds(y: nat)
    ensures y % 400 == 0 ==> y % 100 == 0
  {
    if y % 400 == 0 {
      assert y == 400 * (y / 400);
      HundredTimes(4 * (y / 400));
    }
  }

  /** The leap days up to and including a year. */
  function LeapDays(year: nat): int { year / 4 - year / 100 + year / 400 }

  /** The months of every year are as long as the count of leap days up to a year, and the alternation of the other
      months with its turn in August, make them. */
  lemma MonthsAreAsLong(year: nat, month: nat)
    requires year >= 1 && 1 <= month <= 12
    ensures month != 2 ==> DaysIn(year, month) == 30 + (month + month / 8) % 2
    ensures month == 2 ==> DaysIn(year, month) == 28 + LeapDays(year) - LeapDays(year - 1)
  {
    Fours(year);
    Hundreds(year);
    FourHundreds(year);
    HundredsAreFours(year);
    FourHundredsAreHundreds(year);
  }

  lemma SixDigits(s: string)
    requires |s| == 6 && AllDigits(s)
    ensures Number(s) < 1_000_000
  {
    SmallPowers();
    DigitsOfNumber(s);
  }

  lemma FourDigits(s: string)
    requires |s| == 4 && AllDigits(s)
    ensures Number(s) <= 9999
  {
    SmallPowers();
    DigitsOfNumber(s);
  }

  /** The number of hours and of minutes in the offset of a text. */
  function OffsetParts(s: string): (nat, nat)
    requires Matches(s)
  {
    DigitFields(s);
    (Field(s, 22, 24), Field(s, 24, 26))
  }

  /** A text of the right shape is accepted exactly when its fields are a day of the calendar, a time of day, and an offset
      of at most twenty-three hours and fifty-nine minutes that is not minus nought. */
  lemma AcceptedExactlyWhen(s: string)
    requires Matches(s)
    ensures var t, hours, minutes := Fields(s), OffsetParts(s).0, OffsetParts(s).1;
      Parse(s).Some? <==>
        && 1 <= t.date.year && 1 <= t.date.month <= 12 && 1 <= t.date.day <= DaysIn(t.date.year, t.date.month)
        && t.hour <= 23 && t.minute <= 59 && t.second <= 59
        && hours <= 23 && minutes <= 59 && !(s[21] == '-' && hours == 0 && minutes == 0)
  {
    var t := Fields(s);
    DigitFields(s);
    SixDigits(s[15..21]);
    FourDigits(s[0..4]);
    var total := MinutesRead(s);
    OffsetRange(t, if s[21] == '-' then -total else total);
    if ValidStamp(t) {
      RejectedAsNotCanonical(s);
    }
  }

  lemma OffsetRange(t: Stamp, minutes: int)
    requires t.offset == Some(minutes * MINUTE)
    ensures -1440 * MINUTE < t.offset.value < 1440 * MINUTE <==> -1440 < minutes < 1440
  {
  }
}
