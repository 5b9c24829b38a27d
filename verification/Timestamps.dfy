// The relay compares expiry times as text. For the text isoformat() produces for a UTC
// time, byte order is time order, also when the microseconds are left out. Validation
// accepts other texts: every text lapses at some instant, which is computed here for an
// arbitrary separator, for a Z, and for a date without dashes.
module Timestamps {

  // A UTC datetime.
  datatype Civil = Civil(year: nat, month: nat, day: nat, hour: nat, minute: nat, second: nat, micro: nat)

  predicate IsLeap(year: nat) {
    year % 4 == 0 && (year % 100 != 0 || year % 400 == 0)
  }

  function DaysInMonth(year: nat, month: nat): nat {
    if month == 2 then if IsLeap(year) then 29 else 28
    else if month == 4 || month == 6 || month == 9 || month == 11 then 30
    else 31
  }

  predicate ValidCivil(t: Civil) {
    && 1 <= t.year <= 9999 && 1 <= t.month <= 12 && 1 <= t.day <= DaysInMonth(t.year, t.month)
    && t.hour < 24 && t.minute < 60 && t.second < 60 && t.micro < 1_000_000
  }

  // --- Instants ---

  function DaysBeforeYear(year: nat): int {
    365 * (year - 1) + (year - 1) / 4 - (year - 1) / 100 + (year - 1) / 400
  }

  function DaysBeforeMonth(year: nat, month: nat): nat {
    if month <= 1 then 0 else DaysBeforeMonth(year, month - 1) + DaysInMonth(year, month - 1)
  }

  function DayNumber(t: Civil): int {
    DaysBeforeYear(t.year) + DaysBeforeMonth(t.year, t.month) + t.day
  }

  function SecondOfDay(t: Civil): nat {
    (t.hour * 60 + t.minute) * 60 + t.second
  }

  // Whole seconds, and microseconds, since the start of the calendar.
  function Seconds(t: Civil): int {
    DayNumber(t) * 86_400 + SecondOfDay(t)
  }

  function Instant(t: Civil): int {
    Seconds(t) * 1_000_000 + t.micro
  }

  // --- Text ---

  function Digit(d: nat): char
    requires d < 10
  {
    '0' + d as char
  }

  // A number in exactly `width` digits.
  function Digits(n: nat, width: nat): (r: string)
    ensures |r| == width
  {
    if width == 0 then "" else Digits(n / 10, width - 1) + [Digit(n % 10)]
  }

  // HH:MM:SS
  function TimeText(t: Civil): (r: string)
    ensures |r| == 8
  {
    Digits(t.hour, 2) + ":" + (Digits(t.minute, 2) + ":" + Digits(t.second, 2))
  }

  // YYYY-MM-DDTHH:MM:SS
  function Clock(t: Civil): (r: string)
    ensures |r| == 19
  {
    Digits(t.year, 4) + "-" + (Digits(t.month, 2) + "-" + (Digits(t.day, 2) + "T" + TimeText(t)))
  }

  function Fraction(micro: nat): string {
    if micro == 0 then "" else "." + Digits(micro, 6)
  }

  // datetime.isoformat() of a UTC time.
  function IsoFormat(t: Civil): string {
    Clock(t) + Fraction(t.micro) + "+00:00"
  }

  // The other spelling of UTC that validation accepts.
  function ZuluFormat(t: Civil): string {
    Clock(t) + Fraction(t.micro) + "Z"
  }

  // Byte order, as SQLite compares text.
  predicate Before(a: string, b: string) {
    if b == "" then false
    else if a == "" then true
    else a[0] < b[0] || (a[0] == b[0] && Before(a[1..], b[1..]))
  }

  // --- Order of texts made of parts ---

  lemma {:induction false} BeforeParts(a: string, x: string, b: string, y: string)
    requires |a| == |b|
    ensures Before(a + x, b + y) <==> Before(a, b) || (a == b && Before(x, y))
  {
    if a == "" {
      assert a + x == x && b + y == y;
    } else {
      assert (a + x)[1..] == a[1..] + x && (b + y)[1..] == b[1..] + y;
      BeforeParts(a[1..], x, b[1..], y);
      assert a == [a[0]] + a[1..] && b == [b[0]] + b[1..];
    }
  }

  lemma {:induction false} BeforeSelf(a: string)
    ensures !Before(a, a)
  {
    if a != "" { BeforeSelf(a[1..]); }
  }

  function Pow10(n: nat): nat {
    if n == 0 then 1 else 10 * Pow10(n - 1)
  }

  lemma {:induction false} DigitsOrder(m: nat, n: nat, width: nat)
    requires m < Pow10(width) && n < Pow10(width)
    ensures Before(Digits(m, width), Digits(n, width)) <==> m < n
    ensures Digits(m, width) == Digits(n, width) <==> m == n
  {
    if width > 0 {
      DigitsOrder(m / 10, n / 10, width - 1);
      var a, b := Digits(m / 10, width - 1), Digits(n / 10, width - 1);
      var x, y := [Digit(m % 10)], [Digit(n % 10)];
      BeforeParts(a, x, b, y);
      assert Before(x, y) <==> x[0] < y[0] by { assert !Before(x[1..], y[1..]); }
      assert Digits(m, width)[..width - 1] == a && Digits(n, width)[..width - 1] == b;
      assert Digits(m, width)[width - 1] == x[0] && Digits(n, width)[width - 1] == y[0];
    }
  }

  // One field, then a separator both texts share, then the rest.
  lemma Field(m: nat, n: nat, width: nat, separator: string, x: string, y: string)
    requires m < Pow10(width) && n < Pow10(width)
    ensures var a, b := Digits(m, width) + separator + x, Digits(n, width) + separator + y;
            && (Before(a, b) <==> m < n || (m == n && Before(x, y)))
            && (a == b <==> m == n && x == y)
  {
    var a, b := Digits(m, width), Digits(n, width);
    DigitsOrder(m, n, width);
    assert a + separator + x == a + (separator + x) && b + separator + y == b + (separator + y);
    BeforeParts(a, separator + x, b, separator + y);
    BeforeParts(separator, x, separator, y);
    BeforeSelf(separator);
    assert (a + (separator + x))[..width] == a && (b + (separator + y))[..width] == b;
    assert (a + (separator + x))[width..] == separator + x && (b + (separator + y))[width..] == separator + y;
    assert (separator + x)[|separator|..] == x && (separator + y)[|separator|..] == y;
  }

  // The calendar fields in order of weight.
  predicate Earlier(s: Civil, t: Civil) {
    s.year < t.year || (s.year == t.year && (s.month < t.month || (s.month == t.month &&
    (s.day < t.day || (s.day == t.day && (s.hour < t.hour || (s.hour == t.hour &&
    (s.minute < t.minute || (s.minute == t.minute && s.second < t.second)))))))))
  }

  predicate SameSecond(s: Civil, t: Civil) {
    s.(micro := 0) == t.(micro := 0)
  }

  lemma WidthsFit()
    ensures Pow10(2) == 100 && Pow10(4) == 10_000 && Pow10(6) == 1_000_000
  {
    assert Pow10(1) == 10 && Pow10(3) == 1000 && Pow10(5) == 100_000;
  }

  lemma TimeTextOrder(s: Civil, t: Civil)
    requires ValidCivil(s) && ValidCivil(t)
    ensures Before(TimeText(s), TimeText(t)) <==>
              s.hour < t.hour || (s.hour == t.hour &&
              (s.minute < t.minute || (s.minute == t.minute && s.second < t.second)))
    ensures TimeText(s) == TimeText(t) <==> s.hour == t.hour && s.minute == t.minute && s.second == t.second
  {
    hide Digits, Before, Pow10;
    WidthsFit();
    DigitsOrder(s.second, t.second, 2);
    Field(s.minute, t.minute, 2, ":", Digits(s.second, 2), Digits(t.second, 2));
    Field(s.hour, t.hour, 2, ":", Digits(s.minute, 2) + ":" + Digits(s.second, 2),
          Digits(t.minute, 2) + ":" + Digits(t.second, 2));
  }

  lemma ClockOrder(s: Civil, t: Civil)
    requires ValidCivil(s) && ValidCivil(t)
    ensures Before(Clock(s), Clock(t)) <==> Earlier(s, t)
    ensures Clock(s) == Clock(t) <==> SameSecond(s, t)
  {
    hide Digits, Before, Pow10, TimeText;
    WidthsFit();
    TimeTextOrder(s, t);
    var sDay, tDay := Digits(s.day, 2) + "T" + TimeText(s), Digits(t.day, 2) + "T" + TimeText(t);
    Field(s.day, t.day, 2, "T", TimeText(s), TimeText(t));
    var sMonth, tMonth := Digits(s.month, 2) + "-" + sDay, Digits(t.month, 2) + "-" + tDay;
    Field(s.month, t.month, 2, "-", sDay, tDay);
    Field(s.year, t.year, 4, "-", sMonth, tMonth);
  }

  // --- Order of instants ---

  lemma YearLength(year: nat)
    requires 1 <= year
    ensures DaysBeforeYear(year + 1) == DaysBeforeYear(year) + if IsLeap(year) then 366 else 365
  {
    assert year / 4 - (year - 1) / 4 == if year % 4 == 0 then 1 else 0;
    assert year / 100 - (year - 1) / 100 == if year % 100 == 0 then 1 else 0;
    assert year / 400 - (year - 1) / 400 == if year % 400 == 0 then 1 else 0;
    LeapCentury(year);
  }

  lemma LeapCentury(year: nat)
    ensures year % 400 == 0 ==> year % 100 == 0
    ensures year % 100 == 0 ==> year % 4 == 0
  {
    assert year % 400 == 0 ==> year == 100 * (4 * (year / 400));
    assert year % 100 == 0 ==> year == 4 * (25 * (year / 100));
  }

  lemma MonthsOfYear(year: nat)
    ensures DaysBeforeMonth(year, 12) + 31 == if IsLeap(year) then 366 else 365
  {
    assert DaysBeforeMonth(year, 2) == 31;
    assert DaysBeforeMonth(year, 4) == DaysBeforeMonth(year, 3) + 31 == 31 + DaysInMonth(year, 2) + 31;
    assert DaysBeforeMonth(year, 6) == DaysBeforeMonth(year, 5) + 31 == DaysBeforeMonth(year, 4) + 61;
    assert DaysBeforeMonth(year, 8) == DaysBeforeMonth(year, 7) + 31 == DaysBeforeMonth(year, 6) + 61;
    assert DaysBeforeMonth(year, 10) == DaysBeforeMonth(year, 9) + 30 == DaysBeforeMonth(year, 8) + 61;
    assert DaysBeforeMonth(year, 12) == DaysBeforeMonth(year, 11) + 30 == DaysBeforeMonth(year, 10) + 61;
  }

  lemma {:induction false} MonthsAscend(year: nat, m: nat, n: nat)
    requires 1 <= m < n
    ensures DaysBeforeMonth(year, m) + DaysInMonth(year, m) <= DaysBeforeMonth(year, n)
  {
    if m + 1 < n { MonthsAscend(year, m, n - 1); }
  }

  lemma {:induction false} YearsAscend(y: nat, z: nat)
    requires 1 <= y < z
    ensures DaysBeforeYear(y + 1) <= DaysBeforeYear(z)
  {
    if y + 1 < z {
      YearsAscend(y, z - 1);
      YearLength(z - 1);
    }
  }

  lemma EarlierIsSooner(s: Civil, t: Civil)
    requires ValidCivil(s) && ValidCivil(t) && Earlier(s, t)
    ensures Seconds(s) < Seconds(t)
  {
    if s.year < t.year {
      YearsAscend(s.year, t.year);
      YearLength(s.year);
      MonthsOfYear(s.year);
      if s.month < 12 { MonthsAscend(s.year, s.month, 12); }
      assert DayNumber(s) < DayNumber(t);
    } else if s.month < t.month {
      MonthsAscend(s.year, s.month, t.month);
      assert DayNumber(s) < DayNumber(t);
    }
  }

  lemma EarlierTotal(s: Civil, t: Civil)
    ensures Earlier(s, t) || SameSecond(s, t) || Earlier(t, s)
    ensures SameSecond(s, t) ==> Seconds(s) == Seconds(t)
  {
  }

  // --- Main results ---

  lemma FractionOrder(m: nat, n: nat)
    requires m < 1_000_000 && n < 1_000_000
    ensures Before(Fraction(m) + "+00:00", Fraction(n) + "+00:00") <==> m < n
  {
    WidthsFit();
    if m == 0 || n == 0 {
      BeforeSelf("+00:00");
      assert m == 0 ==> Fraction(m) + "+00:00" == "+00:00";
      assert n == 0 ==> Fraction(n) + "+00:00" == "+00:00";
    } else {
      Field(m, n, 6, "+00:00", "", "");
      BeforeParts(".", Digits(m, 6) + "+00:00" + "", ".", Digits(n, 6) + "+00:00" + "");
      BeforeSelf(".");
      assert Fraction(m) + "+00:00" == "." + (Digits(m, 6) + "+00:00" + "");
      assert Fraction(n) + "+00:00" == "." + (Digits(n, 6) + "+00:00" + "");
    }
  }

  // For what isoformat() writes, byte order is time order.
  lemma IsoOrderIsTimeOrder(s: Civil, t: Civil)
    requires ValidCivil(s) && ValidCivil(t)
    ensures Before(IsoFormat(s), IsoFormat(t)) <==> Instant(s) < Instant(t)
  {
    ClockOrder(s, t);
    EarlierTotal(s, t);
    if Earlier(s, t) { EarlierIsSooner(s, t); }
    if Earlier(t, s) { EarlierIsSooner(t, s); }
    FractionOrder(s.micro, t.micro);
    assert IsoFormat(s) == Clock(s) + (Fraction(s.micro) + "+00:00");
    assert IsoFormat(t) == Clock(t) + (Fraction(t.micro) + "+00:00");
    BeforeParts(Clock(s), Fraction(s.micro) + "+00:00", Clock(t), Fraction(t.micro) + "+00:00");
  }

  // --- The instant at which a text lapses ---

  // The instant from which a text no longer sorts after the present.
  ghost predicate LapsesAt(text: string, instant: int) {
    forall now | ValidCivil(now) :: Before(IsoFormat(now), text) <==> Instant(now) < instant
  }

  lemma {:induction false} BeforeTransitive(a: string, b: string, c: string)
    requires Before(b, c) && (a == b || Before(a, b))
    ensures Before(a, c)
  {
    if a != "" && b != "" {
      if Before(a, b) && a[0] == b[0] && b[0] == c[0] { BeforeTransitive(a[1..], b[1..], c[1..]); }
    }
  }

  lemma {:induction false} BeforeTotal(a: string, b: string)
    ensures a == b || Before(a, b) || Before(b, a)
  {
    if a != "" && b != "" {
      BeforeTotal(a[1..], b[1..]);
      assert a == [a[0]] + a[1..] && b == [b[0]] + b[1..];
    }
  }

  // An earlier present sorts before whatever a later one sorts before.
  lemma EarlierSortsBefore(s: Civil, t: Civil, text: string)
    requires ValidCivil(s) && ValidCivil(t) && Instant(s) <= Instant(t) && Before(IsoFormat(t), text)
    ensures Before(IsoFormat(s), text)
  {
    hide Before, IsoFormat, Instant;
    IsoOrderIsTimeOrder(s, t);
    IsoOrderIsTimeOrder(t, s);
    BeforeTotal(IsoFormat(s), IsoFormat(t));
    BeforeTransitive(IsoFormat(s), IsoFormat(t), text);
  }

  lemma InstantsBounded(t: Civil)
    requires ValidCivil(t)
    ensures 0 <= Instant(t) <= Instant(LAST)
  {
    EarlierTotal(t, LAST);
    if Earlier(t, LAST) { EarlierIsSooner(t, LAST); }
  }

  const LAST: Civil := Civil(9999, 12, 31, 23, 59, 59, 999_999)

  // The earliest present, no later than t, that does not sort before the text.
  lemma {:induction false} EarliestPast(text: string, t: Civil) returns (first: Civil)
    requires ValidCivil(t) && !Before(IsoFormat(t), text)
    ensures ValidCivil(first) && !Before(IsoFormat(first), text)
    ensures forall now | ValidCivil(now) && Instant(now) < Instant(first) :: Before(IsoFormat(now), text)
    decreases Instant(t)
  {
    hide Before, IsoFormat, Instant;
    if s :| ValidCivil(s) && Instant(s) < Instant(t) && !Before(IsoFormat(s), text) {
      InstantsBounded(s);
      first := EarliestPast(text, s);
    } else {
      first := t;
    }
  }

  // Whatever text a sender writes, there is one instant from which the relay treats it as
  // past, at every comparison, for good.
  lemma EveryTextLapses(text: string) returns (instant: int)
    ensures LapsesAt(text, instant)
  {
    hide Before, IsoFormat, Instant;
    if t :| ValidCivil(t) && !Before(IsoFormat(t), text) {
      var first := EarliestPast(text, t);
      instant := Instant(first);
      forall now | ValidCivil(now) ensures Before(IsoFormat(now), text) <==> Instant(now) < instant {
        if Before(IsoFormat(now), text) && instant <= Instant(now) { EarlierSortsBefore(first, now, text); }
      }
    } else {
      instant := Instant(LAST) + 1;
      forall now | ValidCivil(now) ensures Before(IsoFormat(now), text) <==> Instant(now) < instant {
        InstantsBounded(now);
      }
    }
  }

  // What isoformat() writes lapses when it expires.
  lemma IsoLapsesOnExpiry(expiry: Civil)
    requires ValidCivil(expiry)
    ensures LapsesAt(IsoFormat(expiry), Instant(expiry))
  {
    forall now | ValidCivil(now) ensures Before(IsoFormat(now), IsoFormat(expiry)) <==> Instant(now) < Instant(expiry) {
      IsoOrderIsTimeOrder(now, expiry);
    }
  }

  // --- Spelled with Z ---

  // An expiry spelled with Z is judged wrongly exactly within its own second, when it has
  // no microseconds or exactly those of the present moment: it then still counts as ahead.
  lemma ZuluExpiryMisjudged(expiry: Civil, now: Civil)
    requires ValidCivil(expiry) && ValidCivil(now)
    ensures (Before(IsoFormat(now), ZuluFormat(expiry)) <==> Instant(now) < Instant(expiry))
       <==> !(SameSecond(expiry, now) && (expiry.micro == 0 || expiry.micro == now.micro))
  {
    ClockOrder(now, expiry);
    EarlierTotal(now, expiry);
    if Earlier(now, expiry) { EarlierIsSooner(now, expiry); }
    if Earlier(expiry, now) { EarlierIsSooner(expiry, now); }
    ZuluFraction(now.micro, expiry.micro);
    assert IsoFormat(now) == Clock(now) + (Fraction(now.micro) + "+00:00");
    assert ZuluFormat(expiry) == Clock(expiry) + (Fraction(expiry.micro) + "Z");
    BeforeParts(Clock(now), Fraction(now.micro) + "+00:00", Clock(expiry), Fraction(expiry.micro) + "Z");
  }

  lemma ZuluFraction(m: nat, n: nat)
    requires m < 1_000_000 && n < 1_000_000
    ensures Before(Fraction(m) + "+00:00", Fraction(n) + "Z") <==> m < n || n == 0 || m == n
  {
    WidthsFit();
    if m == 0 || n == 0 {
      assert m == 0 ==> Fraction(m) + "+00:00" == "+00:00";
      assert n == 0 ==> Fraction(n) + "Z" == "Z";
    } else {
      Field(m, n, 6, "", "+00:00", "Z");
      assert Before("+00:00", "Z");
      BeforeParts(".", Digits(m, 6) + "" + "+00:00", ".", Digits(n, 6) + "" + "Z");
      BeforeSelf(".");
      assert Fraction(m) + "+00:00" == "." + (Digits(m, 6) + "" + "+00:00");
      assert Fraction(n) + "Z" == "." + (Digits(n, 6) + "" + "Z");
    }
  }

  // A Z lapses one microsecond late, or at the end of its second if it has no microseconds.
  lemma ZuluLapses(expiry: Civil)
    requires ValidCivil(expiry)
    ensures LapsesAt(ZuluFormat(expiry), Instant(expiry) + if expiry.micro == 0 then 1_000_000 else 1)
  {
    forall now | ValidCivil(now)
      ensures Before(IsoFormat(now), ZuluFormat(expiry))
         <==> Instant(now) < Instant(expiry) + if expiry.micro == 0 then 1_000_000 else 1
    {
      hide Before, IsoFormat, ZuluFormat, Seconds;
      ZuluExpiryMisjudged(expiry, now);
      EarlierTotal(now, expiry);
      if Earlier(now, expiry) { EarlierIsSooner(now, expiry); }
      if Earlier(expiry, now) { EarlierIsSooner(expiry, now); }
    }
  }

  // --- Any separator between date and time ---

  // YYYY-MM-DD
  function DateText(t: Civil): (r: string)
    ensures |r| == 10
  {
    Digits(t.year, 4) + "-" + (Digits(t.month, 2) + "-" + Digits(t.day, 2))
  }

  // fromisoformat() takes any one character between the date and the time.
  function SeparatedFormat(t: Civil, separator: char): string {
    DateText(t) + ([separator] + (TimeText(t) + Fraction(t.micro) + "+00:00"))
  }

  predicate SameDay(s: Civil, t: Civil) {
    s.year == t.year && s.month == t.month && s.day == t.day
  }

  predicate EarlierDay(s: Civil, t: Civil) {
    s.year < t.year || (s.year == t.year && (s.month < t.month || (s.month == t.month && s.day < t.day)))
  }

  lemma IsoIsSeparated(t: Civil)
    ensures IsoFormat(t) == SeparatedFormat(t, 'T')
  {
    var time, tail := TimeText(t), Fraction(t.micro) + "+00:00";
    var day, month, year := Digits(t.day, 2), Digits(t.month, 2), Digits(t.year, 4);
    assert Clock(t) == DateText(t) + ("T" + time);
    assert IsoFormat(t) == Clock(t) + tail;
    assert [ 'T' ] == "T";
    assert time + Fraction(t.micro) + "+00:00" == time + tail;
  }

  lemma DateOrder(s: Civil, t: Civil)
    requires ValidCivil(s) && ValidCivil(t)
    ensures Before(DateText(s), DateText(t)) <==> EarlierDay(s, t)
    ensures DateText(s) == DateText(t) <==> SameDay(s, t)
  {
    hide Digits, Before, Pow10;
    WidthsFit();
    DigitsOrder(s.day, t.day, 2);
    var sMonth, tMonth := Digits(s.month, 2) + "-" + Digits(s.day, 2), Digits(t.month, 2) + "-" + Digits(t.day, 2);
    Field(s.month, t.month, 2, "-", Digits(s.day, 2), Digits(t.day, 2));
    Field(s.year, t.year, 4, "-", sMonth, tMonth);
  }

  // The order of days is the order of their numbers.
  lemma DayOrder(s: Civil, t: Civil)
    requires ValidCivil(s) && ValidCivil(t)
    ensures EarlierDay(s, t) <==> DayNumber(s) < DayNumber(t)
    ensures SameDay(s, t) <==> DayNumber(s) == DayNumber(t)
  {
    var a := s.(hour := 0, minute := 0, second := 0, micro := 0);
    var b := t.(hour := 0, minute := 0, second := 0, micro := 0);
    if EarlierDay(s, t) { EarlierIsSooner(a, b); }
    if EarlierDay(t, s) { EarlierIsSooner(b, a); }
    assert EarlierDay(s, t) || SameDay(s, t) || EarlierDay(t, s);
  }

  lemma DayOfInstant(t: Civil)
    requires ValidCivil(t)
    ensures DayStart(t) <= Instant(t) < DayStart(t) + DAY
  {
  }

  const DAY: int := 86_400_000_000

  function DayStart(t: Civil): int {
    DayNumber(t) * DAY
  }

  // The instant a separated text lapses: at its expiry for 'T', at the start of the day for a
  // separator below 'T', and at the end of the day for one above.
  function SeparatedLapse(t: Civil, separator: char): int {
    if separator == 'T' then Instant(t)
    else if separator < 'T' then DayStart(t)
    else DayStart(t) + DAY
  }

  lemma SeparatedLapses(expiry: Civil, separator: char)
    requires ValidCivil(expiry)
    ensures LapsesAt(SeparatedFormat(expiry, separator), SeparatedLapse(expiry, separator))
  {
    if separator == 'T' {
      IsoIsSeparated(expiry);
      IsoLapsesOnExpiry(expiry);
    } else {
      forall now | ValidCivil(now)
        ensures Before(IsoFormat(now), SeparatedFormat(expiry, separator))
           <==> Instant(now) < SeparatedLapse(expiry, separator)
      {
        SeparatedOrder(now, expiry, separator);
        DayOrder(now, expiry);
        DaysApart(now, expiry);
      }
    }
  }

  lemma DaysApart(now: Civil, t: Civil)
    requires ValidCivil(now) && ValidCivil(t)
    ensures Instant(now) < DayStart(t) <==> DayNumber(now) < DayNumber(t)
    ensures Instant(now) < DayStart(t) + DAY <==> DayNumber(now) <= DayNumber(t)
  {
    DayOfInstant(now);
    DayOfInstant(t);
  }

  lemma SeparatedOrder(now: Civil, expiry: Civil, separator: char)
    requires ValidCivil(now) && ValidCivil(expiry) && separator != 'T'
    ensures Before(IsoFormat(now), SeparatedFormat(expiry, separator))
       <==> EarlierDay(now, expiry) || (SameDay(now, expiry) && 'T' < separator)
  {
    IsoIsSeparated(now);
    DateOrder(now, expiry);
    var x, y := TimeText(now) + Fraction(now.micro) + "+00:00", TimeText(expiry) + Fraction(expiry.micro) + "+00:00";
    BeforeParts(DateText(now), ['T'] + x, DateText(expiry), [separator] + y);
    BeforeParts(['T'], x, [separator], y);
    assert Before(['T'], [separator]) <==> 'T' < separator by { assert !Before(['T'][1..], [separator][1..]); }
  }

  // A text with any separator is judged wrongly exactly within its own day, before its expiry
  // if the separator sorts below 'T' and from its expiry on if it sorts above.
  lemma SeparatorMisjudged(expiry: Civil, now: Civil, separator: char)
    requires ValidCivil(expiry) && ValidCivil(now)
    ensures (Before(IsoFormat(now), SeparatedFormat(expiry, separator)) <==> Instant(now) < Instant(expiry))
       <==> !(SameDay(now, expiry)
              && (|| (separator < 'T' && Instant(now) < Instant(expiry))
                  || ('T' < separator && Instant(expiry) <= Instant(now))))
  {
    hide Before, IsoFormat, SeparatedFormat, Instant;
    SeparatedLapses(expiry, separator);
    DayOrder(now, expiry);
    DaysApart(now, expiry);
    DaysApart(expiry, expiry);
    DaysApart(expiry, now);
    DayOrder(expiry, now);
  }

  // Such a text lapses less than the shortest time to live before it expires, so that no
  // message is swept while it still validates, unless the separator sorts below 'T' and the
  // expiry is at least that long after midnight.
  lemma SeparatedSteadyIff(expiry: Civil, separator: char, minTtl: int)
    requires ValidCivil(expiry) && 0 < minTtl
    ensures Instant(expiry) < SeparatedLapse(expiry, separator) + minTtl * 1_000_000
       <==> !(separator < 'T' && minTtl * 1_000_000 <= Instant(expiry) - DayStart(expiry))
  {
    DayOfInstant(expiry);
  }

  // --- A date without dashes ---

  // YYYYMMDDTHH:MM:SS...
  function BasicFormat(t: Civil): string {
    Digits(t.year, 4) + (Digits(t.month, 2) + (Digits(t.day, 2) + ("T" + (TimeText(t) + Fraction(t.micro) + "+00:00"))))
  }

  // It lapses at the end of its year.
  lemma BasicLapses(expiry: Civil)
    requires ValidCivil(expiry)
    ensures LapsesAt(BasicFormat(expiry), (DaysBeforeYear(expiry.year + 1) + 1) * DAY)
  {
    forall now | ValidCivil(now)
      ensures Before(IsoFormat(now), BasicFormat(expiry))
         <==> Instant(now) < (DaysBeforeYear(expiry.year + 1) + 1) * DAY
    {
      BasicOrder(now, expiry);
      YearOrder(now, expiry.year);
    }
  }

  lemma BasicOrder(now: Civil, expiry: Civil)
    requires ValidCivil(now) && ValidCivil(expiry)
    ensures Before(IsoFormat(now), BasicFormat(expiry)) <==> now.year <= expiry.year
  {
    WidthsFit();
    DigitsOrder(now.year, expiry.year, 4);
    var x := "-" + (Digits(now.month, 2) + "-" + (Digits(now.day, 2) + "T" + TimeText(now)));
    var rest := x + Fraction(now.micro) + "+00:00";
    assert IsoFormat(now) == Digits(now.year, 4) + rest;
    var time := TimeText(expiry) + Fraction(expiry.micro) + "+00:00";
    var y := Digits(expiry.month, 2) + (Digits(expiry.day, 2) + ("T" + time));
    BeforeParts(Digits(now.year, 4), rest, Digits(expiry.year, 4), y);
    assert rest[0] == '-';
    assert y[0] == Digits(expiry.month, 2)[0] == Digit(expiry.month / 10) by { TwoDigits(expiry.month); }
    DashBeforeDigit(expiry.month / 10);
  }

  lemma TwoDigits(n: nat)
    requires n < 100
    ensures Digits(n, 2)[0] == Digit(n / 10)
  {
    assert Digits(n / 10, 1) == Digits(n / 100, 0) + [Digit(n / 10 % 10)];
  }

  lemma DashBeforeDigit(d: nat)
    requires d < 10
    ensures '-' < Digit(d)
  {
  }

  lemma YearOrder(now: Civil, year: nat)
    requires ValidCivil(now) && 1 <= year
    ensures Instant(now) < (DaysBeforeYear(year + 1) + 1) * DAY <==> now.year <= year
  {
    DayOfInstant(now);
    DayInYear(now);
    if now.year < year { YearsAscend(now.year, year); YearLength(year); }
    if year + 1 < now.year { YearsAscend(year + 1, now.year); YearLength(year + 1); }
  }

  lemma DayInYear(t: Civil)
    requires ValidCivil(t)
    ensures DaysBeforeYear(t.year) < DayNumber(t) <= DaysBeforeYear(t.year + 1)
  {
    YearLength(t.year);
    MonthsOfYear(t.year);
    if t.month < 12 { MonthsAscend(t.year, t.month, 12); }
  }
}
