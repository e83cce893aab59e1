/** Time as a number: microseconds counted from the beginning of the calendar, independent of how
    instants are compared field by field. */
module Calendars {
  import opened Models
  import opened EnvelopeCodec

  /** The days of the year before month `m`. */
  function DaysBeforeMonth(year: nat, m: nat): nat {
    if m <= 1 then 0 else DaysBeforeMonth(year, m - 1) + DaysIn(year, m - 1)
  }

  function YearLength(year: nat): nat { DaysBeforeMonth(year, 13) }

  /** The days before the year, from year 1 on. */
  function DaysBeforeYear(year: nat): nat {
    if year <= 1 then 0 else DaysBeforeYear(year - 1) + YearLength(year - 1)
  }

  function Day(t: Instant): nat { DaysBeforeYear(t.year) + DaysBeforeMonth(t.year, t.month) + t.day }

  const MICROS_PER_DAY := 86_400_000_000

  function TimeOfDay(t: Instant): nat { ((t.hour * 60 + t.minute) * 60 + t.second) * 1_000_000 + t.micro }

  function Micros(t: Instant): nat { Day(t) * MICROS_PER_DAY + TimeOfDay(t) }

  // ---------------------------------------------------------------------------
  // The calendar is the Gregorian one
  // ---------------------------------------------------------------------------

  predicate Leap(year: nat) { (year % 4 == 0 && year % 100 != 0) || year % 400 == 0 }

  /** How many days of a common year precede each month. */
  const BEFORE_MONTH := [0, 31, 59, 90, 120, 151, 181, 212, 243, 273, 304, 334, 365]

  lemma MonthsByTable(year: nat, m: nat)
    requires 1 <= m <= 13
    ensures DaysBeforeMonth(year, m) == BEFORE_MONTH[m - 1] + if Leap(year) && m > 2 then 1 else 0
  {
    if m > 1 {
      MonthsByTable(year, m - 1);
    }
  }

  /** The count of days by the usual closed formula. */
  lemma {:induction false} YearsByFormula(year: nat)
    requires year >= 1
    ensures var y := year - 1; DaysBeforeYear(year) == 365 * y + y / 4 - y / 100 + y / 400
  {
    if year > 1 {
      YearsByFormula(year - 1);
      MonthsByTable(year - 1, 13);
      QuotientsStep(year - 1);
      LeapInQuotients(year - 1);
    }
  }

  function Divides(k: nat, n: nat): nat
    requires k > 0
  {
    if n % k == 0 then 1 else 0
  }

  lemma QuotientsStep(n: nat)
    requires n >= 1
    ensures n / 4 == (n - 1) / 4 + Divides(4, n)
    ensures n / 100 == (n - 1) / 100 + Divides(100, n)
    ensures n / 400 == (n - 1) / 400 + Divides(400, n)
  {
  }

  lemma LeapInQuotients(n: nat)
    ensures (if Leap(n) then 1 else 0) == Divides(4, n) - Divides(100, n) + Divides(400, n)
  {
    HundredsAreFours(n);
    FourHundredsAreHundreds(n);
  }

  lemma HundredsAreFours(n: nat)
    ensures n % 100 == 0 ==> n % 4 == 0
  {
    var k := 25 * (n / 100);
    assert n % 100 == 0 ==> n == 4 * k;
  }

  lemma FourHundredsAreHundreds(n: nat)
    ensures n % 400 == 0 ==> n % 100 == 0
  {
    var k := 4 * (n / 400);
    assert n % 400 == 0 ==> n == 100 * k;
  }

  // ---------------------------------------------------------------------------
  // Earlier in the fields is earlier in time
  // ---------------------------------------------------------------------------

  lemma {:induction false} MonthsAdvance(year: nat, m: nat, n: nat)
    requires 1 <= m < n
    ensures DaysBeforeMonth(year, m) + DaysIn(year, m) <= DaysBeforeMonth(year, n)
  {
    if m + 1 < n {
      MonthsAdvance(year, m, n - 1);
    }
  }

  lemma {:induction false} YearsAdvance(y: nat, z: nat)
    requires 1 <= y < z
    ensures DaysBeforeYear(y) + YearLength(y) <= DaysBeforeYear(z)
  {
    if y + 1 < z {
      YearsAdvance(y, z - 1);
    }
  }

  lemma DayIsInYear(t: Instant)
    requires ValidInstant(t)
    ensures DaysBeforeYear(t.year) < Day(t) <= DaysBeforeYear(t.year) + YearLength(t.year)
  {
    MonthsAdvance(t.year, t.month, 13);
  }

  predicate DateBefore(a: Instant, b: Instant) {
    a.year < b.year || (a.year == b.year && (a.month < b.month || (a.month == b.month && a.day < b.day)))
  }

  predicate SameDate(a: Instant, b: Instant) { a.year == b.year && a.month == b.month && a.day == b.day }

  lemma DatesAdvance(a: Instant, b: Instant)
    requires ValidInstant(a) && ValidInstant(b) && DateBefore(a, b)
    ensures Day(a) < Day(b)
  {
    DayIsInYear(a);
    DayIsInYear(b);
    if a.year < b.year {
      YearsAdvance(a.year, b.year);
    } else if a.month < b.month {
      MonthsAdvance(a.year, a.month, b.month);
    }
  }

  lemma TimesAreInTheDay(t: Instant)
    requires ValidInstant(t)
    ensures TimeOfDay(t) < MICROS_PER_DAY
  {
  }

  predicate ClockBefore(a: Instant, b: Instant) {
    a.hour < b.hour || (a.hour == b.hour && (a.minute < b.minute || (a.minute == b.minute
      && (a.second < b.second || (a.second == b.second && a.micro < b.micro)))))
  }

  lemma ClocksAdvance(a: Instant, b: Instant)
    requires ValidInstant(a) && ValidInstant(b) && ClockBefore(a, b)
    ensures TimeOfDay(a) < TimeOfDay(b)
  {
  }

  lemma EarlierCons(x: nat, xs: seq<nat>, y: nat, ys: seq<nat>)
    requires |xs| == |ys|
    ensures Earlier([x] + xs, [y] + ys) <==> x < y || (x == y && Earlier(xs, ys))
  {
    assert ([x] + xs)[1..] == xs && ([y] + ys)[1..] == ys;
  }

  /** What comparing the fields one by one decides. */
  lemma BeforeIsByDateThenClock(a: Instant, b: Instant)
    ensures Before(a, b) <==> DateBefore(a, b) || (SameDate(a, b) && ClockBefore(a, b))
  {
    var p, q := [a.hour, a.minute, a.second, a.micro], [b.hour, b.minute, b.second, b.micro];
    ClockOfFields(a, b);
    assert Values(a) == [a.year] + ([a.month] + ([a.day] + p)) && Values(b) == [b.year] + ([b.month] + ([b.day] + q));
    EarlierCons(a.day, p, b.day, q);
    EarlierCons(a.month, [a.day] + p, b.month, [b.day] + q);
    EarlierCons(a.year, [a.month] + ([a.day] + p), b.year, [b.month] + ([b.day] + q));
  }

  lemma ClockOfFields(a: Instant, b: Instant)
    ensures Earlier([a.hour, a.minute, a.second, a.micro], [b.hour, b.minute, b.second, b.micro]) <==> ClockBefore(a, b)
  {
    assert [a.hour, a.minute, a.second, a.micro] == [a.hour] + ([a.minute] + ([a.second] + ([a.micro] + [])));
    assert [b.hour, b.minute, b.second, b.micro] == [b.hour] + ([b.minute] + ([b.second] + ([b.micro] + [])));
    EarlierCons(a.micro, [], b.micro, []);
    EarlierCons(a.second, [a.micro] + [], b.second, [b.micro] + []);
    EarlierCons(a.minute, [a.second] + ([a.micro] + []), b.minute, [b.second] + ([b.micro] + []));
    EarlierCons(a.hour, [a.minute] + ([a.second] + ([a.micro] + [])), b.hour, [b.minute] + ([b.second] + ([b.micro] + [])));
  }

  lemma BeforeAdvances(a: Instant, b: Instant)
    requires ValidInstant(a) && ValidInstant(b) && Before(a, b)
    ensures Micros(a) < Micros(b)
  {
    BeforeIsByDateThenClock(a, b);
    TimesAreInTheDay(a);
    TimesAreInTheDay(b);
    if DateBefore(a, b) {
      DatesAdvance(a, b);
      assert (Day(a) + 1) * MICROS_PER_DAY <= Day(b) * MICROS_PER_DAY;
    } else {
      ClocksAdvance(a, b);
    }
  }

  /** The comparison behind expiry is the comparison of the microseconds. */
  lemma BeforeIffFewerMicros(a: Instant, b: Instant)
    requires ValidInstant(a) && ValidInstant(b)
    ensures Before(a, b) <==> Micros(a) < Micros(b)
    ensures a == b <==> Micros(a) == Micros(b)
  {
    EarlierIsStrictOrder(Values(a), Values(b));
    assert Values(a) == Values(b) ==> a == b by {
      assert forall i :: 0 <= i < 7 ==> Values(a)[i] == Values(a)[i];
    }
    if Before(a, b) {
      BeforeAdvances(a, b);
    } else if Before(b, a) {
      BeforeAdvances(b, a);
    }
  }

  /** A document that has everything an envelope needs is accepted exactly if it was created before it
      expires, and has not expired, in microseconds; and it has expired exactly if only the latter fails. */
  lemma AcceptedInTime(data: Json, now: Instant, iso: IsoLibrary)
    requires ValidInstant(now) && data.Object?
    requires Assemble(data.fields, iso).Some? && HasValidFields(Assemble(data.fields, iso).value)
    ensures var e := Assemble(data.fields, iso).value;
            var r := DictToEnvelope(data, now, iso);
            && (r == Ok(e) <==> Micros(e.createdAt) < Micros(e.expiresAt) && Micros(now) < Micros(e.expiresAt))
            && (r == Err(EnvelopeExpired) <==> Micros(e.createdAt) < Micros(e.expiresAt) <= Micros(now))
            && (r == Err(Malformed) <==> Micros(e.expiresAt) <= Micros(e.createdAt))
  {
    var e := Assemble(data.fields, iso).value;
    BeforeIffFewerMicros(e.createdAt, e.expiresAt);
    BeforeIffFewerMicros(now, e.expiresAt);
  }

  /** Any other document is not accepted. */
  lemma OthersAreRejected(data: Json, now: Instant, iso: IsoLibrary)
    ensures DictToEnvelope(data, now, iso).Ok? ==>
              && data.Object? && Assemble(data.fields, iso) == Some(DictToEnvelope(data, now, iso).value)
              && HasValidFields(DictToEnvelope(data, now, iso).value)
  {
  }
}
