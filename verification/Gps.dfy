/**
 GPS timestamps (src/gps_time.rs): the packed 64-bit layout, the calendar it refers
 to, and the conversion to Unix nanoseconds.
 */
module Gps {
  import opened Wrappers
  import opened Machine

  const NANOS_PER_SEC: u64 := 1_000_000_000

  // ----- The calendar

  predicate IsLeapYear(year: int) {
    year % 4 == 0 && (year % 100 != 0 || year % 400 == 0)
  }

  function YearLength(year: int): nat {
    if IsLeapYear(year) then 366 else 365
  }

  /** Days from 1970-01-01 to the first of January of `year`, one year at a time. */
  function DaysBeforeYear(year: int): nat
    requires year >= 1970
  {
    if year == 1970 then 0 else DaysBeforeYear(year - 1) + YearLength(year - 1)
  }

  /**
   `NaiveDate::from_yo_opt`, as days since 1970-01-01: the ordinal counts from 1, and
   only a leap year has a day 366.
   */
  function FromYearOrdinal(year: int, ordinal: nat): Option<nat>
    requires year >= 1970
  {
    if 1 <= ordinal <= YearLength(year) then Some(DaysBeforeYear(year) + ordinal - 1) else None
  }

  /**
   "Seconds Since the Epoch", section 4.16 of the POSIX.1-2017 Base Definitions:
   `tmYear` counts from 1900 and `tmYday` from 0.
   */
  function PosixSeconds(tmYear: int, tmYday: int, tmHour: int, tmMin: int, tmSec: int): int {
    tmSec + tmMin * 60 + tmHour * 3600 + tmYday * 86400
    + (tmYear - 70) * 31536000 + ((tmYear - 69) / 4) * 86400
    - ((tmYear - 1) / 100) * 86400 + ((tmYear + 299) / 400) * 86400
  }

  // ----- The packed representation

  /** The eight fields of a timestamp, as transmitted. */
  datatype Fields = Fields(years: nat, days: nat, hours: nat, minutes: nat, seconds: nat,
                           milliseconds: nat, microseconds: nat, nanoseconds: nat)
  {
    /** Every field fits its bit width: 8 + 9 + 5 + 6 + 6 + 10 + 10 + 10 bits. */
    predicate InRange() {
      && years < 256 && days < 512 && hours < 32 && minutes < 64 && seconds < 64
      && milliseconds < 1024 && microseconds < 1024 && nanoseconds < 1024
    }

    /** Shift-and-add packing, as in `TESTING_TIMESTAMP` (src/testing.rs). */
    function Pack(): nat {
      years * 0x100_0000_0000_0000 + days * 0x8000_0000_0000 + hours * 0x400_0000_0000
      + minutes * 0x10_0000_0000 + seconds * 0x4000_0000
      + milliseconds * 0x10_0000 + microseconds * 0x400 + nanoseconds
    }

    predicate IsCalendarDay() {
      1 <= days <= YearLength(2000 + years)
    }

    predicate IsTimeOfDay() {
      && hours < 24 && minutes < 60 && seconds <= 60
      && milliseconds < 1000 && microseconds < 1000 && nanoseconds < 1000
    }

    /** A real day and time; second 60 is a leap second. */
    predicate Valid() {
      InRange() && IsCalendarDay() && IsTimeOfDay()
    }

    /** Minutes from the Unix epoch to the start of this timestamp's minute. */
    function MinuteIndex(): int {
      (DaysBeforeYear(2000 + years) + days - 1) * 1440 + hours * 60 + minutes
    }

    /** Nanoseconds into the second. */
    function SubSecond(): nat {
      milliseconds * 1_000_000 + microseconds * 1_000 + nanoseconds
    }

    /** The Unix nanoseconds the fields stand for, in unbounded arithmetic. */
    function Nanoseconds(): int {
      (MinuteIndex() * 60 + seconds) * 1_000_000_000 + SubSecond()
    }

    /**
     The sum that `nanoseconds_since_epoch` evaluates before it looks at the time
     fields, in wrapping 64-bit arithmetic.
     */
    function EagerTotal(timestampS: u64): u64 {
      var d := Wrap64(timestampS * NANOS_PER_SEC);
      var h := Wrap64(Wrap64(hours * 3600) * NANOS_PER_SEC);
      var m := Wrap64(Wrap64(minutes * 60) * NANOS_PER_SEC);
      var s := Wrap64(seconds * NANOS_PER_SEC);
      var ms := Wrap64(milliseconds * 1_000_000);
      var us := Wrap64(microseconds * 1000);
      Wrap64(Wrap64(Wrap64(Wrap64(Wrap64(Wrap64(d + h) + m) + s) + ms) + us) + nanoseconds)
    }

    /** The conversion `nanoseconds_since_epoch` performs on the accessor values. */
    function NanosecondsSinceEpoch(): Option<u64> {
      match FromYearOrdinal(years + 2000, days)
      case None => None
      case Some(day) =>
        var total := EagerTotal(Wrap64(day * 86400));
        if && hours < 24
           && minutes < 60
           && seconds <= 60
           && milliseconds < 1000
           && microseconds < 1000
           && nanoseconds < 1000
        then Some(total)
        else None
    }

    /**
     The same moment when `seconds` is 60: second 0 of the following minute, carried
     through the hour, the day and the year; None past the last representable year.
     */
    function NextMinute(): Option<Fields> {
      if minutes < 59 then
        Some(this.(minutes := minutes + 1, seconds := 0))
      else if hours < 23 then
        Some(this.(hours := hours + 1, minutes := 0, seconds := 0))
      else if days < YearLength(2000 + years) then
        Some(this.(days := days + 1, hours := 0, minutes := 0, seconds := 0))
      else if years < 255 then
        Some(this.(years := years + 1, days := 1, hours := 0, minutes := 0, seconds := 0))
      else
        None
    }
  }

  datatype GpsTime = GpsTime(content: u64) {
    function Years(): nat {
      ShiftRight(content, 24 + 32)
    }

    function Days(): nat {
      BitAnd(ShiftRight(content, 15 + 32), 0x1FF)
    }

    function Hours(): nat {
      BitAnd(ShiftRight(content, 10 + 32), 0x1F)
    }

    function Minutes(): nat {
      BitAnd(ShiftRight(content, 4 + 32), 0x3F)
    }

    function Seconds(): nat {
      BitAnd(ShiftRight(content, 30), 0x3F)
    }

    function Milliseconds(): nat {
      BitAnd(ShiftRight(content, 20), 0x3FF)
    }

    function Microseconds(): nat {
      BitAnd(ShiftRight(content, 10), 0x3FF)
    }

    function Nanoseconds(): nat {
      BitAnd(content, 0x3FF)
    }

    function ToFields(): Fields {
      Fields(Years(), Days(), Hours(), Minutes(), Seconds(), Milliseconds(), Microseconds(), Nanoseconds())
    }

    /** Unix nanoseconds, or None for a timestamp that names no moment. */
    function NanosecondsSinceEpoch(): Option<u64> {
      ToFields().NanosecondsSinceEpoch()
    }
  }

  // ----- Bit-field layout

  lemma AccessorValues(t: GpsTime)
    ensures t.Years() == t.content / 0x100_0000_0000_0000
    ensures t.Days() == t.content / 0x8000_0000_0000 % 512
    ensures t.Hours() == t.content / 0x400_0000_0000 % 32
    ensures t.Minutes() == t.content / 0x10_0000_0000 % 64
    ensures t.Seconds() == t.content / 0x4000_0000 % 64
    ensures t.Milliseconds() == t.content / 0x10_0000 % 1024
    ensures t.Microseconds() == t.content / 0x400 % 1024
    ensures t.Nanoseconds() == t.content % 1024
  {
    Pow2Values();
    var c := t.content;
    ShiftIsDivision(c, 56);
    ShiftIsDivision(c, 47);
    ShiftIsDivision(c, 42);
    ShiftIsDivision(c, 36);
    ShiftIsDivision(c, 30);
    ShiftIsDivision(c, 20);
    ShiftIsDivision(c, 10);
    BitAndLowOnes(ShiftRight(c, 47), 9);
    BitAndLowOnes(ShiftRight(c, 42), 5);
    BitAndLowOnes(ShiftRight(c, 36), 6);
    BitAndLowOnes(ShiftRight(c, 30), 6);
    BitAndLowOnes(ShiftRight(c, 20), 10);
    BitAndLowOnes(ShiftRight(c, 10), 10);
    BitAndLowOnes(c, 10);
  }

  /** How the quotients at the field boundaries nest. */
  lemma Quotients(c: u64)
    ensures c == (c / 0x400) * 1024 + c % 1024
    ensures c / 0x400 == (c / 0x10_0000) * 1024 + c / 0x400 % 1024
    ensures c / 0x10_0000 == (c / 0x4000_0000) * 1024 + c / 0x10_0000 % 1024
    ensures c / 0x4000_0000 == (c / 0x10_0000_0000) * 64 + c / 0x4000_0000 % 64
    ensures c / 0x10_0000_0000 == (c / 0x400_0000_0000) * 64 + c / 0x10_0000_0000 % 64
    ensures c / 0x400_0000_0000 == (c / 0x8000_0000_0000) * 32 + c / 0x400_0000_0000 % 32
    ensures c / 0x8000_0000_0000 == (c / 0x100_0000_0000_0000) * 512 + c / 0x8000_0000_0000 % 512
  {
    DivSplit(c, 0x400, 1024);
    DivSplit(c, 0x10_0000, 1024);
    DivSplit(c, 0x4000_0000, 64);
    DivSplit(c, 0x10_0000_0000, 64);
    DivSplit(c, 0x400_0000_0000, 32);
    DivSplit(c, 0x8000_0000_0000, 512);
  }

  /** Every 64-bit word is the packing of its own fields. */
  lemma PackOfFields(t: GpsTime)
    ensures t.ToFields().InRange()
    ensures t.ToFields().Pack() == t.content
  {
    AccessorValues(t);
    Quotients(t.content);
  }

  /** Cutting off the fields of a packing one by one, from the lowest. */
  lemma PackedQuotients(f: Fields)
    requires f.InRange()
    ensures var c := f.Pack();
            && c / 0x100_0000_0000_0000 == f.years && c / 0x8000_0000_0000 % 512 == f.days
            && c / 0x400_0000_0000 % 32 == f.hours && c / 0x10_0000_0000 % 64 == f.minutes
            && c / 0x4000_0000 % 64 == f.seconds && c / 0x10_0000 % 1024 == f.milliseconds
            && c / 0x400 % 1024 == f.microseconds && c % 1024 == f.nanoseconds
    ensures f.Pack() < 0x1_0000_0000_0000_0000
  {
    var c := f.Pack();
    var k1 := f.years * 512 + f.days;
    var k2 := k1 * 32 + f.hours;
    var k3 := k2 * 64 + f.minutes;
    var k4 := k3 * 64 + f.seconds;
    var k5 := k4 * 1024 + f.milliseconds;
    var k6 := k5 * 1024 + f.microseconds;
    Quotients(c);
    DivModUnique(c, 1024, k6, f.nanoseconds);
    DivModUnique(k6, 1024, k5, f.microseconds);
    DivModUnique(k5, 1024, k4, f.milliseconds);
    DivModUnique(k4, 64, k3, f.seconds);
    DivModUnique(k3, 64, k2, f.minutes);
    DivModUnique(k2, 32, k1, f.hours);
    DivModUnique(k1, 512, f.years, f.days);
  }

  /** In-range fields survive packing, seconds across the word boundary included. */
  lemma FieldsOfPack(f: Fields)
    requires f.InRange()
    ensures f.Pack() < 0x1_0000_0000_0000_0000
    ensures GpsTime(f.Pack()).ToFields() == f
  {
    hide GpsTime.Years, GpsTime.Days, GpsTime.Hours, GpsTime.Minutes, GpsTime.Seconds, GpsTime.Milliseconds,
      GpsTime.Microseconds, GpsTime.Nanoseconds, Fields.Pack;
    PackedQuotients(f);
    AccessorValues(GpsTime(f.Pack()));
  }

  // ----- Calendar arithmetic

  lemma DivStepFrom(year: int, base: int, d: nat)
    requires d > 0 && (base - 1) % d == 0
    ensures (year - base) / d - (year - 1 - base) / d == if (year - 1) % d == 0 then 1 else 0
  {
    DivStep(year - base, d);
    var k := (base - 1) / d;
    var q, r := (year - base) / d, (year - base) % d;
    assert (q + k) * d == q * d + k * d;
    DivModUnique(year - 1, d, q + k, r);
  }

  lemma LeapRule(year: int, fourth: int, hundredth: int, fourHundredth: int)
    requires fourth == if year % 4 == 0 then 1 else 0
    requires hundredth == if year % 100 == 0 then 1 else 0
    requires fourHundredth == if year % 400 == 0 then 1 else 0
    ensures fourth - hundredth + fourHundredth == YearLength(year) - 365
  {}

  lemma LeapYearStep(year: int)
    ensures (year - 1969) / 4 - (year - 1 - 1969) / 4
            - ((year - 1901) / 100 - (year - 1 - 1901) / 100)
            + ((year - 1601) / 400 - (year - 1 - 1601) / 400)
            == YearLength(year - 1) - 365
  {
    hide YearLength;
    DivStepFrom(year, 1969, 4);
    DivStepFrom(year, 1901, 100);
    DivStepFrom(year, 1601, 400);
    LeapRule(year - 1,
             (year - 1969) / 4 - (year - 1 - 1969) / 4,
             (year - 1901) / 100 - (year - 1 - 1901) / 100,
             (year - 1601) / 400 - (year - 1 - 1601) / 400);
  }

  /** The year-by-year count agrees with the POSIX closed form. */
  lemma {:induction false} DaysBeforeYearIsPosix(year: int)
    requires year >= 1970
    ensures DaysBeforeYear(year) * 86400 == PosixSeconds(year - 1900, 0, 0, 0, 0)
  {
    if year > 1970 {
      DaysBeforeYearIsPosix(year - 1);
      LeapYearStep(year);
    }
  }

  lemma {:induction false} YearsAreDisjoint(year: int, later: int)
    requires 1970 <= year < later
    ensures DaysBeforeYear(year) + YearLength(year) <= DaysBeforeYear(later)
  {
    if year < later - 1 {
      YearsAreDisjoint(year, later - 1);
    }
  }

  lemma DayBounds(year: int)
    requires 2000 <= year < 2256
    ensures DaysBeforeYear(2000) == 10957 && DaysBeforeYear(2256) == 104459
    ensures 10957 <= DaysBeforeYear(year)
    ensures DaysBeforeYear(year) + YearLength(year) <= 104459
  {
    hide DaysBeforeYear, YearLength;
    DaysBeforeYearIsPosix(2000);
    DaysBeforeYearIsPosix(2256);
    YearsAreDisjoint(year, 2256);
    if year > 2000 {
      YearsAreDisjoint(2000, year);
    }
  }

  // ----- The conversion is the POSIX value, and nothing overflows

  lemma WrapOfSmall(x: nat)
    requires x < 0x1_0000_0000_0000_0000
    ensures Wrap64(x) == x
  {}

  /** None of the products overflows, so the total is the wrapped sum of exact parts. */
  lemma ProductsFit(f: Fields, timestampS: nat)
    requires f.InRange() && timestampS <= 9_025_171_200
    ensures f.EagerTotal(timestampS)
            == Wrap64(Wrap64(Wrap64(Wrap64(Wrap64(Wrap64(
                 timestampS * 1_000_000_000 + f.hours * 3_600_000_000_000) + f.minutes * 60_000_000_000)
                 + f.seconds * 1_000_000_000) + f.milliseconds * 1_000_000) + f.microseconds * 1000) + f.nanoseconds)
  {
    hide Wrap64;
    WrapOfSmall(timestampS * NANOS_PER_SEC);
    WrapOfSmall(f.hours * 3600);
    WrapOfSmall(f.hours * 3600 * NANOS_PER_SEC);
    WrapOfSmall(f.minutes * 60);
    WrapOfSmall(f.minutes * 60 * NANOS_PER_SEC);
    WrapOfSmall(f.seconds * NANOS_PER_SEC);
    WrapOfSmall(f.milliseconds * 1_000_000);
    WrapOfSmall(f.microseconds * 1000);
  }

  lemma SumFits(d: nat, h: nat, m: nat, s: nat, ms: nat, us: nat, ns: nat)
    requires d + h + m + s + ms + us + ns < 0x1_0000_0000_0000_0000
    ensures Wrap64(Wrap64(Wrap64(Wrap64(Wrap64(Wrap64(d + h) + m) + s) + ms) + us) + ns)
            == d + h + m + s + ms + us + ns
  {
    assert Wrap64(d + h) == d + h;
    assert Wrap64(d + h + m) == d + h + m;
    assert Wrap64(d + h + m + s) == d + h + m + s;
    assert Wrap64(d + h + m + s + ms) == d + h + m + s + ms;
    assert Wrap64(d + h + m + s + ms + us) == d + h + m + s + ms + us;
  }

  lemma TotalBelow2To63(f: Fields, day: nat)
    requires f.InRange() && day <= 104458
    ensures ((day * 1440 + f.hours * 60 + f.minutes) * 60 + f.seconds) * 1_000_000_000 + f.SubSecond()
            == day * 86400 * 1_000_000_000 + f.hours * 3_600_000_000_000 + f.minutes * 60_000_000_000
               + f.seconds * 1_000_000_000 + f.milliseconds * 1_000_000 + f.microseconds * 1000 + f.nanoseconds
            < 0x8000_0000_0000_0000
  {}

  lemma EagerTotalOfDay(f: Fields, day: nat)
    requires f.InRange() && day <= 104458
    ensures f.EagerTotal(Wrap64(day * 86400))
            == ((day * 1440 + f.hours * 60 + f.minutes) * 60 + f.seconds) * 1_000_000_000 + f.SubSecond()
  {
    hide Wrap64, Fields.SubSecond, Fields.EagerTotal;
    WrapOfSmall(day * 86400);
    ProductsFit(f, day * 86400);
    TotalBelow2To63(f, day);
    SumFits(day * 86400 * 1_000_000_000, f.hours * 3_600_000_000_000, f.minutes * 60_000_000_000,
            f.seconds * 1_000_000_000, f.milliseconds * 1_000_000, f.microseconds * 1000, f.nanoseconds);
  }

  lemma EagerTotalOfFields(f: Fields)
    requires f.InRange() && f.IsCalendarDay()
    ensures var day := DaysBeforeYear(2000 + f.years) + f.days - 1;
            && FromYearOrdinal(f.years + 2000, f.days) == Some(day)
            && f.EagerTotal(Wrap64(day * 86400)) == f.Nanoseconds()
            && 0 <= f.Nanoseconds() < 0x8000_0000_0000_0000
  {
    hide Wrap64, Fields.EagerTotal;
    DayBounds(2000 + f.years);
    EagerTotalOfDay(f, DaysBeforeYear(2000 + f.years) + f.days - 1);
    TotalBelow2To63(f, DaysBeforeYear(2000 + f.years) + f.days - 1);
  }

  /**
   For every word that names a real calendar day, even with its time fields out of
   range, the eagerly evaluated sum is the unbounded one and fits a signed 64-bit integer.
   */
  lemma EagerTotalIsExact(t: GpsTime)
    requires t.ToFields().IsCalendarDay()
    ensures var f := t.ToFields();
            && var day := DaysBeforeYear(2000 + f.years) + f.days - 1;
            && FromYearOrdinal(f.years + 2000, f.days) == Some(day)
            && f.EagerTotal(Wrap64(day * 86400)) == f.Nanoseconds()
            && 0 <= f.Nanoseconds() < 0x8000_0000_0000_0000
  {
    PackOfFields(t);
    hide GpsTime.ToFields;
    EagerTotalOfFields(t.ToFields());
  }

  lemma MinuteIndexIsPosix(f: Fields)
    ensures f.MinuteIndex() * 60 + f.seconds
            == PosixSeconds(100 + f.years, f.days - 1, f.hours, f.minutes, f.seconds)
  {
    DaysBeforeYearIsPosix(2000 + f.years);
  }

  lemma ValueOfFields(f: Fields)
    requires f.InRange()
    ensures f.NanosecondsSinceEpoch() == if f.Valid() then Some(f.Nanoseconds()) else None
  {
    hide Fields.EagerTotal, Fields.Nanoseconds, DaysBeforeYear, Wrap64;
    if f.IsCalendarDay() {
      EagerTotalOfFields(f);
    }
  }

  /** The conversion, read through the fields of the word. */
  lemma ValueOf(t: GpsTime)
    ensures var f := t.ToFields();
            && f.InRange() && f.Pack() == t.content
            && t.NanosecondsSinceEpoch() == if f.Valid() then Some(f.Nanoseconds()) else None
  {
    PackOfFields(t);
    hide GpsTime.ToFields, Fields.NanosecondsSinceEpoch;
    ValueOfFields(t.ToFields());
  }

  /**
   The result is defined exactly on valid timestamps, and is then the POSIX
   "Seconds Since the Epoch" of the fields, in nanoseconds.
   */
  lemma ValueIsPosix(t: GpsTime)
    ensures var f := t.ToFields();
            t.NanosecondsSinceEpoch() ==
            if f.Valid() then
              Some(PosixSeconds(100 + f.years, f.days - 1, f.hours, f.minutes, f.seconds) * 1_000_000_000
                   + f.SubSecond())
            else None
  {
    hide GpsTime.ToFields, Fields.NanosecondsSinceEpoch, PosixSeconds;
    ValueOf(t);
    MinuteIndexIsPosix(t.ToFields());
  }

  /** Packing the fields of a real moment gives a word with the value of that moment. */
  lemma ValueOfPacked(f: Fields)
    requires f.Valid()
    ensures f.Pack() < 0x1_0000_0000_0000_0000 && GpsTime(f.Pack()).ToFields() == f
    ensures GpsTime(f.Pack()).NanosecondsSinceEpoch()
            == Some(PosixSeconds(100 + f.years, f.days - 1, f.hours, f.minutes, f.seconds) * 1_000_000_000
                    + f.SubSecond())
  {
    hide GpsTime.ToFields, GpsTime.NanosecondsSinceEpoch;
    FieldsOfPack(f);
    ValueIsPosix(GpsTime(f.Pack()));
  }

  /** The later casts to a signed reference time keep the value. */
  lemma ValueFitsI64(t: GpsTime)
    requires t.ToFields().Valid()
    ensures t.NanosecondsSinceEpoch().Some?
    ensures var ns := t.NanosecondsSinceEpoch().value;
            ns < 0x8000_0000_0000_0000 && AsI64(ns) == ns
  {
    hide GpsTime.ToFields, Fields.NanosecondsSinceEpoch;
    ValueOf(t);
    EagerTotalIsExact(t);
  }

  // ----- Order

  /** The 28 bits above the seconds. */
  function PackedMinute(f: Fields): nat {
    ((f.years * 512 + f.days) * 32 + f.hours) * 64 + f.minutes
  }

  /** Days since the Unix epoch. */
  function DayIndex(f: Fields): int {
    DaysBeforeYear(2000 + f.years) + f.days - 1
  }

  lemma DayOrder(f: Fields, g: Fields)
    requires f.Valid() && g.Valid()
    ensures f.years * 512 + f.days < g.years * 512 + g.days <==> DayIndex(f) < DayIndex(g)
    ensures f.years * 512 + f.days == g.years * 512 + g.days <==> DayIndex(f) == DayIndex(g)
  {
    hide DaysBeforeYear, IsLeapYear;
    LexOrder(f.years, f.days, g.years, g.days, 512);
    if f.years < g.years {
      YearsAreDisjoint(2000 + f.years, 2000 + g.years);
    } else if g.years < f.years {
      YearsAreDisjoint(2000 + g.years, 2000 + f.years);
    }
  }

  lemma MinuteOrder(f: Fields, g: Fields)
    requires f.Valid() && g.Valid()
    ensures PackedMinute(f) < PackedMinute(g) <==> f.MinuteIndex() < g.MinuteIndex()
    ensures PackedMinute(f) == PackedMinute(g) <==> f.MinuteIndex() == g.MinuteIndex()
  {
    DayOrder(f, g);
    var d, d' := f.years * 512 + f.days, g.years * 512 + g.days;
    LexOrder(d, f.hours, d', g.hours, 32);
    LexOrder(DayIndex(f), f.hours, DayIndex(g), g.hours, 24);
    LexOrder(d * 32 + f.hours, f.minutes, d' * 32 + g.hours, g.minutes, 64);
    LexOrder(DayIndex(f) * 24 + f.hours, f.minutes, DayIndex(g) * 24 + g.hours, g.minutes, 60);
    assert f.MinuteIndex() == (DayIndex(f) * 24 + f.hours) * 60 + f.minutes;
    assert g.MinuteIndex() == (DayIndex(g) * 24 + g.hours) * 60 + g.minutes;
  }

  /**
   Two valid timestamps with packed words in strict order have strictly ordered values,
   except exactly when the first lies in a leap second and the second, in second 0 of
   the very next minute, is no further into its second. The disorder stays below one second.
   */
  lemma OrderWithLeapSeconds(a: GpsTime, b: GpsTime)
    requires a.ToFields().Valid() && b.ToFields().Valid() && a.content < b.content
    ensures var f, g := a.ToFields(), b.ToFields();
            && (f.Nanoseconds() >= g.Nanoseconds() <==>
                && f.seconds == 60 && g.seconds == 0
                && g.MinuteIndex() == f.MinuteIndex() + 1
                && g.SubSecond() <= f.SubSecond())
            && f.Nanoseconds() < g.Nanoseconds() + 1_000_000_000
  {
    hide GpsTime.ToFields, PackedMinute, Fields.MinuteIndex, Fields.Pack;
    PackOfFields(a);
    PackOfFields(b);
    var f, g := a.ToFields(), b.ToFields();
    MinuteOrder(f, g);
    PackedOrder(f, g);
    assert f.SubSecond() < 1_000_000_000 && g.SubSecond() < 1_000_000_000;
  }

  /** Packed order is lexicographic in minute, second and position inside the second. */
  lemma PackedOrder(f: Fields, g: Fields)
    requires f.Valid() && g.Valid()
    ensures f.Pack() < g.Pack() <==>
            || PackedMinute(f) < PackedMinute(g)
            || (PackedMinute(f) == PackedMinute(g) && f.seconds < g.seconds)
            || (PackedMinute(f) == PackedMinute(g) && f.seconds == g.seconds && f.SubSecond() < g.SubSecond())
  {
    hide Fields.SubSecond;
    var s := (f.milliseconds * 1024 + f.microseconds) * 1024 + f.nanoseconds;
    var t := (g.milliseconds * 1024 + g.microseconds) * 1024 + g.nanoseconds;
    SubSecondOrder(f, g);
    assert f.Pack() == PackedMinute(f) * 0x10_0000_0000 + f.seconds * 0x4000_0000 + s;
    assert g.Pack() == PackedMinute(g) * 0x10_0000_0000 + g.seconds * 0x4000_0000 + t;
  }

  lemma SubSecondOrder(f: Fields, g: Fields)
    requires f.Valid() && g.Valid()
    ensures (f.milliseconds * 1024 + f.microseconds) * 1024 + f.nanoseconds
            < (g.milliseconds * 1024 + g.microseconds) * 1024 + g.nanoseconds
            <==> f.SubSecond() < g.SubSecond()
  {
    LexOrder(f.milliseconds, f.microseconds, g.milliseconds, g.microseconds, 1024);
    LexOrder(f.milliseconds, f.microseconds, g.milliseconds, g.microseconds, 1000);
    LexOrder(f.milliseconds * 1024 + f.microseconds, f.nanoseconds,
             g.milliseconds * 1024 + g.microseconds, g.nanoseconds, 1024);
    LexOrder(f.milliseconds * 1000 + f.microseconds, f.nanoseconds,
             g.milliseconds * 1000 + g.microseconds, g.nanoseconds, 1000);
  }

  /** A valid timestamp outside a leap second. */
  predicate Regular(t: GpsTime) {
    t.ToFields().Valid() && t.ToFields().seconds < 60
  }

  /** Outside leap seconds, the order of the words is the order of the moments. */
  lemma OrderIsomorphism(a: GpsTime, b: GpsTime)
    requires Regular(a) && Regular(b)
    ensures a.NanosecondsSinceEpoch().Some? && b.NanosecondsSinceEpoch().Some?
    ensures a.content < b.content <==>
            a.NanosecondsSinceEpoch().value < b.NanosecondsSinceEpoch().value
  {
    hide GpsTime.ToFields, Fields.NanosecondsSinceEpoch, Fields.Nanoseconds, Fields.MinuteIndex, Fields.SubSecond,
      Fields.Valid, Fields.InRange, Fields.Pack;
    ValueOf(a);
    ValueOf(b);
    if a.content < b.content {
      OrderWithLeapSeconds(a, b);
    } else if b.content < a.content {
      OrderWithLeapSeconds(b, a);
    }
  }

  // ----- Every moment has its timestamp

  lemma {:induction false} FindYear(day: nat, last: int) returns (year: int)
    requires last >= 2000 && DaysBeforeYear(2000) <= day < DaysBeforeYear(last)
    ensures 2000 <= year < last
    ensures DaysBeforeYear(year) <= day < DaysBeforeYear(year) + YearLength(year)
  {
    if day < DaysBeforeYear(last - 1) {
      year := FindYear(day, last - 1);
    } else {
      year := last - 1;
    }
  }

  /** The fields of a moment between 2000-01-01 and 2256-01-01. */
  lemma FieldsOfMoment(ns: nat) returns (f: Fields)
    requires 946_684_800_000_000_000 <= ns < 9_025_257_600_000_000_000
    ensures f.Valid() && f.seconds < 60 && f.Nanoseconds() == ns
  {
    var sub := ns % 1_000_000_000;
    var sec := ns / 1_000_000_000;
    var minute := sec / 60;
    var day := minute / 1440;
    DayBounds(2000);
    var year := FindYear(day, 2256);
    var m := minute % 1440;
    f := Fields(year - 2000, day - DaysBeforeYear(year) + 1, m / 60, m % 60, sec % 60,
                sub / 1_000_000, sub / 1_000 % 1_000, sub % 1_000);
    DivSplit(sub, 1_000, 1_000);
    assert f.SubSecond() == sub;
    assert f.MinuteIndex() == minute;
  }

  /**
   Every nanosecond from 2000-01-01 up to, not including, 2256-01-01 is the value of
   exactly one word outside leap seconds.
   */
  lemma EveryMomentOnce(ns: nat) returns (t: GpsTime)
    requires 946_684_800_000_000_000 <= ns < 9_025_257_600_000_000_000
    ensures Regular(t) && t.NanosecondsSinceEpoch() == Some(ns)
    ensures forall u: GpsTime :: Regular(u) && u.NanosecondsSinceEpoch() == Some(ns) ==> u == t
  {
    var f := FieldsOfMoment(ns);
    FieldsOfPack(f);
    t := GpsTime(f.Pack());
    ValueOf(t);
    forall u: GpsTime | Regular(u) && u.NanosecondsSinceEpoch() == Some(ns)
      ensures u == t
    {
      OrderIsomorphism(u, t);
      OrderIsomorphism(t, u);
    }
  }

  /** Every value lies between 2000-01-01 and 2256-01-01, the end included for leap seconds. */
  lemma ValueRange(t: GpsTime)
    requires t.ToFields().Valid()
    ensures t.NanosecondsSinceEpoch().Some?
    ensures var ns := t.NanosecondsSinceEpoch().value;
            && 946_684_800_000_000_000 <= ns < 9_025_257_601_000_000_000
            && (t.ToFields().seconds < 60 ==> ns < 9_025_257_600_000_000_000)
  {
    hide GpsTime.ToFields, Fields.NanosecondsSinceEpoch;
    ValueOf(t);
    DayBounds(2000 + t.ToFields().years);
  }

  // ----- Leap seconds

  /**
   A leap second has the value of second 0 of the next minute, through hour, day and
   year rollover; the carried timestamp exists unless the value reaches 2256.
   */
  lemma LeapSecondCarries(t: GpsTime)
    requires t.ToFields().Valid() && t.ToFields().seconds == 60
    ensures t.NanosecondsSinceEpoch().Some?
    ensures var f := t.ToFields();
            var ns := t.NanosecondsSinceEpoch().value;
            && (f.NextMinute().Some? <==> ns < 9_025_257_600_000_000_000)
            && (f.NextMinute().Some? ==>
                  var next := f.NextMinute().value;
                  && next.Valid() && next.seconds == 0 && next.Pack() < 0x1_0000_0000_0000_0000
                  && GpsTime(next.Pack()).NanosecondsSinceEpoch() == Some(ns)
                  && t.content < next.Pack())
  {
    hide GpsTime.ToFields, Fields.NanosecondsSinceEpoch, PackedMinute, IsLeapYear, Fields.Pack, Fields.SubSecond;
    var f := t.ToFields();
    ValueOf(t);
    DayBounds(2000 + f.years);
    if f.NextMinute().Some? {
      var next := f.NextMinute().value;
      NextMinuteIndex(f);
      FieldsOfPack(next);
      var u := GpsTime(next.Pack());
      ValueOf(u);
      MinuteOrder(f, next);
      PackedOrder(f, next);
      YearsBefore2256(next);
    }
  }

  /**
   The one-second bound on the disorder is tight: the last nanosecond of any leap second
   that has a next minute overtakes the start of that minute by 999999999 ns.
   */
  lemma DisorderIsTight(f: Fields) returns (a: GpsTime, b: GpsTime)
    requires f.Valid() && f.seconds == 60 && f.NextMinute().Some?
    requires f.milliseconds == f.microseconds == f.nanoseconds == 999
    ensures a.content == f.Pack() && a.content < b.content
    ensures a.NanosecondsSinceEpoch().Some? && b.NanosecondsSinceEpoch().Some?
    ensures a.NanosecondsSinceEpoch().value == b.NanosecondsSinceEpoch().value + 999_999_999
  {
    hide GpsTime.ToFields, GpsTime.NanosecondsSinceEpoch, Fields.NanosecondsSinceEpoch, Fields.MinuteIndex;
    var next := f.NextMinute().value;
    var g := next.(milliseconds := 0, microseconds := 0, nanoseconds := 0);
    NextMinuteIndex(f);
    SameMinute(g, next);
    FieldsOfPack(f);
    FieldsOfPack(g);
    a, b := GpsTime(f.Pack()), GpsTime(g.Pack());
    ValueOf(a);
    ValueOf(b);
    MinuteOrder(f, g);
    PackedOrder(f, g);
  }

  lemma SameMinute(f: Fields, g: Fields)
    requires f.years == g.years && f.days == g.days && f.hours == g.hours && f.minutes == g.minutes
    ensures f.MinuteIndex() == g.MinuteIndex()
  {}

  lemma NextMinuteIndex(f: Fields)
    requires f.Valid() && f.NextMinute().Some?
    ensures var next := f.NextMinute().value;
            next.Valid() && next.MinuteIndex() == f.MinuteIndex() + 1 && next.SubSecond() == f.SubSecond()
  {}

  lemma YearsBefore2256(f: Fields)
    requires f.Valid() && f.seconds < 60
    ensures f.Nanoseconds() < 9_025_257_600_000_000_000
  {
    DayBounds(2000 + f.years);
  }
}
