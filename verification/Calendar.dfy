/**
 * Civil and firmware time to FILETIME: 100-nanosecond units since the start of 1601.
 */
module Calendar {
  import opened Words

  const MIN_YEAR: nat := 1601
  const MAX_YEAR: nat := 9999
  const EFI_MIN_YEAR: nat := 1900
  const UNSPECIFIED_TIMEZONE: int := 2047

  datatype TimeResult = Ok | InvalidField | InvalidTimezone | ConversionOverflow

  datatype Civil = Civil(year: nat, month: nat, day: nat, hour: nat, minute: nat, second: nat, nanosecond: nat)

  /** EFI_TIME of section 8.3 of the UEFI specification 2.10. */
  datatype EfiTime = EfiTime(civil: Civil, pad1: nat, pad2: nat, timeZone: int, daylight: nat)

  predicate IsLeap(year: nat) {
    year % 4 == 0 && (year % 100 != 0 || year % 400 == 0)
  }

  function DaysInMonth(year: nat, month: nat): nat
    requires 1 <= month <= 12
  {
    if month == 2 && IsLeap(year) then 29 else [31, 28, 31, 30, 31, 30, 31, 31, 30, 31, 30, 31][month - 1]
  }

  predicate ValidDate(c: Civil) {
    && MIN_YEAR <= c.year <= MAX_YEAR && 1 <= c.month <= 12 && 1 <= c.day <= DaysInMonth(c.year, c.month)
  }

  predicate ValidCivil(c: Civil) {
    ValidDate(c) && c.hour <= 23 && c.minute <= 59 && c.second <= 59 && c.nanosecond < 1_000_000_000
  }

  // ---- Days ----

  function YearDays(year: nat): nat {
    if IsLeap(year) then 366 else 365
  }

  function BeforeYear(year: nat): nat {
    if year <= MIN_YEAR then 0 else BeforeYear(year - 1) + YearDays(year - 1)
  }

  function BeforeMonth(year: nat, month: nat): nat
    requires 1 <= month <= 13
  {
    if month == 1 then 0 else BeforeMonth(year, month - 1) + DaysInMonth(year, month - 1)
  }

  function DayNumber(c: Civil): int
    requires ValidDate(c)
  {
    BeforeYear(c.year) + BeforeMonth(c.year, c.month) + c.day - 1
  }

  /** The Gregorian rule in closed form: leap days up to the year before, less those before 1601. */
  function LeapDays(year: nat): int
    requires year > 0
  {
    (year - 1) / 4 - (year - 1) / 100 + (year - 1) / 400 - 388
  }

  lemma Carry(year: nat, n: nat)
    requires year > 0 && (n == 4 || n == 100 || n == 400)
    ensures year / n == (year - 1) / n + if year % n == 0 then 1 else 0
  {
  }

  lemma Multiples(k: nat)
    ensures 100 * k % 100 == 0 && 4 * k % 4 == 0
  {
  }

  /** The divisors of the leap rule divide each other. */
  lemma LeapDivisors(year: nat)
    ensures year % 400 == 0 ==> year % 100 == 0
    ensures year % 100 == 0 ==> year % 4 == 0
  {
    var fours, ones := year / 400, year / 100;
    Multiples(4 * fours);
    Multiples(25 * ones);
    assert year % 400 == 0 ==> year == 100 * (4 * fours);
    assert year % 100 == 0 ==> year == 4 * (25 * ones);
  }

  lemma LeapStep(year: nat)
    requires year > 0
    ensures LeapDays(year + 1) == LeapDays(year) + if IsLeap(year) then 1 else 0
  {
    Carry(year, 4);
    Carry(year, 100);
    Carry(year, 400);
    LeapDivisors(year);
  }

  /** The year loop computes the closed form. */
  lemma {:induction false} ClosedYears(year: nat)
    requires year >= MIN_YEAR
    ensures BeforeYear(year) == 365 * (year - MIN_YEAR) + LeapDays(year)
  {
    if year > MIN_YEAR {
      ClosedYears(year - 1);
      LeapStep(year - 1);
    }
  }

  /** The month loop computes the closed form, with the short February put right. */
  lemma ClosedMonths(year: nat, month: nat)
    requires 1 <= month <= 12
    ensures BeforeMonth(year, month) == (367 * month - 362) / 12
              - (if month <= 2 then 0 else if IsLeap(year) then 1 else 2)
  {
    if month > 1 {
      ClosedMonths(year, month - 1);
    }
  }

  lemma {:induction false} YearsApart(a: nat, b: nat)
    requires MIN_YEAR <= a < b
    ensures BeforeYear(a) + YearDays(a) <= BeforeYear(b)
  {
    if a + 1 < b {
      YearsApart(a, b - 1);
    }
  }

  lemma {:induction false} MonthsApart(year: nat, a: nat, b: nat)
    requires 1 <= a < b <= 13
    ensures BeforeMonth(year, a) + DaysInMonth(year, a) <= BeforeMonth(year, b)
  {
    if a + 1 < b {
      MonthsApart(year, a, b - 1);
    }
  }

  lemma WholeYear(year: nat)
    ensures BeforeMonth(year, 13) == YearDays(year)
  {
    ClosedMonths(year, 12);
  }

  ghost predicate EarlierDate(a: Civil, b: Civil) {
    a.year < b.year || (a.year == b.year && (a.month < b.month || (a.month == b.month && a.day < b.day)))
  }

  /** Day numbers follow the calendar order. */
  lemma DaysOrdered(a: Civil, b: Civil)
    requires ValidDate(a) && ValidDate(b) && EarlierDate(a, b)
    ensures DayNumber(a) < DayNumber(b)
  {
    MonthsApart(a.year, a.month, 13);
    WholeYear(a.year);
    if a.year < b.year {
      YearsApart(a.year, b.year);
    } else if a.month < b.month {
      MonthsApart(a.year, a.month, b.month);
    }
  }

  lemma {:induction false} DaysBound(year: nat)
    requires MIN_YEAR <= year
    ensures BeforeYear(year) <= 366 * (year - MIN_YEAR)
  {
    if year > MIN_YEAR {
      DaysBound(year - 1);
    }
  }

  /** The day count in closed form. */
  lemma DayNumberClosed(c: Civil)
    requires ValidDate(c)
    ensures DayNumber(c) == 365 * (c.year - MIN_YEAR) + LeapDays(c.year)
                            + (367 * c.month - 362) / 12
                            - (if c.month <= 2 then 0 else if IsLeap(c.year) then 1 else 2) + c.day - 1
  {
    ClosedYears(c.year);
    ClosedMonths(c.year, c.month);
  }

  /** gxos_checked_add_u64 */
  method CheckedAdd(left: u64, right: u64) returns (ok: bool, sum: u64)
    ensures ok <==> left + right <= MAX_U64
    ensures ok ==> sum == left + right
  {
    if right > MAX_U64 - left {
      return false, 0;
    }
    return true, left + right;
  }

  /** gxos_checked_mul_u64 */
  method CheckedMul(left: u64, right: u64) returns (ok: bool, product: u64)
    ensures ok <==> left * right <= MAX_U64
    ensures ok ==> product == left * right
  {
    if left != 0 {
      Divides(left, right);
    }
    if left != 0 && right > MAX_U64 / left {
      return false, 0;
    }
    return true, left * right;
  }

  lemma Divides(left: u64, right: u64)
    requires left != 0
    ensures right <= MAX_U64 / left <==> left * right <= MAX_U64
  {
  }

  /** gxos_days_since_epoch; it cannot overflow. */
  method DaysSinceEpoch(c: Civil) returns (result: TimeResult, days: u64)
    requires ValidDate(c)
    ensures result == Ok && days == DayNumber(c)
  {
    hide IsLeap, DaysInMonth;
    days := 0;
    var current: u64 := 0;
    var year := MIN_YEAR;
    while year < c.year
      invariant MIN_YEAR <= year <= c.year <= MAX_YEAR && current == BeforeYear(year)
    {
      DaysBound(year);
      var ok, sum := CheckedAdd(current, if IsLeap(year) then 366 else 365);
      if !ok {
        result := ConversionOverflow;
        return;
      }
      current := sum;
      year := year + 1;
    }
    DaysBound(year);
    var month := 1;
    while month < c.month
      invariant 1 <= month <= c.month <= 12 && current == BeforeYear(c.year) + BeforeMonth(c.year, month)
      invariant BeforeMonth(c.year, month) <= 31 * (month - 1)
    {
      MonthBound(c.year, month);
      var ok, sum := CheckedAdd(current, DaysInMonth(c.year, month));
      if !ok {
        result := ConversionOverflow;
        return;
      }
      current := sum;
      month := month + 1;
    }
    MonthBound(c.year, c.month);
    var ok, sum := CheckedAdd(current, c.day - 1);
    if !ok {
      result := ConversionOverflow;
      return;
    }
    return Ok, sum;
  }

  lemma MonthBound(year: nat, month: nat)
    requires 1 <= month <= 12
    ensures DaysInMonth(year, month) <= 31
  {
  }

  // ---- FILETIME ----

  function SecondOfDay(c: Civil): nat {
    c.hour * 3600 + c.minute * 60 + c.second
  }

  /** Seconds since 1601 in UTC; local time is UTC minus the zone. */
  function UtcSeconds(c: Civil, zone: int): int
    requires ValidDate(c)
  {
    DayNumber(c) * 86400 + SecondOfDay(c) + zone * 60
  }

  function FileTime(c: Civil, zone: int): int
    requires ValidDate(c)
  {
    UtcSeconds(c, zone) * 10_000_000 + c.nanosecond / 100
  }

  /** Civil minutes since the start of 1601. */
  function Minutes(c: Civil): int
    requires ValidDate(c)
  {
    DayNumber(c) * 1440 + c.hour * 60 + c.minute
  }

  lemma SecondsBound(c: Civil)
    requires ValidCivil(c)
    ensures 0 <= UtcSeconds(c, 0) < 3_100_000 * 86400
    ensures c.year >= EFI_MIN_YEAR ==> UtcSeconds(c, 0) >= 100_000 * 86400
  {
    DaysBound(c.year);
    MonthsApart(c.year, c.month, 13);
    WholeYear(c.year);
    assert 0 <= DayNumber(c) < 366 * (c.year - MIN_YEAR) + 366;
    if c.year >= EFI_MIN_YEAR {
      ClosedYears(c.year);
    }
  }

  /** gxos_filetime_from_local_civil: the only overflow is a zone that reaches back before 1601. */
  method FromLocal(c: Civil, zone: int) returns (result: TimeResult, filetime: u64)
    ensures result == InvalidField <==> !ValidCivil(c)
    ensures result != InvalidField <==>
              && 1601 <= c.year <= 9999 && 1 <= c.month <= 12 && 1 <= c.day <= DaysInMonth(c.year, c.month)
              && c.hour < 24 && c.minute < 60 && c.second < 60 && c.nanosecond < 1_000_000_000
    ensures result == InvalidTimezone <==> ValidCivil(c) && !(-1440 <= zone <= 1440)
    ensures result == ConversionOverflow <==> ValidCivil(c) && -1440 <= zone <= 1440 && UtcSeconds(c, zone) < 0
    ensures result == ConversionOverflow <==> ValidCivil(c) && -1440 <= zone <= 1440 && Minutes(c) + zone < 0
    ensures result == Ok ==> ValidCivil(c) && filetime == FileTime(c, zone)
  {
    hide DayNumber;
    if !ValidCivil(c) {
      return InvalidField, 0;
    }
    if zone < -1440 || zone > 1440 {
      return InvalidTimezone, 0;
    }
    SecondsBound(c);
    filetime := 0;
    var dayResult, days := DaysSinceEpoch(c);
    if dayResult != Ok {
      result := dayResult;
      return;
    }
    var ok, daySeconds := CheckedMul(days, 86400);
    if !ok {
      result := ConversionOverflow;
      return;
    }
    var seconds: u64;
    ok, seconds := CheckedAdd(daySeconds, SecondOfDay(c));
    if !ok {
      result := ConversionOverflow;
      return;
    }
    var adjusted: u64;
    if zone >= 0 {
      ok, adjusted := CheckedAdd(seconds, zone * 60);
      if !ok {
        result := ConversionOverflow;
        return;
      }
    } else {
      var magnitude := -zone * 60;
      if magnitude > seconds {
        return ConversionOverflow, 0;
      }
      adjusted := seconds - magnitude;
    }
    var units: u64;
    ok, units := CheckedMul(adjusted, 10_000_000);
    if !ok {
      result := ConversionOverflow;
      return;
    }
    ok, filetime := CheckedAdd(units, c.nanosecond / 100);
    result := if ok then Ok else ConversionOverflow;
  }

  /** One civil day on. */
  function NextDay(c: Civil): Civil
    requires ValidDate(c)
  {
    if c.day < DaysInMonth(c.year, c.month) then c.(day := c.day + 1)
    else if c.month < 12 then c.(month := c.month + 1, day := 1)
    else c.(year := c.year + 1, month := 1, day := 1)
  }

  /** The day number counts civil days one by one from 1601-01-01. */
  lemma DayNumberCounts(c: Civil)
    requires ValidDate(c) && c.year < MAX_YEAR
    ensures ValidDate(NextDay(c)) && DayNumber(NextDay(c)) == DayNumber(c) + 1
    ensures c.year == MIN_YEAR && c.month == 1 && c.day == 1 ==> DayNumber(c) == 0
  {
    WholeYear(c.year);
  }

  /** The same instant told in a zone and in UTC has the same FILETIME. */
  lemma ZoneMeaning(c: Civil, u: Civil, zone: int)
    requires ValidCivil(c) && ValidCivil(u) && c.second == u.second && c.nanosecond == u.nanosecond
    requires Minutes(u) == Minutes(c) + zone
    ensures FileTime(c, zone) == FileTime(u, 0) && UtcSeconds(c, zone) >= 0
  {
    hide DayNumber, ValidDate;
    SecondsBound(u);
  }

  /** Days, hours, minutes, seconds and nanoseconds all count in 100 ns units. */
  lemma FileTimeSpans(a: Civil, b: Civil)
    requires ValidCivil(a) && ValidCivil(b)
    ensures FileTime(b, 0) - FileTime(a, 0)
         == (DayNumber(b) - DayNumber(a)) * 864_000_000_000 + (b.hour - a.hour) * 36_000_000_000
            + (b.minute - a.minute) * 600_000_000 + (b.second - a.second) * 10_000_000
            + b.nanosecond / 100 - a.nanosecond / 100
  {
    hide DayNumber, ValidDate;
  }

  ghost predicate Earlier(a: Civil, b: Civil) {
    || EarlierDate(a, b)
    || (a.year == b.year && a.month == b.month && a.day == b.day
        && (SecondOfDay(a) < SecondOfDay(b) || (SecondOfDay(a) == SecondOfDay(b) && a.nanosecond < b.nanosecond)))
  }

  /** FILETIME follows the order of civil time, strictly when the difference is at least one unit. */
  lemma FileTimeOrdered(a: Civil, b: Civil)
    requires ValidCivil(a) && ValidCivil(b) && Earlier(a, b)
    ensures FileTime(a, 0) <= FileTime(b, 0)
    ensures FileTime(a, 0) == FileTime(b, 0) <==>
              a.(nanosecond := 0) == b.(nanosecond := 0) && a.nanosecond / 100 == b.nanosecond / 100
  {
    assert SecondOfDay(a) < 86400 && SecondOfDay(b) < 86400;
    if EarlierDate(a, b) {
      DaysOrdered(a, b);
      assert UtcSeconds(a, 0) < UtcSeconds(b, 0);
    } else {
      if SecondOfDay(a) == SecondOfDay(b) {
        SameClock(a, b);
      }
      assert DayNumber(a) == DayNumber(b);
    }
  }

  lemma SameClock(a: Civil, b: Civil)
    requires ValidCivil(a) && ValidCivil(b) && SecondOfDay(a) == SecondOfDay(b)
    ensures a.hour == b.hour && a.minute == b.minute && a.second == b.second
  {
  }

  /** gxos_filetime_from_efi_time: a firmware time that passes the field checks always converts. */
  method FromEfi(t: EfiTime) returns (result: TimeResult, filetime: u64)
    ensures result != ConversionOverflow
    ensures result == Ok <==>
              && ValidCivil(t.civil) && t.civil.year >= EFI_MIN_YEAR && t.pad1 == 0 && t.pad2 == 0
              && -1440 <= t.timeZone <= 1440 && (t.daylight == 0 || t.daylight == 2 || t.daylight == 3)
    ensures result == Ok ==> filetime == FileTime(t.civil, t.timeZone)
  {
    if t.civil.year < EFI_MIN_YEAR || t.civil.year > MAX_YEAR {
      return InvalidField, 0;
    }
    if t.pad1 != 0 || t.pad2 != 0 {
      return InvalidField, 0;
    }
    if t.timeZone == UNSPECIFIED_TIMEZONE {
      return InvalidTimezone, 0;
    }
    if t.timeZone < -1440 || t.timeZone > 1440 {
      return InvalidTimezone, 0;
    }
    if t.daylight / 4 != 0 {
      return InvalidField, 0;
    }
    if t.daylight % 2 != 0 && t.daylight / 2 % 2 == 0 {
      return InvalidTimezone, 0;
    }
    result, filetime := FromLocal(t.civil, t.timeZone);
    if ValidCivil(t.civil) {
      SecondsBound(t.civil);
    }
  }

  /** Where UTC lies `zone` minutes after local time, local time in the zone and UTC convert to the same FILETIME. */
  method SameInstant(c: Civil, u: Civil, zone: int) returns (local: u64, utc: u64)
    requires ValidCivil(c) && ValidCivil(u) && c.second == u.second && c.nanosecond == u.nanosecond
    requires -1440 <= zone <= 1440 && Minutes(u) == Minutes(c) + zone
    ensures local == utc
  {
    hide DayNumber, ValidDate;
    ZoneMeaning(c, u, zone);
    SecondsBound(u);
    var result;
    result, local := FromLocal(c, zone);
    result, utc := FromLocal(u, 0);
  }

  /** The clock of a civil time. */
  predicate At(c: Civil, hour: nat, minute: nat, second: nat, nanosecond: nat) {
    c.hour == hour && c.minute == minute && c.second == second && c.nanosecond == nanosecond
  }

  /** The day of a civil time. */
  predicate On(c: Civil, year: nat, month: nat, day: nat) {
    c.year == year && c.month == month && c.day == day
  }

  lemma KnownDays(c: Civil)
    ensures On(c, 1601, 1, 1) ==> ValidDate(c) && DayNumber(c) == 0
    ensures On(c, 1970, 1, 1) ==> ValidDate(c) && DayNumber(c) == 134_774
    ensures On(c, 2000, 2, 29) ==> ValidDate(c) && DayNumber(c) == 145_790
    ensures On(c, 2024, 6, 1) ==> ValidDate(c) && DayNumber(c) == 154_649
  {
    hide DayNumber;
    if ValidDate(c) {
      DayNumberClosed(c);
    }
  }

  /** Known instants: the start of 1601 and of 1970, a leap day in 2000, and a summer noon two hours west of UTC. */
  method KnownInstants(c: Civil, zone: int) returns (filetime: u64)
    ensures On(c, 1601, 1, 1) && At(c, 0, 0, 0, 0) && zone == 0 ==> filetime == 0
    ensures On(c, 1970, 1, 1) && At(c, 0, 0, 0, 0) && zone == 0 ==> filetime == 116_444_736_000_000_000
    ensures On(c, 2000, 2, 29) && At(c, 23, 59, 59, 199) && zone == 0 ==> filetime == 125_963_423_990_000_001
    ensures On(c, 2024, 6, 1) && At(c, 12, 0, 0, 0) && zone == 120 ==> filetime == 133_617_240_000_000_000
  {
    hide DayNumber, ValidDate, On;
    KnownDays(c);
    var result;
    result, filetime := FromLocal(c, zone);
  }

  /** Firmware time is converted with its own zone. */
  method KnownFirmwareTime(t: EfiTime) returns (filetime: u64)
    ensures On(t.civil, 2024, 6, 1) && At(t.civil, 12, 0, 0, 0) && t == EfiTime(t.civil, 0, 0, 120, 0) ==>
              filetime == 133_617_240_000_000_000
  {
    hide DayNumber, ValidDate;
    KnownDays(t.civil);
    var result;
    result, filetime := FromEfi(t);
  }

  // ---- Writing ----

  /** A right shift by 8 * count bits. */
  function Shifted(value: nat, count: nat): nat {
    if count == 0 then value else Shifted(value, count - 1) / 256
  }

  function LittleEndian(bytes: seq<int>): int {
    if bytes == [] then 0 else bytes[0] + 256 * LittleEndian(bytes[1..])
  }

  /** gxos_write_filetime: the bytes read back, low byte first, as the value written. */
  method WriteFileTime(output: array<int>, filetime: u64)
    requires output.Length >= 8
    modifies output
    ensures LittleEndian(output[..8]) == filetime
    ensures forall i | 0 <= i < 8 :: 0 <= output[i] < 256
    ensures output[0] == filetime % 256
    ensures forall i | 8 <= i < output.Length :: output[i] == old(output[i])
  {
    hide Shifted, LittleEndian;
    var low, high := filetime % 0x1_0000_0000, filetime / 0x1_0000_0000;
    var i := 0;
    while i != 4
      invariant 0 <= i <= 4
      invariant forall k | 0 <= k < i :: output[k] == Shifted(low, k) % 256
      invariant forall k | 4 <= k < output.Length :: output[k] == old(output[k])
    {
      output[i] := Shifted(low, i) % 256;
      i := i + 1;
    }
    i := 0;
    while i != 4
      invariant 0 <= i <= 4
      invariant forall k | 0 <= k < 4 :: output[k] == Shifted(low, k) % 256
      invariant forall k | 4 <= k < 4 + i :: output[k] == Shifted(high, k - 4) % 256
      invariant forall k | 8 <= k < output.Length :: output[k] == old(output[k])
    {
      output[4 + i] := Shifted(high, i) % 256;
      i := i + 1;
    }
    Reassemble(output[..8], low, high);
    LowByte(low / 256 + 0x100_0000 * high, output[0]);
  }

  lemma ByteStep(value: nat, count: nat)
    ensures Shifted(value, count) == Shifted(value, count) % 256 + 256 * Shifted(value, count + 1)
  {
  }

  lemma LowByte(quotient: int, byte: int)
    requires 0 <= byte < 256
    ensures (256 * quotient + byte) % 256 == byte
  {
  }

  lemma EmptyBytes()
    ensures LittleEndian([]) == 0
  {
  }

  lemma Reassemble(bytes: seq<int>, low: nat, high: nat)
    requires |bytes| == 8 && low < 0x1_0000_0000 && high < 0x1_0000_0000
    requires forall k | 0 <= k < 4 :: bytes[k] == Shifted(low, k) % 256
    requires forall k | 4 <= k < 8 :: bytes[k] == Shifted(high, k - 4) % 256
    ensures LittleEndian(bytes) == low + 0x1_0000_0000 * high
    ensures bytes[0] == low % 256
  {
    hide LittleEndian;
    EmptyBytes();
    HalfBytes(bytes[4..], [], high);
    assert bytes[4..] + [] == bytes[4..];
    HalfBytes(bytes[..4], bytes[4..], low);
    assert bytes[..4] + bytes[4..] == bytes;
  }

  /** Four bytes of a 32-bit value in front of other bytes. */
  lemma HalfBytes(bytes: seq<int>, rest: seq<int>, value: nat)
    requires |bytes| == 4 && value < 0x1_0000_0000 && forall k | 0 <= k < 4 :: bytes[k] == Shifted(value, k) % 256
    ensures LittleEndian(bytes + rest) == value + 0x1_0000_0000 * LittleEndian(rest)
  {
    ByteStep(value, 0);
    ByteStep(value, 1);
    ByteStep(value, 2);
    ByteStep(value, 3);
    var all := bytes + rest;
    assert all[1..][1..] == all[2..] && all[2..][1..] == all[3..] && all[3..][1..] == all[4..] == rest;
    assert LittleEndian(all) == bytes[0] + 256 * LittleEndian(all[1..]);
    assert LittleEndian(all[1..]) == bytes[1] + 256 * LittleEndian(all[2..]);
    assert LittleEndian(all[2..]) == bytes[2] + 256 * LittleEndian(all[3..]);
    assert LittleEndian(all[3..]) == bytes[3] + 256 * LittleEndian(rest);
    assert Shifted(value, 4) == 0;
  }
}
