/** What the text made from a time tuple says: read back from its characters, it names the tuple's own date and time
    less the tuple's offset. */
module TimeTuples {
  import opened Calendar
  import opened Json
  import opened Timestamps
  import opened Wrappers

  // ----- Reading a timestamp -----

  datatype Stamp = Stamp(year: int, month: int, day: int, hour: int, minute: int, second: int, nano: int)

  /** The value of decimal digits. */
  function Number(digits: string): int {
    if digits == "" then 0
    else 10 * Number(digits[..|digits| - 1]) + (digits[|digits| - 1] as int - '0' as int)
  }

  function SignedNumber(text: string): int {
    if text != "" && text[0] == '-' then -Number(text[1..])
    else if text != "" && text[0] == '+' then Number(text[1..])
    else Number(text)
  }

  /** Digits after a point, as billionths. */
  function Billionths(text: string): int {
    if text == "" || |text| > 10 then 0 else Number(text[1..]) * Pow10(10 - |text|)
  }

  /** The first hyphen after the first character. */
  function YearEnd(text: string, from: nat): (n: nat)
    requires from <= |text|
    ensures from <= n <= |text|
    decreases |text| - from
  {
    if from == |text| || text[from] == '-' then from else YearEnd(text, from + 1)
  }

  /** The fields, taken from where RFC 3339 writes them. */
  function ReadStamp(text: string): Option<Stamp> {
    if text == "" then None
    else
      var n := YearEnd(text, 1);
      if n + 21 > |text| then None
      else
        var rest, tail := text[n + 1..], |text| - n - 7;
        if !(rest[2] == '-' && rest[5] == 'T' && rest[8] == ':' && rest[11] == ':' && rest[tail..] == "+00:00")
        then None
        else Some(Stamp(SignedNumber(text[..n]), Number(rest[..2]), Number(rest[3..5]), Number(rest[6..8]),
                        Number(rest[9..11]), Number(rest[12..14]), Billionths(rest[14..tail])))
  }

  function DaysIn(month: int, leap: bool): int {
    if month == 2 then (if leap then 29 else 28) else if month in {4, 6, 9, 11} then 30 else 31
  }

  /** The days of the year before a month. */
  function DaysBeforeMonth(month: int, leap: bool): int {
    if month <= 1 then 0 else DaysBeforeMonth(month - 1, leap) + DaysIn(month - 1, leap)
  }

  function LeapYear(y: int): bool {
    y % 400 == 0 || (y % 4 == 0 && y % 100 != 0)
  }

  /** Seconds since the start of year 0. */
  function Seconds(year: int, ordinal: int, hour: int, minute: int, second: int): int {
    86_400 * DayNumber(YearDay(year, ordinal)) + 3600 * hour + 60 * minute + second
  }

  function StampSeconds(s: Stamp): int {
    Seconds(s.year, DaysBeforeMonth(s.month, LeapYear(s.year)) + s.day, s.hour, s.minute, s.second)
  }

  /** A date and a time of day; second 60 is the leap second. */
  predicate Proper(s: Stamp) {
    && 1 <= s.month <= 12 && 1 <= s.day <= DaysIn(s.month, LeapYear(s.year))
    && 0 <= s.hour < 24 && 0 <= s.minute < 60 && 0 <= s.second <= 60 && 0 <= s.nano < 1_000_000_000
  }

  // ----- Reading back what is printed -----

  lemma {:induction false} NumberOfDec(w: nat, n: nat)
    requires n < Pow10(w)
    ensures Number(Dec(w, n)) == n
  {
    if w > 0 {
      NumberOfDec(w - 1, n / 10);
      assert Dec(w, n)[..w - 1] == Dec(w - 1, n / 10);
      assert Digit(n % 10) as int - '0' as int == n % 10;
    }
  }

  lemma SignedNumberOfYear(y: int)
    ensures SignedNumber(YearText(y)) == y && |YearText(y)| >= 4
    ensures forall k :: 1 <= k < |YearText(y)| ==> YearText(y)[k] != '-'
  {
    hide Dec, Number;
    var n := if y < 0 then -y else y;
    DecimalIsDec(n);
    Powers();
    NumberOfDec(Width(n), n);
    forall k | 0 <= k < Width(n)
      ensures '0' <= Dec(Width(n), n)[k] <= '9'
    {
      DecIsDigits(Width(n), n, k);
    }
    assert ("-" + Decimal(n))[1..] == Decimal(n) == ("+" + Decimal(n))[1..];
  }

  lemma {:induction false} YearEndIs(text: string, from: nat, n: nat)
    requires from <= n < |text| && text[n] == '-' && forall k :: from <= k < n ==> text[k] != '-'
    ensures YearEnd(text, from) == n
    decreases n - from
  {
    if from < n {
      YearEndIs(text, from + 1, n);
    }
  }

  lemma BillionthsOfFraction(nano: nat)
    requires nano < NANO
    ensures Billionths(FractionText(nano)) == nano && |FractionText(nano)| <= 10
  {
    hide Dec, Number;
    Powers();
    var t := FractionText(nano);
    if nano == 0 {
    } else if nano % 1_000_000 == 0 {
      NumberOfDec(3, nano / 1_000_000);
      assert t[1..] == Dec(3, nano / 1_000_000);
      assert Pow10(10 - |t|) == 1_000_000;
    } else if nano % 1_000 == 0 {
      NumberOfDec(6, nano / 1_000);
      assert t[1..] == Dec(6, nano / 1_000);
      assert Pow10(10 - |t|) == 1_000;
    } else {
      NumberOfDec(9, nano);
      assert t[1..] == Dec(9, nano);
      assert Pow10(10 - |t|) == 1;
    }
  }

  /** The shape of a timestamp's text. */
  function Shape(y: string, mo: string, d: string, h: string, mi: string, s: string, f: string): string {
    y + "-" + Rest(mo, d, h, mi, s, f)
  }

  function Rest(mo: string, d: string, h: string, mi: string, s: string, f: string): string {
    mo + "-" + d + "T" + h + ":" + mi + ":" + s + f + "+00:00"
  }

  lemma RestParts(mo: string, d: string, h: string, mi: string, s: string, f: string)
    requires |mo| == |d| == |h| == |mi| == |s| == 2
    ensures var rest := Rest(mo, d, h, mi, s, f);
            && |rest| == |f| + 20
            && rest[2] == '-' && rest[5] == 'T' && rest[8] == ':' && rest[11] == ':' && rest[14 + |f|..] == "+00:00"
            && rest[..2] == mo && rest[3..5] == d && rest[6..8] == h && rest[9..11] == mi && rest[12..14] == s
            && rest[14..14 + |f|] == f
  {
  }

  lemma ReadsShape(y: string, mo: string, d: string, h: string, mi: string, s: string, f: string)
    requires y != "" && (forall k :: 1 <= k < |y| ==> y[k] != '-') && |mo| == |d| == |h| == |mi| == |s| == 2
    ensures ReadStamp(Shape(y, mo, d, h, mi, s, f))
            == Some(Stamp(SignedNumber(y), Number(mo), Number(d), Number(h), Number(mi), Number(s), Billionths(f)))
  {
    hide Number, SignedNumber, Billionths, YearEnd;
    var rest := Rest(mo, d, h, mi, s, f);
    var text := y + "-" + rest;
    RestParts(mo, d, h, mi, s, f);
    hide Rest;
    assert text[|y|] == '-' && text[..|y|] == y && text[|y| + 1..] == rest && |text| == |y| + 21 + |f|;
    YearEndIs(text, 1, |y|);
  }

  lemma {:induction false} MonthsBefore(m: int, leap: bool)
    requires 1 <= m <= 13
    ensures DaysBeforeMonth(m, leap) == MonthStart(m, leap)
  {
    if m > 1 {
      MonthsBefore(m - 1, leap);
    }
  }

  /** The fields of an instant's text. */
  function StampOf(i: Instant): Stamp
    requires ValidInstant(i)
  {
    var d := Date(i);
    var leap := Leap(d.year);
    Stamp(d.year, Month(d.ordinal, leap), DayOfMonth(d.ordinal, leap), i.secs % DAY / 3600, i.secs % 3600 / 60,
          Second(i), Nano(i))
  }

  lemma StampOfDate(d: YearDay)
    requires ValidYearDay(d)
    ensures var leap := Leap(d.year);
            var month, day := Month(d.ordinal, leap), DayOfMonth(d.ordinal, leap);
            && leap == LeapYear(d.year) && 1 <= month <= 12 && 1 <= day <= DaysIn(month, leap)
            && DaysBeforeMonth(month, leap) + day == d.ordinal
  {
    hide Month, MonthStart, LeapYear, Leap;
    SameLeap(d.year);
    var leap := Leap(d.year);
    var month := Month(d.ordinal, leap);
    MonthsBefore(month, leap);
    MonthsBefore(month + 1, leap);
  }

  lemma SameLeap(y: int)
    ensures Leap(y) == LeapYear(y)
  {
    Divisible(y);
  }

  lemma StampOfInstant(i: Instant)
    requires ValidInstant(i)
    ensures var s := StampOf(i);
            && Proper(s) && StampSeconds(s) == i.secs + (if i.frac >= NANO then 1 else 0) && s.nano == i.frac % NANO
            && (s.second == 60 <==> i.frac >= NANO) && s.year == Date(i).year
  {
    hide Month, DayOfMonth, Leap, LeapYear, DaysIn, DaysBeforeMonth, DayNumber;
    var d := Date(i);
    StampOfDate(d);
    DayNumberOfFrom(i.secs / DAY);
    Decompose(i.secs);
  }

  /** The text of an instant, read back. */
  lemma ReadsBack(i: Instant)
    requires ValidInstant(i)
    ensures ReadStamp(ToRfc3339(i)) == Some(StampOf(i))
  {
    var s := StampOf(i);
    StampOfInstant(i);
    TextShape(i);
    hide Shape, ToRfc3339, Dec, Number, SignedNumber, Billionths, FractionText, YearText, ReadStamp, Date, Month,
      DayOfMonth, LeapYear, StampSeconds;
    SignedNumberOfYear(s.year);
    Powers();
    ReadsShape(YearText(s.year), Dec(2, s.month), Dec(2, s.day), Dec(2, s.hour), Dec(2, s.minute), Dec(2, s.second),
               FractionText(s.nano));
    NumberOfDec(2, s.month);
    NumberOfDec(2, s.day);
    NumberOfDec(2, s.hour);
    NumberOfDec(2, s.minute);
    NumberOfDec(2, s.second);
    BillionthsOfFraction(s.nano);
  }

  lemma TextShape(i: Instant)
    requires ValidInstant(i)
    ensures var s := StampOf(i);
            && s.month >= 0 && s.day >= 0 && s.hour >= 0 && s.minute >= 0 && s.second >= 0 && s.nano >= 0
            && ToRfc3339(i) == Shape(YearText(s.year), Dec(2, s.month), Dec(2, s.day), Dec(2, s.hour), Dec(2, s.minute),
                                     Dec(2, s.second), FractionText(s.nano))
  {
    hide Dec, FractionText, YearText, Date, Month, DayOfMonth;
    var s := StampOf(i);
    Regroup(YearText(s.year), Dec(2, s.month), Dec(2, s.day), Dec(2, s.hour), Dec(2, s.minute), Dec(2, s.second),
            FractionText(s.nano));
  }

  lemma Regroup(y: string, mo: string, d: string, h: string, mi: string, s: string, f: string)
    ensures y + "-" + mo + "-" + d + "T" + (h + ":" + mi + ":" + s) + (f + "+00:00") == Shape(y, mo, d, h, mi, s, f)
  {
    assert y + "-" + mo + "-" + d + "T" + (h + ":" + mi + ":" + s) + (f + "+00:00")
        == y + "-" + (mo + "-" + d + "T" + h + ":" + mi + ":" + s + f + "+00:00");
  }

  // ----- Tuples -----

  predicate Integers(arr: seq<Value>, n: nat) {
    n <= |arr| && forall k :: 0 <= k < n ==> arr[k].Int? && -0x8000_0000_0000_0000 <= arr[k].n < 0x8000_0000_0000_0000
  }

  /** Six numbers and an offset, as one number or as three; more may follow the three. */
  predicate Tuple(arr: seq<Value>) {
    (|arr| == 7 && Integers(arr, 7)) || Integers(arr, 9)
  }

  function OffsetOf(arr: seq<Value>): int
    requires Tuple(arr)
  {
    if |arr| == 7 then arr[6].n else 3600 * arr[6].n + 60 * arr[7].n + arr[8].n
  }

  /** The six numbers are a year, a day of it and a time of day that the date library knows. */
  predicate NamesTime(arr: seq<Value>)
    requires Tuple(arr)
  {
    && -262_143 <= arr[0].n <= 262_142 && 1 <= arr[1].n <= (if LeapYear(arr[0].n) then 366 else 365)
    && 0 <= arr[2].n < 24 && 0 <= arr[3].n < 60 && 0 <= arr[4].n < 60
    && 0 <= arr[5].n < (if arr[4].n == 59 then 2_000_000_000 else 1_000_000_000)
  }

  function Local(arr: seq<Value>): int
    requires Tuple(arr)
  {
    Seconds(arr[0].n, arr[1].n, arr[2].n, arr[3].n, arr[4].n)
  }

  predicate LeapSecond(arr: seq<Value>)
    requires Tuple(arr)
  {
    arr[5].n >= 1_000_000_000
  }

  /** The local time less the offset. Going back from a leap second starts from the second after it, going forward from
      the second it belongs to. */
  function Utc(arr: seq<Value>): int
    requires Tuple(arr)
  {
    Local(arr) - OffsetOf(arr) + if LeapSecond(arr) && OffsetOf(arr) > 0 then 1 else 0
  }

  /** Whether the text shows a leap second. */
  predicate ShowsLeap(arr: seq<Value>)
    requires Tuple(arr)
  {
    LeapSecond(arr) && OffsetOf(arr) == 0
  }

  lemma IntAtIs(arr: seq<Value>, n: nat)
    requires n <= |arr|
    ensures Integers(arr, n) <==> forall k :: 0 <= k < n ==> IntAt(arr, k).Some?
    ensures Integers(arr, n) ==> forall k :: 0 <= k < n ==> IntAt(arr, k) == Some(arr[k].n)
  {
    if forall k :: 0 <= k < n ==> IntAt(arr, k).Some? {
      forall k | 0 <= k < n
        ensures arr[k].Int? && -0x8000_0000_0000_0000 <= arr[k].n < 0x8000_0000_0000_0000
      {
        assert IntAt(arr, k).Some?;
      }
    }
  }

  lemma OffsetIs(arr: seq<Value>)
    ensures Tuple(arr) <==> Offset(arr).Some? && Integers(arr, 6)
    ensures Tuple(arr) ==> Offset(arr) == Some(OffsetOf(arr))
  {
    hide AsI64;
    if |arr| == 7 {
      IntAtIs(arr, 6);
      IntAtIs(arr, 7);
    } else if |arr| >= 9 {
      IntAtIs(arr, 6);
      IntAtIs(arr, 9);
    }
  }

  lemma LocalTimeIs(arr: seq<Value>)
    requires Tuple(arr)
    ensures LocalTime(arr).Some? <==> NamesTime(arr)
    ensures NamesTime(arr) ==> LocalTime(arr).value.1 == Instant(Local(arr), arr[5].n)
  {
    hide DayNumber, Leap, LeapYear, AsI64, IntAt;
    SameLeap(arr[0].n);
    IntAtIs(arr, 6);
  }

  lemma TupleInstantIs(arr: seq<Value>)
    ensures TupleInstant(arr).Some? <==> Tuple(arr) && NamesTime(arr)
    ensures Tuple(arr) && NamesTime(arr) ==>
              var i := TupleInstant(arr).value;
              && i.secs == Utc(arr) && i.frac % NANO == arr[5].n % NANO && (i.frac >= NANO <==> ShowsLeap(arr))
  {
    hide DayNumber, Leap, LeapYear, LocalTime, Offset, Local, IntAt, Integers;
    OffsetIs(arr);
    if Tuple(arr) {
      LocalTimeIs(arr);
    } else if LocalTime(arr).Some? {
      SixIntegers(arr);
    }
  }

  lemma SixIntegers(arr: seq<Value>)
    requires LocalTime(arr).Some?
    ensures Integers(arr, 6)
  {
    assert |arr| >= 6;
    IntAtIs(arr, 6);
  }

  /** Which years the date library's arithmetic reaches. */
  predicate InReach(secs: int) {
    Seconds(-262_143, 1, 0, 0, 0) <= secs < Seconds(262_143, 1, 0, 0, 0)
  }

  lemma ReachIsYears(i: Instant)
    ensures InReach(i.secs) <==> MIN_YEAR <= Date(i).year <= MAX_YEAR
  {
    var d := Date(i);
    DayNumberOfFrom(i.secs / DAY);
    var first, after := YearDay(-262_143, 1), YearDay(262_143, 1);
    hide FromDayNumber, DayNumber, Leap;
    assert ValidYearDay(first) && ValidYearDay(after);
    DayOrder(d, first);
    DayOrder(first, d);
    DayOrder(d, after);
    DayOrder(after, d);
  }

  /** When a tuple becomes a text, is refused, or cannot be computed, from its numbers alone. */
  lemma ConvertsExactly(arr: seq<Value>)
    ensures TimeTupleToIso(arr).NotADateTime? <==> !(Tuple(arr) && NamesTime(arr))
    ensures TimeTupleToIso(arr).Text? <==> Tuple(arr) && NamesTime(arr) && InReach(Utc(arr))
  {
    hide TupleInstant, ToRfc3339, Date, Utc, NamesTime, InReach;
    TupleInstantIs(arr);
    if TupleInstant(arr).Some? {
      ReachIsYears(TupleInstant(arr).value);
    }
  }

  /** The local fields that a number of seconds stands for. */
  predicate Shows(secs: int, arr: seq<Value>)
    requires Tuple(arr)
  {
    && FromDayNumber(secs / 86_400) == YearDay(arr[0].n, arr[1].n)
    && secs % 86_400 / 3600 == arr[2].n && secs % 3600 / 60 == arr[3].n && secs % 60 == arr[4].n
  }

  lemma LocalShows(arr: seq<Value>)
    requires Tuple(arr) && NamesTime(arr)
    ensures Shows(Local(arr), arr)
  {
    var date := YearDay(arr[0].n, arr[1].n);
    SameLeap(arr[0].n);
    FromOfDayNumber(date);
    ClockOf(DayNumber(date), arr[2].n, arr[3].n, arr[4].n);
  }

  lemma ClockOf(day: int, hour: int, minute: int, second: int)
    requires 0 <= hour < 24 && 0 <= minute < 60 && 0 <= second < 60
    ensures var secs := 86_400 * day + 3600 * hour + 60 * minute + second;
            secs / 86_400 == day && secs % 86_400 / 3600 == hour && secs % 3600 / 60 == minute && secs % 60 == second
  {
    var secs := 86_400 * day + 3600 * hour + 60 * minute + second;
    Decompose(secs);
    assert secs / 86_400 == day;
  }

  /** What the text made from a tuple says. Its fields, read back, are a date and a time of day; moved forward by the
      offset they are the year, day, hour, minute, second and nanosecond of the tuple. The second after a leap second
      stands for it unless the offset moves forward in time. */
  lemma TextNamesTheTuple(arr: seq<Value>)
    requires TimeTupleToIso(arr).Text?
    ensures Tuple(arr) && NamesTime(arr)
    ensures var read := ReadStamp(TimeTupleToIso(arr).text);
            && read.Some? && Proper(read.value)
            && Shows(StampSeconds(read.value) + OffsetOf(arr)
                     - (if LeapSecond(arr) && OffsetOf(arr) >= 0 then 1 else 0),
                     arr)
            && read.value.nano == arr[5].n % 1_000_000_000
            && (read.value.second == 60 <==> ShowsLeap(arr))
  {
    hide TupleInstant, ToRfc3339, Date, StampOf, ReadStamp, Proper, StampSeconds, Shows, Local, NamesTime;
    var i := TupleInstant(arr).value;
    TupleInstantIs(arr);
    ReadsBack(i);
    StampOfInstant(i);
    LocalShows(arr);
  }

  /** Two tuples print one text if and only if their local fields less their offsets are the same time, and either both
      or neither shows a leap second. */
  lemma OneTextExactly(a: seq<Value>, b: seq<Value>)
    requires TimeTupleToIso(a).Text? && TimeTupleToIso(b).Text?
    ensures Tuple(a) && Tuple(b)
    ensures TimeTupleToIso(a) == TimeTupleToIso(b) <==>
            Utc(a) == Utc(b) && a[5].n % 1_000_000_000 == b[5].n % 1_000_000_000 && (ShowsLeap(a) <==> ShowsLeap(b))
  {
    hide TupleInstant, ToRfc3339, Date, Utc, NamesTime, ShowsLeap, Integers;
    TupleInstantIs(a);
    TupleInstantIs(b);
    TextOrderExactly(TupleInstant(a).value, TupleInstant(b).value);
  }

  /** How two tuples compare in time, to the nanosecond and with a leap second after the second it belongs to. */
  function CompareTimes(a: seq<Value>, b: seq<Value>): int
    requires Tuple(a) && Tuple(b)
  {
    if Utc(a) != Utc(b) then Sign(Utc(a) - Utc(b))
    else if ShowsLeap(a) != ShowsLeap(b) then (if ShowsLeap(b) then -1 else 1)
    else Sign(a[5].n % 1_000_000_000 - b[5].n % 1_000_000_000)
  }

  /** Two texts compare as strings as the times of their tuples do, if and only if the years they show are written in
      time order. */
  lemma TextsCompareAsTimes(a: seq<Value>, b: seq<Value>)
    requires TimeTupleToIso(a).Text? && TimeTupleToIso(b).Text?
    ensures var r, r' := ReadStamp(TimeTupleToIso(a).text), ReadStamp(TimeTupleToIso(b).text);
            && Tuple(a) && Tuple(b) && r.Some? && r'.Some?
            && (Compare(TimeTupleToIso(a).text, TimeTupleToIso(b).text) == CompareTimes(a, b)
                <==> YearsSortInTime(r.value.year, r'.value.year))
  {
    hide TupleInstant, ToRfc3339, Date, Utc, NamesTime, ShowsLeap, Integers, Compare, YearsSortInTime, ReadStamp,
      StampOf, Proper, StampSeconds;
    var i, j := TupleInstant(a).value, TupleInstant(b).value;
    TupleInstantIs(a);
    TupleInstantIs(b);
    ReadsBack(i);
    ReadsBack(j);
    StampOfInstant(i);
    StampOfInstant(j);
    TextOrderExactly(i, j);
  }
}
