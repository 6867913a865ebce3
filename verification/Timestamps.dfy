/** `time_tuple_to_iso`: positional date-time tuples to RFC 3339 text, and why comparing the texts as
    strings compares the instants. */
module Timestamps {
  import opened Json
  import opened Calendar
  import opened Wrappers

  // ----- String comparison, and fixed-width numbers under it -----

  /** The sign of comparing two strings character by character. */
  function Compare(a: string, b: string): int {
    if a == "" && b == "" then 0
    else if a == "" then -1
    else if b == "" then 1
    else if a[0] != b[0] then (if a[0] < b[0] then -1 else 1)
    else Compare(a[1..], b[1..])
  }

  function Sign(x: int): int {
    if x < 0 then -1 else if x > 0 then 1 else 0
  }

  /** Lexicographic combination: the first comparison that decides. */
  function Then(first: int, second: int): int {
    if first != 0 then first else second
  }

  lemma {:induction false} CompareSelf(a: string)
    ensures Compare(a, a) == 0
  {
    if a != "" {
      CompareSelf(a[1..]);
    }
  }

  lemma {:induction false} CompareZero(a: string, b: string)
    ensures Compare(a, b) == 0 <==> a == b
  {
    if a != "" && b != "" {
      CompareZero(a[1..], b[1..]);
      assert a == [a[0]] + a[1..] && b == [b[0]] + b[1..];
    }
  }

  lemma {:induction false} CompareSwap(a: string, b: string)
    ensures Compare(b, a) == -Compare(a, b)
  {
    if a != "" && b != "" {
      CompareSwap(a[1..], b[1..]);
    }
  }

  /** Equal-length prefixes decide first. */
  lemma {:induction false} CompareConcat(a: string, b: string, x: string, y: string)
    requires |a| == |b|
    ensures Compare(a + x, b + y) == Then(Compare(a, b), Compare(x, y))
  {
    if a == "" {
      assert a + x == x && b + y == y;
    } else {
      CompareConcat(a[1..], b[1..], x, y);
      assert (a + x)[1..] == a[1..] + x && (b + y)[1..] == b[1..] + y;
    }
  }

  function Pow10(w: nat): nat {
    if w == 0 then 1 else 10 * Pow10(w - 1)
  }

  function Digit(d: int): char
    requires 0 <= d < 10
  {
    "0123456789"[d]
  }

  /** `n` in decimal, padded to `w` digits. */
  function Dec(w: nat, n: nat): (s: string)
    ensures |s| == w
  {
    if w == 0 then "" else Dec(w - 1, n / 10) + [Digit(n % 10)]
  }

  lemma {:induction false} CompareDec(w: nat, m: nat, n: nat)
    requires m < Pow10(w) && n < Pow10(w)
    ensures Compare(Dec(w, m), Dec(w, n)) == Sign(m - n)
  {
    if w > 0 {
      CompareDec(w - 1, m / 10, n / 10);
      CompareConcat(Dec(w - 1, m / 10), Dec(w - 1, n / 10), [Digit(m % 10)], [Digit(n % 10)]);
      DigitOrder(m % 10, n % 10);
    }
  }

  lemma DigitOrder(a: int, b: int)
    requires 0 <= a < 10 && 0 <= b < 10
    ensures Compare([Digit(a)], [Digit(b)]) == Sign(a - b)
    ensures '0' <= Digit(a) <= '9'
  {
  }

  lemma {:induction false} DecIsDigits(w: nat, n: nat, k: nat)
    requires k < w
    ensures '0' <= Dec(w, n)[k] <= '9'
  {
    DigitOrder(n % 10, n % 10);
    if k < w - 1 {
      DecIsDigits(w - 1, n / 10, k);
    }
  }

  /** `n` without its last `e` digits. */
  function DropDigits(n: nat, e: nat): nat {
    if e == 0 then n else DropDigits(n / 10, e - 1)
  }

  /** A longer decimal splits into its leading digits and its last ones. */
  lemma {:induction false} DecSplit(d: nat, e: nat, n: nat)
    ensures Dec(d + e, n) == Dec(d, DropDigits(n, e)) + Dec(e, n)
  {
    if e == 0 {
      assert Dec(d, n) + "" == Dec(d, n);
    } else {
      DecSplit(d, e - 1, n / 10);
      var head, rest := Dec(d, DropDigits(n, e)), Dec(e - 1, n / 10);
      assert (head + rest) + [Digit(n % 10)] == head + (rest + [Digit(n % 10)]);
    }
  }

  // ----- Instants and their text -----

  /** UTC seconds since the start of year 0, and nanoseconds; a leap second keeps second 59 and counts
      its nanoseconds from one second up. */
  datatype Instant = Instant(secs: int, frac: int)

  predicate ValidInstant(i: Instant) {
    0 <= i.frac < 2 * NANO && (i.frac >= NANO ==> i.secs % 60 == 59)
  }

  /** Chronological order. */
  function CompareInstants(a: Instant, b: Instant): int {
    Then(Sign(a.secs - b.secs), Sign(a.frac - b.frac))
  }

  function Date(i: Instant): (d: YearDay)
    ensures ValidYearDay(d)
  {
    DayNumberOfFrom(i.secs / DAY);
    FromDayNumber(i.secs / DAY)
  }

  /** The years RFC 3339 can write. */
  predicate FourDigitYear(i: Instant) {
    0 <= Date(i).year <= 9999
  }

  const UTC := "+00:00"

  function DateText(d: YearDay): string
    requires ValidYearDay(d)
  {
    YearText(d.year) + "-" + Dec(2, Month(d.ordinal, Leap(d.year))) + "-" + Dec(2, DayOfMonth(d.ordinal, Leap(d.year)))
  }

  /** chrono writes other years with a sign. */
  function YearText(y: int): string {
    if 0 <= y <= 9999 then Dec(4, y)
    else if y < 0 then "-" + Decimal(-y)
    else "+" + Decimal(y)
  }

  /** At least four digits. */
  function Decimal(n: nat): string
    decreases n
  {
    if n <= 9999 then Dec(4, n) else Decimal(n / 10) + [Digit(n % 10)]
  }

  function ClockText(hour: nat, minute: nat, second: nat): string {
    Dec(2, hour) + ":" + Dec(2, minute) + ":" + Dec(2, second)
  }

  /** As many groups of three digits as the fraction needs. */
  function FractionText(nano: nat): string {
    if nano == 0 then ""
    else if nano % 1_000_000 == 0 then "." + Dec(3, nano / 1_000_000)
    else if nano % 1_000 == 0 then "." + Dec(6, nano / 1_000)
    else "." + Dec(9, nano)
  }

  function Second(i: Instant): int {
    i.secs % 60 + if i.frac >= NANO then 1 else 0
  }

  function Nano(i: Instant): int {
    if i.frac >= NANO then i.frac - NANO else i.frac
  }

  /** `DateTime::to_rfc3339`. */
  function ToRfc3339(i: Instant): string
    requires ValidInstant(i)
  {
    DateText(Date(i)) + "T" + ClockText(i.secs % DAY / 3600, i.secs % 3600 / 60, Second(i))
    + (FractionText(Nano(i)) + UTC)
  }

  // ----- Fields in order -----

  lemma CompareDec2(m: nat, n: nat)
    requires m < 100 && n < 100
    ensures Compare(Dec(2, m), Dec(2, n)) == Sign(m - n)
  {
    assert Pow10(2) == 100;
    CompareDec(2, m, n);
  }

  /** A fixed-width field followed by its separator. */
  lemma CompareFields(w: nat, m: nat, n: nat, separator: string)
    requires w in {2, 4} && m < Pow10(w) && n < Pow10(w)
    ensures Compare(Dec(w, m) + separator, Dec(w, n) + separator) == Sign(m - n)
  {
    CompareDec(w, m, n);
    CompareConcat(Dec(w, m), Dec(w, n), separator, separator);
    CompareSelf(separator);
  }

  lemma CompareClocks(h: nat, m: nat, s: nat, h': nat, m': nat, s': nat)
    requires h < 24 && h' < 24 && m < 60 && m' < 60 && s <= 60 && s' <= 60
    ensures |ClockText(h, m, s)| == |ClockText(h', m', s')| == 8
    ensures Compare(ClockText(h, m, s), ClockText(h', m', s')) == Then(Sign(h - h'), Then(Sign(m - m'), Sign(s - s')))
  {
    assert Pow10(2) == 100;
    hide Compare, Dec, Pow10;
    CompareFields(2, h, h', ":");
    CompareFields(2, m, m', ":");
    CompareDec2(s, s');
    CompareConcat(Dec(2, h) + ":", Dec(2, h') + ":", Dec(2, m) + ":" + Dec(2, s), Dec(2, m') + ":" + Dec(2, s'));
    CompareConcat(Dec(2, m) + ":", Dec(2, m') + ":", Dec(2, s), Dec(2, s'));
    assert ClockText(h, m, s) == (Dec(2, h) + ":") + (Dec(2, m) + ":" + Dec(2, s));
    assert ClockText(h', m', s') == (Dec(2, h') + ":") + (Dec(2, m') + ":" + Dec(2, s'));
  }

  // ----- Fractions of different lengths -----

  /** The shorter fraction is followed by `+`, which sorts below every digit. */
  lemma {:induction false} CompareShortLong(d: nat, e: nat, m: nat, n: nat)
    requires e > 0 && m < Pow10(d) && DropDigits(n, e) < Pow10(d)
    ensures Compare(Dec(d, m) + UTC, Dec(d + e, n) + UTC) == if m <= DropDigits(n, e) then -1 else 1
  {
    var head, tail := DropDigits(n, e), Dec(e, n) + UTC;
    assert Compare(UTC, tail) == -1 by {
      DecIsDigits(e, n, 0);
      assert tail[0] == Dec(e, n)[0];
    }
    hide Compare, Dec, DropDigits, Pow10;
    DecSplit(d, e, n);
    CompareDec(d, m, head);
    assert (Dec(d, head) + Dec(e, n)) + UTC == Dec(d, head) + tail;
    CompareConcat(Dec(d, m), Dec(d, head), UTC, tail);
  }

  lemma Powers()
    ensures Pow10(2) == 100 && Pow10(3) == 1_000 && Pow10(4) == 10_000 && Pow10(6) == 1_000_000
    ensures Pow10(9) == 1_000_000_000
  {
    assert Pow10(2) == 100;
    assert Pow10(4) == 10_000;
    assert Pow10(6) == 1_000_000;
    assert Pow10(8) == 100_000_000;
  }

  lemma Drop3(n: nat)
    ensures DropDigits(n, 3) == n / 1_000
  {
    assert DropDigits(n, 3) == DropDigits(n / 10, 2);
    assert DropDigits(n / 10, 2) == DropDigits(n / 10 / 10, 1);
    assert DropDigits(n / 10 / 10, 1) == DropDigits(n / 10 / 10 / 10, 0);
  }

  lemma {:induction false} DropAdds(n: nat, a: nat, b: nat)
    ensures DropDigits(n, a + b) == DropDigits(DropDigits(n, a), b)
  {
    if a > 0 {
      DropAdds(n / 10, a - 1, b);
    }
  }

  lemma Drops(n: nat)
    ensures DropDigits(n, 3) == n / 1_000
    ensures DropDigits(n, 6) == n / 1_000_000
  {
    Drop3(n);
    DropAdds(n, 3, 3);
    Drop3(n / 1_000);
  }

  /** Fractions printed with three, six or nine digits, or none, compare as their values. */
  lemma CompareFractions(m: nat, n: nat)
    requires m < NANO && n < NANO
    ensures Compare(FractionText(m) + UTC, FractionText(n) + UTC) == Sign(m - n)
  {
    if Digits(m) <= Digits(n) {
      CompareOrderedFractions(m, n);
    } else {
      CompareOrderedFractions(n, m);
      CompareSwap(FractionText(n) + UTC, FractionText(m) + UTC);
    }
  }

  function Digits(nano: nat): nat {
    if nano == 0 then 0 else if nano % 1_000_000 == 0 then 3 else if nano % 1_000 == 0 then 6 else 9
  }

  lemma CompareOrderedFractions(m: nat, n: nat)
    requires m < NANO && n < NANO && Digits(m) <= Digits(n)
    ensures Compare(FractionText(m) + UTC, FractionText(n) + UTC) == Sign(m - n)
  {
    var k, l := Digits(m), Digits(n);
    if k == 0 {
      if l == 0 {
        CompareSelf(UTC);
        assert "" + UTC == UTC;
      } else {
        assert ("" + UTC)[0] == '+' && (FractionText(n) + UTC)[0] == '.';
      }
    } else {
      var x, y := DropDigits(m, 9 - k), DropDigits(n, 9 - l);
      assert x == Scaled(m) && y == Scaled(n) && x < Pow10(k) && y < Pow10(l) by {
        Drops(m);
        Drops(n);
        Powers();
      }
      assert FractionText(m) + UTC == "." + (Dec(k, x) + UTC) && FractionText(n) + UTC == "." + (Dec(l, y) + UTC) by {
        FractionDigits(m);
        FractionDigits(n);
        assert ("." + Dec(k, x)) + UTC == "." + (Dec(k, x) + UTC) && ("." + Dec(l, y)) + UTC == "." + (Dec(l, y) + UTC);
      }
      CompareConcat(".", ".", Dec(k, x) + UTC, Dec(l, y) + UTC);
      CompareSelf(".");
      CompareScaled(m, n);
    }
  }

  /** The fraction as an integer of its printed digits. */
  function Scaled(nano: nat): nat {
    if Digits(nano) <= 3 then nano / 1_000_000 else if Digits(nano) == 6 then nano / 1_000 else nano
  }

  lemma FractionDigits(nano: nat)
    requires Digits(nano) > 0
    ensures FractionText(nano) == "." + Dec(Digits(nano), Scaled(nano))
  {
  }

  lemma CompareScaled(m: nat, n: nat)
    requires m < NANO && n < NANO && 0 < Digits(m) <= Digits(n)
    ensures Compare(Dec(Digits(m), Scaled(m)) + UTC, Dec(Digits(n), Scaled(n)) + UTC) == Sign(m - n)
  {
    var k, l, x, y := Digits(m), Digits(n), Scaled(m), Scaled(n);
    Powers();
    Drops(y);
    hide Compare, Dec, DropDigits, Pow10;
    if k == l {
      CompareDec(k, x, y);
      CompareConcat(Dec(k, x), Dec(l, y), UTC, UTC);
      CompareSelf(UTC);
    } else {
      CompareShortLong(k, l - k, x, y);
    }
  }

  // ----- The main theorem -----

  /** The fields of a time of day, in order, with the leap second folded in. */
  lemma FieldsOrder(a: Instant, b: Instant)
    requires ValidInstant(a) && ValidInstant(b)
    ensures CompareInstants(a, b)
            == Then(Sign(a.secs / DAY - b.secs / DAY),
                    Then(Then(Sign(a.secs % DAY / 3600 - b.secs % DAY / 3600),
                              Then(Sign(a.secs % 3600 / 60 - b.secs % 3600 / 60), Sign(Second(a) - Second(b)))),
                         Sign(Nano(a) - Nano(b))))
  {
    Decompose(a.secs);
    Decompose(b.secs);
  }

  lemma Decompose(secs: int)
    ensures secs == DAY * (secs / DAY) + 3600 * (secs % DAY / 3600) + 60 * (secs % 3600 / 60) + secs % 60
    ensures 0 <= secs % DAY / 3600 < 24 && 0 <= secs % 3600 / 60 < 60 && 0 <= secs % 60 < 60
  {
    HourOfDay(secs);
    MinuteOfHour(secs);
  }

  lemma HourOfDay(secs: int)
    ensures secs == DAY * (secs / DAY) + 3600 * (secs % DAY / 3600) + secs % 3600
    ensures 0 <= secs % DAY / 3600 < 24
  {
    var sod := secs % DAY;
    var h := sod / 3600;
    assert sod == 3600 * h + sod % 3600;
    assert secs == 3600 * (24 * (secs / DAY) + h) + sod % 3600;
  }

  lemma MinuteOfHour(secs: int)
    ensures secs % 3600 == 60 * (secs % 3600 / 60) + secs % 60
    ensures 0 <= secs % 3600 / 60 < 60
  {
    var r := secs % 3600;
    assert r == 60 * (r / 60) + r % 60;
    assert secs == 60 * (60 * (secs / 3600) + r / 60) + r % 60;
  }

  lemma CompareParts(d: string, c: string, f: string, d': string, c': string, f': string)
    requires |d| == |d'| && |c| == |c'|
    ensures Compare(d + "T" + c + f, d' + "T" + c' + f') == Then(Compare(d, d'), Then(Compare(c, c'), Compare(f, f')))
  {
    CompareSelf("T");
    hide Compare;
    CompareConcat(d, d', "T", "T");
    CompareConcat(d + "T", d' + "T", c, c');
    CompareConcat(d + "T" + c, d' + "T" + c', f, f');
  }

  lemma EarlierYear(a: Instant, b: Instant)
    requires Date(a).year < Date(b).year
    ensures CompareInstants(a, b) == -1
  {
    DayNumberOfFrom(a.secs / DAY);
    DayNumberOfFrom(b.secs / DAY);
    DayOrder(Date(a), Date(b));
    assert a.secs / DAY < b.secs / DAY;
  }

  // ----- Every other year -----

  /** The number of digits a year is written with. */
  function Width(n: nat): (w: nat)
    ensures w >= 4
  {
    if n <= 9999 then 4 else 1 + Width(n / 10)
  }

  lemma {:induction false} DecimalIsDec(n: nat)
    ensures Decimal(n) == Dec(Width(n), n) && n < Pow10(Width(n))
  {
    if n <= 9999 {
      Powers();
    } else {
      DecimalIsDec(n / 10);
    }
  }

  lemma {:induction false} WidthGrows(m: nat, n: nat)
    requires m <= n
    ensures Width(m) <= Width(n)
  {
    if n > 9999 && m > 9999 {
      WidthGrows(m / 10, n / 10);
    }
  }

  lemma {:induction false} DropFits(n: nat, d: nat, e: nat)
    requires n < Pow10(d + e)
    ensures DropDigits(n, e) < Pow10(d)
  {
    if e > 0 {
      DropFits(n / 10, d, e - 1);
    }
  }

  /** `shorter` written out sorts before `longer`, although it has fewer digits. */
  predicate SortsFirst(shorter: nat, longer: nat)
    requires Width(shorter) <= Width(longer)
  {
    if Width(shorter) == Width(longer) then shorter < longer
    else shorter <= DropDigits(longer, Width(longer) - Width(shorter))
  }

  /** Two numbers of at least four digits, each followed by a hyphen. */
  lemma CompareNumbers(m: nat, n: nat, r: string, r': string)
    requires m < n
    ensures Width(m) <= Width(n)
    ensures Compare(Decimal(m) + "-" + r, Decimal(n) + "-" + r') == if SortsFirst(m, n) then -1 else 1
  {
    WidthGrows(m, n);
    DecimalIsDec(m);
    DecimalIsDec(n);
    hide Dec, Decimal, Compare, Pow10;
    var d, e := Width(m), Width(n) - Width(m);
    assert Decimal(m) + "-" + r == Dec(d, m) + ("-" + r);
    if e == 0 {
      assert Decimal(n) + "-" + r' == Dec(d, n) + ("-" + r');
      CompareDec(d, m, n);
      CompareConcat(Dec(d, m), Dec(d, n), "-" + r, "-" + r');
    } else {
      var head, tail := DropDigits(n, e), Dec(e, n) + ("-" + r');
      DropFits(n, d, e);
      DecSplit(d, e, n);
      assert Decimal(n) + "-" + r' == Dec(d, head) + tail;
      CompareDec(d, m, head);
      CompareConcat(Dec(d, m), Dec(d, head), "-" + r, tail);
      HyphenFirst(e, n, r, r');
    }
  }

  /** A hyphen sorts below every digit. */
  lemma HyphenFirst(e: nat, n: nat, r: string, r': string)
    requires e > 0
    ensures Compare("-" + r, Dec(e, n) + ("-" + r')) == -1
  {
    DecIsDigits(e, n, 0);
    assert (Dec(e, n) + ("-" + r'))[0] == Dec(e, n)[0];
  }

  /** Exactly which years are written in time order. The sign of a later year sorts below every digit and below the
      sign of an earlier one; among signed years the digits decide, in reverse before year 0. */
  predicate YearsSortInTime(y: int, y': int) {
    if y == y' then true
    else
      var first, second := if y < y' then y else y', if y < y' then y' else y;
      if second > 9999 then
        first > 9999 && (Width(first) <= Width(second) ==> SortsFirst(first, second))
      else second >= 0 || (Width(-second) <= Width(-first) ==> !SortsFirst(-second, -first))
  }

  lemma CompareYears(y: int, y': int, r: string, r': string)
    requires y < y'
    ensures Compare(YearText(y) + "-" + r, YearText(y') + "-" + r') == if YearsSortInTime(y, y') then -1 else 1
  {
    hide Compare, Dec, Decimal, Width, SortsFirst;
    if 0 <= y && y' <= 9999 {
      FourDigits(y, y');
      CompareNumbers(y, y', r, r');
    } else if y > 9999 {
      CompareNumbers(y, y', r, r');
      CompareSigned("+", Decimal(y), r, Decimal(y'), r');
    } else if y' < 0 {
      CompareNumbers(-y', -y, r', r);
      CompareSigned("-", Decimal(-y), r, Decimal(-y'), r');
      CompareSwap(Decimal(-y') + "-" + r', Decimal(-y) + "-" + r);
    } else {
      FirstOfYear(y, r);
      FirstOfYear(y', r');
      CompareFirst(YearText(y) + "-" + r, YearText(y') + "-" + r');
    }
  }

  lemma FourDigits(y: nat, y': nat)
    requires y < y' <= 9999
    ensures YearText(y) == Decimal(y) && YearText(y') == Decimal(y') && Width(y) == Width(y') && SortsFirst(y, y')
  {
    hide Dec;
  }

  lemma CompareFirst(a: string, b: string)
    requires a != "" && b != "" && a[0] != b[0]
    ensures Compare(a, b) == if a[0] < b[0] then -1 else 1
  {
  }

  lemma CompareSigned(sign: string, m: string, r: string, n: string, r': string)
    ensures Compare((sign + m) + "-" + r, (sign + n) + "-" + r') == Compare(m + "-" + r, n + "-" + r')
  {
    CompareSelf(sign);
    hide Compare;
    assert (sign + m) + "-" + r == sign + (m + "-" + r) && (sign + n) + "-" + r' == sign + (n + "-" + r');
    CompareConcat(sign, sign, m + "-" + r, n + "-" + r');
  }

  lemma FirstOfYear(y: int, r: string)
    ensures var text := YearText(y) + "-" + r;
            text != "" && if y < 0 then text[0] == '-' else if y > 9999 then text[0] == '+' else '0' <= text[0] <= '9'
  {
    if 0 <= y <= 9999 {
      DecIsDigits(4, y, 0);
    }
  }

  lemma CompareMonthDays(year: string, m: nat, d: nat, m': nat, d': nat)
    requires m < 100 && m' < 100 && d < 100 && d' < 100
    ensures Compare(year + "-" + Dec(2, m) + "-" + Dec(2, d), year + "-" + Dec(2, m') + "-" + Dec(2, d'))
            == Then(Sign(m - m'), Sign(d - d'))
  {
    hide Compare, Dec;
    var head := year + "-";
    CompareSelf(head);
    CompareDec2(m, m');
    CompareDec2(d, d');
    CompareSelf("-");
    CompareConcat(Dec(2, m), Dec(2, m'), "-", "-");
    CompareConcat(Dec(2, m) + "-", Dec(2, m') + "-", Dec(2, d), Dec(2, d'));
    var rest, rest' := Dec(2, m) + "-" + Dec(2, d), Dec(2, m') + "-" + Dec(2, d');
    assert head + Dec(2, m) + "-" + Dec(2, d) == head + rest && head + Dec(2, m') + "-" + Dec(2, d') == head + rest';
    CompareConcat(head, head, rest, rest');
  }

  /** After the year, the texts of one year have the same length up to the fraction. */
  lemma CompareSameYear(a: YearDay, b: YearDay)
    requires ValidYearDay(a) && ValidYearDay(b) && a.year == b.year
    ensures |DateText(a)| == |DateText(b)|
    ensures Compare(DateText(a), DateText(b)) == Sign(DayNumber(a) - DayNumber(b))
  {
    hide Compare, Dec, DayNumber, Month, DayOfMonth, YearText, Leap;
    var leap := Leap(a.year);
    DayOrder(a, b);
    DayOrder(b, a);
    if a.ordinal < b.ordinal {
      MonthOrder(a.ordinal, b.ordinal, leap);
    } else if b.ordinal < a.ordinal {
      MonthOrder(b.ordinal, a.ordinal, leap);
    }
    CompareMonthDays(YearText(a.year), Month(a.ordinal, leap), DayOfMonth(a.ordinal, leap),
                     Month(b.ordinal, leap), DayOfMonth(b.ordinal, leap));
  }

  lemma SameYearTexts(a: Instant, b: Instant)
    requires ValidInstant(a) && ValidInstant(b) && Date(a).year == Date(b).year
    ensures Compare(ToRfc3339(a), ToRfc3339(b)) == CompareInstants(a, b)
  {
    var da, db := DateText(Date(a)), DateText(Date(b));
    var fa, fb := FractionText(Nano(a)) + UTC, FractionText(Nano(b)) + UTC;
    Decompose(a.secs);
    Decompose(b.secs);
    DayNumberOfFrom(a.secs / DAY);
    DayNumberOfFrom(b.secs / DAY);
    FieldsOrder(a, b);
    hide Compare, DateText, ClockText, FractionText, DayNumber, FromDayNumber, ValidYearDay;
    var ca := ClockText(a.secs % DAY / 3600, a.secs % 3600 / 60, Second(a));
    var cb := ClockText(b.secs % DAY / 3600, b.secs % 3600 / 60, Second(b));
    CompareSameYear(Date(a), Date(b));
    CompareClocks(a.secs % DAY / 3600, a.secs % 3600 / 60, Second(a), b.secs % DAY / 3600, b.secs % 3600 / 60,
                  Second(b));
    CompareFractions(Nano(a), Nano(b));
    CompareParts(da, ca, fa, db, cb, fb);
  }

  lemma DifferentYearTexts(a: Instant, b: Instant)
    requires ValidInstant(a) && ValidInstant(b) && Date(a).year < Date(b).year
    ensures CompareInstants(a, b) == -1
    ensures Compare(ToRfc3339(a), ToRfc3339(b)) == if YearsSortInTime(Date(a).year, Date(b).year) then -1 else 1
  {
    EarlierYear(a, b);
    var ra := AfterYear(a);
    var rb := AfterYear(b);
    hide Compare, ToRfc3339, Date, YearsSortInTime, YearText;
    CompareYears(Date(a).year, Date(b).year, ra, rb);
  }

  lemma AfterYear(i: Instant) returns (rest: string)
    requires ValidInstant(i)
    ensures ToRfc3339(i) == YearText(Date(i).year) + "-" + rest
  {
    var d := Date(i);
    hide Date, YearText, ClockText, FractionText, Dec, Month, DayOfMonth;
    rest := Dec(2, Month(d.ordinal, Leap(d.year))) + "-" + Dec(2, DayOfMonth(d.ordinal, Leap(d.year)))
      + "T" + ClockText(i.secs % DAY / 3600, i.secs % 3600 / 60, Second(i)) + (FractionText(Nano(i)) + UTC);
  }

  /** For any two instants whatever, comparing the texts compares the instants if and only if their years are written in
      time order; the texts are equal only for one instant. */
  lemma TextOrderExactly(a: Instant, b: Instant)
    requires ValidInstant(a) && ValidInstant(b)
    ensures Compare(ToRfc3339(a), ToRfc3339(b)) == CompareInstants(a, b)
            <==> YearsSortInTime(Date(a).year, Date(b).year)
    ensures ToRfc3339(a) == ToRfc3339(b) <==> a == b
  {
    var y, y' := Date(a).year, Date(b).year;
    CompareZero(ToRfc3339(a), ToRfc3339(b));
    hide Compare, ToRfc3339, Date, YearsSortInTime;
    if y == y' {
      SameYearTexts(a, b);
      OneYear(y);
    } else if y < y' {
      DifferentYearTexts(a, b);
    } else {
      DifferentYearTexts(b, a);
      CompareSwap(ToRfc3339(a), ToRfc3339(b));
      EitherOrder(y, y');
    }
  }

  /** In particular, in the years RFC 3339 can write, comparing the texts as strings compares the instants, to the
      nanosecond and through leap seconds, although the texts differ in length. */
  lemma TextOrderIsTimeOrder(a: Instant, b: Instant)
    requires ValidInstant(a) && ValidInstant(b) && FourDigitYear(a) && FourDigitYear(b)
    ensures Compare(ToRfc3339(a), ToRfc3339(b)) == CompareInstants(a, b)
    ensures ToRfc3339(a) == ToRfc3339(b) <==> a == b
  {
    hide Compare, ToRfc3339;
    TextOrderExactly(a, b);
  }

  lemma OneYear(y: int)
    ensures YearsSortInTime(y, y)
  {
  }

  lemma EitherOrder(y: int, y': int)
    ensures YearsSortInTime(y, y') == YearsSortInTime(y', y)
  {
  }

  /** Beyond year 9999 chrono writes a sign, and every such text sorts before the four-digit years it follows. */
  lemma SignedYearsSortWrong(a: Instant, b: Instant)
    requires ValidInstant(a) && ValidInstant(b) && FourDigitYear(a) && Date(b).year > 9999
    ensures CompareInstants(a, b) == -1 && Compare(ToRfc3339(a), ToRfc3339(b)) == 1
  {
    hide Compare, ToRfc3339;
    DifferentYearTexts(a, b);
  }

  /** Before year 0 the order of years is reversed, except where the earlier year has more digits and they start below
      the later year's. */
  lemma NegativeYearsSortReversed(a: Instant, b: Instant)
    requires ValidInstant(a) && ValidInstant(b) && Date(a).year < Date(b).year < 0
    ensures var m, n := -Date(b).year, -Date(a).year;
            && CompareInstants(a, b) == -1
            && (Compare(ToRfc3339(a), ToRfc3339(b)) == 1
                <==> Width(m) >= Width(n) || m <= DropDigits(n, Width(n) - Width(m)))
  {
    hide Compare, ToRfc3339, Date, CompareInstants, Width, DropDigits;
    WidthGrows(-Date(b).year, -Date(a).year);
    DifferentYearTexts(a, b);
  }

  // ----- Tuples -----

  const MIN_YEAR: int := -262_143
  const MAX_YEAR: int := 262_142

  /** A tuple converts to text, is not a date-time, or overflows chrono's arithmetic. */
  datatype Converted = Text(text: string) | NotADateTime | Overflows

  function IntAt(arr: seq<Value>, i: nat): Option<int> {
    if i < |arr| then AsI64(arr[i]) else None
  }

  lemma SecondOf(day: int, hour: int, minute: int, second: int)
    requires 0 <= second < 60
    ensures (DAY * day + 3600 * hour + 60 * minute + second) % 60 == second
  {
    assert DAY * day + 3600 * hour + 60 * minute + second == 60 * (1440 * day + 60 * hour + minute) + second;
  }

  /** The first six elements as a local date and time. */
  function LocalTime(arr: seq<Value>): (r: Option<(YearDay, Instant)>)
    ensures r.Some? ==> ValidInstant(r.value.1)
  {
    var year, ordinal := IntAt(arr, 0), IntAt(arr, 1);
    var hour, minute, second, nano := IntAt(arr, 2), IntAt(arr, 3), IntAt(arr, 4), IntAt(arr, 5);
    if year.None? || ordinal.None? || hour.None? || minute.None? || second.None? || nano.None? then None
    else TimeOfDay(YearDay(year.value, ordinal.value), hour.value, minute.value, second.value, nano.value)
  }

  function TimeOfDay(date: YearDay, hour: int, minute: int, second: int, nano: int): (r: Option<(YearDay, Instant)>)
    ensures r.Some? ==> ValidInstant(r.value.1)
  {
    if MIN_YEAR <= date.year <= MAX_YEAR && ValidYearDay(date)
       && 0 <= hour < 24 && 0 <= minute < 60 && 0 <= second < 60
       && 0 <= nano < 2 * NANO && (nano >= NANO ==> second == 59)
    then Some((date, AtTime(DayNumber(date), hour, minute, second, nano)))
    else None
  }

  function AtTime(day: int, hour: int, minute: int, second: int, nano: int): (i: Instant)
    requires 0 <= second < 60 && 0 <= nano < 2 * NANO && (nano >= NANO ==> second == 59)
    ensures ValidInstant(i)
  {
    SecondOf(day, hour, minute, second);
    Instant(DAY * day + 3600 * hour + 60 * minute + second, nano)
  }

  /** The offset in seconds: three fields in the nine-element shape, one in the seven-element shape. */
  function Offset(arr: seq<Value>): Option<int> {
    if |arr| >= 9 then
      var h, m, s := IntAt(arr, 6), IntAt(arr, 7), IntAt(arr, 8);
      if h.None? || m.None? || s.None? then None else Some(h.value * 3600 + m.value * 60 + s.value)
    else if |arr| == 7 then IntAt(arr, 6)
    else None
  }

  /** Shifting a leap second by a nonzero offset makes it an ordinary instant. */
  function Shifted(local: Instant, offset: int): Instant {
    if local.frac < NANO || offset == 0 then Instant(local.secs - offset, local.frac)
    else if offset < 0 then Instant(local.secs - offset, local.frac - NANO)
    else Instant(local.secs + 1 - offset, local.frac - NANO)
  }

  /** The instant a tuple names. */
  function TupleInstant(arr: seq<Value>): (r: Option<Instant>)
    ensures r.Some? ==> ValidInstant(r.value)
  {
    var local, offset := LocalTime(arr), Offset(arr);
    if local.None? || offset.None? then None else Some(Shifted(local.value.1, offset.value))
  }

  function TimeTupleToIso(arr: seq<Value>): Converted {
    var i := TupleInstant(arr);
    if i.None? then NotADateTime
    else if !(MIN_YEAR <= Date(i.value).year <= MAX_YEAR) then Overflows
    else Text(ToRfc3339(i.value))
  }

  /** Two converted tuples compare as strings as the instants they name compare in time, if and only if those instants'
      years are written in time order; they print the same text exactly when they name one instant, whatever offsets
      they carry. */
  lemma TuplesCompareAsInstants(a: seq<Value>, b: seq<Value>)
    requires TimeTupleToIso(a).Text? && TimeTupleToIso(b).Text?
    ensures var i, j := TupleInstant(a).value, TupleInstant(b).value;
            && (Compare(TimeTupleToIso(a).text, TimeTupleToIso(b).text) == CompareInstants(i, j)
                <==> YearsSortInTime(Date(i).year, Date(j).year))
            && (TimeTupleToIso(a) == TimeTupleToIso(b) <==> i == j)
  {
    hide TupleInstant, ToRfc3339, CompareInstants, Compare, Date, YearsSortInTime;
    TextOrderExactly(TupleInstant(a).value, TupleInstant(b).value);
  }

  /** Every tuple whose instant falls in a four-digit year converts, and two such years are written in time order. */
  lemma FourDigitTuplesConvert(a: seq<Value>, b: seq<Value>)
    requires TupleInstant(a).Some? && TupleInstant(b).Some?
    requires FourDigitYear(TupleInstant(a).value) && FourDigitYear(TupleInstant(b).value)
    ensures TimeTupleToIso(a).Text? && TimeTupleToIso(b).Text?
    ensures YearsSortInTime(Date(TupleInstant(a).value).year, Date(TupleInstant(b).value).year)
  {
    hide TupleInstant, Date, ToRfc3339;
  }

  /** With a zero offset the text shows the tuple's own date. */
  lemma ZeroOffsetKeepsDate(arr: seq<Value>)
    requires LocalTime(arr).Some? && Offset(arr) == Some(0)
    ensures Date(TupleInstant(arr).value) == LocalTime(arr).value.0
  {
    var date, local := LocalTime(arr).value.0, LocalTime(arr).value.1;
    FromOfDayNumber(date);
    assert local.secs / DAY == DayNumber(date) by {
      var sod := local.secs - DAY * DayNumber(date);
      assert 0 <= sod < DAY;
    }
  }
}
