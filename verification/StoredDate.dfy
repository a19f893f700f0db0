/** The text a page's publish date is stored as. The column's own default writes it with a space and whole seconds;
    a date bound by the program is written as RFC 3339 with a 'T' and as much of a fraction as it has. The database
    orders the column by that text, character by character. Instants are nanoseconds since 1970. */
module StoredDate {
  import opened Characters = Text
  import opened Word

  const SECOND: int := 1_000_000_000
  const DAY: int := 86_400 * SECOND

  // ---- The calendar ----

  datatype Date = Date(year: int, month: int, day: int)

  predicate Divides(k: int, n: int)
    requires k > 0
  {
    n % k == 0
  }

  predicate IsLeap(year: int) { Divides(4, year) && (!Divides(100, year) || Divides(400, year)) }

  function MonthLength(year: int, month: int): (n: int)
    ensures 28 <= n <= 31
  {
    if month == 2 then (if IsLeap(year) then 29 else 28)
    else if month in {4, 6, 9, 11} then 30
    else 31
  }

  predicate IsDate(d: Date) { 1 <= d.month <= 12 && 1 <= d.day <= MonthLength(d.year, d.month) }

  predicate Earlier(a: Date, b: Date) {
    a.year < b.year || (a.year == b.year && (a.month < b.month || (a.month == b.month && a.day < b.day)))
  }

  function NextDate(d: Date): (r: Date)
    requires IsDate(d)
    ensures IsDate(r) && Earlier(d, r)
  {
    if d.day < MonthLength(d.year, d.month) then Date(d.year, d.month, d.day + 1)
    else if d.month < 12 then Date(d.year, d.month + 1, 1)
    else Date(d.year + 1, 1, 1)
  }

  function PreviousDate(d: Date): (r: Date)
    requires IsDate(d)
    ensures IsDate(r) && Earlier(r, d)
  {
    if d.day > 1 then Date(d.year, d.month, d.day - 1)
    else if d.month > 1 then Date(d.year, d.month - 1, MonthLength(d.year, d.month - 1))
    else Date(d.year - 1, 12, 31)
  }

  /** The date `n` days after the first of January 1970. */
  function DateOf(n: int): (d: Date)
    ensures IsDate(d)
    decreases if n < 0 then -n else n
  {
    if n == 0 then Date(1970, 1, 1)
    else if n > 0 then NextDate(DateOf(n - 1))
    else PreviousDate(DateOf(n + 1))
  }

  lemma {:induction false} DatesAscend(m: int, n: int)
    requires m < n
    ensures Earlier(DateOf(m), DateOf(n))
    decreases n - m
  {
    if m + 1 < n {
      DatesAscend(m, n - 1);
    }
    assert Earlier(DateOf(n - 1), DateOf(n));
  }

  /** How many of the years 1 to `n` are multiples of `k`. */
  function Multiples(n: nat, k: nat): nat
    requires k > 0
  {
    n / k
  }

  /** How many leap years lie before `year`, by the Gregorian rule. */
  function LeapYearsBefore(year: nat): int
    requires year > 0
  {
    Multiples(year - 1, 4) - Multiples(year - 1, 100) + Multiples(year - 1, 400)
  }

  /** The day on which a year begins. */
  function YearStart(year: nat): int
    requires year >= 1970
  {
    365 * (year - 1970) + LeapYearsBefore(year) - LeapYearsBefore(1970)
  }

  /** The days before each month of an ordinary year. */
  const DAYS_BEFORE: seq<nat> := [0, 31, 59, 90, 120, 151, 181, 212, 243, 273, 304, 334]

  /** The calendar is the Gregorian one: from 1970 on, each month begins on the day the leap years before it and the
      months of its year put it. */
  lemma MonthStarts(year: nat, month: nat)
    requires year >= 1970 && 1 <= month <= 12
    ensures DateOf(YearStart(year) + DAYS_BEFORE[month - 1] + if IsLeap(year) && month > 2 then 1 else 0) ==
            Date(year, month, 1)
  {
    hide DateOf, YearStart, IsLeap;
    YearStarts(year);
    MonthAfter(YearStart(year), year, month);
  }

  lemma {:induction false} YearStarts(year: nat)
    requires year >= 1970
    ensures YearStart(year) >= 0 && DateOf(YearStart(year)) == Date(year, 1, 1)
  {
    hide DateOf;
    if year == 1970 {
      assert DateOf(0) == Date(1970, 1, 1) by {
        EpochDate();
      }
    } else {
      YearStarts(year - 1);
      var start := YearStart(year - 1);
      MonthAfter(start, year - 1, 12);
      MonthEnds(start + 334 + if IsLeap(year - 1) then 1 else 0, year - 1, 12);
      LeapYearCounts(year);
    }
  }

  lemma EpochDate()
    ensures DateOf(0) == Date(1970, 1, 1)
  {
  }

  lemma LeapYearCounts(year: nat)
    requires year > 1
    ensures LeapYearsBefore(year) == LeapYearsBefore(year - 1) + if IsLeap(year - 1) then 1 else 0
  {
    hide Multiples, Divides;
    MultiplesStep(year - 1, 4);
    MultiplesStep(year - 1, 100);
    MultiplesStep(year - 1, 400);
    DividesDown(year - 1);
  }

  lemma DividesDown(n: nat)
    ensures Divides(400, n) ==> Divides(100, n)
    ensures Divides(100, n) ==> Divides(4, n)
  {
    if Divides(400, n) {
      QuotientIs(n, 100, n / 400 * 4, 0);
    }
    if Divides(100, n) {
      QuotientIs(n, 4, n / 100 * 25, 0);
    }
  }

  lemma MultiplesStep(n: nat, k: nat)
    requires n > 0 && k > 1
    ensures Multiples(n, k) == Multiples(n - 1, k) + if Divides(k, n) then 1 else 0
  {
    var q, r := (n - 1) / k, (n - 1) % k;
    assert n == q * k + r + 1;
    if r + 1 < k {
      QuotientIs(n, k, q, r + 1);
    } else {
      assert (q + 1) * k == q * k + k;
      QuotientIs(n, k, q + 1, 0);
    }
  }

  lemma {:induction false} MonthAfter(start: nat, year: nat, month: nat)
    requires DateOf(start) == Date(year, 1, 1) && 1 <= month <= 12
    ensures DateOf(start + DAYS_BEFORE[month - 1] + if IsLeap(year) && month > 2 then 1 else 0) ==
            Date(year, month, 1)
  {
    hide DateOf, IsLeap;
    if month > 1 {
      MonthAfter(start, year, month - 1);
      MonthEnds(start + DAYS_BEFORE[month - 2] + if IsLeap(year) && month - 1 > 2 then 1 else 0, year, month - 1);
    }
  }

  lemma MonthEnds(n: nat, year: int, month: int)
    requires DateOf(n) == Date(year, month, 1) && 1 <= month <= 12
    ensures DateOf(n + MonthLength(year, month)) == NextDate(Date(year, month, MonthLength(year, month)))
  {
    hide DateOf, MonthLength;
    var last: nat := MonthLength(year, month) - 1;
    DayInMonth(n, year, month, last);
    DayAfter(n + last);
  }

  lemma {:induction false} DayInMonth(n: nat, year: int, month: int, k: nat)
    requires DateOf(n) == Date(year, month, 1) && 1 <= month <= 12 && k < MonthLength(year, month)
    ensures DateOf(n + k) == Date(year, month, 1 + k)
  {
    hide DateOf, MonthLength;
    if k > 0 {
      DayInMonth(n, year, month, k - 1);
      DayAfter(n + k - 1);
    }
  }

  lemma DayAfter(n: nat)
    ensures DateOf(n + 1) == NextDate(DateOf(n))
  {
  }

  // ---- Text order ----

  /** The order of a text column: the first differing character decides, and a prefix comes first. */
  predicate Before(s: string, t: string) {
    t != [] && (s == [] || s[0] < t[0] || (s[0] == t[0] && Before(s[1..], t[1..])))
  }

  lemma {:induction false} BeforeTotal(s: string, t: string)
    ensures Before(s, t) || Before(t, s) || s == t
    ensures !(Before(s, t) && Before(t, s)) && !Before(s, s)
  {
    if s != [] {
      BeforeTotal(s[1..], s[1..]);
    }
    if s != [] && t != [] && s[0] == t[0] {
      BeforeTotal(s[1..], t[1..]);
      assert s == [s[0]] + s[1..] && t == [t[0]] + t[1..];
    }
  }

  lemma {:induction false} BeforeTransitive(s: string, t: string, u: string)
    requires Before(s, t) && Before(t, u)
    ensures Before(s, u)
  {
    if s != [] && s[0] == t[0] == u[0] {
      BeforeTransitive(s[1..], t[1..], u[1..]);
    }
  }

  /** Equally long parts are compared part by part. */
  lemma {:induction false} BeforeByParts(a: string, b: string, x: string, y: string)
    requires |a| == |b|
    ensures Before(a + x, b + y) <==> Before(a, b) || (a == b && Before(x, y))
  {
    if a == [] {
      assert a + x == x && b + y == y;
    } else {
      BeforeByParts(a[1..], b[1..], x, y);
      assert (a + x)[1..] == a[1..] + x && (b + y)[1..] == b[1..] + y;
      assert a == [a[0]] + a[1..] && b == [b[0]] + b[1..];
    }
  }

  // ---- Decimal fields ----

  /** `n` in decimal, in `width` digits. */
  function Padded(n: nat, width: nat): (s: string)
    ensures |s| == width && forall i :: 0 <= i < width ==> IsDigit(s[i])
  {
    if width == 0 then [] else Padded(n / 10, width - 1) + [Digit(n % 10)]
  }

  lemma {:induction false} PaddedOrder(m: nat, n: nat, width: nat)
    requires m < TenTo(width) && n < TenTo(width)
    ensures Before(Padded(m, width), Padded(n, width)) <==> m < n
    ensures Padded(m, width) == Padded(n, width) <==> m == n
  {
    if width > 0 {
      var a, b := Padded(m / 10, width - 1), Padded(n / 10, width - 1);
      var x, y := [Digit(m % 10)], [Digit(n % 10)];
      PaddedOrder(m / 10, n / 10, width - 1);
      BeforeByParts(a, b, x, y);
      assert Before(x, y) <==> m % 10 < n % 10 by {
        assert x[1..] == [] && y[1..] == [];
      }
      assert (a + x)[..width - 1] == a && (b + y)[..width - 1] == b;
      assert (a + x)[width - 1] == x[0] && (b + y)[width - 1] == y[0];
    }
  }

  // ---- The two formats ----

  /** `n` in decimal, in at least four digits. */
  function YearDigits(n: nat): string {
    if n < 10_000 then Padded(n, 4) else YearDigits(n / 10) + [Digit(n % 10)]
  }

  /** A year of four digits; outside them the text carries a sign. */
  function YearText(year: int): string {
    if 0 <= year <= 9999 then YearDigits(year)
    else if year > 9999 then "+" + YearDigits(year)
    else "-" + YearDigits(-year)
  }

  function DateText(d: Date): string
    requires IsDate(d)
  {
    YearText(d.year) + ("-" + (Padded(d.month, 2) + ("-" + Padded(d.day, 2))))
  }

  function Clock(h: nat, m: nat, s: nat): string {
    Padded(h, 2) + (":" + (Padded(m, 2) + (":" + Padded(s, 2))))
  }

  function TimeText(second: nat): string { Clock(second / 3600, second / 60 % 60, second % 60) }

  const OFFSET: string := "+00:00"

  /** What follows the seconds of a bound date: as many groups of three digits as its fraction needs, and the
      offset. */
  function Nanos(n: nat): string { if n == 0 then OFFSET else Padded(n, 3) + OFFSET }

  function Micros(n: nat): string { if n == 0 then OFFSET else Padded(n / 1000, 3) + Nanos(n % 1000) }

  function Suffix(n: nat): string {
    if n == 0 then OFFSET else "." + (Padded(n / 1_000_000, 3) + Micros(n % 1_000_000))
  }

  /** What wrote the date: the column's default, or a bound value. */
  datatype Stamp = Default(second: int) | Bound(instant: int)

  function Instant(s: Stamp): int {
    match s
    case Default(second) => second * SECOND
    case Bound(instant) => instant
  }

  function DayOf(s: Stamp): int { Instant(s) / DAY }

  function SecondOfDay(s: Stamp): nat { Instant(s) % DAY / SECOND }

  /** What follows the date. */
  function TimePart(s: Stamp): string {
    var time := TimeText(SecondOfDay(s));
    match s
    case Default(_) => " " + time
    case Bound(instant) => "T" + (time + Suffix(instant % SECOND))
  }

  function Text(s: Stamp): string { DateText(DateOf(DayOf(s))) + TimePart(s) }

  /** The date's year has four digits. */
  predicate FourDigitYear(s: Stamp) { 0 <= DateOf(DayOf(s)).year <= 9999 }

  // ---- The writers ----

  /** A page is created with the column's default: the clock in whole seconds. */
  function OnCreate(now: int): Stamp { Default(now / SECOND) }

  /** Every later save of the row binds the date it read back. */
  function OnUpdate(s: Stamp): Stamp { Bound(Instant(s)) }

  /** Publishing, unpublishing and back-dating bind a date of their own. */
  function OnSetDate(instant: int): Stamp { Bound(instant) }

  lemma WritersKeepInstants(now: int, s: Stamp, instant: int)
    ensures Instant(OnUpdate(s)) == Instant(s) && Instant(OnSetDate(instant)) == instant
    ensures now - SECOND < Instant(OnCreate(now)) <= now
  {
  }

  // ---- Text order of the fields ----

  lemma DateTextOrder(a: Date, b: Date)
    requires IsDate(a) && IsDate(b) && 0 <= a.year <= 9999 && 0 <= b.year <= 9999
    ensures |DateText(a)| == |DateText(b)| == 10
    ensures Before(DateText(a), DateText(b)) <==> Earlier(a, b)
    ensures DateText(a) == DateText(b) <==> a == b
  {
    hide Before, Padded;
    TenPowers();
    var da, db := Padded(a.day, 2), Padded(b.day, 2);
    var ma, mb := Padded(a.month, 2), Padded(b.month, 2);
    PaddedOrder(a.day, b.day, 2);
    PaddedOrder(a.month, b.month, 2);
    PaddedOrder(a.year, b.year, 4);
    AfterSame("-", da, db);
    PairOrder(ma, mb, "-" + da, "-" + db);
    AfterSame("-", ma + ("-" + da), mb + ("-" + db));
    PairOrder(Padded(a.year, 4), Padded(b.year, 4), "-" + (ma + ("-" + da)), "-" + (mb + ("-" + db)));
  }

  lemma TenPowers()
    ensures TenTo(2) == 100 && TenTo(3) == 1000 && TenTo(4) == 10_000
  {
  }

  lemma AfterSame(sep: string, x: string, y: string)
    ensures Before(sep + x, sep + y) <==> Before(x, y)
    ensures sep + x == sep + y <==> x == y
  {
    BeforeByParts(sep, sep, x, y);
    BeforeTotal(sep, sep);
    assert (sep + x)[|sep|..] == x && (sep + y)[|sep|..] == y;
  }

  lemma PairOrder(a: string, b: string, x: string, y: string)
    requires |a| == |b|
    ensures Before(a + x, b + y) <==> Before(a, b) || (a == b && Before(x, y))
    ensures a + x == b + y <==> a == b && x == y
  {
    BeforeByParts(a, b, x, y);
    assert (a + x)[..|a|] == a && (b + y)[..|a|] == b;
    assert (a + x)[|a|..] == x && (b + y)[|a|..] == y;
  }

  lemma TimeFields(n: nat)
    requires n < 86_400
    ensures n / 3600 < 24 && n == 3600 * (n / 3600) + 60 * (n / 60 % 60) + n % 60
  {
  }

  lemma TimeTextOrder(m: nat, n: nat)
    requires m < 86_400 && n < 86_400
    ensures |TimeText(m)| == |TimeText(n)| == 8
    ensures Before(TimeText(m), TimeText(n)) <==> m < n
    ensures TimeText(m) == TimeText(n) <==> m == n
  {
    hide TenTo;
    TenPowers();
    TimeFields(m);
    TimeFields(n);
    FieldsOrder(m / 3600, m / 60 % 60, m % 60, n / 3600, n / 60 % 60, n % 60);
  }

  lemma FieldsOrder(h: nat, m: nat, s: nat, h': nat, m': nat, s': nat)
    requires h < 60 && m < 60 && s < 60 && h' < 60 && m' < 60 && s' < 60
    ensures |Clock(h, m, s)| == |Clock(h', m', s')| == 8
    ensures Before(Clock(h, m, s), Clock(h', m', s')) <==> 3600 * h + 60 * m + s < 3600 * h' + 60 * m' + s'
    ensures Clock(h, m, s) == Clock(h', m', s') <==> h == h' && m == m' && s == s'
  {
    hide Before, Padded;
    TenPowers();
    PaddedOrder(s, s', 2);
    PaddedOrder(m, m', 2);
    PaddedOrder(h, h', 2);
    AfterSame(":", Padded(s, 2), Padded(s', 2));
    PairOrder(Padded(m, 2), Padded(m', 2), ":" + Padded(s, 2), ":" + Padded(s', 2));
    AfterSame(":", Padded(m, 2) + (":" + Padded(s, 2)), Padded(m', 2) + (":" + Padded(s', 2)));
    PairOrder(Padded(h, 2), Padded(h', 2),
              ":" + (Padded(m, 2) + (":" + Padded(s, 2))), ":" + (Padded(m', 2) + (":" + Padded(s', 2))));
  }

  /** Where one fraction stops and the other goes on, the offset's sign sorts before the digit. */
  lemma OffsetFirst(p: nat, x: string)
    ensures Before(OFFSET, Padded(p, 3) + x) && !Before(Padded(p, 3) + x, OFFSET) && !Before(OFFSET, OFFSET)
  {
    assert IsDigit((Padded(p, 3) + x)[0]);
    BeforeTotal(OFFSET, OFFSET);
  }

  lemma GroupOrder(p: nat, q: nat, x: string, y: string)
    requires p < 1000 && q < 1000
    ensures Before(Padded(p, 3) + x, Padded(q, 3) + y) <==> p < q || (p == q && Before(x, y))
  {
    hide Before, Padded;
    TenPowers();
    PaddedOrder(p, q, 3);
    PairOrder(Padded(p, 3), Padded(q, 3), x, y);
  }

  lemma NanosOrder(m: nat, n: nat)
    requires m < 1000 && n < 1000
    ensures Before(Nanos(m), Nanos(n)) <==> m < n
  {
    hide Before, Padded;
    OffsetFirst(m, OFFSET);
    OffsetFirst(n, OFFSET);
    GroupOrder(m, n, OFFSET, OFFSET);
  }

  lemma MicrosOrder(m: nat, n: nat)
    requires m < 1_000_000 && n < 1_000_000
    ensures Before(Micros(m), Micros(n)) <==> m < n
  {
    hide Before, Padded, Nanos;
    var x, y := Nanos(m % 1000), Nanos(n % 1000);
    OffsetFirst(m / 1000, x);
    OffsetFirst(n / 1000, y);
    GroupOrder(m / 1000, n / 1000, x, y);
    NanosOrder(m % 1000, n % 1000);
  }

  lemma SuffixOrder(m: nat, n: nat)
    requires m < SECOND && n < SECOND
    ensures Before(Suffix(m), Suffix(n)) <==> m < n
  {
    hide Padded, Micros;
    var x, y := Micros(m % 1_000_000), Micros(n % 1_000_000);
    var a, b := Padded(m / 1_000_000, 3) + x, Padded(n / 1_000_000, 3) + y;
    GroupOrder(m / 1_000_000, n / 1_000_000, x, y);
    MicrosOrder(m % 1_000_000, n % 1_000_000);
    AfterSame(".", a, b);
    BeforeTotal(OFFSET, OFFSET);
  }

  /** The text order of two stored dates: by day; within a day every default before every bound date; and only
      within one day and one format by time. */
  lemma TextOrder(a: Stamp, b: Stamp)
    requires FourDigitYear(a) && FourDigitYear(b)
    ensures Before(Text(a), Text(b)) <==>
            DayOf(a) < DayOf(b) ||
            (DayOf(a) == DayOf(b) && if a.Default? == b.Default? then Instant(a) < Instant(b) else a.Default?)
  {
    hide Before, DateText, TimePart, DateOf;
    DateTextOrder(DateOf(DayOf(a)), DateOf(DayOf(b)));
    DaysOrder(DayOf(a), DayOf(b));
    PairOrder(DateText(DateOf(DayOf(a))), DateText(DateOf(DayOf(b))), TimePart(a), TimePart(b));
    if DayOf(a) == DayOf(b) {
      SameDay(a, b);
      if a.Default? && b.Default? {
        DefaultsOrder(a, b);
      } else if a.Bound? && b.Bound? {
        BoundsOrder(a, b);
      } else {
        SpaceBeforeT(a, b);
      }
    }
  }

  lemma DaysOrder(m: int, n: int)
    ensures Earlier(DateOf(m), DateOf(n)) <==> m < n
    ensures DateOf(m) == DateOf(n) <==> m == n
  {
    if m < n {
      DatesAscend(m, n);
    } else if n < m {
      DatesAscend(n, m);
    }
  }

  /** Within a day: the seconds, and then the fraction. */
  predicate SoonerInDay(a: Stamp, b: Stamp) {
    SecondOfDay(a) < SecondOfDay(b) ||
    (SecondOfDay(a) == SecondOfDay(b) && Instant(a) % SECOND < Instant(b) % SECOND)
  }

  lemma SameDay(a: Stamp, b: Stamp)
    requires DayOf(a) == DayOf(b)
    ensures Instant(a) < Instant(b) <==> SoonerInDay(a, b)
  {
    SecondsWithin(Instant(a));
    SecondsWithin(Instant(b));
  }

  lemma SecondsWithin(x: int)
    ensures x % DAY / SECOND < 86_400
    ensures x == x / DAY * DAY + x % DAY / SECOND * SECOND + x % SECOND
  {
    var q, r := x / DAY, x % DAY;
    var k, f := r / SECOND, r % SECOND;
    assert x == q * 86_400_000_000_000 + r && r == k * 1_000_000_000 + f;
    RemainderIs(x, q * 86_400 + k, f);
  }

  lemma RemainderIs(x: int, q: int, r: int)
    requires x == q * 1_000_000_000 + r && 0 <= r < 1_000_000_000
    ensures x % SECOND == r
  {
  }

  lemma DefaultsOrder(a: Stamp, b: Stamp)
    requires a.Default? && b.Default?
    ensures Before(TimePart(a), TimePart(b)) <==> SoonerInDay(a, b)
  {
    hide Before, TimeText;
    SecondsWithin(Instant(a));
    SecondsWithin(Instant(b));
    TimeTextOrder(SecondOfDay(a), SecondOfDay(b));
    AfterSame(" ", TimeText(SecondOfDay(a)), TimeText(SecondOfDay(b)));
  }

  lemma BoundsOrder(a: Stamp, b: Stamp)
    requires a.Bound? && b.Bound?
    ensures Before(TimePart(a), TimePart(b)) <==> SoonerInDay(a, b)
  {
    hide Before, TimeText, Suffix;
    SecondsWithin(a.instant);
    SecondsWithin(b.instant);
    var ta, tb := TimeText(SecondOfDay(a)), TimeText(SecondOfDay(b));
    var sa, sb := Suffix(a.instant % SECOND), Suffix(b.instant % SECOND);
    TimeTextOrder(SecondOfDay(a), SecondOfDay(b));
    SuffixOrder(a.instant % SECOND, b.instant % SECOND);
    PairOrder(ta, tb, sa, sb);
    AfterSame("T", ta + sa, tb + sb);
  }

  lemma SpaceBeforeT(a: Stamp, b: Stamp)
    requires a.Default? != b.Default?
    ensures Before(TimePart(a), TimePart(b)) <==> a.Default?
  {
    hide TimeText, Suffix;
  }
}
