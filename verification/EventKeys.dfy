/**
 Object keys of archived events: the conversion of a Unix time to a calendar date, the key
 built from it, and the event ids that end the key.
*/
module EventKeys {
  import opened Wrappers
  import Decimal

  const SECS_PER_DAY := 86400
  const I32_MAX := 0x7fff_ffff

  datatype Date = Date(year: int, month: int, day: int)

  predicate IsLeap(year: int) {
    (year % 4 == 0 && year % 100 != 0) || year % 400 == 0
  }

  function YearLength(year: int): int {
    if IsLeap(year) then 366 else 365
  }

  /** Month lengths, section 5.7 of RFC 3339. */
  function MonthDays(leap: bool): (days: seq<int>)
    ensures |days| == 12
  {
    [31, if leap then 29 else 28, 31, 30, 31, 30, 31, 31, 30, 31, 30, 31]
  }

  predicate ValidDate(d: Date) {
    && 1970 <= d.year
    && 1 <= d.month <= 12
    && 1 <= d.day <= MonthDays(IsLeap(d.year))[d.month - 1]
  }

  // ----- day numbers

  /** The number of days from 1970-01-01 to the first of January of `year`. */
  function NewYear(year: int): int {
    if year <= 1970 then 0 else NewYear(year - 1) + YearLength(year - 1)
  }

  function Sum(s: seq<int>): int {
    if s == [] then 0 else Sum(s[..|s| - 1]) + s[|s| - 1]
  }

  lemma SumStep(s: seq<int>, i: nat)
    requires i < |s|
    ensures Sum(s[..i + 1]) == Sum(s[..i]) + s[i]
  {
    assert s[..i + 1][..i] == s[..i];
  }

  /** The days of the year before month number `m`. */
  function MonthStart(leap: bool, m: int): int
    requires 1 <= m <= 12
  {
    Sum(MonthDays(leap)[..m - 1])
  }

  function DayNumber(d: Date): int
    requires 1 <= d.month <= 12
  {
    NewYear(d.year) + MonthStart(IsLeap(d.year), d.month) + d.day - 1
  }

  lemma {:induction false} NewYearGrows(y: int, z: int)
    requires 1970 <= y < z
    ensures NewYear(y) + YearLength(y) <= NewYear(z)
    decreases z - y
  {
    if y < z - 1 {
      NewYearGrows(y, z - 1);
    }
  }

  lemma MonthStep(leap: bool, m: int)
    requires 1 <= m < 12
    ensures MonthStart(leap, m + 1) == MonthStart(leap, m) + MonthDays(leap)[m - 1]
  {
    SumStep(MonthDays(leap), m - 1);
  }

  /** The table adds up: month by month it reaches the length of the year. */
  lemma MonthTable(leap: bool)
    ensures MonthStart(leap, 1) == 0 && MonthStart(leap, 2) == 31
    ensures forall m :: 3 <= m <= 12 ==> MonthStart(leap, m) == (if leap then 60 else 59) + (153 * (m - 3) + 2) / 5
    ensures MonthStart(leap, 12) + 31 == if leap then 366 else 365
  {
    MonthStep(leap, 1);
    MonthStep(leap, 2);
    MonthStep(leap, 3);
    MonthStep(leap, 4);
    MonthStep(leap, 5);
    MonthStep(leap, 6);
    MonthStep(leap, 7);
    MonthStep(leap, 8);
    MonthStep(leap, 9);
    MonthStep(leap, 10);
    MonthStep(leap, 11);
  }

  lemma WholeYear(leap: bool)
    ensures Sum(MonthDays(leap)[..12]) == if leap then 366 else 365
  {
    MonthTable(leap);
    SumStep(MonthDays(leap), 11);
  }

  lemma {:induction false} MonthsGrow(leap: bool, m: int, n: int)
    requires 1 <= m < n <= 12
    ensures MonthStart(leap, m) + MonthDays(leap)[m - 1] <= MonthStart(leap, n)
    decreases n - m
  {
    MonthStep(leap, n - 1);
    if m < n - 1 {
      MonthsGrow(leap, m, n - 1);
    }
  }

  lemma MonthInYear(leap: bool, m: int)
    requires 1 <= m <= 12
    ensures 0 <= MonthStart(leap, m) && MonthStart(leap, m) + MonthDays(leap)[m - 1] <= if leap then 366 else 365
  {
    MonthTable(leap);
    if m > 1 {
      MonthsGrow(leap, 1, m);
    }
    if m < 12 {
      MonthsGrow(leap, m, 12);
    }
  }

  lemma DayNumberInYear(d: Date)
    requires ValidDate(d)
    ensures NewYear(d.year) <= DayNumber(d) < NewYear(d.year) + YearLength(d.year)
  {
    MonthInYear(IsLeap(d.year), d.month);
  }

  // ----- the closed form

  /**
   The day number of the first of March: 146097 days for each full cycle of 400 years, and the
   leap days inside the cycle (Appendix C of RFC 3339).
  */
  function MarchFirst(year: int): int {
    var cycle, rest := year / 400, year % 400;
    146097 * cycle + 365 * rest + rest / 4 - rest / 100 - 719468
  }

  /** The proleptic Gregorian day number in closed form, years counted from March. */
  function ClosedForm(d: Date): int {
    if d.month <= 2 then MarchFirst(d.year - 1) + (153 * (d.month + 9) + 2) / 5 + d.day - 1
    else MarchFirst(d.year) + (153 * (d.month - 3) + 2) / 5 + d.day - 1
  }

  lemma MulMonotone(k: int, a: int, b: int)
    requires k > 0 && a <= b
    ensures k * a <= k * b
  {}

  lemma QuotientUnique(n: int, k: int, q: int, r: int)
    requires 0 <= r < k && n == k * q + r
    ensures n / k == q && n % k == r
  {
    var p := n / k;
    assert n == k * p + n % k;
    if q < p {
      MulMonotone(k, q + 1, p);
    } else if p < q {
      MulMonotone(k, p + 1, q);
    }
  }

  lemma DivStep(n: int, k: int)
    requires k > 0
    ensures (n + 1) / k == n / k + (if (n + 1) % k == 0 then 1 else 0)
  {
    var q, r := n / k, n % k;
    if r + 1 == k {
      QuotientUnique(n + 1, k, q + 1, 0);
    } else {
      QuotientUnique(n + 1, k, q, r + 1);
    }
  }

  lemma ModOfMod(n: int, k: int, m: int)
    requires k > 0 && m > 0
    ensures (n % (k * m)) % k == n % k
  {
    var q, r := n / (k * m), n % (k * m);
    assert n == (k * m) * q + r == k * (m * q + r / k) + r % k;
    QuotientUnique(n, k, m * q + r / k, r % k);
  }

  lemma MarchFirstStep(year: int)
    ensures MarchFirst(year + 1) == MarchFirst(year) + YearLength(year + 1)
  {
    var r := year % 400;
    DivStep(year, 400);
    ModOfMod(year + 1, 4, 100);
    ModOfMod(year + 1, 100, 4);
    assert (year + 1) % 400 == if r == 399 then 0 else r + 1;
    DivStep(r, 4);
    DivStep(r, 100);
  }

  lemma {:induction false} NewYearClosedForm(year: int)
    requires year >= 1970
    ensures NewYear(year) == MarchFirst(year - 1) + 306
  {
    if year > 1970 {
      NewYearClosedForm(year - 1);
      MarchFirstStep(year - 2);
    }
  }

  /** Counting years and months one by one agrees with the closed form. */
  lemma DayNumberIsClosedForm(d: Date)
    requires ValidDate(d)
    ensures DayNumber(d) == ClosedForm(d)
  {
    NewYearClosedForm(d.year);
    MonthTable(IsLeap(d.year));
    MarchFirstStep(d.year - 1);
  }

  /** Year, then month, then day. */
  predicate Before(d: Date, e: Date) {
    || d.year < e.year
    || (d.year == e.year && d.month < e.month)
    || (d.year == e.year && d.month == e.month && d.day < e.day)
  }

  /** Day numbers put valid dates in calendar order. */
  lemma DayNumberOrders(d: Date, e: Date)
    requires ValidDate(d) && ValidDate(e)
    ensures Before(d, e) <==> DayNumber(d) < DayNumber(e)
    ensures DayNumber(d) == DayNumber(e) ==> d == e
  {
    BeforeIsSmaller(d, e);
    BeforeIsSmaller(e, d);
  }

  lemma BeforeIsSmaller(d: Date, e: Date)
    requires ValidDate(d) && ValidDate(e)
    ensures Before(d, e) ==> DayNumber(d) < DayNumber(e)
  {
    DayNumberInYear(d);
    DayNumberInYear(e);
    if d.year < e.year {
      NewYearGrows(d.year, e.year);
    } else if d.year == e.year {
      if d.month < e.month {
        MonthsGrow(IsLeap(d.year), d.month, e.month);
      }
    }
  }

  // ----- the date of a day number

  function NextDate(d: Date): Date
    requires ValidDate(d)
  {
    if d.day < MonthDays(IsLeap(d.year))[d.month - 1] then d.(day := d.day + 1)
    else if d.month < 12 then Date(d.year, d.month + 1, 1)
    else Date(d.year + 1, 1, 1)
  }

  lemma NewYearsDay(year: int)
    requires year >= 1970
    ensures ValidDate(Date(year, 1, 1)) && DayNumber(Date(year, 1, 1)) == NewYear(year)
  {
    MonthTable(IsLeap(year));
  }

  lemma LastDayOfYear(d: Date)
    requires ValidDate(d) && d.month == 12 && d.day == 31
    ensures DayNumber(d) + 1 == NewYear(d.year + 1)
  {
    MonthTable(IsLeap(d.year));
  }

  lemma FirstOfNextMonth(d: Date)
    requires ValidDate(d) && d.month < 12 && d.day == MonthDays(IsLeap(d.year))[d.month - 1]
    ensures ValidDate(Date(d.year, d.month + 1, 1)) && DayNumber(Date(d.year, d.month + 1, 1)) == DayNumber(d) + 1
  {
    MonthStep(IsLeap(d.year), d.month);
  }

  lemma NextDateIsNextDay(d: Date)
    requires ValidDate(d)
    ensures ValidDate(NextDate(d)) && DayNumber(NextDate(d)) == DayNumber(d) + 1
  {
    if d.day < MonthDays(IsLeap(d.year))[d.month - 1] {
      assert NextDate(d) == d.(day := d.day + 1);
    } else if d.month < 12 {
      FirstOfNextMonth(d);
    } else {
      LastDayOfYear(d);
      NewYearsDay(d.year + 1);
    }
  }

  lemma {:induction false} EveryDayHasADate(days: nat)
    ensures exists d :: ValidDate(d) && DayNumber(d) == days
  {
    if days == 0 {
      assert ValidDate(Date(1970, 1, 1)) && DayNumber(Date(1970, 1, 1)) == 0;
    } else {
      EveryDayHasADate(days - 1);
      var d :| ValidDate(d) && DayNumber(d) == days - 1;
      NextDateIsNextDay(d);
    }
  }

  /** The valid date with this day number; DayNumberOrders says there is one only. */
  ghost function CivilDate(days: nat): (d: Date)
    ensures ValidDate(d) && DayNumber(d) == days
  {
    EveryDayHasADate(days);
    var d :| ValidDate(d) && DayNumber(d) == days;
    d
  }

  function AsI32(n: int): int {
    var m := n % 0x1_0000_0000;
    if m <= I32_MAX then m else m - 0x1_0000_0000
  }

  function AsU32(n: int): int {
    n % 0x1_0000_0000
  }

  /**
   What the conversion returns for any time: the civil date with its year cut to 32 bits, and
   for a time before 1970 the date 1970-01 with a wrapped day.
  */
  ghost function Decompose(unixSecs: int): Date {
    var days := unixSecs / SECS_PER_DAY;
    if days < 0 then Date(1970, 1, AsU32(days + 1))
    else var d := CivilDate(days); Date(AsI32(d.year), d.month, d.day)
  }

  method DecomposeTs(unixSecs: int) returns (year: int, month: int, day: int)
    requires Decimal.IsI64(unixSecs)
    ensures Date(year, month, day) == Decompose(unixSecs)
  {
    var days := unixSecs / SECS_PER_DAY;
    var y := 1970;
    var remaining := days;
    while remaining >= (if IsLeap(y) then 366 else 365)
      invariant y >= 1970 && NewYear(y) + remaining == days
      invariant days < 0 ==> y == 1970
      invariant days >= 0 ==> remaining >= 0
      decreases remaining
    {
      remaining := remaining - (if IsLeap(y) then 366 else 365);
      y := y + 1;
    }
    var monthDays := MonthDays(IsLeap(y));
    ghost var inYear := remaining;
    month := 0;
    for i := 0 to 12
      invariant month == 0
      invariant remaining == inYear - Sum(monthDays[..i])
      invariant days >= 0 ==> remaining >= 0
      invariant days < 0 ==> i == 0
    {
      if remaining < monthDays[i] {
        month := i + 1;
        DecomposeReaches(unixSecs, days, Date(y, month, remaining + 1));
        break;
      }
      SumStep(monthDays, i);
      remaining := remaining - monthDays[i];
    }
    assert month != 0 by {
      WholeYear(IsLeap(y));
    }
    year := AsI32(y);
    day := AsU32(remaining + 1);
  }

  /** Where the loops may end: at a date from 1970 on, or for an earlier time at its first month. */
  predicate IsReached(d: Date) {
    ValidDate(d) || (d.year == 1970 && d.month == 1 && d.day <= 0)
  }

  lemma DecomposeReaches(unixSecs: int, days: int, d: Date)
    requires days == unixSecs / SECS_PER_DAY && IsReached(d) && DayNumber(d) == days
    ensures Decompose(unixSecs) == Date(AsI32(d.year), d.month, AsU32(d.day))
  {
    if ValidDate(d) {
      DayNumberNotNegative(d);
      DecomposeFrom1970(unixSecs, days, d);
    } else {
      FirstMonth();
      DecomposeBefore1970(unixSecs, days);
    }
  }

  lemma DecomposeFrom1970(unixSecs: int, days: nat, d: Date)
    requires days == unixSecs / SECS_PER_DAY && ValidDate(d) && DayNumber(d) == days
    ensures Decompose(unixSecs) == Date(AsI32(d.year), d.month, AsU32(d.day))
  {
    DayNumberOrders(d, CivilDate(days));
    AsU32Small(d.day);
  }

  lemma DecomposeBefore1970(unixSecs: int, days: int)
    requires days == unixSecs / SECS_PER_DAY && days < 0
    ensures Decompose(unixSecs) == Date(AsI32(1970), 1, AsU32(days + 1))
  {
    assert AsI32(1970) == 1970;
  }

  lemma FirstMonth()
    ensures NewYear(1970) + MonthStart(IsLeap(1970), 1) == 0
  {}

  lemma AsU32Small(n: int)
    requires 0 <= n < 0x1_0000_0000
    ensures AsU32(n) == n
  {}

  /**
   The date returned is the right one exactly for the times from 1970 on whose year fits in 32
   bits. The source's comment calls the conversion approximate: on these times it is exact.
  */
  lemma DateIsExactIff(unixSecs: int)
    ensures IsExact(unixSecs, Decompose(unixSecs)) <==> InDateRange(unixSecs)
  {
    var days := unixSecs / SECS_PER_DAY;
    if days < 0 {
      if IsExact(unixSecs, Decompose(unixSecs)) {
        DayNumberInYear(Decompose(unixSecs));
      }
    } else {
      YearRange(days);
      CutYear(CivilDate(days));
    }
  }

  predicate IsExact(unixSecs: int, d: Date) {
    ValidDate(d) && DayNumber(d) == unixSecs / SECS_PER_DAY
  }

  lemma YearRange(days: nat)
    ensures CivilDate(days).year <= I32_MAX <==> days < NewYear(I32_MAX + 1)
  {
    var d := CivilDate(days);
    DayNumberInYear(d);
    if d.year <= I32_MAX {
      NewYearGrows(d.year, I32_MAX + 1);
    } else if d.year > I32_MAX + 1 {
      NewYearGrows(I32_MAX + 1, d.year);
    }
  }

  lemma CutYear(d: Date)
    requires ValidDate(d)
    ensures var cut := Date(AsI32(d.year), d.month, d.day);
            ValidDate(cut) && DayNumber(cut) == DayNumber(d) <==> d.year <= I32_MAX
  {
    var cut := Date(AsI32(d.year), d.month, d.day);
    assert AsI32(d.year) <= I32_MAX && (d.year <= I32_MAX ==> AsI32(d.year) == d.year);
    if ValidDate(cut) {
      DayNumberOrders(cut, d);
    }
  }

  predicate InDateRange(unixSecs: int) {
    0 <= unixSecs < SECS_PER_DAY * NewYear(I32_MAX + 1)
  }

  lemma DayNumberNotNegative(d: Date)
    requires ValidDate(d)
    ensures 0 <= DayNumber(d)
  {
    DayNumberInYear(d);
    if d.year > 1970 {
      NewYearGrows(1970, d.year);
    }
  }

  lemma SecondOfDay(days: int, second: int)
    requires 0 <= second < SECS_PER_DAY
    ensures (SECS_PER_DAY * days + second) / SECS_PER_DAY == days
  {}

  /** Decomposing undoes the day number: every valid date from 1970 on, at every second of it. */
  lemma DecomposeInvertsDayNumber(d: Date, second: int)
    requires ValidDate(d) && 1970 <= d.year <= I32_MAX && 0 <= second < SECS_PER_DAY
    ensures Decompose(SECS_PER_DAY * DayNumber(d) + second) == d
  {
    DayNumberNotNegative(d);
    SecondOfDay(DayNumber(d), second);
    DayNumberOrders(d, CivilDate(DayNumber(d)));
    SmallYear(d.year);
  }

  lemma SmallYear(year: int)
    requires 0 <= year <= I32_MAX
    ensures AsI32(year) == year
  {}

  lemma SameDateIffSameDay(t: int, u: int)
    requires InDateRange(t) && InDateRange(u)
    ensures Decompose(t) == Decompose(u) <==> t / SECS_PER_DAY == u / SECS_PER_DAY
  {
    DateIsExactIff(t);
    DateIsExactIff(u);
  }

  // ----- keys

  function Path3(a: string, b: string, c: string): string {
    a + "/" + b + "/" + c + "/"
  }

  function DateText(d: Date): string {
    Path3(Decimal.Padded(d.year, 4), Decimal.Padded(d.month, 2), Decimal.Padded(d.day, 2))
  }

  function KeyText(aggregateType: string, date: string, eventId: string): string {
    "memory/events/" + aggregateType + "/" + date + eventId + ".json"
  }

  function KeyOf(aggregateType: string, date: Date, eventId: string): string {
    KeyText(aggregateType, DateText(date), eventId)
  }

  ghost function EventKey(aggregateType: string, occurredAt: int, eventId: string): string {
    KeyOf(aggregateType, Decompose(occurredAt), eventId)
  }

  method Event(aggregateType: string, occurredAt: int, eventId: string) returns (key: string)
    requires Decimal.IsI64(occurredAt)
    ensures key == EventKey(aggregateType, occurredAt, eventId)
  {
    var y, m, d := DecomposeTs(occurredAt);
    key := KeyOf(aggregateType, Date(y, m, d), eventId);
  }

  // ----- what a key names

  predicate HasSlash(s: string) {
    exists i :: 0 <= i < |s| && s[i] == '/'
  }

  lemma FirstSlash(a: string, b: string, x: string, y: string)
    requires !HasSlash(a) && !HasSlash(b) && a + "/" + x == b + "/" + y
    ensures a == b && x == y
  {
    var s := a + "/" + x;
    var t := b + "/" + y;
    assert s[|a|] == '/' && t[|b|] == '/';
    assert |a| == |b|;
    assert a == s[..|a|] && b == t[..|b|];
    assert x == s[|a| + 1..] && y == t[|b| + 1..];
  }

  lemma LastSlash(a: string, b: string, x: string, y: string)
    requires !HasSlash(x) && !HasSlash(y) && a + "/" + x == b + "/" + y
    ensures a == b && x == y
  {
    var s, t := a + "/" + x, b + "/" + y;
    assert s[|a|] == '/' && t[|b|] == '/';
    assert forall i :: |a| < i < |s| ==> s[i] == x[i - |a| - 1];
    assert forall i :: |b| < i < |t| ==> t[i] == y[i - |b| - 1];
    assert |a| == |b|;
    assert a == s[..|a|] && b == t[..|b|];
    assert x == s[|a| + 1..] && y == t[|b| + 1..];
  }

  lemma DropPrefix(p: string, a: string, b: string)
    requires p + a == p + b
    ensures a == b
  {
    assert a == (p + a)[|p|..] && b == (p + b)[|p|..];
  }

  lemma DropSuffix(a: string, b: string, s: string)
    requires a + s == b + s
    ensures a == b
  {
    assert a == (a + s)[..|a + s| - |s|] && b == (b + s)[..|b + s| - |s|];
  }

  /** The part of a key that varies. */
  function Varying(aggregateType: string, date: string, eventId: string): string {
    aggregateType + "/" + (date + eventId)
  }

  lemma KeyTextVaries(aggregateType: string, date: string, eventId: string)
    ensures KeyText(aggregateType, date, eventId) == "memory/events/" + (Varying(aggregateType, date, eventId) + ".json")
  {}

  lemma SameKeyTextIff(type1: string, date1: string, id1: string, type2: string, date2: string, id2: string)
    ensures KeyText(type1, date1, id1) == KeyText(type2, date2, id2)
       <==> Varying(type1, date1, id1) == Varying(type2, date2, id2)
  {
    KeyTextVaries(type1, date1, id1);
    KeyTextVaries(type2, date2, id2);
    var v, w := Varying(type1, date1, id1), Varying(type2, date2, id2);
    if KeyText(type1, date1, id1) == KeyText(type2, date2, id2) {
      DropPrefix("memory/events/", v + ".json", w + ".json");
      DropSuffix(v, w, ".json");
    }
  }

  lemma NumbersHaveNoSlash(n: int, width: nat)
    ensures !HasSlash(Decimal.Padded(n, width))
  {
    Decimal.PaddedCharacters(n, width);
  }

  predicate NoSlashes(a: string, b: string, c: string) {
    !HasSlash(a) && !HasSlash(b) && !HasSlash(c)
  }

  lemma Path3Front(a: string, b: string, c: string, x: string)
    ensures Path3(a, b, c) + x == a + "/" + (b + "/" + (c + "/" + x))
  {}

  lemma Path3Split(a: string, b: string, c: string, x: string, a': string, b': string, c': string, x': string)
    requires NoSlashes(a, b, c) && NoSlashes(a', b', c') && Path3(a, b, c) + x == Path3(a', b', c') + x'
    ensures a == a' && b == b' && c == c' && x == x'
  {
    Path3Front(a, b, c, x);
    Path3Front(a', b', c', x');
    FirstSlash(a, a', b + "/" + (c + "/" + x), b' + "/" + (c' + "/" + x'));
    FirstSlash(b, b', c + "/" + x, c' + "/" + x');
    FirstSlash(c, c', x, x');
  }

  lemma Path3Back(t: string, a: string, b: string, c: string, x: string)
    ensures t + "/" + (Path3(a, b, c) + x) == t + "/" + a + "/" + b + "/" + c + "/" + x
  {}

  lemma Path3SplitBack(
    t: string, a: string, b: string, c: string, x: string, t': string, a': string, b': string, c': string, x': string)
    requires NoSlashes(a, b, c) && NoSlashes(a', b', c') && !HasSlash(x) && !HasSlash(x')
    requires t + "/" + (Path3(a, b, c) + x) == t' + "/" + (Path3(a', b', c') + x')
    ensures t == t' && a == a' && b == b' && c == c' && x == x'
  {
    Path3Back(t, a, b, c, x);
    Path3Back(t', a', b', c', x');
    LastSlash(t + "/" + a + "/" + b + "/" + c, t' + "/" + a' + "/" + b' + "/" + c', x, x');
    LastSlash(t + "/" + a + "/" + b, t' + "/" + a' + "/" + b', c, c');
    LastSlash(t + "/" + a, t' + "/" + a', b, b');
    LastSlash(t, t', a, a');
  }

  predicate Printable(d: Date) {
    Decimal.IsI64(d.year) && Decimal.IsI64(d.month) && Decimal.IsI64(d.day)
  }

  lemma DatePartsHaveNoSlash(d: Date)
    ensures NoSlashes(Decimal.Padded(d.year, 4), Decimal.Padded(d.month, 2), Decimal.Padded(d.day, 2))
  {
    NumbersHaveNoSlash(d.year, 4);
    NumbersHaveNoSlash(d.month, 2);
    NumbersHaveNoSlash(d.day, 2);
  }

  lemma SamePartsSameDate(d: Date, e: Date)
    requires Printable(d) && Printable(e)
    requires Decimal.Padded(d.year, 4) == Decimal.Padded(e.year, 4)
    requires Decimal.Padded(d.month, 2) == Decimal.Padded(e.month, 2)
    requires Decimal.Padded(d.day, 2) == Decimal.Padded(e.day, 2)
    ensures d == e
  {
    Decimal.PaddedInjective(d.year, e.year, 4);
    Decimal.PaddedInjective(d.month, e.month, 2);
    Decimal.PaddedInjective(d.day, e.day, 2);
  }

  lemma DateTextInjective(d: Date, e: Date, x: string, y: string)
    requires Printable(d) && Printable(e) && DateText(d) + x == DateText(e) + y
    ensures d == e && x == y
  {
    DatePartsHaveNoSlash(d);
    DatePartsHaveNoSlash(e);
    Path3Split(Decimal.Padded(d.year, 4), Decimal.Padded(d.month, 2), Decimal.Padded(d.day, 2), x,
               Decimal.Padded(e.year, 4), Decimal.Padded(e.month, 2), Decimal.Padded(e.day, 2), y);
    SamePartsSameDate(d, e);
  }

  lemma DecomposeFits(t: int)
    ensures Printable(Decompose(t))
  {}

  lemma KeyOfInjective(type1: string, d1: Date, id1: string, type2: string, d2: Date, id2: string)
    requires !HasSlash(type1) && !HasSlash(type2) && Printable(d1) && Printable(d2)
    requires KeyOf(type1, d1, id1) == KeyOf(type2, d2, id2)
    ensures type1 == type2 && id1 == id2 && d1 == d2
  {
    SameKeyTextIff(type1, DateText(d1), id1, type2, DateText(d2), id2);
    FirstSlash(type1, type2, DateText(d1) + id1, DateText(d2) + id2);
    DateTextInjective(d1, d2, id1, id2);
  }

  /** Equal keys come from one aggregate type, one date and one event id; the id may hold anything. */
  lemma KeyInjective(type1: string, t1: int, id1: string, type2: string, t2: int, id2: string)
    requires !HasSlash(type1) && !HasSlash(type2)
    requires EventKey(type1, t1, id1) == EventKey(type2, t2, id2)
    ensures type1 == type2 && id1 == id2 && Decompose(t1) == Decompose(t2)
    ensures InDateRange(t1) && InDateRange(t2) ==> t1 / SECS_PER_DAY == t2 / SECS_PER_DAY
  {
    DecomposeFits(t1);
    DecomposeFits(t2);
    KeyOfInjective(type1, Decompose(t1), id1, type2, Decompose(t2), id2);
    if InDateRange(t1) && InDateRange(t2) {
      SameDateIffSameDay(t1, t2);
    }
  }

  lemma KeyOfNamesAll(type1: string, d1: Date, id1: string, type2: string, d2: Date, id2: string)
    requires !HasSlash(id1) && !HasSlash(id2) && Printable(d1) && Printable(d2)
    requires KeyOf(type1, d1, id1) == KeyOf(type2, d2, id2)
    ensures type1 == type2 && id1 == id2 && d1 == d2
  {
    SameKeyTextIff(type1, DateText(d1), id1, type2, DateText(d2), id2);
    DatePartsHaveNoSlash(d1);
    DatePartsHaveNoSlash(d2);
    Path3SplitBack(
      type1, Decimal.Padded(d1.year, 4), Decimal.Padded(d1.month, 2), Decimal.Padded(d1.day, 2), id1,
      type2, Decimal.Padded(d2.year, 4), Decimal.Padded(d2.month, 2), Decimal.Padded(d2.day, 2), id2);
    SamePartsSameDate(d1, d2);
  }

  /** With slash-free event ids, the only ones the program makes, the types may hold anything. */
  lemma SlashFreeIdsMakeKeysInjective(type1: string, t1: int, id1: string, type2: string, t2: int, id2: string)
    requires !HasSlash(id1) && !HasSlash(id2)
    requires EventKey(type1, t1, id1) == EventKey(type2, t2, id2)
    ensures type1 == type2 && id1 == id2 && Decompose(t1) == Decompose(t2)
  {
    DecomposeFits(t1);
    DecomposeFits(t2);
    KeyOfNamesAll(type1, Decompose(t1), id1, type2, Decompose(t2), id2);
  }

  /**
   The key of any second of any date reads back: the type, the year in four digits or more, the
   month and the day in two, and the id.
  */
  lemma {:induction false} KeyIsReadBack(aggregateType: string, d: Date, second: int, eventId: string)
    returns (year: string, month: string, day: string)
    requires ValidDate(d) && d.year <= I32_MAX && 0 <= second < SECS_PER_DAY
    ensures EventKey(aggregateType, SECS_PER_DAY * DayNumber(d) + second, eventId)
         == "memory/events/" + aggregateType + "/" + year + "/" + month + "/" + day + "/" + eventId + ".json"
    ensures Decimal.ParseI64(year) == Some(d.year) && |year| >= 4 && (d.year <= 9999 ==> |year| == 4)
    ensures Decimal.ParseI64(month) == Some(d.month) && |month| == 2
    ensures Decimal.ParseI64(day) == Some(d.day) && |day| == 2
  {
    DecomposeInvertsDayNumber(d, second);
    year, month, day := Decimal.Padded(d.year, 4), Decimal.Padded(d.month, 2), Decimal.Padded(d.day, 2);
    PathJoins("memory/events/" + aggregateType + "/", year, month, day, eventId + ".json");
    assert KeyText(aggregateType, Path3(year, month, day), eventId)
        == "memory/events/" + aggregateType + "/" + Path3(year, month, day) + (eventId + ".json");
    DatePartsAreReadBack(d);
  }

  lemma PathJoins(p: string, a: string, b: string, c: string, x: string)
    ensures p + Path3(a, b, c) + x == p + a + "/" + b + "/" + c + "/" + x
  {}

  lemma DatePartsAreReadBack(d: Date)
    requires ValidDate(d) && d.year <= I32_MAX
    ensures var year, month, day := Decimal.Padded(d.year, 4), Decimal.Padded(d.month, 2), Decimal.Padded(d.day, 2);
            && Decimal.ParseI64(year) == Some(d.year) && |year| >= 4 && (d.year <= 9999 ==> |year| == 4)
            && Decimal.ParseI64(month) == Some(d.month) && |month| == 2
            && Decimal.ParseI64(day) == Some(d.day) && |day| == 2
  {
    Decimal.ParsePadded(d.year, 4);
    Decimal.ParsePadded(d.month, 2);
    Decimal.ParsePadded(d.day, 2);
    Decimal.PaddedIsWide(d.year, 4);
    TwoDigits(d.month);
    TwoDigits(d.day);
    if d.year <= 9999 {
      assert Decimal.Pow10(4) == 10_000;
      Decimal.PaddedWidth(d.year, 4);
    }
  }

  // ----- which types can share a key

  /** Four digits or more, two digits and two digits, each with a slash behind. */
  predicate IsDateText(s: string) {
    && |s| >= 11
    && forall i :: 0 <= i < |s| ==>
         if i == |s| - 7 || i == |s| - 4 || i == |s| - 1 then s[i] == '/' else Decimal.IsDigit(s[i])
  }

  lemma Path3IsDateText(a: string, b: string, c: string)
    requires Decimal.AllDigits(a) && Decimal.AllDigits(b) && Decimal.AllDigits(c) && |a| >= 4 && |b| == |c| == 2
    ensures IsDateText(Path3(a, b, c))
  {
    var s := Path3(a, b, c);
    assert s == a + ("/" + b + "/" + c + "/");
    assert |s| == |a| + 7;
  }

  lemma ValidDateText(d: Date)
    requires ValidDate(d)
    ensures IsDateText(DateText(d))
  {
    Decimal.PaddedIsDigits(d.year, 4);
    Decimal.PaddedIsWide(d.year, 4);
    TwoDigits(d.month);
    TwoDigits(d.day);
    Path3IsDateText(Decimal.Padded(d.year, 4), Decimal.Padded(d.month, 2), Decimal.Padded(d.day, 2));
  }

  /** After a slash inside a date text, three places on, comes another. */
  lemma SlashAgain(t: string, date: string, x: string, i: nat)
    requires IsDateText(date) && |t| < i < |t| + |date| && (t + "/" + (date + x))[i] == '/'
    ensures i + 3 < |t + "/" + (date + x)| && (t + "/" + (date + x))[i + 3] == '/'
  {
    var s := t + "/" + (date + x);
    assert s[i] == date[i - |t| - 1];
    assert i - |t| - 1 == |date| - 7 || i - |t| - 1 == |date| - 4;
    assert s[i + 3] == date[i + 3 - |t| - 1];
  }

  lemma YearAfterType(t: string, date: string, x: string)
    requires IsDateText(date)
    ensures |t| + 3 < |t + "/" + (date + x)| && (t + "/" + (date + x))[|t|] == '/'
    ensures (t + "/" + (date + x))[|t| + 3] != '/'
  {
    assert (t + "/" + (date + x))[|t| + 3] == date[2] && Decimal.IsDigit(date[2]);
  }

  lemma LongerTypeContinues(type1: string, date1: string, x1: string, type2: string, date2: string, x2: string)
    requires IsDateText(date1) && IsDateText(date2) && |type1| < |type2|
    requires type1 + "/" + (date1 + x1) == type2 + "/" + (date2 + x2)
    ensures type1 + "/" + date1 <= type2 + "/"
  {
    var s := type1 + "/" + (date1 + x1);
    YearAfterType(type2, date2, x2);
    if |type2| < |type1| + |date1| {
      SlashAgain(type1, date1, x1, |type2|);
    }
    assert s[..|type1 + "/" + date1|] == type1 + "/" + date1;
    assert s[..|type2| + 1] == type2 + "/";
  }

  lemma SameLengthSameType(type1: string, x1: string, type2: string, x2: string)
    requires type1 + "/" + x1 == type2 + "/" + x2
    ensures |type1| == |type2| ==> type1 == type2
  {
    assert type1 == (type1 + "/" + x1)[..|type1|] && type2 == (type2 + "/" + x2)[..|type2|];
  }

  /** One type goes on, after a slash, with a date. */
  ghost predicate Continues(type1: string, type2: string) {
    exists d :: ValidDate(d) && d.year <= I32_MAX && type1 + "/" + DateText(d) <= type2 + "/"
  }

  ghost predicate ShareAKey(type1: string, type2: string) {
    exists t1, id1, t2, id2 ::
      InDateRange(t1) && InDateRange(t2) && EventKey(type1, t1, id1) == EventKey(type2, t2, id2)
  }

  lemma DateOfTime(t: int)
    requires InDateRange(t)
    ensures ValidDate(Decompose(t)) && Decompose(t).year <= I32_MAX
  {
    DateIsExactIff(t);
    YearRange(t / SECS_PER_DAY);
    SmallYear(CivilDate(t / SECS_PER_DAY).year);
  }

  lemma TimeOfDate(d: Date) returns (t: int)
    requires ValidDate(d) && d.year <= I32_MAX
    ensures InDateRange(t) && Decompose(t) == d
  {
    t := SECS_PER_DAY * DayNumber(d) + 0;
    DecomposeInvertsDayNumber(d, 0);
    SecondOfDay(DayNumber(d), 0);
    DateIsExactIff(t);
  }

  lemma SharingTypesContinue(type1: string, t1: int, id1: string, type2: string, t2: int, id2: string)
    requires InDateRange(t1) && InDateRange(t2) && EventKey(type1, t1, id1) == EventKey(type2, t2, id2)
    ensures type1 == type2 || Continues(type1, type2) || Continues(type2, type1)
  {
    var d1, d2 := Decompose(t1), Decompose(t2);
    DateOfTime(t1);
    DateOfTime(t2);
    ValidDateText(d1);
    ValidDateText(d2);
    SameKeyTextIff(type1, DateText(d1), id1, type2, DateText(d2), id2);
    SameLengthSameType(type1, DateText(d1) + id1, type2, DateText(d2) + id2);
    if |type1| < |type2| {
      LongerTypeContinues(type1, DateText(d1), id1, type2, DateText(d2), id2);
    } else if |type2| < |type1| {
      LongerTypeContinues(type2, DateText(d2), id2, type1, DateText(d1), id1);
    }
  }

  lemma ContinuedKeys(type1: string, d: Date, u: string, type2: string, e: Date)
    requires type1 + "/" + DateText(d) + u == type2 + "/"
    ensures KeyOf(type1, d, u + DateText(e)) == KeyOf(type2, e, "")
  {
    ContinuedText(type1, DateText(d), u, type2, DateText(e));
    SameKeyTextIff(type1, DateText(d), u + DateText(e), type2, DateText(e), "");
  }

  lemma RestOf(a: string, b: string) returns (u: string)
    requires a <= b
    ensures a + u == b
  {
    u := b[|a|..];
  }

  lemma SharedBy(type1: string, d: Date, u: string, type2: string)
    requires ValidDate(d) && d.year <= I32_MAX && type1 + "/" + DateText(d) + u == type2 + "/"
    ensures ShareAKey(type1, type2)
  {
    var e := Date(1970, 1, 1);
    var t1 := TimeOfDate(d);
    var t2 := TimeOfDate(e);
    ContinuedKeys(type1, d, u, type2, e);
    assert EventKey(type1, t1, u + DateText(e)) == EventKey(type2, t2, "");
  }

  lemma ContinuedTypesShare(type1: string, type2: string)
    requires Continues(type1, type2)
    ensures ShareAKey(type1, type2)
  {
    var d :| ValidDate(d) && d.year <= I32_MAX && type1 + "/" + DateText(d) <= type2 + "/";
    var u := RestOf(type1 + "/" + DateText(d), type2 + "/");
    SharedBy(type1, d, u, type2);
  }

  lemma ContinuedText(type1: string, date1: string, u: string, type2: string, date2: string)
    requires type1 + "/" + date1 + u == type2 + "/"
    ensures Varying(type1, date1, u + date2) == Varying(type2, date2, "")
  {
    assert Varying(type1, date1, u + date2) == (type1 + "/" + date1 + u) + date2;
    assert Varying(type2, date2, "") == (type2 + "/") + date2;
  }

  /**
   Two different types share a key, for some event ids, exactly when one of them goes on, after a
   slash, with a date; and the shared key then needs a slash in an event id, too.
  */
  lemma TypesShareAKeyIff(type1: string, type2: string)
    requires type1 != type2
    ensures ShareAKey(type1, type2) <==> Continues(type1, type2) || Continues(type2, type1)
  {
    if t1, id1, t2, id2 :|
      InDateRange(t1) && InDateRange(t2) && EventKey(type1, t1, id1) == EventKey(type2, t2, id2)
    {
      SharingTypesContinue(type1, t1, id1, type2, t2, id2);
    }
    if Continues(type1, type2) {
      ContinuedTypesShare(type1, type2);
    }
    if Continues(type2, type1) {
      ContinuedTypesShare(type2, type1);
      var t2, id2, t1, id1 :|
        InDateRange(t2) && InDateRange(t1) && EventKey(type2, t2, id2) == EventKey(type1, t1, id1);
    }
  }

  // ----- the order of keys

  predicate SameWidth(a: string, b: string) {
    |a| == |b| && Decimal.AllDigits(a) && Decimal.AllDigits(b)
  }

  /** A field decides, or leaves the decision to what follows its slash. */
  lemma FieldOrders(a: string, b: string, x: string, y: string)
    requires SameWidth(a, b) && (Decimal.Value(a) < Decimal.Value(b) || (a == b && Decimal.Less(x, y)))
    ensures Decimal.Less(a + ("/" + x), b + ("/" + y))
  {
    var s, t := "/" + x, "/" + y;
    if a == b {
      Decimal.LessCommonPrefix("/", x, y);
      Decimal.LessCommonPrefix(a, s, t);
    } else {
      Decimal.DigitsOrder(a, b);
      Decimal.LessDecided(a, b, s, t);
    }
  }

  lemma TwoDigits(n: int)
    requires 1 <= n <= 31
    ensures |Decimal.Padded(n, 2)| == 2 && Decimal.AllDigits(Decimal.Padded(n, 2))
    ensures Decimal.Value(Decimal.Padded(n, 2)) == n
  {
    assert Decimal.Pow10(2) == 100 by { assert Decimal.Pow10(1) == 10; }
    Decimal.PaddedWidth(n, 2);
  }

  /** Month and day as they follow the year. */
  function MonthText(d: Date): string {
    Decimal.Padded(d.month, 2) + "/" + Decimal.Padded(d.day, 2) + "/"
  }

  lemma {:induction false} MonthTextOrders(d: Date, e: Date, x: string, y: string)
    requires ValidDate(d) && ValidDate(e) && (d.month < e.month || (d.month == e.month && d.day < e.day))
    ensures Decimal.Less(MonthText(d) + x, MonthText(e) + y)
  {
    TwoDigits(d.month);
    TwoDigits(e.month);
    TwoDigits(d.day);
    TwoDigits(e.day);
    var m, n, a, b := Decimal.Padded(d.month, 2), Decimal.Padded(e.month, 2), Decimal.Padded(d.day, 2), Decimal.Padded(e.day, 2);
    MonthTextFront(m, a, x);
    MonthTextFront(n, b, y);
    if d.month < e.month {
      FieldOrders(m, n, a + ("/" + x), b + ("/" + y));
    } else {
      FieldOrders(a, b, x, y);
      FieldOrders(m, n, a + ("/" + x), b + ("/" + y));
    }
  }

  lemma MonthTextFront(m: string, a: string, x: string)
    ensures m + "/" + a + "/" + x == m + ("/" + (a + ("/" + x)))
  {}

  /** The year of a date text has at least four digits and no zeros in front from 1000 on. */
  lemma YearText(d: Date, x: string)
    requires ValidDate(d)
    ensures DateText(d) + x == Decimal.Digits(d.year) + ("/" + (MonthText(d) + x))
  {
    Decimal.FourDigitsAtLeast(d.year);
    assert Decimal.Zeros(4 - |Decimal.Digits(d.year)|) == "";
    assert Decimal.Padded(d.year, 4) == Decimal.Digits(d.year);
    YearFront(Decimal.Digits(d.year), Decimal.Padded(d.month, 2), Decimal.Padded(d.day, 2), x);
  }

  lemma YearFront(a: string, b: string, c: string, x: string)
    ensures Path3(a, b, c) + x == a + ("/" + ((b + "/" + c + "/") + x))
  {}

  /** The later year, cut to as many digits as the earlier one has, is not below it. */
  predicate YearsSort(y: nat, z: nat)
    requires |Decimal.Digits(y)| <= |Decimal.Digits(z)|
  {
    y <= Decimal.Shortened(z, |Decimal.Digits(z)| - |Decimal.Digits(y)|)
  }

  lemma SlashBeforeDigit(x: string, q: string, y: string)
    requires q != "" && Decimal.AllDigits(q)
    ensures Decimal.Less("/" + x, q + y)
  {
    assert ("/" + x)[0] == '/' && (q + y)[0] == q[0] && Decimal.IsDigit(q[0]);
  }

  lemma SameValueSameDigits(a: string, b: string)
    requires SameWidth(a, b) && Decimal.Value(a) == Decimal.Value(b)
    ensures a == b
  {
    Decimal.DigitsOrder(a, b);
    Decimal.DigitsOrder(b, a);
    Decimal.LessIsTotal(a, b);
  }

  /** Digits against a longer string of digits: the front decides, and a tie goes to the shorter. */
  lemma ShorterDigitsIff(a: string, b: string, q: string, x: string, w: string)
    requires SameWidth(a, b) && q != "" && Decimal.AllDigits(q)
    ensures Decimal.Less(a + ("/" + x), b + (q + w)) <==> Decimal.Value(a) <= Decimal.Value(b)
  {
    var s, t := "/" + x, q + w;
    Decimal.DigitsOrder(a, b);
    Decimal.DigitsOrder(b, a);
    if Decimal.Value(a) < Decimal.Value(b) {
      Decimal.LessDecided(a, b, s, t);
    } else if Decimal.Value(a) == Decimal.Value(b) {
      SameValueSameDigits(a, b);
      SlashBeforeDigit(x, q, w);
      Decimal.LessCommonPrefix(a, s, t);
    } else {
      Decimal.LessDecided(b, a, t, s);
      Decimal.LessAsymmetric(b + t, a + s);
    }
  }

  lemma YearsOfTwoWidths(y: nat, z: nat, x: string, w: string)
    requires |Decimal.Digits(y)| < |Decimal.Digits(z)|
    ensures Decimal.Less(Decimal.Digits(y) + ("/" + x), Decimal.Digits(z) + w) <==> YearsSort(y, z)
  {
    var k := |Decimal.Digits(z)| - |Decimal.Digits(y)|;
    var q := Decimal.SplitDigits(z, k);
    var b := Decimal.Digits(Decimal.Shortened(z, k));
    Decimal.ValueDigits(y);
    Decimal.ValueDigits(Decimal.Shortened(z, k));
    ShorterDigitsIff(Decimal.Digits(y), b, q, x, w);
    assert Decimal.Digits(z) + w == b + (q + w);
  }

  lemma YearsOfOneWidth(d: Date, e: Date, x: string, y: string)
    requires ValidDate(d) && ValidDate(e) && Before(d, e) && |Decimal.Digits(d.year)| == |Decimal.Digits(e.year)|
    ensures var a, b := Decimal.Digits(d.year), Decimal.Digits(e.year);
            Decimal.Less(a + ("/" + (MonthText(d) + x)), b + ("/" + (MonthText(e) + y)))
  {
    Decimal.ValueDigits(d.year);
    Decimal.ValueDigits(e.year);
    if d.year == e.year {
      MonthTextOrders(d, e, x, y);
    }
    FieldOrders(Decimal.Digits(d.year), Decimal.Digits(e.year), MonthText(d) + x, MonthText(e) + y);
  }

  lemma DateTextOrderIff(d: Date, e: Date, x: string, y: string)
    requires ValidDate(d) && ValidDate(e) && Before(d, e)
    ensures |Decimal.Digits(d.year)| <= |Decimal.Digits(e.year)|
    ensures Decimal.Less(DateText(d) + x, DateText(e) + y) <==> YearsSort(d.year, e.year)
  {
    Decimal.DigitsGrow(d.year, e.year);
    YearText(d, x);
    YearText(e, y);
    if |Decimal.Digits(d.year)| == |Decimal.Digits(e.year)| {
      YearsOfOneWidth(d, e, x, y);
    } else {
      YearsOfTwoWidths(d.year, e.year, MonthText(d) + x, "/" + (MonthText(e) + y));
    }
  }

  lemma KeyTextOrders(aggregateType: string, date1: string, id1: string, date2: string, id2: string)
    ensures Decimal.Less(KeyText(aggregateType, date1, id1), KeyText(aggregateType, date2, id2))
       <==> Decimal.Less(date1 + (id1 + ".json"), date2 + (id2 + ".json"))
  {
    var prefix := "memory/events/" + aggregateType + "/";
    KeyTextFront(aggregateType, date1, id1);
    KeyTextFront(aggregateType, date2, id2);
    Decimal.LessCommonPrefix(prefix, date1 + (id1 + ".json"), date2 + (id2 + ".json"));
  }

  lemma KeyTextFront(aggregateType: string, date: string, id: string)
    ensures KeyText(aggregateType, date, id) == ("memory/events/" + aggregateType + "/") + (date + (id + ".json"))
  {}

  /**
   Of two keys of one aggregate type, the one of the earlier day comes first exactly when the
   years sort: always when they have equally many digits.
  */
  lemma EarlierKeyComesFirstIff(aggregateType: string, t: int, u: int, id1: string, id2: string)
    requires InDateRange(t) && InDateRange(u) && t / SECS_PER_DAY < u / SECS_PER_DAY
    ensures ValidDate(Decompose(t)) && ValidDate(Decompose(u))
    ensures |Decimal.Digits(Decompose(t).year)| <= |Decimal.Digits(Decompose(u).year)|
    ensures Decimal.Less(EventKey(aggregateType, t, id1), EventKey(aggregateType, u, id2))
       <==> YearsSort(Decompose(t).year, Decompose(u).year)
  {
    var d, e := Decompose(t), Decompose(u);
    DateIsExactIff(t);
    DateIsExactIff(u);
    DayNumberOrders(d, e);
    DateTextOrderIff(d, e, id1 + ".json", id2 + ".json");
    KeyTextOrders(aggregateType, DateText(d), id1, DateText(e), id2);
  }

  lemma YearBelow(t: int, year: int)
    requires 1970 <= year <= I32_MAX && 0 <= t < SECS_PER_DAY * NewYear(year)
    ensures InDateRange(t) && 1970 <= Decompose(t).year < year
  {
    NewYearGrows(year, I32_MAX + 1);
    DateIsExactIff(t);
    DayNumberInYear(Decompose(t));
    if Decompose(t).year > year {
      NewYearGrows(year, Decompose(t).year);
    }
  }

  /** Up to the year 9999 the keys of one aggregate type sort by day, whatever the event ids are. */
  lemma KeysSortByDay(aggregateType: string, t: int, u: int, id1: string, id2: string)
    requires 0 <= t < SECS_PER_DAY * NewYear(10000) && 0 <= u < SECS_PER_DAY * NewYear(10000)
    requires t / SECS_PER_DAY != u / SECS_PER_DAY
    ensures Decimal.Less(EventKey(aggregateType, t, id1), EventKey(aggregateType, u, id2))
       <==> t / SECS_PER_DAY < u / SECS_PER_DAY
  {
    if t / SECS_PER_DAY < u / SECS_PER_DAY {
      EarlierKey(aggregateType, t, u, id1, id2);
    } else {
      EarlierKey(aggregateType, u, t, id2, id1);
      Decimal.LessAsymmetric(EventKey(aggregateType, u, id2), EventKey(aggregateType, t, id1));
    }
  }

  lemma EarlierKey(aggregateType: string, t: int, u: int, id1: string, id2: string)
    requires 0 <= t < SECS_PER_DAY * NewYear(10000) && 0 <= u < SECS_PER_DAY * NewYear(10000)
    requires t / SECS_PER_DAY < u / SECS_PER_DAY
    ensures Decimal.Less(EventKey(aggregateType, t, id1), EventKey(aggregateType, u, id2))
  {
    YearBelow(t, 10000);
    YearBelow(u, 10000);
    EarlierKeyComesFirstIff(aggregateType, t, u, id1, id2);
    var y, z := Decompose(t).year, Decompose(u).year;
    Decimal.FourDigitYear(y);
    Decimal.FourDigitYear(z);
    EarlierDateEarlierYear(t, u);
  }

  lemma EarlierDateEarlierYear(t: int, u: int)
    requires InDateRange(t) && InDateRange(u) && t / SECS_PER_DAY < u / SECS_PER_DAY
    ensures Decompose(t).year <= Decompose(u).year
  {
    DateIsExactIff(t);
    DateIsExactIff(u);
    DayNumberOrders(Decompose(t), Decompose(u));
  }

  /** Keys sort by day on every two days before `bound`. */
  ghost predicate SortsUntil(aggregateType: string, bound: int) {
    forall t, u, id1, id2 ::
      0 <= t < bound && 0 <= u < bound && t / SECS_PER_DAY != u / SECS_PER_DAY ==>
        (Decimal.Less(EventKey(aggregateType, t, id1), EventKey(aggregateType, u, id2))
         <==> t / SECS_PER_DAY < u / SECS_PER_DAY)
  }

  /** The order of the keys is that of the days exactly up to the end of 9999. */
  lemma KeysSortUntilIff(aggregateType: string, bound: int)
    ensures SortsUntil(aggregateType, bound) <==> bound <= SECS_PER_DAY * NewYear(10000)
  {
    if bound <= SECS_PER_DAY * NewYear(10000) {
      forall t, u, id1, id2 | 0 <= t < bound && 0 <= u < bound && t / SECS_PER_DAY != u / SECS_PER_DAY
        ensures Decimal.Less(EventKey(aggregateType, t, id1), EventKey(aggregateType, u, id2))
           <==> t / SECS_PER_DAY < u / SECS_PER_DAY
      {
        KeysSortByDay(aggregateType, t, u, id1, id2);
      }
    } else {
      var t, u := YearsThatDoNotSort(aggregateType);
      assert 0 <= t < bound && 0 <= u < bound && t / SECS_PER_DAY < u / SECS_PER_DAY;
      assert !Decimal.Less(EventKey(aggregateType, t, ""), EventKey(aggregateType, u, ""));
    }
  }

  /** The first second of 2000 and that of 10000: 2000 is not below 1000, so the later key comes first. */
  lemma YearsThatDoNotSort(aggregateType: string) returns (t: int, u: int)
    ensures 0 <= t < u && u == SECS_PER_DAY * NewYear(10000) && t / SECS_PER_DAY < u / SECS_PER_DAY
    ensures !Decimal.Less(EventKey(aggregateType, t, ""), EventKey(aggregateType, u, ""))
  {
    t := FirstSecond(2000);
    u := FirstSecond(10000);
    NewYearGrows(2000, 10000);
    NewYearGrows(1970, 2000);
    EarlierKeyComesFirstIff(aggregateType, t, u, "", "");
    Decimal.FourDigitYear(2000);
    Decimal.TenThousand();
  }

  lemma FirstSecond(year: int) returns (t: int)
    requires 1970 <= year <= I32_MAX
    ensures t == SECS_PER_DAY * NewYear(year) && t / SECS_PER_DAY == NewYear(year)
    ensures InDateRange(t) && Decompose(t).year == year
  {
    NewYearsDay(year);
    DecomposeInvertsDayNumber(Date(year, 1, 1), 0);
    t := SECS_PER_DAY * NewYear(year) + 0;
    SecondOfDay(NewYear(year), 0);
    DateIsExactIff(t);
  }
}
