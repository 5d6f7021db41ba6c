/** Which backups a retention policy keeps (internal/backup/retention.go). */
module Retention {
  import opened Ordering

  // Times are nanoseconds since 1970-01-01T00:00:00Z, Go's resolution.
  const SECOND: int := 1_000_000_000
  const DAY: int := 86_400 * SECOND

  datatype RetentionPolicy = RetentionPolicy(
    keepLast: int, keepDaily: int, keepWeekly: int, keepMonthly: int, maxAgeDays: int,
    ignoreClock: bool, allowMassDelete: bool)
  {
    predicate IsZero() {
      keepLast <= 0 && keepDaily <= 0 && keepWeekly <= 0 && keepMonthly <= 0 && maxAgeDays <= 0
    }
  }

  datatype BackupEntry = BackupEntry(name: string, time: int, bad: bool)

  // ---- the clock arithmetic ----

  /** The value an int64 holds after overflow: time.Duration is one. */
  function Wrap64(x: int): (r: int)
    ensures -0x8000_0000_0000_0000 <= r < 0x8000_0000_0000_0000 && (r - x) % 0x1_0000_0000_0000_0000 == 0
  {
    (x + 0x8000_0000_0000_0000) % 0x1_0000_0000_0000_0000 - 0x8000_0000_0000_0000
  }

  /** The (wrapped) duration added to now to get the cutoff. */
  function Window(maxAgeDays: int): int {
    Wrap64(-maxAgeDays * DAY)
  }

  predicate WithinAge(t: int, p: RetentionPolicy, now: int) {
    p.maxAgeDays > 0 && t >= now + Window(p.maxAgeDays)
  }

  // ---- calendar periods (UTC) ----

  datatype Period = Daily | Weekly | Monthly

  function DayOf(t: int): int { t / DAY }

  /** Days from the epoch to 1 January of a year of the Gregorian calendar. */
  function YearStart(year: int): int {
    var y := year - 1;
    365 * y + y / 4 - y / 100 + y / 400 - 719_162
  }

  predicate Leap(year: int) {
    year % 4 == 0 && (year % 100 != 0 || year % 400 == 0)
  }

  /** Days before a month (0 = January) within its year. */
  function DaysBefore(month: int, leap: bool): int {
    var l := if leap then 1 else 0;
    if month <= 0 then 0
    else if month == 1 then 31
    else if month == 2 then 59 + l
    else if month == 3 then 90 + l
    else if month == 4 then 120 + l
    else if month == 5 then 151 + l
    else if month == 6 then 181 + l
    else if month == 7 then 212 + l
    else if month == 8 then 243 + l
    else if month == 9 then 273 + l
    else if month == 10 then 304 + l
    else if month == 11 then 334 + l
    else 365 + l
  }

  /** The first day of month m, counted from January of the year 0. */
  function MonthStart(m: int): int {
    YearStart(m / 12) + DaysBefore(m % 12, Leap(m / 12))
  }

  lemma Quarter(y: int)
    ensures (y + 1) / 4 == y / 4 + if (y + 1) % 4 == 0 then 1 else 0
  {
  }

  lemma Century(y: int)
    ensures (y + 1) / 100 == y / 100 + if (y + 1) % 100 == 0 then 1 else 0
  {
  }

  lemma FourCenturies(y: int)
    ensures (y + 1) / 400 == y / 400 + if (y + 1) % 400 == 0 then 1 else 0
  {
  }

  lemma YearLength(year: int)
    ensures YearStart(year + 1) == YearStart(year) + DaysBefore(12, Leap(year))
  {
    Quarter(year - 1);
    Century(year - 1);
    FourCenturies(year - 1);
  }

  /** Days count from 1 January 1970, months have the lengths of the Gregorian
      calendar, and a year divisible by 4 has a leap day unless it is divisible
      by 100 and not by 400. */
  lemma MonthLengths(m: int)
    ensures MonthStart(12 * 1970) == 0
    ensures MonthStart(m + 1) - MonthStart(m) ==
      if m % 12 == 3 || m % 12 == 5 || m % 12 == 8 || m % 12 == 10 then 30
      else if m % 12 != 1 then 31
      else if (m / 12) % 4 == 0 && ((m / 12) % 100 != 0 || (m / 12) % 400 == 0) then 29 else 28
  {
    var year, month := m / 12, m % 12;
    assert m + 1 == 12 * year + (month + 1);
    assert MonthStart(12 * 1970) == YearStart(1970) + DaysBefore(0, Leap(1970));
    YearLength(year);
    hide YearStart;
    NextMonth(m);
  }

  lemma NextMonth(m: int)
    ensures MonthStart(m + 1) ==
      if m % 12 == 11 then YearStart(m / 12 + 1) else YearStart(m / 12) + DaysBefore(m % 12 + 1, Leap(m / 12))
  {
    hide YearStart, Leap;
    if m % 12 == 11 {
      assert (m + 1) / 12 == m / 12 + 1 && (m + 1) % 12 == 0;
    } else {
      assert (m + 1) / 12 == m / 12 && (m + 1) % 12 == m % 12 + 1;
    }
  }

  ghost predicate Increasing(start: int -> int) {
    forall m :: start(m - 1) < start(m)
  }

  lemma {:induction false} IncreasingMonotone(start: int -> int, m: int, n: int)
    requires Increasing(start) && m <= n
    ensures start(m) + (n - m) <= start(n)
    decreases n - m
  {
    if m < n {
      IncreasingMonotone(start, m, n - 1);
      assert start(n - 1) < start(n);
    }
  }

  /** The period holding day d, found by stepping from period m. */
  function PeriodFrom(start: int -> int, d: int, m: int): (r: int)
    requires Increasing(start)
    ensures start(r) <= d < start(r + 1)
    decreases if d < start(m) then start(m) - d else d - start(m)
  {
    assert start(m - 1) < start(m) && start(m + 1 - 1) < start(m + 1);
    if d < start(m) then
      if d < start(m - 1) then PeriodFrom(start, d, m - 1) else assert m - 1 + 1 == m; m - 1
    else if d >= start(m + 1) then PeriodFrom(start, d, m + 1)
    else m
  }

  lemma MonthStartIncreasing()
    ensures Increasing(MonthStart)
  {
    forall m ensures MonthStart(m - 1) < MonthStart(m) {
      MonthLengths(m - 1);
    }
  }

  /** The month of day d, counted from January of the year 0. */
  function MonthOf(d: int): (m: int)
    ensures MonthStart(m) <= d < MonthStart(m + 1)
  {
    MonthStartIncreasing();
    PeriodFrom(MonthStart, d, 24_000)
  }

  /** The key a rule's bucket function computes: equal keys are the same
      calendar day, ISO week (Monday first) or month. */
  function Bucket(k: Period, t: int): int {
    match k
    case Daily => DayOf(t)
    case Weekly => (DayOf(t) + 3) / 7
    case Monthly => MonthOf(DayOf(t))
  }

  lemma MonthMonotone(d: int, e: int)
    requires d <= e
    ensures MonthOf(d) <= MonthOf(e)
  {
    hide MonthStart, MonthOf;
    var m, n := MonthOf(d), MonthOf(e);
    MonthStartIncreasing();
    if n < m {
      IncreasingMonotone(MonthStart, n + 1, m);
    }
  }

  lemma BucketMonotone(k: Period, t: int, u: int)
    requires t <= u
    ensures Bucket(k, t) <= Bucket(k, u)
  {
    hide MonthOf;
    assert DayOf(t) <= DayOf(u);
    MonthMonotone(DayOf(t), DayOf(u));
  }

  // ---- the calendar they are of ----

  /** A day is 24 hours. A new week starts with every Monday and on no other day:
      1 January 1970 was a Thursday. */
  lemma BucketsOfTheCalendar(t: int)
    ensures DayOf(t) * 86_400_000_000_000 <= t < (DayOf(t) + 1) * 86_400_000_000_000
    ensures Bucket(Daily, t) == DayOf(t)
    ensures Bucket(Weekly, t + 86_400_000_000_000) == Bucket(Weekly, t) + if DayOf(t) % 7 == 3 then 1 else 0
    ensures Bucket(Monthly, t) == MonthOf(DayOf(t))
  {
    hide MonthOf;
    assert DayOf(t + 86_400_000_000_000) == DayOf(t) + 1;
  }

  // ---- the declared policy ----

  /** Newest first: later time, then the greater name. */
  predicate Newer(a: BackupEntry, b: BackupEntry) {
    a.time > b.time || (a.time == b.time && StrLess(b.name, a.name))
  }

  function Limit(p: RetentionPolicy, k: Period): int {
    match k
    case Daily => p.keepDaily
    case Weekly => p.keepWeekly
    case Monthly => p.keepMonthly
  }

  ghost function Rank(e: BackupEntry, s: set<BackupEntry>): nat {
    |set x | x in s && Newer(x, e)|
  }

  ghost function NewerPeriods(e: BackupEntry, s: set<BackupEntry>, k: Period): set<int> {
    set x | x in s && Newer(x, e) :: Bucket(k, x.time)
  }

  ghost predicate NewestOfPeriod(e: BackupEntry, s: set<BackupEntry>, k: Period) {
    forall x :: x in s && Newer(x, e) ==> Bucket(k, x.time) != Bucket(k, e.time)
  }

  ghost predicate KeptByPeriod(e: BackupEntry, s: set<BackupEntry>, p: RetentionPolicy, k: Period) {
    NewestOfPeriod(e, s, k) && |NewerPeriods(e, s, k)| < Limit(p, k)
  }

  /** The policy as documented, over the good backups s. */
  ghost predicate Keeps(e: BackupEntry, s: set<BackupEntry>, p: RetentionPolicy, now: int) {
    || (forall x :: x in s ==> !Newer(x, e))
    || Rank(e, s) < p.keepLast
    || WithinAge(e.time, p, now)
    || exists k :: KeptByPeriod(e, s, p, k)
  }

  ghost function Kept(s: set<BackupEntry>, p: RetentionPolicy, now: int): set<BackupEntry> {
    set e | e in s && Keeps(e, s, p, now)
  }

  /** No two backups of s share a name. */
  ghost predicate DistinctNames(s: set<BackupEntry>) {
    forall x, y :: x in s && y in s && x.name == y.name ==> x == y
  }

  lemma NewerIsOrder(a: BackupEntry, b: BackupEntry, c: BackupEntry)
    ensures !Newer(a, a)
    ensures Newer(a, b) && Newer(b, c) ==> Newer(a, c)
    ensures Newer(a, c) ==> Newer(a, b) || Newer(b, c)
    ensures Newer(a, b) || Newer(b, a) || a.name == b.name
  {
    StrLessIrreflexive(a.name);
    if StrLess(c.name, b.name) && StrLess(b.name, a.name) {
      StrLessTransitive(c.name, b.name, a.name);
    }
    StrLessTotal(a.name, b.name);
    StrLessTotal(b.name, c.name);
    if StrLess(c.name, a.name) && StrLess(a.name, b.name) {
      StrLessTransitive(c.name, a.name, b.name);
    }
  }

  lemma NewerStrictWeak()
    ensures StrictWeak(Newer)
  {
    forall x, y, z
      ensures !Newer(x, x) && (Newer(x, y) && Newer(y, z) ==> Newer(x, z))
      ensures Newer(x, z) ==> Newer(x, y) || Newer(y, z)
    {
      NewerIsOrder(x, y, z);
    }
  }

  lemma NewerStrictTotal(s: set<BackupEntry>)
    requires DistinctNames(s)
    ensures StrictTotalOn(Newer, s)
  {
    forall x, y, z | x in s && y in s && z in s
      ensures !Newer(x, x) && (Newer(x, y) && Newer(y, z) ==> Newer(x, z))
      ensures x != y ==> Newer(x, y) || Newer(y, x)
    {
      NewerIsOrder(x, y, z);
    }
  }
}
