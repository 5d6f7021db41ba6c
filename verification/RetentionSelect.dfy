/** The selection loops of internal/backup/retention.go, proved against the
    declared policy. */
module RetentionSelect {
  import opened Ordering
  import opened Retention
  import opened Wrappers

  function GoodOnes(entries: seq<BackupEntry>): seq<BackupEntry> {
    if entries == [] then []
    else if entries[0].bad then GoodOnes(entries[1..])
    else [entries[0]] + GoodOnes(entries[1..])
  }

  function NewestFirst(entries: seq<BackupEntry>): seq<BackupEntry> {
    SortBy(Newer, GoodOnes(entries))
  }

  lemma {:induction false} GoodOnesMembers(entries: seq<BackupEntry>)
    ensures forall e :: e in GoodOnes(entries) <==> e in entries && !e.bad
    ensures |GoodOnes(entries)| <= |entries|
  {
    if entries != [] {
      GoodOnesMembers(entries[1..]);
      assert entries == [entries[0]] + entries[1..];
    }
  }

  lemma {:induction false} GoodOnesSnoc(entries: seq<BackupEntry>, e: BackupEntry)
    ensures GoodOnes(entries + [e]) == GoodOnes(entries) + if e.bad then [] else [e]
  {
    if entries == [] {
      assert entries + [e] == [e];
    } else {
      assert (entries + [e])[1..] == entries[1..] + [e];
      GoodOnesSnoc(entries[1..], e);
    }
  }

  // ---- the kept positions of a list sorted newest first ----

  predicate Opens(good: seq<BackupEntry>, i: nat, k: Period)
    requires i < |good|
  {
    i == 0 || Bucket(k, good[i].time) != Bucket(k, good[i - 1].time)
  }

  /** How many periods the first i entries open. */
  function Opened(good: seq<BackupEntry>, i: nat, k: Period): nat
    requires i <= |good|
  {
    if i == 0 then 0 else Opened(good, i - 1, k) + if Opens(good, i - 1, k) then 1 else 0
  }

  predicate RuleKeeps(good: seq<BackupEntry>, i: nat, k: Period, p: RetentionPolicy)
    requires i < |good|
  {
    Opens(good, i, k) && Opened(good, i, k) < Limit(p, k)
  }

  predicate KeepsAt(good: seq<BackupEntry>, i: nat, p: RetentionPolicy, now: int)
    requires i < |good|
  {
    || i == 0
    || i < p.keepLast
    || WithinAge(good[i].time, p, now)
    || RuleKeeps(good, i, Daily, p)
    || RuleKeeps(good, i, Weekly, p)
    || RuleKeeps(good, i, Monthly, p)
  }

  function KeptUpTo(good: seq<BackupEntry>, n: nat, p: RetentionPolicy, now: int): set<string>
    requires n <= |good|
  {
    set i | 0 <= i < n && KeepsAt(good, i, p, now) :: good[i].name
  }

  function KeptNames(entries: seq<BackupEntry>, p: RetentionPolicy, now: int): set<string> {
    var good := NewestFirst(entries);
    KeptUpTo(good, |good|, p, now)
  }

  // ---- the loop ----

  datatype Rule = Rule(left: int, period: Period, last: Option<int>)

  /** The state of one rule once the first i entries have gone through it. */
  ghost predicate RuleAt(r: Rule, good: seq<BackupEntry>, i: nat, k: Period, p: RetentionPolicy)
    requires i <= |good|
  {
    && r.period == k
    && (Limit(p, k) <= 0 ==> r.left == Limit(p, k))
    && (Limit(p, k) > 0 ==> r.left == if Opened(good, i, k) < Limit(p, k) then Limit(p, k) - Opened(good, i, k) else 0)
    && (r.left > 0 ==> r.last == if i == 0 then None else Some(Bucket(k, good[i - 1].time)))
  }

  /** One rule looks at one entry. */
  method ApplyRule(r: Rule, good: seq<BackupEntry>, i: nat, ghost k: Period, ghost p: RetentionPolicy)
    returns (r': Rule, keeps: bool)
    requires i < |good| && RuleAt(r, good, i, k, p)
    ensures RuleAt(r', good, i + 1, k, p)
    ensures keeps == RuleKeeps(good, i, k, p)
  {
    hide Bucket;
    r', keeps := r, false;
    if r.left > 0 {
      var b := Bucket(r.period, good[i].time);
      if r.last != Some(b) {
        r', keeps := Rule(r.left - 1, r.period, Some(b)), true;
      }
    }
  }

  method SelectKept(entries: seq<BackupEntry>, p: RetentionPolicy, now: int) returns (keep: set<string>)
    ensures keep == KeptNames(entries, p, now)
  {
    hide Bucket, SortBy, WithinAge, RuleKeeps;
    keep := {};
    var good := [];
    for n := 0 to |entries|
      invariant good == GoodOnes(entries[..n])
    {
      GoodOnesSnoc(entries[..n], entries[n]);
      assert entries[..n + 1] == entries[..n] + [entries[n]];
      if !entries[n].bad {
        good := good + [entries[n]];
      }
    }
    assert entries[..|entries|] == entries;
    good := SortBy(Newer, good);
    if |good| == 0 {
      return;
    }
    keep := keep + {good[0].name};
    var daily := Rule(p.keepDaily, Daily, None);
    var weekly := Rule(p.keepWeekly, Weekly, None);
    var monthly := Rule(p.keepMonthly, Monthly, None);
    for i := 0 to |good|
      invariant RuleAt(daily, good, i, Daily, p)
      invariant RuleAt(weekly, good, i, Weekly, p)
      invariant RuleAt(monthly, good, i, Monthly, p)
      invariant keep == KeptUpTo(good, i, p, now) + {good[0].name}
    {
      var wants := i < p.keepLast;
      if WithinAge(good[i].time, p, now) {
        wants := true;
      }
      var d, w, m;
      daily, d := ApplyRule(daily, good, i, Daily, p);
      weekly, w := ApplyRule(weekly, good, i, Weekly, p);
      monthly, m := ApplyRule(monthly, good, i, Monthly, p);
      if wants || d || w || m {
        keep := keep + {good[i].name};
      }
      assert KeepsAt(good, i, p, now) == (i == 0 || wants || d || w || m);
      KeptUpToNext(good, i, p, now);
    }
    assert KeepsAt(good, 0, p, now);
  }

  lemma KeptUpToNext(good: seq<BackupEntry>, i: nat, p: RetentionPolicy, now: int)
    requires i < |good|
    ensures KeptUpTo(good, i + 1, p, now) == KeptUpTo(good, i, p, now) + if KeepsAt(good, i, p, now)
      then {good[i].name} else {}
  {
    hide KeepsAt;
  }

  // ---- the loop refines the declared policy ----

  ghost function GoodSet(entries: seq<BackupEntry>): set<BackupEntry> {
    set e | e in entries && !e.bad
  }

  /** Good backups of one listing have names of their own. */
  ghost predicate OwnNames(entries: seq<BackupEntry>) {
    forall i, j :: 0 <= i < j < |entries| ==> entries[i].name != entries[j].name
  }

  lemma {:induction false} GoodOnesOwnNames(entries: seq<BackupEntry>)
    requires OwnNames(entries)
    ensures OwnNames(GoodOnes(entries))
  {
    if entries != [] {
      GoodOnesOwnNames(entries[1..]);
      GoodOnesMembers(entries[1..]);
      forall j | 0 <= j < |GoodOnes(entries[1..])| ensures GoodOnes(entries[1..])[j].name != entries[0].name {
        assert GoodOnes(entries[1..])[j] in entries[1..];
      }
    }
  }

  /** A list whose names differ pairwise is its set, each element once. */
  lemma {:induction false} OwnNamesMultiset(s: seq<BackupEntry>)
    requires OwnNames(s)
    ensures forall e :: multiset(s)[e] <= 1
  {
    if s != [] {
      OwnNamesMultiset(s[1..]);
      assert s == [s[0]] + s[1..];
      assert multiset(s) == multiset{s[0]} + multiset(s[1..]);
      assert s[0] !in s[1..];
    }
  }

  lemma OwnNamesOfPermutation(s: seq<BackupEntry>, t: seq<BackupEntry>)
    requires OwnNames(s) && multiset(s) == multiset(t)
    ensures OwnNames(t)
  {
    OwnNamesMultiset(s);
    forall i, j | 0 <= i < j < |t| ensures t[i].name != t[j].name {
      assert t == t[..j] + [t[j]] + t[j + 1..];
      assert t[i] in t[..j];
      assert multiset(t)[t[i]] <= 1;
      assert t[i] != t[j];
      assert t[i] in multiset(s) && t[j] in multiset(s);
    }
  }

  lemma SortedStrictly(entries: seq<BackupEntry>)
    requires OwnNames(entries)
    ensures var good := NewestFirst(entries);
            && (forall i, j :: 0 <= i < j < |good| ==> Newer(good[i], good[j]))
            && (forall e :: e in good <==> e in GoodSet(entries))
  {
    hide SortBy, GoodOnes, Newer;
    var g := GoodOnes(entries);
    var good := NewestFirst(entries);
    GoodOnesMembers(entries);
    GoodOnesOwnNames(entries);
    SortByMultiset(Newer, g);
    SortByElements(Newer, g);
    OwnNamesOfPermutation(g, good);
    NewerStrictWeak();
    SortBySorted(Newer, g);
    forall i, j | 0 <= i < j < |good| ensures Newer(good[i], good[j]) {
      NewerIsOrder(good[i], good[j], good[i]);
    }
  }

  lemma NewPeriod(good: seq<BackupEntry>, i: nat, k: Period)
    requires i < |good|
    requires forall a, b :: 0 <= a < b < |good| ==> good[a].time >= good[b].time
    ensures Opens(good, i, k) <==> Bucket(k, good[i].time) !in PrefixPeriods(good, i, k)
  {
    hide Bucket;
    if i > 0 {
      if Opens(good, i, k) {
        forall a | 0 <= a < i ensures Bucket(k, good[a].time) != Bucket(k, good[i].time) {
          BucketMonotone(k, good[i].time, good[i - 1].time);
          BucketMonotone(k, good[i - 1].time, good[a].time);
        }
      } else {
        assert Bucket(k, good[i - 1].time) in PrefixPeriods(good, i, k);
      }
    }
  }

  lemma {:induction false} OpenedIsPeriods(good: seq<BackupEntry>, i: nat, k: Period)
    requires i <= |good|
    requires forall a, b :: 0 <= a < b < |good| ==> good[a].time >= good[b].time
    ensures |PrefixPeriods(good, i, k)| == Opened(good, i, k)
  {
    hide Bucket, PrefixPeriods, Opens;
    if i == 0 {
      NoPeriodsYet(good, k);
    } else {
      OpenedIsPeriods(good, i - 1, k);
      NewPeriod(good, i - 1, k);
      PrefixGrows(good, i, k);
    }
  }

  lemma NoPeriodsYet(good: seq<BackupEntry>, k: Period)
    ensures PrefixPeriods(good, 0, k) == {}
  {
  }

  /** One more backup adds its period. */
  lemma PrefixGrows(good: seq<BackupEntry>, i: nat, k: Period)
    requires 0 < i <= |good|
    ensures var before, v := PrefixPeriods(good, i - 1, k), Bucket(k, good[i - 1].time);
      && PrefixPeriods(good, i, k) == before + {v}
      && |before + {v}| == |before| + if v in before then 0 else 1
  {
    hide Bucket;
    var before, v := PrefixPeriods(good, i - 1, k), Bucket(k, good[i - 1].time);
    assert v in before ==> before + {v} == before;
  }

  ghost function PrefixPeriods(good: seq<BackupEntry>, i: nat, k: Period): set<int>
    requires i <= |good|
  {
    set j | 0 <= j < i :: Bucket(k, good[j].time)
  }

  lemma PrefixIsNewer(good: seq<BackupEntry>, s: set<BackupEntry>, i: nat)
    requires i < |good|
    requires forall a, b :: 0 <= a < b < |good| ==> Newer(good[a], good[b])
    requires forall e :: e in good <==> e in s
    ensures (set x | x in s && Newer(x, good[i])) == set j | 0 <= j < i :: good[j]
    ensures Rank(good[i], s) == i
  {
    forall x, y ensures !Newer(x, x) && (Newer(x, y) ==> !Newer(y, x)) {
      NewerIsOrder(x, y, x);
      NewerIsOrder(x, x, x);
    }
    RankOfSorted(Newer, good, i);
    assert (set x | x in s && Newer(x, good[i])) == Preceding(Newer, good, good[i]);
  }

  lemma RuleKeepsIsKeptByPeriod(good: seq<BackupEntry>, s: set<BackupEntry>, i: nat, p: RetentionPolicy, k: Period)
    requires i < |good|
    requires forall a, b :: 0 <= a < b < |good| ==> Newer(good[a], good[b])
    requires forall e :: e in good <==> e in s
    ensures RuleKeeps(good, i, k, p) <==> KeptByPeriod(good[i], s, p, k)
  {
    hide Bucket;
    PrefixIsNewer(good, s, i);
    var newer := set j | 0 <= j < i :: good[j];
    OpenedIsPeriods(good, i, k);
    NewPeriod(good, i, k);
    forall v | v in PrefixPeriods(good, i, k) ensures v in NewerPeriods(good[i], s, k) {
      var j :| 0 <= j < i && v == Bucket(k, good[j].time);
      assert good[j] in newer;
    }
    forall v | v in NewerPeriods(good[i], s, k) ensures v in PrefixPeriods(good, i, k) {
      var x :| x in s && Newer(x, good[i]) && v == Bucket(k, x.time);
      assert x in newer;
    }
    assert NewerPeriods(good[i], s, k) == PrefixPeriods(good, i, k);
  }

  /** The one-pass loop with its counters keeps a backup exactly when the policy,
      as it is documented, keeps it. */
  lemma SelectionIsPolicy(entries: seq<BackupEntry>, p: RetentionPolicy, now: int)
    requires OwnNames(entries)
    ensures KeptNames(entries, p, now) == set e | e in Kept(GoodSet(entries), p, now) :: e.name
    ensures forall e ::
      e in GoodSet(entries) ==> (e.name in KeptNames(entries, p, now) <==> Keeps(e, GoodSet(entries), p, now))
  {
    hide Bucket, WithinAge, RuleKeeps, KeptByPeriod;
    var good, s := NewestFirst(entries), GoodSet(entries);
    SortedStrictly(entries);
    forall i | 0 <= i < |good| ensures KeepsAt(good, i, p, now) <==> Keeps(good[i], s, p, now) {
      PrefixIsNewer(good, s, i);
      forall k: Period ensures RuleKeeps(good, i, k, p) <==> KeptByPeriod(good[i], s, p, k) {
        RuleKeepsIsKeptByPeriod(good, s, i, p, k);
      }
      if i == 0 {
        forall x | x in s ensures !Newer(x, good[0]) {
          NewerIsOrder(x, good[0], x);
        }
      } else {
        assert Newer(good[0], good[i]) && good[0] in s;
      }
      if k :| KeptByPeriod(good[i], s, p, k) {
        assert k == Daily || k == Weekly || k == Monthly;
        assert RuleKeeps(good, i, k, p);
      }
    }
    forall e | e in s ensures e.name in KeptNames(entries, p, now) <==> Keeps(e, s, p, now) {
      var j :| 0 <= j < |good| && good[j] == e;
      if e.name in KeptNames(entries, p, now) {
        var i :| 0 <= i < |good| && KeepsAt(good, i, p, now) && good[i].name == e.name;
        assert good[i] in s && good[j] in s;
        assert good[i] == good[j];
      }
    }
  }

  // ---- selectForDeletion ----

  predicate LaterTime(a: BackupEntry, b: BackupEntry) { a.time > b.time }

  /** The time of the first good entry of a list. */
  function FirstGoodTime(s: seq<BackupEntry>): int {
    if s == [] then 0 else if !s[0].bad then s[0].time else FirstGoodTime(s[1..])
  }

  predicate Deletable(e: BackupEntry, keep: set<string>, newestGood: int) {
    e.name !in keep && !(e.bad && e.time >= newestGood)
  }

  function DeletableNames(s: seq<BackupEntry>, keep: set<string>, newestGood: int): seq<string> {
    if s == [] then []
    else (if Deletable(s[0], keep, newestGood) then [s[0].name] else []) + DeletableNames(s[1..], keep, newestGood)
  }

  function SelectedNames(entries: seq<BackupEntry>, p: RetentionPolicy, now: int): seq<string> {
    var keep := KeptNames(entries, p, now);
    if p.IsZero() || keep == {} then []
    else
      var s := SortBy(LaterTime, entries);
      DeletableNames(s, keep, FirstGoodTime(s))
  }

  lemma {:induction false} DeletableNamesSnoc(s: seq<BackupEntry>, e: BackupEntry, keep: set<string>, newestGood: int)
    ensures DeletableNames(s + [e], keep, newestGood)
         == DeletableNames(s, keep, newestGood) + if Deletable(e, keep, newestGood) then [e.name] else []
  {
    if s == [] {
      assert s + [e] == [e];
    } else {
      assert (s + [e])[1..] == s[1..] + [e];
      DeletableNamesSnoc(s[1..], e, keep, newestGood);
    }
  }

  /** What a retention policy deletes. The entries are sorted in place. */
  method SelectForDeletion(entries: array<BackupEntry>, p: RetentionPolicy, now: int) returns (out: seq<string>)
    modifies entries
    ensures out == SelectedNames(old(entries[..]), p, now)
    ensures entries[..] == old(entries[..]) || entries[..] == SortBy(LaterTime, old(entries[..]))
  {
    hide KeptNames;
    out := [];
    if p.IsZero() {
      return;
    }
    var keep := SelectKept(entries[..], p, now);
    if keep == {} {
      return;
    }
    SortInPlace(LaterTime, entries);
    ghost var sorted := entries[..];
    var newestGood, found := 0, false;
    for i := 0 to entries.Length
      invariant entries[..] == sorted
      invariant !found ==> FirstGoodTime(entries[..]) == FirstGoodTime(entries[i..]) && newestGood == 0
      invariant found ==> newestGood == FirstGoodTime(entries[..])
    {
      if !entries[i].bad {
        newestGood, found := entries[i].time, true;
        break;
      }
    }
    for i := 0 to entries.Length
      invariant entries[..] == sorted
      invariant out == DeletableNames(entries[..i], keep, newestGood)
    {
      DeletableNamesSnoc(entries[..i], entries[i], keep, newestGood);
      assert entries[..i + 1] == entries[..i] + [entries[i]];
      if entries[i].name in keep {
        continue;
      }
      if entries[i].bad && entries[i].time >= newestGood {
        continue;
      }
      out := out + [entries[i].name];
    }
    assert entries[..entries.Length] == entries[..];
  }

  // ---- what the selection means ----

  lemma {:induction false} DeletableNamesMembers(s: seq<BackupEntry>, keep: set<string>, newestGood: int, n: string)
    ensures n in DeletableNames(s, keep, newestGood) <==>
      exists e :: e in s && e.name == n && Deletable(e, keep, newestGood)
  {
    if s != [] {
      DeletableNamesMembers(s[1..], keep, newestGood, n);
      assert s == [s[0]] + s[1..];
    }
  }

  lemma {:induction false} FirstGoodTimeIsNewest(s: seq<BackupEntry>)
    requires forall i, j :: 0 <= i < j < |s| ==> s[i].time >= s[j].time
    requires exists e :: e in s && !e.bad
    ensures forall e :: e in s && !e.bad ==> e.time <= FirstGoodTime(s)
    ensures exists e :: e in s && !e.bad && e.time == FirstGoodTime(s)
  {
    if s[0].bad {
      FirstGoodTimeIsNewest(s[1..]);
    }
  }

  lemma KeptNamesEmpty(entries: seq<BackupEntry>, p: RetentionPolicy, now: int)
    ensures KeptNames(entries, p, now) == {} <==> forall e :: e in entries ==> e.bad
  {
    var good := NewestFirst(entries);
    GoodOnesMembers(entries);
    SortByElements(Newer, GoodOnes(entries));
    if good != [] {
      assert good[0] in GoodOnes(entries);
      assert KeepsAt(good, 0, p, now);
      assert good[0].name in KeptNames(entries, p, now);
    } else {
      forall e | e in entries ensures e.bad {
        assert e.bad || e in good;
      }
    }
  }

  /** A time no good entry is later than, and some good entry has. */
  ghost predicate IsNewestGoodTime(t: int, entries: seq<BackupEntry>) {
    && (exists e :: e in entries && !e.bad && e.time == t)
    && (forall e :: e in entries && !e.bad ==> e.time <= t)
  }

  /** Exactly which names a prune of one listing selects: none, if no rule is set. */
  lemma SelectedExactly(entries: seq<BackupEntry>, p: RetentionPolicy, now: int, n: string)
    ensures n in SelectedNames(entries, p, now) <==>
      && (p.keepLast > 0 || p.keepDaily > 0 || p.keepWeekly > 0 || p.keepMonthly > 0 || p.maxAgeDays > 0)
      && n !in KeptNames(entries, p, now)
      && exists e, t :: e in entries && e.name == n && IsNewestGoodTime(t, entries) && (e.bad ==> e.time < t)
  {
    hide KeptNames, SortBy;
    KeptNamesEmpty(entries, p, now);
    var keep, s := KeptNames(entries, p, now), SortBy(LaterTime, entries);
    if keep != {} {
      SortByElements(LaterTime, entries);
      assert StrictWeak(LaterTime);
      SortBySorted(LaterTime, entries);
      FirstGoodTimeIsNewest(s);
      assert IsNewestGoodTime(FirstGoodTime(s), entries);
      forall t | IsNewestGoodTime(t, entries) ensures t == FirstGoodTime(s) {
      }
      DeletableNamesMembers(s, keep, FirstGoodTime(s), n);
    }
  }

  /** The good backups of a listing that come before e, newest first. */
  ghost function Ahead(entries: seq<BackupEntry>, e: BackupEntry): set<BackupEntry> {
    set x | x in entries && !x.bad && (x.time > e.time || (x.time == e.time && StrLess(e.name, x.name)))
  }

  lemma KeptInFull(s: set<BackupEntry>, p: RetentionPolicy, now: int, e: BackupEntry)
    requires e in s
    ensures var newer := set x | x in s && Newer(x, e);
      Keeps(e, s, p, now) <==>
        || newer == {} || |newer| < p.keepLast
        || (p.maxAgeDays > 0 && e.time >= now + Wrap64(-p.maxAgeDays * 86_400_000_000_000))
        || KeptByPeriod(e, s, p, Daily) || KeptByPeriod(e, s, p, Weekly) || KeptByPeriod(e, s, p, Monthly)
  {
    hide Bucket, Newer, KeptByPeriod;
    var newer := set x | x in s && Newer(x, e);
    assert newer == {} <==> forall x :: x in s ==> !Newer(x, e) by {
      if newer == {} {
        forall x | x in s ensures !Newer(x, e) {
          assert x !in newer;
        }
      }
    }
    if k :| KeptByPeriod(e, s, p, k) {
      assert k == Daily || k == Weekly || k == Monthly;
    }
  }

  lemma NewestGoodTimeIs(entries: seq<BackupEntry>, e: BackupEntry)
    requires e in entries && !e.bad
    ensures exists t :: IsNewestGoodTime(t, entries)
  {
    hide SortBy;
    var s := SortBy(LaterTime, entries);
    SortByElements(LaterTime, entries);
    assert StrictWeak(LaterTime);
    SortBySorted(LaterTime, entries);
    FirstGoodTimeIsNewest(s);
    assert IsNewestGoodTime(FirstGoodTime(s), entries);
  }

  lemma DailyInFull(e: BackupEntry, s: set<BackupEntry>, p: RetentionPolicy, newer: set<BackupEntry>)
    requires newer == set x | x in s && Newer(x, e)
    ensures KeptByPeriod(e, s, p, Daily) <==>
      && !(exists x :: x in newer && DayOf(x.time) == DayOf(e.time))
      && |set x | x in newer :: DayOf(x.time)| < p.keepDaily
  {
    hide Newer, MonthOf;
    assert NewerPeriods(e, s, Daily) == set x | x in newer :: DayOf(x.time);
    assert NewestOfPeriod(e, s, Daily) <==> forall x :: x in newer ==> DayOf(x.time) != DayOf(e.time);
  }

  lemma WeeklyInFull(e: BackupEntry, s: set<BackupEntry>, p: RetentionPolicy, newer: set<BackupEntry>)
    requires newer == set x | x in s && Newer(x, e)
    ensures KeptByPeriod(e, s, p, Weekly) <==>
      && !(exists x :: x in newer && (DayOf(x.time) + 3) / 7 == (DayOf(e.time) + 3) / 7)
      && |set x | x in newer :: (DayOf(x.time) + 3) / 7| < p.keepWeekly
  {
    hide Newer, MonthOf;
    assert NewerPeriods(e, s, Weekly) == set x | x in newer :: (DayOf(x.time) + 3) / 7;
    assert NewestOfPeriod(e, s, Weekly) <==>
      forall x :: x in newer ==> (DayOf(x.time) + 3) / 7 != (DayOf(e.time) + 3) / 7;
  }

  lemma MonthlyInFull(e: BackupEntry, s: set<BackupEntry>, p: RetentionPolicy, newer: set<BackupEntry>)
    requires newer == set x | x in s && Newer(x, e)
    ensures KeptByPeriod(e, s, p, Monthly) <==>
      && !(exists x :: x in newer && MonthOf(DayOf(x.time)) == MonthOf(DayOf(e.time)))
      && |set x | x in newer :: MonthOf(DayOf(x.time))| < p.keepMonthly
  {
    hide Newer, MonthOf;
    assert NewerPeriods(e, s, Monthly) == set x | x in newer :: MonthOf(DayOf(x.time));
    assert NewestOfPeriod(e, s, Monthly) <==>
      forall x :: x in newer ==> MonthOf(DayOf(x.time)) != MonthOf(DayOf(e.time));
  }

  /** The rules in full. A good backup goes if and only if some rule is set, a newer
      good one stays, at least keepLast are newer, it is older than maxAgeDays days
      (as an int64 of nanoseconds), and for each of days, weeks and months a newer
      one is of the same period, or as many newer periods as the rule's number
      have one. */
  lemma SelectedInFull(entries: seq<BackupEntry>, p: RetentionPolicy, now: int, e: BackupEntry)
    requires OwnNames(entries) && e in entries && !e.bad
    ensures var newer := Ahead(entries, e);
      e.name in SelectedNames(entries, p, now) <==>
        && (p.keepLast > 0 || p.keepDaily > 0 || p.keepWeekly > 0 || p.keepMonthly > 0 || p.maxAgeDays > 0)
        && newer != {} && |newer| >= p.keepLast
        && (p.maxAgeDays <= 0 || e.time < now + Wrap64(-p.maxAgeDays * 86_400_000_000_000))
        && ((exists x :: x in newer && DayOf(x.time) == DayOf(e.time)) ||
            |set x | x in newer :: DayOf(x.time)| >= p.keepDaily)
        && ((exists x :: x in newer && (DayOf(x.time) + 3) / 7 == (DayOf(e.time) + 3) / 7) ||
            |set x | x in newer :: (DayOf(x.time) + 3) / 7| >= p.keepWeekly)
        && ((exists x :: x in newer && MonthOf(DayOf(x.time)) == MonthOf(DayOf(e.time))) ||
            |set x | x in newer :: MonthOf(DayOf(x.time))| >= p.keepMonthly)
  {
    hide KeptNames, MonthOf, SelectedNames, Keeps, KeptByPeriod, DayOf, IsNewestGoodTime;
    var s, newer := GoodSet(entries), Ahead(entries, e);
    assert newer == set x | x in s && Newer(x, e);
    SelectionIsPolicy(entries, p, now);
    SelectedExactly(entries, p, now, e.name);
    KeptInFull(s, p, now, e);
    NewestGoodTimeIs(entries, e);
    DailyInFull(e, s, p, newer);
    WeeklyInFull(e, s, p, newer);
    MonthlyInFull(e, s, p, newer);
  }

  lemma {:induction false} DeletableNamesInOrder(s: seq<BackupEntry>, keep: set<string>, newestGood: int,
                                                 i: nat, j: nat, a: BackupEntry, b: BackupEntry)
    requires OwnNames(s) && forall x, y :: 0 <= x < y < |s| ==> s[x].time >= s[y].time
    requires var out := DeletableNames(s, keep, newestGood);
      i < j < |out| && a in s && b in s && a.name == out[i] && b.name == out[j]
    ensures a.time >= b.time && a.name != b.name
  {
    hide Deletable;
    var rest := s[1..];
    DeletableNamesMembers(rest, keep, newestGood, b.name);
    assert b in rest && b.name != s[0].name;
    if !Deletable(s[0], keep, newestGood) {
      DeletableNamesMembers(rest, keep, newestGood, a.name);
      DeletableNamesInOrder(rest, keep, newestGood, i, j, a, b);
    } else if i > 0 {
      DeletableNamesMembers(rest, keep, newestGood, a.name);
      DeletableNamesInOrder(rest, keep, newestGood, i - 1, j - 1, a, b);
    }
  }

  /** A prune goes through a listing from its newest entry, and names each at most
      once. */
  lemma SelectedInOrder(entries: seq<BackupEntry>, p: RetentionPolicy, now: int, i: nat, j: nat,
                        a: BackupEntry, b: BackupEntry)
    requires OwnNames(entries) && a in entries && b in entries
    requires var out := SelectedNames(entries, p, now); i < j < |out| && a.name == out[i] && b.name == out[j]
    ensures a.time >= b.time && a.name != b.name
  {
    hide KeptNames, SortBy;
    var s := SortBy(LaterTime, entries);
    SortByMultiset(LaterTime, entries);
    SortByElements(LaterTime, entries);
    assert StrictWeak(LaterTime);
    SortBySorted(LaterTime, entries);
    OwnNamesOfPermutation(entries, s);
    DeletableNamesInOrder(s, KeptNames(entries, p, now), FirstGoodTime(s), i, j, a, b);
  }

  /** The newest good backup of a listing is never selected, whatever the policy
      and even if names repeat. */
  lemma NewestGoodIsNeverSelected(entries: seq<BackupEntry>, p: RetentionPolicy, now: int, e: BackupEntry)
    requires e in entries && !e.bad
    requires forall x :: x in entries && !x.bad ==> !Newer(x, e)
    ensures e.name !in SelectedNames(entries, p, now)
  {
    var good := NewestFirst(entries);
    GoodOnesMembers(entries);
    SortByElements(Newer, GoodOnes(entries));
    NewerStrictWeak();
    SortBySorted(Newer, GoodOnes(entries));
    assert e in good;
    NewerIsOrder(good[0], e, good[0]);
    assert !Newer(e, good[0]) by {
      var i :| 0 <= i < |good| && good[i] == e;
      NewerIsOrder(e, e, e);
    }
    assert good[0] in entries;
    assert good[0].name == e.name by {
      NewerIsOrder(good[0], e, good[0]);
    }
    assert KeepsAt(good, 0, p, now);
    SelectedExactly(entries, p, now, e.name);
  }
}
