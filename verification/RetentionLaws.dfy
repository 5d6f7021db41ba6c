/** What the retention policy guarantees of any history: it does not depend on
    how often, or how completely, a prune ran. */
module RetentionLaws {
  import opened Ordering
  import opened Retention

  // ---- monotonicity ----

  lemma PeriodHeredity(e: BackupEntry, s: set<BackupEntry>, t: set<BackupEntry>, p: RetentionPolicy, k: Period)
    requires s <= t && KeptByPeriod(e, t, p, k)
    ensures KeptByPeriod(e, s, p, k)
  {
    SubsetSize(NewerPeriods(e, s, k), NewerPeriods(e, t, k));
  }

  /** More backups never make the policy keep an old one it would have dropped. */
  lemma Heredity(s: set<BackupEntry>, t: set<BackupEntry>, p: RetentionPolicy, now: int)
    requires s <= t
    ensures Kept(t, p, now) * s <= Kept(s, p, now)
  {
    forall e | e in Kept(t, p, now) * s ensures e in Kept(s, p, now) {
      SubsetSize(set x | x in s && Newer(x, e), set x | x in t && Newer(x, e));
      if k :| KeptByPeriod(e, t, p, k) {
        PeriodHeredity(e, s, t, p, k);
      }
    }
  }

  lemma KeptStoreOne(s: set<BackupEntry>, e: BackupEntry, p: RetentionPolicy, now: int)
    ensures Kept(s + {e}, p, now) <= Kept(s, p, now) + {e}
  {
    Heredity(s, s + {e}, p, now);
  }

  lemma AgeOnlyShrinks(s: set<BackupEntry>, p: RetentionPolicy, now: int, later: int)
    requires now <= later
    ensures Kept(s, p, later) <= Kept(s, p, now)
  {
  }

  /** The age rule of q reaches at least as far back as that of p. */
  predicate WindowGrows(p: RetentionPolicy, q: RetentionPolicy) {
    p.maxAgeDays <= 0 || (q.maxAgeDays > 0 && Window(q.maxAgeDays) <= Window(p.maxAgeDays))
  }

  /** 106751 days is the longest age an int64 duration holds. */
  lemma WindowGrowsBelowOverflow(p: RetentionPolicy, q: RetentionPolicy)
    requires p.maxAgeDays <= q.maxAgeDays <= 106_751
    ensures WindowGrows(p, q)
  {
    if p.maxAgeDays > 0 {
      assert Window(p.maxAgeDays) == -p.maxAgeDays * DAY;
      assert Window(q.maxAgeDays) == -q.maxAgeDays * DAY;
    }
  }

  lemma KeptMonotoneInPolicy(s: set<BackupEntry>, p: RetentionPolicy, q: RetentionPolicy, now: int)
    requires p.keepLast <= q.keepLast && p.keepDaily <= q.keepDaily
    requires p.keepWeekly <= q.keepWeekly && p.keepMonthly <= q.keepMonthly
    requires WindowGrows(p, q)
    ensures Kept(s, p, now) <= Kept(s, q, now)
  {
    forall e | e in Kept(s, p, now) ensures e in Kept(s, q, now) {
      if k :| KeptByPeriod(e, s, p, k) {
        assert KeptByPeriod(e, s, q, k);
      }
    }
  }

  function AgeOnly(days: int): RetentionPolicy {
    RetentionPolicy(0, 0, 0, 0, days, false, false)
  }

  /** For policies that set only the age, the condition is exact. */
  lemma AgeOnlyMonotoneIff(a: int, b: int)
    ensures WindowGrows(AgeOnly(a), AgeOnly(b))
       <==> forall s, now :: Kept(s, AgeOnly(a), now) <= Kept(s, AgeOnly(b), now)
  {
    var p, q := AgeOnly(a), AgeOnly(b);
    if WindowGrows(p, q) {
      forall s, now ensures Kept(s, p, now) <= Kept(s, q, now) {
        KeptMonotoneInPolicy(s, p, q, now);
      }
    } else {
      var older, younger := BackupEntry("a", Window(a), false), BackupEntry("b", Window(a) + 1, false);
      assert older in Kept({older, younger}, p, 0);
      assert Newer(younger, older);
      assert older !in Kept({older, younger}, q, 0);
      assert !(Kept({older, younger}, p, 0) <= Kept({older, younger}, q, 0));
    }
  }

  /** One day more than an int64 duration holds, and a backup kept under the
      shorter age is dropped under the longer one. */
  lemma LongerAgeCanKeepLess()
    ensures exists s, now :: !(Kept(s, AgeOnly(106_751), now) <= Kept(s, AgeOnly(106_752), now))
  {
    AgeOnlyMonotoneIff(106_751, 106_752);
    assert Window(106_751) == -106_751 * DAY;
    assert Window(106_752) == 0x1_0000_0000_0000_0000 - 106_752 * DAY;
    assert !WindowGrows(AgeOnly(106_751), AgeOnly(106_752));
  }

  // ---- a prune that removed only what it may removes nothing that matters ----

  lemma KeptBySameRank(a: set<BackupEntry>, b: set<BackupEntry>, e: BackupEntry, p: RetentionPolicy, now: int)
    requires DistinctNames(a) && Kept(a, p, now) <= b <= a && e in b
    requires Rank(e, b) < p.keepLast
    ensures Rank(e, a) < p.keepLast
  {
    var newer := set x | x in a && Newer(x, e);
    if |newer| >= p.keepLast {
      NewerStrictTotal(a);
      TopNSize(Newer, newer, p.keepLast);
      var top := TopN(Newer, newer, p.keepLast);
      forall y | y in top ensures y in b && Newer(y, e) {
        assert Above(Newer, newer, y) == set x | x in a && Newer(x, y) by {
          forall x | x in a && Newer(x, y) ensures Newer(x, e) {
            NewerIsOrder(x, y, e);
          }
        }
        assert Rank(y, a) < p.keepLast;
        assert y in Kept(a, p, now);
      }
      SubsetSize(top, set x | x in b && Newer(x, e));
    }
  }

  predicate Later(x: int, y: int) { x > y }

  ghost function PeriodsAfter(a: set<BackupEntry>, k: Period, v: int): set<int> {
    set x | x in a && Bucket(k, x.time) > v :: Bucket(k, x.time)
  }

  /** The newest backup of a period. */
  lemma NewestIn(a: set<BackupEntry>, k: Period, v: int, w: BackupEntry) returns (z: BackupEntry)
    requires DistinctNames(a) && w in a && Bucket(k, w.time) == v
    ensures z in a && Bucket(k, z.time) == v && NewestOfPeriod(z, a, k)
    ensures z == w || Newer(z, w)
    ensures NewerPeriods(z, a, k) == PeriodsAfter(a, k, v)
  {
    var same := set x | x in a && Bucket(k, x.time) == v && (x == w || Newer(x, w));
    assert w in same;
    z := Newest(same);
    forall x | x in a && Newer(x, z) ensures Bucket(k, x.time) > v {
      BucketMonotone(k, z.time, x.time);
      NewerIsOrder(x, z, w);
      NewerIsOrder(x, z, x);
      assert Bucket(k, x.time) == v ==> x in same && x != z;
    }
    forall x | x in a && Bucket(k, x.time) > v ensures Newer(x, z) {
      if x.time <= z.time {
        BucketMonotone(k, x.time, z.time);
      }
    }
    assert NewerPeriods(z, a, k) == PeriodsAfter(a, k, v);
  }

  predicate Older(x: BackupEntry, y: BackupEntry) { Newer(y, x) }

  lemma Newest(s: set<BackupEntry>) returns (z: BackupEntry)
    requires s != {} && DistinctNames(s)
    ensures z in s && forall x :: x in s && x != z ==> Newer(z, x)
  {
    NewerStrictTotal(s);
    assert StrictTotalOn(Older, s) by {
      forall x, y | x in s && y in s && x != y ensures Older(x, y) || Older(y, x) {
        assert Newer(x, y) || Newer(y, x);
      }
      forall x, y, z | x in s && y in s && z in s && Older(x, y) && Older(y, z) ensures Older(x, z) {
        assert Newer(z, y) && Newer(y, x);
      }
    }
    z := OldestExists(Older, s);
  }

  /** The newest backup of one of the n latest periods survives the prune. */
  lemma LatePeriodSurvives(a: set<BackupEntry>, b: set<BackupEntry>, e: BackupEntry, p: RetentionPolicy, now: int,
                           k: Period, v: int, u: int)
    requires DistinctNames(a) && Kept(a, p, now) <= b <= a && e in b
    requires v == Bucket(k, e.time)
    requires u in TopN(Later, PeriodsAfter(a, k, v), Limit(p, k))
    ensures u in NewerPeriods(e, b, k)
  {
    hide Bucket;
    var w :| w in a && Bucket(k, w.time) > v && Bucket(k, w.time) == u;
    var z := NewestIn(a, k, u, w);
    assert PeriodsAfter(a, k, u) == Above(Later, PeriodsAfter(a, k, v), u);
    assert KeptByPeriod(z, a, p, k);
    assert z in b;
    if z.time <= e.time {
      BucketMonotone(k, z.time, e.time);
    }
    assert Newer(z, e);
  }

  /** With n or more later periods there, at least n of them are still there. */
  lemma ManyPeriodsSurvive(a: set<BackupEntry>, b: set<BackupEntry>, e: BackupEntry, p: RetentionPolicy, now: int,
                           k: Period)
    requires DistinctNames(a) && Kept(a, p, now) <= b <= a && e in b
    requires |PeriodsAfter(a, k, Bucket(k, e.time))| >= Limit(p, k)
    ensures |NewerPeriods(e, b, k)| >= Limit(p, k)
  {
    hide Bucket, Kept, PeriodsAfter, NewerPeriods, DistinctNames;
    var v, n := Bucket(k, e.time), Limit(p, k);
    var later := PeriodsAfter(a, k, v);
    assert StrictTotalOn(Later, later);
    if n > 0 {
      TopNSize(Later, later, n);
      forall u | u in TopN(Later, later, n) ensures u in NewerPeriods(e, b, k) {
        LatePeriodSurvives(a, b, e, p, now, k, v, u);
      }
      SubsetSize(TopN(Later, later, n), NewerPeriods(e, b, k));
    }
  }

  lemma KeptBySamePeriod(a: set<BackupEntry>, b: set<BackupEntry>, e: BackupEntry, p: RetentionPolicy, now: int,
                         k: Period)
    requires DistinctNames(a) && Kept(a, p, now) <= b <= a && e in b
    requires KeptByPeriod(e, b, p, k)
    ensures e in Kept(a, p, now)
  {
    hide Bucket, PeriodsAfter, NewerPeriods;
    var v, n := Bucket(k, e.time), Limit(p, k);
    if |PeriodsAfter(a, k, v)| >= n {
      ManyPeriodsSurvive(a, b, e, p, now, k);
    } else {
      var z := NewestIn(a, k, v, e);
      assert KeptByPeriod(z, a, p, k);
      assert z in b;
      assert z == e;
    }
  }

  /** Whatever a prune removed, as long as it spared what the policy keeps, the
      policy keeps exactly the same backups of what is left. */
  lemma KeptOfRemainder(a: set<BackupEntry>, b: set<BackupEntry>, p: RetentionPolicy, now: int)
    requires DistinctNames(a) && Kept(a, p, now) <= b <= a
    ensures Kept(b, p, now) == Kept(a, p, now)
  {
    Heredity(b, a, p, now);
    forall e | e in Kept(b, p, now) ensures e in Kept(a, p, now) {
      if forall x :: x in b ==> !Newer(x, e) {
        var z := Newest(a);
        NewerIsOrder(z, z, z);
        assert forall x :: x in a ==> !Newer(x, z) by {
          forall x | x in a ensures !Newer(x, z) {
            NewerIsOrder(x, z, x);
            NewerIsOrder(x, x, x);
          }
        }
        assert z in Kept(a, p, now);
      } else if Rank(e, b) < p.keepLast {
        KeptBySameRank(a, b, e, p, now);
      } else if k :| KeptByPeriod(e, b, p, k) {
        KeptBySamePeriod(a, b, e, p, now, k);
      }
    }
  }

  // ---- whole histories ----

  /** What happens to one series: a backup arrives, or a prune that read the
      clock at `now` deletes whatever of its selection was not refused. */
  datatype Event = Store(backup: BackupEntry) | Prune(now: int, deleted: set<BackupEntry>)

  datatype History = History(live: set<BackupEntry>, ever: set<BackupEntry>, clock: int)

  ghost function Good(s: set<BackupEntry>): set<BackupEntry> {
    set e | e in s && !e.bad
  }

  /** Dated past anything clock skew explains: no part of a prune's arithmetic. */
  const MAX_CLOCK_SKEW: int := 3600 * SECOND

  predicate Future(e: BackupEntry, now: int) {
    e.time - now > MAX_CLOCK_SKEW
  }

  ghost function Dated(s: set<BackupEntry>, now: int): set<BackupEntry> {
    set e | e in s && !Future(e, now)
  }

  /** What a prune at `now` may delete of the series it lists: nothing kept, and
      nothing dated in the future. */
  ghost predicate MayDelete(deleted: set<BackupEntry>, live: set<BackupEntry>, p: RetentionPolicy, now: int) {
    deleted <= Dated(live, now) - Kept(Good(Dated(live, now)), p, now)
  }

  ghost predicate Allowed(h: History, e: Event, p: RetentionPolicy) {
    match e
    case Store(b) => forall x :: x in h.ever ==> x.name != b.name
    case Prune(now, deleted) => h.clock <= now && MayDelete(deleted, h.live, p, now)
  }

  ghost function Step(h: History, e: Event): History {
    match e
    case Store(b) => History(h.live + {b}, h.ever + {b}, h.clock)
    case Prune(now, deleted) => History(h.live - deleted, h.ever, now)
  }

  ghost predicate Run(h: History, events: seq<Event>, p: RetentionPolicy)
    decreases |events|
  {
    events == [] || (Allowed(h, events[0], p) && Run(Step(h, events[0]), events[1..], p))
  }

  ghost function After(h: History, events: seq<Event>): History
    decreases |events|
  {
    if events == [] then h else After(Step(h, events[0]), events[1..])
  }

  /** What the policy keeps of everything ever stored is still there. */
  ghost predicate Intact(h: History, p: RetentionPolicy) {
    && DistinctNames(h.ever)
    && h.live <= h.ever
    && forall now ::
      h.clock <= now ==> Dated(h.ever, now) - Dated(h.live, now) !! Kept(Good(Dated(h.ever, now)), p, now)
  }

  lemma IntactKeepsTheSame(h: History, p: RetentionPolicy, now: int)
    requires Intact(h, p) && h.clock <= now
    ensures Kept(Good(Dated(h.live, now)), p, now) == Kept(Good(Dated(h.ever, now)), p, now)
  {
    KeptOfRemainder(Good(Dated(h.ever, now)), Good(Dated(h.live, now)), p, now);
  }

  lemma StoreKeepsIntact(h: History, b: BackupEntry, p: RetentionPolicy)
    requires Intact(h, p) && Allowed(h, Store(b), p)
    ensures Intact(Step(h, Store(b)), p)
  {
    var n := Step(h, Store(b));
    forall now | n.clock <= now
      ensures Dated(n.ever, now) - Dated(n.live, now) !! Kept(Good(Dated(n.ever, now)), p, now)
    {
      Heredity(Good(Dated(h.ever, now)), Good(Dated(n.ever, now)), p, now);
      forall x | x in Dated(n.ever, now) - Dated(n.live, now) ensures x !in Kept(Good(Dated(n.ever, now)), p, now) {
        assert x in Dated(h.ever, now) - Dated(h.live, now);
      }
    }
  }

  lemma PruneKeepsIntact(h: History, now: int, deleted: set<BackupEntry>, p: RetentionPolicy)
    requires Intact(h, p) && Allowed(h, Prune(now, deleted), p)
    ensures Intact(Step(h, Prune(now, deleted)), p)
  {
    var n := Step(h, Prune(now, deleted));
    IntactKeepsTheSame(h, p, now);
    forall t | now <= t
      ensures Dated(n.ever, t) - Dated(n.live, t) !! Kept(Good(Dated(n.ever, t)), p, t)
    {
      Heredity(Good(Dated(h.ever, now)), Good(Dated(h.ever, t)), p, t);
      AgeOnlyShrinks(Good(Dated(h.ever, now)), p, now, t);
      forall x | x in Dated(n.ever, t) - Dated(n.live, t) ensures x !in Kept(Good(Dated(n.ever, t)), p, t) {
        if x in deleted {
          assert x in Dated(h.ever, now);
          assert x !in Kept(Good(Dated(h.ever, now)), p, now);
        } else {
          assert x in Dated(h.ever, t) - Dated(h.live, t);
        }
      }
    }
  }

  lemma {:induction false} RunKeepsIntact(h: History, events: seq<Event>, p: RetentionPolicy)
    requires Intact(h, p) && Run(h, events, p)
    ensures Intact(After(h, events), p) && h.clock <= After(h, events).clock
    decreases |events|
  {
    if events != [] {
      match events[0] {
        case Store(b) => StoreKeepsIntact(h, b, p);
        case Prune(now, deleted) => PruneKeepsIntact(h, now, deleted, p);
      }
      RunKeepsIntact(Step(h, events[0]), events[1..], p);
    }
  }

  /** Path independence: after any interleaving of backups and prunes, each
      prune deleting any part of its selection, the policy keeps exactly what
      one prune of everything ever stored would have kept, and all of it is
      still there. */
  lemma PathIndependence(events: seq<Event>, p: RetentionPolicy, start: int, now: int)
    requires Run(History({}, {}, start), events, p)
    requires After(History({}, {}, start), events).clock <= now
    ensures var h := After(History({}, {}, start), events);
            && Kept(Good(Dated(h.live, now)), p, now) == Kept(Good(Dated(h.ever, now)), p, now)
            && Kept(Good(Dated(h.ever, now)), p, now) <= h.live
  {
    RunKeepsIntact(History({}, {}, start), events, p);
    IntactKeepsTheSame(After(History({}, {}, start), events), p, now);
  }
}
