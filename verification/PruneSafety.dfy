/** What a plan can and cannot delete. */
module PruneSafety {
  import opened Ordering
  import opened Retention
  import opened RetentionLaws
  import opened RetentionSelect
  import opened PrunePlan

  /** The backups of a series that its selection looks at. */
  ghost function Listing(all: seq<PruneObject>, now: int): seq<BackupEntry> {
    EntriesOf(Current(all, now))
  }

  lemma ListingMembers(all: seq<PruneObject>, now: int, e: BackupEntry)
    ensures e in Listing(all, now) <==> exists o :: o in all && !FutureDated(o, now) && o.entry == e
  {
    var objs := Current(all, now);
    CurrentMembers(all, now);
    if e in Listing(all, now) {
      var i :| 0 <= i < |objs| && EntriesOf(objs)[i] == e;
      assert objs[i] in objs;
    }
    if o :| o in all && !FutureDated(o, now) && o.entry == e {
      assert o in objs;
      var i :| 0 <= i < |objs| && objs[i] == o;
      assert EntriesOf(objs)[i] == e;
    }
  }

  lemma PickedIsSelected(all: seq<PruneObject>, p: RetentionPolicy, now: int, spare: set<string>, o: PruneObject)
    ensures o in Picked(all, p, now, spare) <==>
      && o.entry.name in SelectedNames(Listing(all, now), p, now)
      && o.entry.name in ByEntry(Current(all, now)) && ByEntry(Current(all, now))[o.entry.name] == o
      && o.id !in spare
  {
    hide SelectedNames, ByEntry;
    var objs := Current(all, now);
    ByEntryMembers(objs);
    DoomedMembers(SelectedNames(EntriesOf(objs), p, now), ByEntry(objs), spare, o);
  }

  /** Whatever is deleted of a series was listed, is not dated in the future and
      is not spared. */
  lemma PickedIsFair(all: seq<PruneObject>, p: RetentionPolicy, now: int, spare: set<string>, o: PruneObject)
    requires o in Picked(all, p, now, spare)
    ensures o in all && !FutureDated(o, now) && o.id !in spare
  {
    hide SelectedNames;
    PickedIsSelected(all, p, now, spare, o);
    ByEntryMembers(Current(all, now));
    CurrentMembers(all, now);
  }

  /** The newest good backup that is not dated in the future. */
  ghost predicate NewestGood(o: PruneObject, all: seq<PruneObject>, now: int) {
    && o in all && !o.entry.bad && !FutureDated(o, now)
    && forall x :: x in all && !x.entry.bad && !FutureDated(x, now) ==> !Newer(x.entry, o.entry)
  }

  lemma NewestGoodIsNeverPicked(all: seq<PruneObject>, p: RetentionPolicy, now: int, spare: set<string>, o: PruneObject)
    requires NewestGood(o, all, now)
    ensures o !in Picked(all, p, now, spare)
  {
    hide SelectedNames, Picked, FutureDated;
    ListingMembers(all, now, o.entry);
    forall e | e in Listing(all, now) && !e.bad ensures !Newer(e, o.entry) {
      ListingMembers(all, now, e);
    }
    NewestGoodIsNeverSelected(Listing(all, now), p, now, o.entry);
    PickedIsSelected(all, p, now, spare, o);
  }

  ghost predicate OwnObjectNames(all: seq<PruneObject>) {
    forall i, j :: 0 <= i < j < |all| ==> all[i].entry.name != all[j].entry.name
  }

  lemma {:induction false} CurrentOwnNames(all: seq<PruneObject>, now: int)
    requires OwnObjectNames(all)
    ensures OwnObjectNames(Current(all, now)) && OwnNames(Listing(all, now))
  {
    if all != [] {
      CurrentOwnNames(all[1..], now);
      CurrentMembers(all[1..], now);
      var rest := Current(all[1..], now);
      forall j | 0 <= j < |rest| ensures rest[j].entry.name != all[0].entry.name {
        assert rest[j] in all[1..];
      }
      assert OwnObjectNames(Current(all, now));
    }
  }

  /** The good backups a series has at `now`. */
  ghost function GoodOf(all: seq<PruneObject>, now: int): set<BackupEntry> {
    set o | o in all && !FutureDated(o, now) && !o.entry.bad :: o.entry
  }

  /** Exactly what goes from a series whose names are its own: a good backup the
      policy does not keep, a bad one older than the newest good; nothing spared. */
  lemma PickedExactly(all: seq<PruneObject>, p: RetentionPolicy, now: int, spare: set<string>, o: PruneObject)
    requires OwnObjectNames(all) && o in all
    ensures o in Picked(all, p, now, spare) <==>
      && (p.keepLast > 0 || p.keepDaily > 0 || p.keepWeekly > 0 || p.keepMonthly > 0 || p.maxAgeDays > 0)
      && o.entry.time - now <= 3_600_000_000_000 && o.id !in spare
      && (if o.entry.bad then exists g :: g in GoodOf(all, now) && o.entry.time < g.time
          else !Keeps(o.entry, GoodOf(all, now), p, now))
  {
    hide SelectedNames, Picked, FutureDated, KeptNames, Keeps, Newer;
    var objs, list, name := Current(all, now), Listing(all, now), o.entry.name;
    CurrentOwnNames(all, now);
    CurrentMembers(all, now);
    ByEntryMembers(objs);
    FutureIsAnHour(o, now);
    PickedIsSelected(all, p, now, spare, o);
    SelectedExactly(list, p, now, name);
    SelectionIsPolicy(list, p, now);
    ListingMembers(all, now, o.entry);
    GoodOfListing(all, now);
    if o in objs {
      assert ByEntry(objs)[name] == o by {
        var x := ByEntry(objs)[name];
        assert x in objs && o in objs && x.entry.name == o.entry.name;
      }
      forall e | e in list && e.name == name ensures e == o.entry {
      }
      if o.entry.bad {
        BadNamesAreNotKept(list, p, now, o.entry);
        BadGoes(list, o.entry);
      } else {
        NewestGoodTimeIs(list, o.entry);
      }
    }
  }

  lemma FutureIsAnHour(o: PruneObject, now: int)
    ensures FutureDated(o, now) <==> o.entry.time - now > 3_600_000_000_000
  {
  }

  lemma GoodOfListing(all: seq<PruneObject>, now: int)
    ensures GoodOf(all, now) == GoodSet(Listing(all, now))
  {
    hide FutureDated;
    forall e ensures e in GoodOf(all, now) <==> e in GoodSet(Listing(all, now)) {
      ListingMembers(all, now, e);
    }
  }

  lemma BadNamesAreNotKept(list: seq<BackupEntry>, p: RetentionPolicy, now: int, e: BackupEntry)
    requires OwnNames(list) && e in list && e.bad
    ensures e.name !in KeptNames(list, p, now)
  {
    hide KeptNames, Keeps;
    SelectionIsPolicy(list, p, now);
    forall g | g in Kept(GoodSet(list), p, now) ensures g.name != e.name {
      assert g in list && g != e;
    }
  }

  lemma BadGoes(list: seq<BackupEntry>, e: BackupEntry)
    ensures (exists t :: IsNewestGoodTime(t, list) && e.time < t) <==> exists g :: g in GoodSet(list) && e.time < g.time
  {
    if g :| g in GoodSet(list) && e.time < g.time {
      assert g in list && !g.bad;
      NewestGoodTimeIs(list, g);
    }
    if t :| IsNewestGoodTime(t, list) && e.time < t {
      var g :| g in list && !g.bad && g.time == t;
      assert g in GoodSet(list);
    }
  }

  // ---- the whole plan ----

  lemma {:induction false} SeriesPickedMembers(tree: PruneTree, dbs: seq<string>, p: RetentionPolicy, now: int,
                                               spare: set<string>, o: PruneObject)
    ensures o in SeriesPicked(tree, dbs, p, now, spare) <==>
      exists db :: db in dbs && o in Picked(SeriesOf(tree, db), p, now, spare)
  {
    hide Picked;
    if dbs != [] {
      SeriesPickedMembers(tree, dbs[..|dbs| - 1], p, now, spare, o);
      assert dbs == dbs[..|dbs| - 1] + [dbs[|dbs| - 1]];
    }
  }

  lemma PlanMembers(tree: PruneTree, p: RetentionPolicy, now: int, primaries: seq<PruneObject>,
                    sidecars: seq<PruneObject>, o: PruneObject)
    requires IsPlan(tree, p, now, primaries, sidecars)
    ensures o in primaries <==>
      || o in Picked(tree.root, p, now, Protected(tree.safety, now))
      || exists db :: db in tree.series && o in Picked(tree.series[db], p, now, DbSpare(tree, p, now))
  {
    hide Picked, Protected, DbSpare, IsNewestTime, Survives;
    var dbs :| DbOrder(dbs, tree)
      && primaries ==
        Picked(tree.root, p, now, Protected(tree.safety, now)) + SeriesPicked(tree, dbs, p, now, DbSpare(tree, p, now));
    SeriesPickedMembers(tree, dbs, p, now, DbSpare(tree, p, now), o);
    if db :| db in tree.series && o in Picked(tree.series[db], p, now, DbSpare(tree, p, now)) {
      assert db in dbs;
      assert o in Picked(SeriesOf(tree, db), p, now, DbSpare(tree, p, now));
    }
  }

  /** No object is in two series of the tree: keys differ across series. */
  ghost predicate OwnKeys(tree: PruneTree) {
    && (forall o, x :: o in tree.root && x in tree.root && o.key == x.key ==> o == x)
    && (forall db, o, x ::
      db in tree.series && o in tree.series[db] && x in tree.series[db] && o.key == x.key ==> o == x)
    && (forall db, o, x :: db in tree.series && o in tree.series[db] && x in tree.root ==> o.key != x.key)
    && (forall db, db', o, x ::
      db in tree.series && db' in tree.series && db != db' && o in tree.series[db] && x in tree.series[db'] ==>
      o.key != x.key)
  }

  /** An object of one series is planned by that series alone. */
  lemma PlannedInItsSeries(tree: PruneTree, p: RetentionPolicy, now: int, primaries: seq<PruneObject>,
                           sidecars: seq<PruneObject>, o: PruneObject)
    requires OwnKeys(tree) && IsPlan(tree, p, now, primaries, sidecars)
    ensures o in tree.root ==> (o in primaries <==> o in Picked(tree.root, p, now, Protected(tree.safety, now)))
    ensures forall db :: db in tree.series && o in tree.series[db] ==>
              (o in primaries <==> o in Picked(tree.series[db], p, now, DbSpare(tree, p, now)))
  {
    hide Picked, Protected, DbSpare, IsPlan;
    PlanMembers(tree, p, now, primaries, sidecars, o);
    if o in Picked(tree.root, p, now, Protected(tree.safety, now)) {
      PickedIsFair(tree.root, p, now, Protected(tree.safety, now), o);
    }
    forall db | db in tree.series && o in Picked(tree.series[db], p, now, DbSpare(tree, p, now))
      ensures o in tree.series[db]
    {
      PickedIsFair(tree.series[db], p, now, DbSpare(tree, p, now), o);
    }
  }

  /** What no plan ever deletes. */
  lemma PlanSpares(tree: PruneTree, p: RetentionPolicy, now: int, primaries: seq<PruneObject>,
                   sidecars: seq<PruneObject>)
    requires OwnKeys(tree) && IsPlan(tree, p, now, primaries, sidecars)
    ensures forall o ::
      o in primaries ==> InTree(o, tree) && !FutureDated(o, now) && o.id !in Protected(tree.safety, now)
    ensures forall o :: NewestGood(o, tree.root, now) ==> o !in primaries
    ensures forall db, o :: db in tree.series && NewestGood(o, tree.series[db], now) ==> o !in primaries
    ensures forall db, o ::
      db in tree.series && o in tree.series[db] && o in primaries ==> o.id !in RootKept(tree, p, now)
  {
    hide Picked, Protected, IsPlan, RootKept;
    var root, spare := Protected(tree.safety, now), DbSpare(tree, p, now);
    forall o | o in primaries
      ensures InTree(o, tree) && !FutureDated(o, now) && o.id !in root
    {
      PlanMembers(tree, p, now, primaries, sidecars, o);
      if o in Picked(tree.root, p, now, root) {
        PickedIsFair(tree.root, p, now, root, o);
      } else {
        var db :| db in tree.series && o in Picked(tree.series[db], p, now, spare);
        PickedIsFair(tree.series[db], p, now, spare, o);
      }
    }
    forall o | NewestGood(o, tree.root, now) ensures o !in primaries {
      PlannedInItsSeries(tree, p, now, primaries, sidecars, o);
      NewestGoodIsNeverPicked(tree.root, p, now, root, o);
    }
    forall db, o | db in tree.series && NewestGood(o, tree.series[db], now) ensures o !in primaries {
      PlannedInItsSeries(tree, p, now, primaries, sidecars, o);
      NewestGoodIsNeverPicked(tree.series[db], p, now, spare, o);
    }
    forall db, o | db in tree.series && o in tree.series[db] && o in primaries ensures o.id !in RootKept(tree, p, now) {
      PlannedInItsSeries(tree, p, now, primaries, sidecars, o);
      PickedIsFair(tree.series[db], p, now, spare, o);
    }
  }

  /** The newest five copies of the last week outlast retention: a plan takes no
      object of theirs, and one of a sixth only while those five are at least as
      late. */
  lemma NewestCopiesOutlast(tree: PruneTree, p: RetentionPolicy, now: int, primaries: seq<PruneObject>,
                            sidecars: seq<PruneObject>, o: PruneObject)
    requires OwnKeys(tree) && IsPlan(tree, p, now, primaries, sidecars)
    requires o in primaries && o.id in RecentCopies(tree.safety, now)
    ensures exists five: set<string> ::
      && |five| == 5 && five <= RecentCopies(tree.safety, now)
      && (forall x :: x in five ==> tree.safety[x] >= tree.safety[o.id])
      && (forall q :: q in primaries ==> q.id !in five)
  {
    hide Protected, IsPlan;
    PlanSpares(tree, p, now, primaries, sidecars);
    UnprotectedIsOutnumbered(tree.safety, now, o.id);
    LaterIsProtected(tree.safety, now);
    var five := Protected(tree.safety, now);
    assert |five| == 5 && five <= RecentCopies(tree.safety, now);
  }

  // ---- sidecars ----

  ghost predicate OwnNamesInTree(tree: PruneTree) {
    && OwnObjectNames(tree.root)
    && forall db :: db in tree.series ==> OwnObjectNames(tree.series[db])
  }

  /** Every sidecar that goes belongs to no object that stays. */
  ghost predicate SidecarsSafe(tree: PruneTree, primaries: seq<PruneObject>, sidecars: seq<PruneObject>) {
    forall s, o :: s in sidecars && InTree(o, tree) && o.id == s.id ==> o in primaries
  }

  lemma SurvivingIsKept(all: seq<PruneObject>, p: RetentionPolicy, now: int, spare: set<string>, o: PruneObject)
    requires OwnObjectNames(all) && o in all && o !in Picked(all, p, now, spare)
    ensures o.id in Surviving(all, p, now, spare)
  {
    hide Picked, FutureDated;
    var gone := Picked(all, p, now, spare);
    forall x | x in gone ensures x.entry.name != o.entry.name {
      PickedIsFair(all, p, now, spare, x);
      assert x in all && x != o;
    }
  }

  lemma OwnNamesKeepSidecarsSafe(tree: PruneTree, p: RetentionPolicy, now: int, primaries: seq<PruneObject>,
                                 sidecars: seq<PruneObject>)
    requires OwnNamesInTree(tree) && IsPlan(tree, p, now, primaries, sidecars)
    ensures SidecarsSafe(tree, primaries, sidecars)
  {
    hide Picked, Protected, Surviving, DbSpare, IsPlan;
    assert IsPlan(tree, p, now, primaries, sidecars);
    forall s, o | s in sidecars && InTree(o, tree) && o.id == s.id ensures o in primaries {
      SidecarDoesNotSurvive(tree, p, now, primaries, sidecars, s);
      PlanMembers(tree, p, now, primaries, sidecars, o);
      if o !in primaries {
        if o in tree.root {
          SurvivingIsKept(tree.root, p, now, Protected(tree.safety, now), o);
        } else {
          var db :| db in tree.series && o in tree.series[db];
          SurvivingIsKept(tree.series[db], p, now, DbSpare(tree, p, now), o);
        }
      }
    }
  }

  lemma SidecarDoesNotSurvive(tree: PruneTree, p: RetentionPolicy, now: int, primaries: seq<PruneObject>,
                              sidecars: seq<PruneObject>, s: PruneObject)
    requires IsPlan(tree, p, now, primaries, sidecars) && s in sidecars
    ensures !Survives(tree, p, now, s.id)
  {
    hide Survives, Picked, SeriesPicked;
  }

  /** What goes of a series by the rules alone: a good backup that the policy does
      not keep, and a bad one older than a good one. */
  ghost predicate Dispensable(o: PruneObject, all: seq<PruneObject>, p: RetentionPolicy, now: int) {
    if o.entry.bad then exists g :: g in GoodOf(all, now) && o.entry.time < g.time
    else !Keeps(o.entry, GoodOf(all, now), p, now)
  }

  /** An id is counted as surviving when an object of its series stays. */
  lemma SurvivingIff(all: seq<PruneObject>, p: RetentionPolicy, now: int, spare: set<string>, id: string)
    requires OwnObjectNames(all)
    ensures id in Surviving(all, p, now, spare) <==>
      exists o :: o in all && o.id == id && o !in Picked(all, p, now, spare)
  {
    hide Picked, FutureDated;
    var gone := Picked(all, p, now, spare);
    if id in Surviving(all, p, now, spare) {
      var o :| o in all && (FutureDated(o, now) || o.entry.name !in NamesOf(gone)) && o.id == id;
      if o in gone {
        PickedIsFair(all, p, now, spare, o);
      }
    }
    if o :| o in all && o.id == id && o !in gone {
      SurvivingIsKept(all, p, now, spare, o);
    }
  }

  /** The whole plan, of a tree whose names and keys are its own. An object goes if
      some rule is set, it is not dated an hour ahead, its id is none of the newest
      five recent safety copies', the rules of its series let it go, and, in a
      database's series, no root object of its id stays. A sidecar goes if no object
      of its id stays and it is older than some backup that is not dated ahead. */
  lemma PlanInFull(tree: PruneTree, p: RetentionPolicy, now: int, primaries: seq<PruneObject>,
                   sidecars: seq<PruneObject>)
    requires OwnNamesInTree(tree) && OwnKeys(tree) && IsPlan(tree, p, now, primaries, sidecars)
    ensures var set_ := p.keepLast > 0 || p.keepDaily > 0 || p.keepWeekly > 0 || p.keepMonthly > 0 || p.maxAgeDays > 0;
      && (forall o :: o in tree.root ==> (o in primaries <==>
            && set_ && o.entry.time - now <= 3_600_000_000_000 && o.id !in Protected(tree.safety, now)
            && Dispensable(o, tree.root, p, now)))
      && (forall db, o :: db in tree.series && o in tree.series[db] ==> (o in primaries <==>
            && set_ && o.entry.time - now <= 3_600_000_000_000 && o.id !in Protected(tree.safety, now)
            && Dispensable(o, tree.series[db], p, now)
            && forall r :: r in tree.root && r.id == o.id ==> r in primaries))
    ensures forall s :: s in sidecars <==>
      && s in tree.sidecars && (forall o :: InTree(o, tree) && o.id == s.id ==> o in primaries)
      && (s.entry.time < -62_135_596_800_000_000_000 ||
          exists o :: InTree(o, tree) && o.entry.time - now <= 3_600_000_000_000 && s.entry.time < o.entry.time)
  {
    hide Picked, Protected, IsPlan, Surviving, Keeps, DbSpare, FutureDated;
    forall o | o in tree.root
      ensures o in primaries <==>
        && (p.keepLast > 0 || p.keepDaily > 0 || p.keepWeekly > 0 || p.keepMonthly > 0 || p.maxAgeDays > 0)
        && o.entry.time - now <= 3_600_000_000_000 && o.id !in Protected(tree.safety, now)
        && Dispensable(o, tree.root, p, now)
    {
      PlannedInItsSeries(tree, p, now, primaries, sidecars, o);
      PickedExactly(tree.root, p, now, Protected(tree.safety, now), o);
    }
    forall db, o | db in tree.series && o in tree.series[db]
      ensures o in primaries <==>
        && (p.keepLast > 0 || p.keepDaily > 0 || p.keepWeekly > 0 || p.keepMonthly > 0 || p.maxAgeDays > 0)
        && o.entry.time - now <= 3_600_000_000_000 && o.id !in Protected(tree.safety, now)
        && Dispensable(o, tree.series[db], p, now)
        && forall r :: r in tree.root && r.id == o.id ==> r in primaries
    {
      PlannedInItsSeries(tree, p, now, primaries, sidecars, o);
      PickedExactly(tree.series[db], p, now, DbSpare(tree, p, now), o);
      RootSpares(tree, p, now, primaries, sidecars, o.id);
    }
    forall s ensures s in sidecars <==>
      && s in tree.sidecars && (forall o :: InTree(o, tree) && o.id == s.id ==> o in primaries)
      && (s.entry.time < -62_135_596_800_000_000_000 ||
          exists o :: InTree(o, tree) && o.entry.time - now <= 3_600_000_000_000 && s.entry.time < o.entry.time)
    {
      SidecarExactly(tree, p, now, primaries, sidecars, s);
    }
  }

  lemma RootSpares(tree: PruneTree, p: RetentionPolicy, now: int, primaries: seq<PruneObject>,
                   sidecars: seq<PruneObject>, id: string)
    requires OwnNamesInTree(tree) && OwnKeys(tree) && IsPlan(tree, p, now, primaries, sidecars)
    ensures id in DbSpare(tree, p, now) <==>
      id in Protected(tree.safety, now) || exists r :: r in tree.root && r.id == id && r !in primaries
  {
    hide Picked, Protected, IsPlan, Surviving;
    SurvivingIff(tree.root, p, now, Protected(tree.safety, now), id);
    forall r | r in tree.root
      ensures r in primaries <==> r in Picked(tree.root, p, now, Protected(tree.safety, now))
    {
      PlannedInItsSeries(tree, p, now, primaries, sidecars, r);
    }
  }

  lemma SurvivesIff(tree: PruneTree, p: RetentionPolicy, now: int, primaries: seq<PruneObject>,
                    sidecars: seq<PruneObject>, id: string)
    requires OwnNamesInTree(tree) && OwnKeys(tree) && IsPlan(tree, p, now, primaries, sidecars)
    ensures Survives(tree, p, now, id) <==> exists o :: InTree(o, tree) && o.id == id && o !in primaries
  {
    hide Picked, Protected, IsPlan, Surviving, DbSpare;
    SurvivingIff(tree.root, p, now, Protected(tree.safety, now), id);
    forall db | db in tree.series
      ensures id in Surviving(tree.series[db], p, now, DbSpare(tree, p, now)) <==>
        exists o :: o in tree.series[db] && o.id == id && o !in primaries
    {
      SurvivingIff(tree.series[db], p, now, DbSpare(tree, p, now), id);
      forall o | o in tree.series[db]
        ensures o in primaries <==> o in Picked(tree.series[db], p, now, DbSpare(tree, p, now))
      {
        PlannedInItsSeries(tree, p, now, primaries, sidecars, o);
      }
    }
    forall r | r in tree.root
      ensures r in primaries <==> r in Picked(tree.root, p, now, Protected(tree.safety, now))
    {
      PlannedInItsSeries(tree, p, now, primaries, sidecars, r);
    }
  }

  lemma SidecarExactly(tree: PruneTree, p: RetentionPolicy, now: int, primaries: seq<PruneObject>,
                       sidecars: seq<PruneObject>, s: PruneObject)
    requires OwnNamesInTree(tree) && OwnKeys(tree) && IsPlan(tree, p, now, primaries, sidecars)
    ensures s in sidecars <==>
      && s in tree.sidecars && (forall o :: InTree(o, tree) && o.id == s.id ==> o in primaries)
      && (s.entry.time < -62_135_596_800_000_000_000 ||
          exists o :: InTree(o, tree) && o.entry.time - now <= 3_600_000_000_000 && s.entry.time < o.entry.time)
  {
    SurvivesIff(tree, p, now, primaries, sidecars, s.id);
    hide Survives, Picked, SeriesPicked, InTree, Protected, DbSpare;
    var newest :| IsNewestTime(newest, tree, now)
      && forall x :: x in sidecars <==> x in tree.sidecars && !Survives(tree, p, now, x.id) && x.entry.time < newest;
  }

  // ---- the brake ----

  predicate Counts(o: PruneObject, now: int) {
    !o.entry.bad && !FutureDated(o, now)
  }

  function GoodCount(objs: seq<PruneObject>, now: int): nat {
    if objs == [] then 0 else GoodCount(objs[..|objs| - 1], now) + if Counts(objs[|objs| - 1], now) then 1 else 0
  }

  /** How many good backups of a series a list of keys takes. */
  function GoneCount(objs: seq<PruneObject>, keys: set<string>, now: int): nat {
    if objs == [] then 0
    else GoneCount(objs[..|objs| - 1], keys, now) + if Counts(objs[|objs| - 1], now) && objs[|objs| - 1].key in keys
      then 1 else 0
  }

  function KeysOf(objs: seq<PruneObject>): set<string> {
    set o | o in objs :: o.key
  }

  predicate TooMany(objs: seq<PruneObject>, keys: set<string>, now: int) {
    GoneCount(objs, keys, now) >= PRUNE_BRAKE_MIN && GoneCount(objs, keys, now) * 2 > GoodCount(objs, now)
  }

  ghost predicate Braked(tree: PruneTree, primaries: seq<PruneObject>, now: int) {
    || TooMany(tree.root, KeysOf(primaries), now)
    || exists db :: db in tree.series && TooMany(tree.series[db], KeysOf(primaries), now)
  }

  method BrakeSeries(objs: seq<PruneObject>, doomed: set<string>, now: int) returns (refused: bool)
    ensures refused == TooMany(objs, doomed, now)
  {
    var good, gone := 0, 0;
    for i := 0 to |objs|
      invariant good == GoodCount(objs[..i], now)
      invariant gone == GoneCount(objs[..i], doomed, now)
    {
      assert objs[..i + 1][..i] == objs[..i];
      if objs[i].entry.bad || FutureDated(objs[i], now) {
        continue;
      }
      good := good + 1;
      if objs[i].key in doomed {
        gone := gone + 1;
      }
    }
    assert objs[..|objs|] == objs;
    refused := gone >= PRUNE_BRAKE_MIN && gone * 2 > good;
  }

  method PruneBrake(tree: PruneTree, primaries: seq<PruneObject>, now: int) returns (refused: bool)
    ensures refused <==> Braked(tree, primaries, now)
  {
    hide TooMany;
    var doomed := KeysOf(primaries);
    refused := BrakeSeries(tree.root, doomed, now);
    if refused {
      return;
    }
    var rest := tree.series.Keys;
    while rest != {}
      invariant rest <= tree.series.Keys
      invariant forall db :: db in tree.series && db !in rest ==> !TooMany(tree.series[db], doomed, now)
      decreases |rest|
    {
      var db :| db in rest;
      refused := BrakeSeries(tree.series[db], doomed, now);
      if refused {
        return;
      }
      rest := rest - {db};
    }
  }

  /** How many good backups of a series a plan deletes. */
  ghost function Deleted(all: seq<PruneObject>, primaries: seq<PruneObject>, now: int): nat {
    if all == [] then 0
    else Deleted(all[..|all| - 1], primaries, now) + if Counts(all[|all| - 1], now) && all[|all| - 1] in primaries
      then 1 else 0
  }

  lemma {:induction false} DeletedIsGone(all: seq<PruneObject>, primaries: seq<PruneObject>, now: int)
    requires forall o, x :: o in all && x in primaries && o.key == x.key ==> o == x
    ensures Deleted(all, primaries, now) == GoneCount(all, KeysOf(primaries), now)
  {
    if all != [] {
      DeletedIsGone(all[..|all| - 1], primaries, now);
      var o := all[|all| - 1];
      if o.key in KeysOf(primaries) {
        var x :| x in primaries && x.key == o.key;
      }
    }
  }

  ghost predicate FewEnough(all: seq<PruneObject>, primaries: seq<PruneObject>, now: int) {
    Deleted(all, primaries, now) <= 2 || Deleted(all, primaries, now) * 2 <= GoodCount(all, now)
  }

  /** What the brake counts: the good backups that are not dated an hour ahead. */
  lemma {:induction false} GoodCountIs(objs: seq<PruneObject>, now: int)
    ensures GoodCount(objs, now) ==
      |set i | 0 <= i < |objs| && !objs[i].entry.bad && objs[i].entry.time - now <= 3_600_000_000_000|
  {
    if objs != [] {
      var n := |objs| - 1;
      GoodCountIs(objs[..n], now);
      FutureIsAnHour(objs[n], now);
      hide FutureDated;
      assert (set i | 0 <= i < |objs| && !objs[i].entry.bad && objs[i].entry.time - now <= 3_600_000_000_000) ==
        (set i | 0 <= i < |objs[..n]| && !objs[..n][i].entry.bad && objs[..n][i].entry.time - now <= 3_600_000_000_000)
        + if Counts(objs[n], now) then {n} else {};
    }
  }

  lemma {:induction false} DeletedIs(objs: seq<PruneObject>, primaries: seq<PruneObject>, now: int)
    ensures Deleted(objs, primaries, now) ==
      |set i | 0 <= i < |objs| && !objs[i].entry.bad && objs[i].entry.time - now <= 3_600_000_000_000
          && objs[i] in primaries|
  {
    if objs != [] {
      var n := |objs| - 1;
      DeletedIs(objs[..n], primaries, now);
      FutureIsAnHour(objs[n], now);
      hide FutureDated;
      assert (set i | 0 <= i < |objs| && !objs[i].entry.bad && objs[i].entry.time - now <= 3_600_000_000_000
          && objs[i] in primaries) ==
        (set i | 0 <= i < |objs[..n]| && !objs[..n][i].entry.bad && objs[..n][i].entry.time - now <= 3_600_000_000_000
          && objs[..n][i] in primaries)
        + if Counts(objs[n], now) && objs[n] in primaries then {n} else {};
    }
  }

  /** The brake lets a plan through exactly when it takes from every series at
      most two good backups, or at most half of them. */
  lemma BrakeLimitsLoss(tree: PruneTree, p: RetentionPolicy, now: int, primaries: seq<PruneObject>,
                        sidecars: seq<PruneObject>)
    requires OwnKeys(tree) && IsPlan(tree, p, now, primaries, sidecars)
    ensures !Braked(tree, primaries, now) <==>
      && FewEnough(tree.root, primaries, now)
      && forall db :: db in tree.series ==> FewEnough(tree.series[db], primaries, now)
  {
    hide IsPlan;
    PlanSpares(tree, p, now, primaries, sidecars);
    DeletedIsGone(tree.root, primaries, now);
    forall db | db in tree.series
      ensures FewEnough(tree.series[db], primaries, now) <==> !TooMany(tree.series[db], KeysOf(primaries), now)
    {
      DeletedIsGone(tree.series[db], primaries, now);
    }
  }
}
