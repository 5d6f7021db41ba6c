/** Running a prune against the store, and what repeated names cost. */
module PruneRuns {
  import opened Ordering
  import opened Retention
  import opened RetentionLaws
  import opened RetentionSelect
  import opened PrunePlan
  import opened PruneSafety
  import opened Wrappers

  ghost function Backups(all: seq<PruneObject>): set<BackupEntry> {
    set o | o in all :: o.entry
  }

  /** Every prune of a series, whatever else it spares and whichever deletes the
      store refuses, is one the path-independence theorem speaks of. */
  lemma PruneIsAnEvent(all: seq<PruneObject>, p: RetentionPolicy, now: int, spare: set<string>,
                       deleted: set<BackupEntry>)
    requires OwnObjectNames(all)
    requires deleted <= Backups(Picked(all, p, now, spare))
    ensures MayDelete(deleted, Backups(all), p, now)
  {
    hide Picked, Keeps, FutureDated;
    assert Good(Dated(Backups(all), now)) == GoodOf(all, now) by {
      DatedBackups(all, now);
    }
    forall e | e in deleted ensures e in Dated(Backups(all), now) && e !in Kept(GoodOf(all, now), p, now) {
      var o :| o in Picked(all, p, now, spare) && o.entry == e;
      PickedIsFair(all, p, now, spare, o);
      PickedExactly(all, p, now, spare, o);
      DatedBackups(all, now);
    }
  }

  lemma DatedBackups(all: seq<PruneObject>, now: int)
    ensures forall o :: o in all ==> (o.entry in Dated(Backups(all), now) <==> !FutureDated(o, now))
    ensures Good(Dated(Backups(all), now)) == GoodOf(all, now)
  {
  }

  // ---- PruneBackups ----

  datatype PruneError = NamespaceRefused | ClockUnreadable | ClockSkew | ListingFailed | MassDelete

  /** What a prune reports beside what it deleted. */
  datatype Complaint = PrefixRefused(prefix: string) | FutureObject(key: string) | DeleteFailed(key: string)

  /** A location under an old prefix marked as owned, and whether the namespace
      there could be claimed. */
  datatype OldLocation = OldLocation(prefix: string, claimed: bool)

  function Claimed(previous: seq<OldLocation>): seq<string> {
    if previous == [] then []
    else
      var last := previous[|previous| - 1];
      Claimed(previous[..|previous| - 1]) + if last.claimed then [last.prefix] else []
  }

  function Unclaimed(previous: seq<OldLocation>): seq<Complaint> {
    if previous == [] then []
    else
      var last := previous[|previous| - 1];
      Unclaimed(previous[..|previous| - 1]) + if last.claimed then [] else [PrefixRefused(last.prefix)]
  }

  lemma {:induction false} UnclaimedAre(previous: seq<OldLocation>)
    ensures forall c ::
      c in Unclaimed(previous) <==> exists l :: l in previous && !l.claimed && c == PrefixRefused(l.prefix)
    ensures forall x :: x in Claimed(previous) <==> exists l :: l in previous && l.claimed && x == l.prefix
  {
    if previous != [] {
      UnclaimedAre(previous[..|previous| - 1]);
      assert previous == previous[..|previous| - 1] + [previous[|previous| - 1]];
    }
  }

  function Names(objs: seq<PruneObject>): seq<string> {
    seq(|objs|, i requires 0 <= i < |objs| => objs[i].entry.name)
  }

  method ClaimPrevious(previous: seq<OldLocation>) returns (prefixes: seq<string>, complaints: seq<Complaint>)
    ensures prefixes == Claimed(previous) && complaints == Unclaimed(previous)
  {
    prefixes, complaints := [], [];
    for i := 0 to |previous|
      invariant prefixes == Claimed(previous[..i]) && complaints == Unclaimed(previous[..i])
    {
      assert previous[..i + 1][..i] == previous[..i];
      if !previous[i].claimed {
        complaints := complaints + [PrefixRefused(previous[i].prefix)];
        continue;
      }
      prefixes := prefixes + [previous[i].prefix];
    }
    assert previous[..|previous|] == previous;
  }

  method FutureOf(objs: seq<PruneObject>, now: int) returns (complaints: seq<Complaint>)
    ensures forall c :: c in complaints <==> exists o :: o in objs && FutureDated(o, now) && c == FutureObject(o.key)
  {
    complaints := [];
    for i := 0 to |objs|
      invariant forall c ::
        c in complaints <==> exists o :: o in objs[..i] && FutureDated(o, now) && c == FutureObject(o.key)
    {
      assert objs[..i + 1] == objs[..i] + [objs[i]];
      if FutureDated(objs[i], now) {
        complaints := complaints + [FutureObject(objs[i].key)];
      }
    }
    assert objs[..|objs|] == objs;
  }

  /** In the root, or in a series already walked. */
  ghost predicate Walked(o: PruneObject, tree: PruneTree, rest: set<string>) {
    o in tree.root || exists db :: db in tree.series && db !in rest && o in tree.series[db]
  }

  /** Over the root and every series, in whatever order the series are walked. */
  method FutureComplaints(tree: PruneTree, now: int) returns (complaints: seq<Complaint>)
    ensures forall c ::
      c in complaints <==> exists o :: InTree(o, tree) && FutureDated(o, now) && c == FutureObject(o.key)
  {
    complaints := FutureOf(tree.root, now);
    var rest := tree.series.Keys;
    while rest != {}
      invariant rest <= tree.series.Keys
      invariant forall c ::
        c in complaints <==> exists o :: Walked(o, tree, rest) && FutureDated(o, now) && c == FutureObject(o.key)
      decreases |rest|
    {
      var db :| db in rest;
      var more := FutureOf(tree.series[db], now);
      ghost var was := rest;
      complaints := complaints + more;
      rest := rest - {db};
      assert forall d :: d in tree.series && d !in rest <==> (d in tree.series && d !in was) || d == db;
    }
  }

  // ---- what a prune promises ----

  /** Nothing but planned objects is gone, every name reported is that of a primary
      that is, and every primary that is gone is reported, or its delete is as
      failed: it ran, and its answer was lost. */
  ghost predicate PlanDeleted(before: set<string>, after: set<string>, primaries: seq<PruneObject>,
                              sidecars: seq<PruneObject>, deleted: seq<string>, complaints: seq<Complaint>) {
    && before - KeysOf(primaries) - KeysOf(sidecars) <= after <= before
    && (forall n :: n in deleted ==> exists o :: o in primaries && o.entry.name == n && o.key !in after)
    && forall o :: o in primaries ==> o.entry.name in deleted || DeleteFailed(o.key) in complaints
  }

  /** Every refused location, every future-dated object and every planned object
      that is still there is reported, and nothing else is. */
  ghost predicate AllReported(after: set<string>, previous: seq<OldLocation>, tree: PruneTree, now: int,
                              planned: seq<PruneObject>, complaints: seq<Complaint>) {
    && (forall x :: PrefixRefused(x) in complaints <==> exists l :: l in previous && !l.claimed && l.prefix == x)
    && (forall k :: FutureObject(k) in complaints <==> exists o :: InTree(o, tree) && FutureDated(o, now) && o.key == k)
    && (forall k :: DeleteFailed(k) in complaints ==> exists o :: o in planned && o.key == k)
    && forall o :: o in planned && o.key in after ==> DeleteFailed(o.key) in complaints
  }

  lemma StillPlanned(before: set<string>, after: set<string>, primaries: seq<PruneObject>, sidecars: seq<PruneObject>,
                     deleted: seq<string>, few: seq<Complaint>, more: seq<Complaint>)
    requires PlanDeleted(before, after, primaries, sidecars, deleted, few) && forall c :: c in few ==> c in more
    ensures PlanDeleted(before, after, primaries, sidecars, deleted, more)
  {
  }

  /** The bucket, by key. */
  class ObjectStore {
    var keys: set<string>

    /** `s3 rm` of one key, which the store may refuse, and whose answer may be
        lost. */
    method Remove(key: string) returns (ok: bool)
      modifies this
      ensures keys == old(keys) - {key} || (!ok && keys == old(keys))
    {
      var runs: bool, answers: bool := *, *;
      if runs {
        keys := keys - {key};
      }
      ok := runs && answers;
    }

    /** The deletion loop: a failed delete does not stop the rest, and is reported.
        Those that answered are done; some of the others may be gone as well. */
    method RemoveAll(objs: seq<PruneObject>)
      returns (deleted: seq<string>, failed: seq<Complaint>, ghost done: seq<PruneObject>)
      modifies this
      ensures forall o :: o in done ==> o in objs
      ensures old(keys) - KeysOf(objs) <= keys <= old(keys) - KeysOf(done)
      ensures deleted == Names(done)
      ensures forall c :: c in failed ==> exists o :: o in objs && c == DeleteFailed(o.key)
      ensures forall o :: o in objs ==> o in done || DeleteFailed(o.key) in failed
    {
      deleted, failed, done := [], [], [];
      for i := 0 to |objs|
        invariant forall o :: o in done ==> o in objs
        invariant old(keys) - KeysOf(objs) <= keys <= old(keys) - KeysOf(done)
        invariant deleted == Names(done)
        invariant forall c :: c in failed ==> exists o :: o in objs && c == DeleteFailed(o.key)
        invariant forall o :: o in objs[..i] ==> o in done || DeleteFailed(o.key) in failed
      {
        assert objs[..i + 1] == objs[..i] + [objs[i]];
        assert objs[i].key in KeysOf(objs);
        var ok := Remove(objs[i].key);
        if !ok {
          failed := failed + [DeleteFailed(objs[i].key)];
          continue;
        }
        done := done + [objs[i]];
        deleted := deleted + [objs[i].entry.name];
      }
      assert objs[..|objs|] == objs;
    }

    /** The deletions of a plan: what is gone, what was reported, and that every
        planned object still there has its failure reported. */
    method DeletePlan(primaries: seq<PruneObject>, sidecars: seq<PruneObject>)
      returns (deleted: seq<string>, failed: seq<Complaint>)
      modifies this
      ensures PlanDeleted(old(keys), keys, primaries, sidecars, deleted, failed)
      ensures forall c :: c in failed ==> exists o :: o in primaries + sidecars && c == DeleteFailed(o.key)
      ensures forall o :: o in primaries + sidecars && o.key in keys ==> DeleteFailed(o.key) in failed
    {
      var names, failedFirst, done := RemoveAll(primaries);
      var _, failedBeside, doneBeside := RemoveAll(sidecars);
      deleted, failed := names, failedFirst + failedBeside;
      forall n | n in deleted ensures exists o :: o in primaries && o.entry.name == n && o.key !in keys {
        var i :| 0 <= i < |done| && Names(done)[i] == n;
        assert done[i] in done && done[i].key in KeysOf(done);
      }
      forall o | o in primaries ensures o.entry.name in deleted || DeleteFailed(o.key) in failed {
        if o in done {
          var i :| 0 <= i < |done| && done[i] == o;
          assert Names(done)[i] == o.entry.name;
        }
      }
      forall o | o in primaries + sidecars && o.key in keys ensures DeleteFailed(o.key) in failed {
        assert o in done ==> o.key in KeysOf(done);
        assert o in doneBeside ==> o.key in KeysOf(doneBeside);
      }
    }

    /** A whole prune. With no rule set it does nothing. Otherwise it is refused, and
        touches nothing, exactly when the namespace is not this server's, the clocks
        are an hour apart or the store's cannot be read, the listing fails, or the
        plan of the claimed locations would take too much of a series; and if it is
        not, nothing but what the plan names is gone, with every complaint. */
    method PruneBackups(p: RetentionPolicy, now: int, claimed: bool, storeNow: Option<int>,
                        previous: seq<OldLocation>, load: seq<string> -> Option<PruneTree>)
      returns (r: Result<seq<string>, PruneError>, complaints: seq<Complaint>, ghost primaries: seq<PruneObject>,
        ghost sidecars: seq<PruneObject>)
      modifies this
      ensures p.keepLast <= 0 && p.keepDaily <= 0 && p.keepWeekly <= 0 && p.keepMonthly <= 0 && p.maxAgeDays <= 0 ==>
        r == Ok([]) && complaints == [] && primaries == sidecars == [] && keys == old(keys)
      ensures p.keepLast > 0 || p.keepDaily > 0 || p.keepWeekly > 0 || p.keepMonthly > 0 || p.maxAgeDays > 0 ==>
        && (r.Ok? <==>
            && claimed
            && (p.ignoreClock ||
                (storeNow.Some? && -3_600_000_000_000 <= now - storeNow.value <= 3_600_000_000_000))
            && load(Claimed(previous)).Some?
            && (p.allowMassDelete || !Braked(load(Claimed(previous)).value, primaries, now)))
        && (r == Err(NamespaceRefused) <==> !claimed)
        && (r.Ok? || r == Err(MassDelete) ==>
              load(Claimed(previous)).Some? && IsPlan(load(Claimed(previous)).value, p, now, primaries, sidecars))
        && (r.Ok? ==>
              && PlanDeleted(old(keys), keys, primaries, sidecars, r.value, complaints)
              && AllReported(keys, previous, load(Claimed(previous)).value, now, primaries + sidecars, complaints))
      ensures r.Err? ==> complaints == [] && keys == old(keys)
    {
      hide IsPlan, Braked, InTree, FutureDated, PlanDeleted;
      primaries, sidecars, complaints := [], [], [];
      if p.IsZero() {
        return Ok([]), [], [], [];
      }
      if !claimed {
        return Err(NamespaceRefused), [], [], [];
      }
      if !p.ignoreClock {
        if storeNow.None? {
          return Err(ClockUnreadable), [], [], [];
        }
        var d := now - storeNow.value;
        if d > MAX_CLOCK_SKEW || d < -MAX_CLOCK_SKEW {
          return Err(ClockSkew), [], [], [];
        }
      }
      var prefixes, unclaimed := ClaimPrevious(previous);
      UnclaimedAre(previous);
      var loaded := load(prefixes);
      if loaded.None? {
        return Err(ListingFailed), [], [], [];
      }
      var tree := loaded.value;
      var goes, beside := PlanPrune(tree, p, now);
      primaries, sidecars := goes, beside;
      if !p.allowMassDelete {
        var refused := PruneBrake(tree, goes, now);
        if refused {
          return Err(MassDelete), [], goes, beside;
        }
      }
      var future := FutureComplaints(tree, now);
      var deleted, failed := DeletePlan(goes, beside);
      complaints := unclaimed + future + failed;
      StillPlanned(old(keys), keys, goes, beside, deleted, failed, complaints);
      r := Ok(deleted);
    }
  }

  // ---- repeated names (one id listed under the current and a previous prefix) ----

  /** Every object a prune leaves in the series is counted as surviving. */
  ghost predicate AllCounted(all: seq<PruneObject>, p: RetentionPolicy, now: int, spare: set<string>) {
    forall o :: o in all && o !in Picked(all, p, now, spare) ==> o.id in Surviving(all, p, now, spare)
  }

  ghost predicate EachKeyOnce(all: seq<PruneObject>) {
    forall i, j :: 0 <= i < j < |all| ==> all[i].key != all[j].key
  }

  const KEEP_ONE: RetentionPolicy := RetentionPolicy(1, 0, 0, 0, 0, false, false)

  lemma {:induction false} LatestTime(all: seq<PruneObject>) returns (t: int)
    ensures forall o :: o in all ==> o.entry.time <= t
  {
    t := 0;
    if all != [] {
      t := LatestTime(all[1..]);
      if t < all[0].entry.time {
        t := all[0].entry.time;
      }
      assert all == [all[0]] + all[1..];
    }
  }

  /** A name no object of the list has: longer than all of them. */
  lemma {:induction false} FreshName(all: seq<PruneObject>) returns (n: string)
    ensures forall o :: o in all ==> |o.entry.name| < |n| && |o.id| < |n|
  {
    n := "x";
    if all != [] {
      var m := FreshName(all[1..]);
      n := m + all[0].entry.name + all[0].id + "x";
      assert all == [all[0]] + all[1..];
    }
  }

  /** Under keep-last-1 a newer backup dooms every other name. */
  lemma NewerDoomsTheRest(all: seq<PruneObject>, z: PruneObject, o: PruneObject)
    requires !z.entry.bad && o in all && z.entry.name !in NamesOf(all)
    requires forall x :: x in all ==> x.entry.time < z.entry.time
    ensures o.entry.name in SelectedNames(Listing(all + [z], z.entry.time), KEEP_ONE, z.entry.time)
  {
    hide KeptNames;
    var now, series := z.entry.time, all + [z];
    var list := Listing(series, now);
    ListingMembers(series, now, z.entry);
    ListingMembers(series, now, o.entry);
    assert IsNewestGoodTime(now, list) by {
      forall e | e in list ensures e.time <= now {
        ListingMembers(series, now, e);
      }
    }
    SelectedExactly(list, KEEP_ONE, now, o.entry.name);
    forall e | e in list && e != z.entry ensures e.time < now && e.name != z.entry.name {
      ListingMembers(series, now, e);
    }
    OnlyNewestKept(list, z.entry, now);
  }

  lemma OnlyNewestKept(list: seq<BackupEntry>, z: BackupEntry, now: int)
    requires z in list && !z.bad
    requires forall e :: e in list && e != z ==> e.time < z.time && e.name != z.name
    ensures KeptNames(list, KEEP_ONE, now) <= {z.name}
  {
    var good := NewestFirst(list);
    GoodOnesMembers(list);
    SortByElements(Newer, GoodOnes(list));
    NewerStrictWeak();
    SortBySorted(Newer, GoodOnes(list));
    assert z in good;
    var i :| 0 <= i < |good| && good[i] == z;
    assert !Newer(good[i], good[0]) || i == 0;
    assert good[0] in good;
    assert good[0] == z;
  }

  /** Counting survivors by name is right for every future of a series exactly
      when no name in it repeats. */
  lemma CountingIsExactIff(all: seq<PruneObject>)
    requires EachKeyOnce(all)
    ensures OwnObjectNames(all) <==>
      forall z: PruneObject, p, now, spare :: z.entry.name !in NamesOf(all) ==> AllCounted(all + [z], p, now, spare)
  {
    hide Picked, Surviving;
    if OwnObjectNames(all) {
      forall z: PruneObject, p, now, spare | z.entry.name !in NamesOf(all)
        ensures AllCounted(all + [z], p, now, spare)
      {
        assert forall i :: 0 <= i < |all| ==> all[i] in all;
        assert OwnObjectNames(all + [z]);
        forall o | o in all + [z] && o !in Picked(all + [z], p, now, spare)
          ensures o.id in Surviving(all + [z], p, now, spare)
        {
          SurvivingIsKept(all + [z], p, now, spare, o);
        }
      }
    } else {
      var i, j :| 0 <= i < j < |all| && all[i].entry.name == all[j].entry.name;
      var z, lost := RepeatedNameLoses(all, i, j);
      assert !AllCounted(all + [z], KEEP_ONE, z.entry.time, {});
    }
  }

  lemma RepeatedNameLoses(all: seq<PruneObject>, i: nat, j: nat) returns (z: PruneObject, lost: PruneObject)
    requires EachKeyOnce(all) && i < j < |all| && all[i].entry.name == all[j].entry.name
    ensures z.entry.name !in NamesOf(all) && !z.entry.bad
    ensures forall x :: x in all ==> x.entry.time < z.entry.time && x.id != z.id
    ensures lost in all && lost !in Picked(all + [z], KEEP_ONE, z.entry.time, {})
    ensures Surviving(all + [z], KEEP_ONE, z.entry.time, {}) <= {z.id}
  {
    hide Picked, SelectedNames;
    var t := LatestTime(all);
    var n := FreshName(all);
    z := PruneObject(n, n, BackupEntry(n, t + 1, false));
    var now, series := t + 1, all + [z];
    forall o | o in all ensures o.entry.name in NamesOf(Picked(series, KEEP_ONE, now, {})) {
      NewerDoomsTheRest(all, z, o);
      SelectedHaveObjects(Current(series, now), KEEP_ONE, now, o.entry.name);
      ByEntryMembers(Current(series, now));
      PickedIsSelected(series, KEEP_ONE, now, {}, ByEntry(Current(series, now))[o.entry.name]);
    }
    NewerDoomsTheRest(all, z, all[i]);
    SelectedHaveObjects(Current(series, now), KEEP_ONE, now, all[i].entry.name);
    lost := if ByEntry(Current(series, now))[all[i].entry.name] == all[i] then all[j] else all[i];
    PickedIsSelected(series, KEEP_ONE, now, {}, lost);
    assert all[i] != all[j];
  }

  /** And then a sidecar of an object that is still there goes with the rest. */
  lemma RepeatedNameCostsASidecar(all: seq<PruneObject>, i: nat, j: nat)
    requires EachKeyOnce(all) && i < j < |all| && all[i].entry.name == all[j].entry.name
    requires forall o :: o in all ==> o.entry.time > ZERO_TIME
    ensures exists tree, now, primaries, sidecars ::
      IsPlan(tree, KEEP_ONE, now, primaries, sidecars) && !SidecarsSafe(tree, primaries, sidecars)
  {
    hide Picked, Surviving, SelectedNames;
    var z, lost := RepeatedNameLoses(all, i, j);
    var now := z.entry.time;
    var side := PruneObject("side", lost.id, lost.entry);
    var tree := PruneTree(all + [z], map[], [side], map[]);
    var primaries := Picked(tree.root, KEEP_ONE, now, {});
    assert Protected(tree.safety, now) == {};
    assert primaries ==
      Picked(tree.root, KEEP_ONE, now, Protected(tree.safety, now)) +
      SeriesPicked(tree, [], KEEP_ONE, now, DbSpare(tree, KEEP_ONE, now));
    assert DbOrder([], tree);
    assert IsNewestTime(now, tree, now) by {
      assert z in tree.root && InTree(z, tree);
    }
    assert IsPlan(tree, KEEP_ONE, now, primaries, [side]);
    assert InTree(lost, tree);
    assert !SidecarsSafe(tree, primaries, [side]);
  }
}
