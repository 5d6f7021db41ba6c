/** What one prune deletes of a whole prefix: the primary series, every
    database's series and the sidecars (internal/backup/retention.go). */
module PrunePlan {
  import opened Ordering
  import opened Retention
  import opened RetentionLaws
  import opened RetentionSelect

  const SAFETY_WINDOW: int := 7 * DAY
  const SAFETY_KEEP: int := 5
  const PRUNE_BRAKE_MIN: int := 3
  /** Go's zero time.Time, 1 January of the year 1. */
  const ZERO_TIME: int := -62_135_596_800 * SECOND

  datatype PruneObject = PruneObject(key: string, id: string, entry: BackupEntry)

  datatype PruneTree = PruneTree(
    root: seq<PruneObject>, series: map<string, seq<PruneObject>>,
    sidecars: seq<PruneObject>, safety: map<string, int>)

  predicate FutureDated(o: PruneObject, now: int) {
    Future(o.entry, now)
  }

  // ---- lists drawn from sets and maps ----

  lemma StrLessStrictWeak()
    ensures StrictWeak(StrLess)
  {
    forall x, y, z
      ensures !StrLess(x, x) && (StrLess(x, y) && StrLess(y, z) ==> StrLess(x, z))
      ensures StrLess(x, z) ==> StrLess(x, y) || StrLess(y, z)
    {
      StrLessIrreflexive(x);
      StrLessTotal(x, y);
      StrLessTotal(y, z);
      if StrLess(x, y) && StrLess(y, z) {
        StrLessTransitive(x, y, z);
      }
      if StrLess(x, z) && StrLess(z, y) {
        StrLessTransitive(x, z, y);
      }
    }
  }

  /** Later safety copies first, then the greater id. */
  predicate LaterCopy(safety: map<string, int>, a: string, b: string) {
    var ta := if a in safety then safety[a] else 0;
    var tb := if b in safety then safety[b] else 0;
    ta > tb || (ta == tb && StrLess(b, a))
  }

  lemma LaterCopyStrictWeak(safety: map<string, int>)
    ensures StrictWeak((a, b) => LaterCopy(safety, a, b))
    ensures forall a, b :: a != b ==> LaterCopy(safety, a, b) || LaterCopy(safety, b, a)
  {
    StrLessStrictWeak();
    forall a, b | a != b ensures LaterCopy(safety, a, b) || LaterCopy(safety, b, a) {
      StrLessTotal(a, b);
    }
  }

  ghost predicate StrictlySorted(before: (string, string) -> bool, s: seq<string>) {
    forall i, j :: 0 <= i < j < |s| ==> before(s[i], s[j])
  }

  lemma DistinctInPermutation(s: seq<string>, t: seq<string>)
    requires multiset(s) == multiset(t)
    requires forall x :: multiset(s)[x] <= 1
    ensures forall i, j :: 0 <= i < j < |t| ==> t[i] != t[j]
  {
    forall i, j | 0 <= i < j < |t| ensures t[i] != t[j] {
      assert t == t[..j] + [t[j]] + t[j + 1..];
      assert t[i] in t[..j];
      assert multiset(t)[t[i]] <= 1;
    }
  }

  /** Ranging over a map's keys, then sorting them. */
  method InOrder(before: (string, string) -> bool, keys: set<string>) returns (s: seq<string>)
    requires StrictWeak(before)
    requires forall a, b :: a != b ==> before(a, b) || before(b, a)
    ensures StrictlySorted(before, s)
    ensures forall k :: k in s <==> k in keys
  {
    var rest := keys;
    s := [];
    while rest != {}
      invariant rest <= keys
      invariant forall k :: k in keys <==> k in rest || k in s
      invariant forall k :: k in s ==> k !in rest
      invariant forall k :: multiset(s)[k] <= 1
      decreases |rest|
    {
      var k :| k in rest;
      s, rest := s + [k], rest - {k};
    }
    ghost var unsorted := s;
    SortByMultiset(before, s);
    SortByElements(before, s);
    SortBySorted(before, s);
    s := SortBy(before, s);
    DistinctInPermutation(unsorted, s);
  }

  // ---- safety copies ----

  ghost predicate InWindow(safety: map<string, int>, id: string, now: int) {
    id in safety && now - safety[id] < SAFETY_WINDOW
  }

  /** The ids of the newest five safety copies taken within the window. */
  ghost function Protected(safety: map<string, int>, now: int): set<string> {
    set id | id in safety && InWindow(safety, id, now)
          && |LaterCopies(safety, now, id)| < SAFETY_KEEP
  }

  ghost function LaterCopies(safety: map<string, int>, now: int, id: string): set<string> {
    set x | x in safety && InWindow(safety, x, now) && LaterCopy(safety, x, id)
  }

  method SafetyIds(safety: map<string, int>, now: int) returns (ids: seq<string>)
    ensures forall id :: id in ids <==> id in Protected(safety, now)
    ensures |ids| <= SAFETY_KEEP
  {
    hide LaterCopy;
    var recent := set id | id in safety && now - safety[id] < SAFETY_WINDOW;
    LaterCopyStrictWeak(safety);
    var before := (a, b) => LaterCopy(safety, a, b);
    var all := InOrder(before, recent);
    forall i | 0 <= i < |all|
      ensures i < SAFETY_KEEP <==> all[i] in Protected(safety, now)
    {
      RankOfSorted(before, all, i);
      assert Preceding(before, all, all[i]) == LaterCopies(safety, now, all[i]);
      assert all[i] in all;
      assert InWindow(safety, all[i], now);
    }
    ids := if |all| > SAFETY_KEEP then all[..SAFETY_KEEP] else all;
    forall id | id in ids ensures id in Protected(safety, now) {
      var i :| 0 <= i < |ids| && ids[i] == id;
      assert all[i] == id;
    }
    forall id | id in Protected(safety, now) ensures id in ids {
      assert id in all;
      var i :| 0 <= i < |all| && all[i] == id;
      assert ids[i] == id;
    }
  }

  // ---- which copies those are ----

  /** The copies taken in the last seven days. */
  ghost function RecentCopies(safety: map<string, int>, now: int): set<string> {
    set id | id in safety && now - safety[id] < 604_800_000_000_000
  }

  /** A protected copy is recent, and no copy is protected before a later one; five
      are, or as many as there are. */
  lemma LaterIsProtected(safety: map<string, int>, now: int)
    ensures Protected(safety, now) <= RecentCopies(safety, now)
    ensures forall x, y ::
      x in RecentCopies(safety, now) && y in Protected(safety, now) && safety[x] > safety[y] ==>
      x in Protected(safety, now)
    ensures |Protected(safety, now)| == if |RecentCopies(safety, now)| < 5 then |RecentCopies(safety, now)| else 5
  {
    var recent, before := RecentCopies(safety, now), (a, b) => LaterCopy(safety, a, b);
    assert forall id :: id in recent <==> id in safety && InWindow(safety, id, now);
    hide LaterCopy, InWindow;
    LaterCopyStrictWeak(safety);
    assert StrictWeak(before);
    TopNSize(before, recent, 5);
    forall id | id in recent ensures LaterCopies(safety, now, id) == Above(before, recent, id) {
    }
    assert Protected(safety, now) == TopN(before, recent, 5);
    forall x, y | x in recent && y in Protected(safety, now) && safety[x] > safety[y]
      ensures x in Protected(safety, now)
    {
      assert LaterCopy(safety, x, y) by { LaterByTime(safety, x, y); }
      assert before(x, y);
      SubsetSize(Above(before, recent, x), Above(before, recent, y));
    }
  }

  lemma LaterByTime(safety: map<string, int>, x: string, y: string)
    requires x in safety && y in safety && safety[x] > safety[y]
    ensures LaterCopy(safety, x, y)
  {
  }

  /** A recent copy without protection has five protected ones at least as late. */
  lemma UnprotectedIsOutnumbered(safety: map<string, int>, now: int, y: string)
    requires y in RecentCopies(safety, now) && y !in Protected(safety, now)
    ensures |Protected(safety, now)| == 5 && forall x :: x in Protected(safety, now) ==> safety[x] >= safety[y]
  {
    hide Protected;
    LaterIsProtected(safety, now);
    SubsetSize(Protected(safety, now), RecentCopies(safety, now));
  }

  // ---- one series ----

  function Current(all: seq<PruneObject>, now: int): seq<PruneObject> {
    if all == [] then []
    else (if FutureDated(all[0], now) then [] else [all[0]]) + Current(all[1..], now)
  }

  function EntriesOf(objs: seq<PruneObject>): seq<BackupEntry> {
    seq(|objs|, i requires 0 <= i < |objs| => objs[i].entry)
  }

  /** The objects by entry name; a later one replaces an earlier one. */
  function ByEntry(objs: seq<PruneObject>): map<string, PruneObject> {
    if objs == [] then map[]
    else ByEntry(objs[..|objs| - 1])[objs[|objs| - 1].entry.name := objs[|objs| - 1]]
  }

  function Doomed(names: seq<string>, byEntry: map<string, PruneObject>, spare: set<string>): seq<PruneObject> {
    if names == [] then []
    else if names[0] in byEntry && byEntry[names[0]].id !in spare then
      [byEntry[names[0]]] + Doomed(names[1..], byEntry, spare)
    else Doomed(names[1..], byEntry, spare)
  }

  function NamesOf(objs: seq<PruneObject>): set<string> {
    set o | o in objs :: o.entry.name
  }

  /** What is deleted of one series when the ids in `spare` are kept as well. */
  function Picked(all: seq<PruneObject>, p: RetentionPolicy, now: int, spare: set<string>): seq<PruneObject> {
    var objs := Current(all, now);
    Doomed(SelectedNames(EntriesOf(objs), p, now), ByEntry(objs), spare)
  }

  /** The ids a series is counted as still holding. */
  function Surviving(all: seq<PruneObject>, p: RetentionPolicy, now: int, spare: set<string>): set<string> {
    var gone := NamesOf(Picked(all, p, now, spare));
    set o | o in all && (FutureDated(o, now) || o.entry.name !in gone) :: o.id
  }

  lemma {:induction false} CurrentMembers(all: seq<PruneObject>, now: int)
    ensures forall o :: o in Current(all, now) <==> o in all && !FutureDated(o, now)
  {
    if all != [] {
      CurrentMembers(all[1..], now);
      assert all == [all[0]] + all[1..];
    }
  }

  lemma {:induction false} CurrentSnoc(all: seq<PruneObject>, o: PruneObject, now: int)
    ensures Current(all + [o], now) == Current(all, now) + if FutureDated(o, now) then [] else [o]
  {
    if all == [] {
      assert all + [o] == [o];
    } else {
      assert (all + [o])[1..] == all[1..] + [o];
      CurrentSnoc(all[1..], o, now);
    }
  }

  lemma {:induction false} ByEntryMembers(objs: seq<PruneObject>)
    ensures forall n :: n in ByEntry(objs) <==> exists o :: o in objs && o.entry.name == n
    ensures forall n :: n in ByEntry(objs) ==> ByEntry(objs)[n] in objs && ByEntry(objs)[n].entry.name == n
  {
    if objs != [] {
      ByEntryMembers(objs[..|objs| - 1]);
      assert objs == objs[..|objs| - 1] + [objs[|objs| - 1]];
    }
  }

  lemma {:induction false} DoomedSnoc(names: seq<string>, n: string, byEntry: map<string, PruneObject>,
                                      spare: set<string>)
    ensures Doomed(names + [n], byEntry, spare)
         == Doomed(names, byEntry, spare) + if n in byEntry && byEntry[n].id !in spare then [byEntry[n]] else []
  {
    if names == [] {
      assert names + [n] == [n];
    } else {
      assert (names + [n])[1..] == names[1..] + [n];
      DoomedSnoc(names[1..], n, byEntry, spare);
    }
  }

  lemma {:induction false} DoomedMembers(names: seq<string>, byEntry: map<string, PruneObject>, spare: set<string>,
                                         o: PruneObject)
    ensures o in Doomed(names, byEntry, spare) <==>
            exists n :: n in names && n in byEntry && byEntry[n] == o && o.id !in spare
  {
    if names != [] {
      DoomedMembers(names[1..], byEntry, spare, o);
      assert names == [names[0]] + names[1..];
    }
  }

  /** Every selected name has an object to delete. */
  lemma SelectedHaveObjects(objs: seq<PruneObject>, p: RetentionPolicy, now: int, n: string)
    requires n in SelectedNames(EntriesOf(objs), p, now)
    ensures n in ByEntry(objs)
  {
    SelectedExactly(EntriesOf(objs), p, now, n);
    var e :| e in EntriesOf(objs) && e.name == n;
    var i :| 0 <= i < |objs| && EntriesOf(objs)[i] == e;
    ByEntryMembers(objs);
    assert objs[i] in objs;
  }

  method SetFutureAside(all: seq<PruneObject>, now: int, surviving: set<string>)
    returns (objs: seq<PruneObject>, surviving': set<string>)
    ensures objs == Current(all, now)
    ensures surviving' == surviving + set o | o in all && FutureDated(o, now) :: o.id
  {
    surviving', objs := surviving, [];
    for i := 0 to |all|
      invariant objs == Current(all[..i], now)
      invariant surviving' == surviving + set o | o in all[..i] && FutureDated(o, now) :: o.id
    {
      CurrentSnoc(all[..i], all[i], now);
      assert all[..i + 1] == all[..i] + [all[i]];
      if FutureDated(all[i], now) {
        surviving' := surviving' + {all[i].id};
        continue;
      }
      objs := objs + [all[i]];
    }
    assert all[..|all|] == all;
  }

  method IndexByEntry(objs: seq<PruneObject>) returns (byEntry: map<string, PruneObject>)
    ensures byEntry == ByEntry(objs)
  {
    byEntry := map[];
    for i := 0 to |objs|
      invariant byEntry == ByEntry(objs[..i])
    {
      assert objs[..i + 1][..i] == objs[..i];
      byEntry := byEntry[objs[i].entry.name := objs[i]];
    }
    assert objs[..|objs|] == objs;
  }

  method Doom(del: seq<string>, byEntry: map<string, PruneObject>, spare: set<string>)
    returns (out: seq<PruneObject>, doomed: set<string>)
    requires forall n :: n in del ==> n in byEntry
    requires forall n :: n in byEntry ==> byEntry[n].entry.name == n
    ensures out == Doomed(del, byEntry, spare)
    ensures doomed == NamesOf(out)
  {
    doomed, out := {}, [];
    for i := 0 to |del|
      invariant out == Doomed(del[..i], byEntry, spare)
      invariant doomed == NamesOf(out)
    {
      DoomedSnoc(del[..i], del[i], byEntry, spare);
      assert del[..i + 1] == del[..i] + [del[i]];
      var o := byEntry[del[i]];
      if o.id in spare {
        continue;
      }
      doomed := doomed + {del[i]};
      out := out + [o];
    }
    assert del[..|del|] == del;
  }

  /** The planner's pick within one series; `surviving` is the map it fills. */
  method Pick(all: seq<PruneObject>, p: RetentionPolicy, now: int, spare: set<string>, surviving: set<string>)
    returns (out: seq<PruneObject>, surviving': set<string>)
    ensures out == Picked(all, p, now, spare)
    ensures surviving' == surviving + Surviving(all, p, now, spare)
  {
    hide SelectedNames, FutureDated, Doomed, ByEntry, Current;
    var objs;
    objs, surviving' := SetFutureAside(all, now, surviving);
    var entries := new BackupEntry[|objs|](i requires 0 <= i < |objs| => objs[i].entry);
    assert entries[..] == EntriesOf(objs);
    var del := SelectForDeletion(entries, p, now);
    var byEntry := IndexByEntry(objs);
    ByEntryMembers(objs);
    forall n | n in del ensures n in byEntry {
      SelectedHaveObjects(objs, p, now, n);
    }
    var doomed;
    out, doomed := Doom(del, byEntry, spare);
    ghost var futures := surviving';
    for i := 0 to |objs|
      invariant surviving' == futures + set o | o in objs[..i] && o.entry.name !in doomed :: o.id
    {
      assert objs[..i + 1] == objs[..i] + [objs[i]];
      if objs[i].entry.name !in doomed {
        surviving' := surviving' + {objs[i].id};
      }
    }
    CurrentMembers(all, now);
  }

  // ---- the plan ----

  function SeriesPicked(tree: PruneTree, dbs: seq<string>, p: RetentionPolicy, now: int,
                        spare: set<string>): seq<PruneObject> {
    if dbs == [] then []
    else SeriesPicked(tree, dbs[..|dbs| - 1], p, now, spare) + Picked(SeriesOf(tree, dbs[|dbs| - 1]), p, now, spare)
  }

  function SeriesOf(tree: PruneTree, db: string): seq<PruneObject> {
    if db in tree.series then tree.series[db] else []
  }

  ghost function SeriesSurviving(tree: PruneTree, dbs: seq<string>, p: RetentionPolicy, now: int,
                                 spare: set<string>): set<string> {
    if dbs == [] then {}
    else
      var last := dbs[|dbs| - 1];
      SeriesSurviving(tree, dbs[..|dbs| - 1], p, now, spare) + Surviving(SeriesOf(tree, last), p, now, spare)
  }

  lemma {:induction false} SeriesSurvivingMembers(tree: PruneTree, dbs: seq<string>, p: RetentionPolicy, now: int,
                                                  spare: set<string>, id: string)
    ensures id in SeriesSurviving(tree, dbs, p, now, spare) <==>
      exists db :: db in dbs && id in Surviving(SeriesOf(tree, db), p, now, spare)
  {
    hide Surviving;
    if dbs != [] {
      SeriesSurvivingMembers(tree, dbs[..|dbs| - 1], p, now, spare, id);
      assert dbs == dbs[..|dbs| - 1] + [dbs[|dbs| - 1]];
    }
  }

  ghost function RootKept(tree: PruneTree, p: RetentionPolicy, now: int): set<string> {
    Surviving(tree.root, p, now, Protected(tree.safety, now))
  }

  /** What no database series may lose: protected ids, and ids the root keeps. */
  ghost function DbSpare(tree: PruneTree, p: RetentionPolicy, now: int): set<string> {
    Protected(tree.safety, now) + RootKept(tree, p, now)
  }

  ghost predicate Survives(tree: PruneTree, p: RetentionPolicy, now: int, id: string) {
    || id in RootKept(tree, p, now)
    || exists db :: db in tree.series && id in Surviving(tree.series[db], p, now, DbSpare(tree, p, now))
  }

  ghost predicate InTree(o: PruneObject, tree: PruneTree) {
    o in tree.root || exists db :: db in tree.series && o in tree.series[db]
  }

  ghost predicate IsNewestTime(t: int, tree: PruneTree, now: int) {
    && (t == ZERO_TIME || exists o :: InTree(o, tree) && !FutureDated(o, now) && o.entry.time == t)
    && ZERO_TIME <= t
    && (forall o :: InTree(o, tree) && !FutureDated(o, now) ==> o.entry.time <= t)
  }

  /** Everything planPrune decides. */
  ghost predicate IsPlan(tree: PruneTree, p: RetentionPolicy, now: int, primaries: seq<PruneObject>,
                         sidecars: seq<PruneObject>) {
    && (exists dbs ::
          && DbOrder(dbs, tree)
          && primaries ==
            Picked(tree.root, p, now, Protected(tree.safety, now)) +
            SeriesPicked(tree, dbs, p, now, DbSpare(tree, p, now)))
    && (exists newest :: IsNewestTime(newest, tree, now)
          && forall s ::
            s in sidecars <==> s in tree.sidecars && !Survives(tree, p, now, s.id) && s.entry.time < newest)
  }

  method Newest(objs: seq<PruneObject>, now: int, newest: int) returns (t: int)
    ensures newest <= t
    ensures t == newest || exists o :: o in objs && !FutureDated(o, now) && o.entry.time == t
    ensures forall o :: o in objs && !FutureDated(o, now) ==> o.entry.time <= t
  {
    t := newest;
    for i := 0 to |objs|
      invariant newest <= t
      invariant t == newest || exists o :: o in objs[..i] && !FutureDated(o, now) && o.entry.time == t
      invariant forall o :: o in objs[..i] && !FutureDated(o, now) ==> o.entry.time <= t
    {
      assert objs[..i + 1] == objs[..i] + [objs[i]];
      assert objs[i] in objs[..i + 1];
      if objs[i].entry.time > t && !FutureDated(objs[i], now) {
        t := objs[i].entry.time;
      }
    }
    assert objs[..|objs|] == objs;
  }

  ghost predicate DbOrder(dbs: seq<string>, tree: PruneTree) {
    StrictlySorted(StrLess, dbs) && forall db :: db in dbs <==> db in tree.series
  }

  method PickSeries(tree: PruneTree, p: RetentionPolicy, now: int, dbs: seq<string>, spare: set<string>,
                    rootKept: set<string>)
    returns (primaries: seq<PruneObject>, surviving: set<string>)
    requires forall db :: db in dbs ==> db in tree.series
    ensures primaries == SeriesPicked(tree, dbs, p, now, spare)
    ensures surviving == rootKept + SeriesSurviving(tree, dbs, p, now, spare)
  {
    hide Picked, Surviving;
    primaries, surviving := [], rootKept;
    for i := 0 to |dbs|
      invariant primaries == SeriesPicked(tree, dbs[..i], p, now, spare)
      invariant surviving == rootKept + SeriesSurviving(tree, dbs[..i], p, now, spare)
    {
      assert dbs[..i + 1][..i] == dbs[..i];
      assert dbs[i] in dbs;
      var out;
      out, surviving := Pick(tree.series[dbs[i]], p, now, spare, surviving);
      primaries := primaries + out;
    }
    assert dbs[..|dbs|] == dbs;
  }

  method PickAll(tree: PruneTree, p: RetentionPolicy, now: int, dbs: seq<string>)
    returns (primaries: seq<PruneObject>, surviving: set<string>)
    requires DbOrder(dbs, tree)
    ensures primaries ==
      Picked(tree.root, p, now, Protected(tree.safety, now)) + SeriesPicked(tree, dbs, p, now, DbSpare(tree, p, now))
    ensures forall id :: id in surviving <==> Survives(tree, p, now, id)
  {
    hide Picked, Surviving, Protected, Survives;
    var safetyIds := SafetyIds(tree.safety, now);
    var protect := set id | id in safetyIds;
    assert protect == Protected(tree.safety, now);
    var rootKept, rest;
    primaries, rootKept := Pick(tree.root, p, now, protect, {});
    assert rootKept == RootKept(tree, p, now);
    rest, surviving := PickSeries(tree, p, now, dbs, protect + rootKept, rootKept);
    primaries := primaries + rest;
    forall id ensures id in surviving <==> Survives(tree, p, now, id) {
      SurvivesSomewhere(tree, dbs, p, now, id);
    }
  }

  lemma SurvivesSomewhere(tree: PruneTree, dbs: seq<string>, p: RetentionPolicy, now: int, id: string)
    requires DbOrder(dbs, tree)
    ensures Survives(tree, p, now, id)
       <==> id in RootKept(tree, p, now) || id in SeriesSurviving(tree, dbs, p, now, DbSpare(tree, p, now))
  {
    hide Surviving, DbSpare, RootKept;
    var spare := DbSpare(tree, p, now);
    SeriesSurvivingMembers(tree, dbs, p, now, spare, id);
    if db :| db in tree.series && id in Surviving(tree.series[db], p, now, spare) {
      assert db in dbs;
      assert id in Surviving(SeriesOf(tree, db), p, now, spare);
    }
  }

  method NewestOf(tree: PruneTree, now: int, dbs: seq<string>) returns (newest: int)
    requires DbOrder(dbs, tree)
    ensures IsNewestTime(newest, tree, now)
  {
    hide FutureDated;
    newest := Newest(tree.root, now, ZERO_TIME);
    for i := 0 to |dbs|
      invariant ZERO_TIME <= newest
      invariant newest == ZERO_TIME || exists o :: InTree(o, tree) && !FutureDated(o, now) && o.entry.time == newest
      invariant forall o :: o in tree.root && !FutureDated(o, now) ==> o.entry.time <= newest
      invariant forall db, o ::
        db in dbs[..i] && o in SeriesOf(tree, db) && !FutureDated(o, now) ==> o.entry.time <= newest
    {
      assert dbs[..i + 1] == dbs[..i] + [dbs[i]];
      assert dbs[i] in dbs;
      newest := Newest(tree.series[dbs[i]], now, newest);
    }
    assert dbs[..|dbs|] == dbs;
    forall o | InTree(o, tree) && !FutureDated(o, now) ensures o.entry.time <= newest {
      if db :| db in tree.series && o in tree.series[db] {
        assert db in dbs;
        assert o in SeriesOf(tree, db);
      }
    }
  }

  method PlanPrune(tree: PruneTree, p: RetentionPolicy, now: int)
    returns (primaries: seq<PruneObject>, sidecars: seq<PruneObject>)
    ensures IsPlan(tree, p, now, primaries, sidecars)
  {
    hide Picked, Surviving, FutureDated, Protected, Survives, SeriesPicked, IsNewestTime;
    StrLessStrictWeak();
    forall a, b | a != b ensures StrLess(a, b) || StrLess(b, a) {
      StrLessTotal(a, b);
    }
    var dbs := InOrder(StrLess, tree.series.Keys);
    var surviving;
    primaries, surviving := PickAll(tree, p, now, dbs);
    var newest := NewestOf(tree, now, dbs);
    sidecars := [];
    for i := 0 to |tree.sidecars|
      invariant forall s :: s in sidecars <==> s in tree.sidecars[..i] && s.id !in surviving && s.entry.time < newest
    {
      assert tree.sidecars[..i + 1] == tree.sidecars[..i] + [tree.sidecars[i]];
      var o := tree.sidecars[i];
      if o.id !in surviving && o.entry.time < newest {
        sidecars := sidecars + [o];
      }
    }
    assert tree.sidecars[..|tree.sidecars|] == tree.sidecars;
  }
}
