/** The life of kept Postgres copies: finding, releasing and rolling back
    (internal/backup/restore.go). */
module KeptCopies {
  import opened Wrappers
  import opened PgSwap

  // ---- finding ----

  /** What earlier restores left, in the order the server lists its databases. */
  datatype RecoveryCopies = RecoveryCopies(previous: seq<Name>, partial: seq<Name>, missingLive: seq<Name>,
                                           unconfirmed: seq<string>, paths: seq<string>)

  function LivePrefixes(names: seq<Name>): set<Name> {
    set n | n in names && LeftoverOf(n).None? :: Trunc(n, 40)
  }

  /** Leftovers of one database (its 40-byte prefix), or of every one. */
  predicate InScope(n: Name, database: Name) {
    LeftoverOf(n).Some? && (database == "" || LeftoverOf(n).value.prefix == Trunc(database, 40))
  }

  function Leftovers(names: seq<Name>, database: Name, previous: bool): seq<Name> {
    if names == [] then []
    else
      var n := names[|names| - 1];
      Leftovers(names[..|names| - 1], database, previous) +
        if InScope(n, database) && LeftoverOf(n).value.previous == previous then [n] else []
  }

  function MissingLive(names: seq<Name>, all: seq<Name>, database: Name): seq<Name> {
    if names == [] then []
    else
      var before, n := MissingLive(names[..|names| - 1], all, database), names[|names| - 1];
      if InScope(n, database) && LeftoverOf(n).value.prefix !in LivePrefixes(all) &&
        LeftoverOf(n).value.prefix !in before
      then before + [LeftoverOf(n).value.prefix] else before
  }

  method FindRecoveryCopies(names: seq<Name>, database: Name, paths: seq<string>, unconfirmed: seq<string>)
    returns (rc: RecoveryCopies)
    ensures rc == Found(names, database, unconfirmed, paths)
  {
    hide LeftoverOf, Trunc;
    var live := FindLive(names);
    var previous: seq<Name>, partial: seq<Name>, missing: seq<Name> := [], [], [];
    for i := 0 to |names|
      invariant previous == Leftovers(names[..i], database, true)
      invariant partial == Leftovers(names[..i], database, false)
      invariant missing == MissingLive(names[..i], names, database)
    {
      assert names[..i + 1][..i] == names[..i];
      var m := LeftoverOf(names[i]);
      if m.None? || (database != "" && m.value.prefix != Trunc(database, 40)) {
        continue;
      }
      if m.value.previous {
        previous := previous + [names[i]];
      } else {
        partial := partial + [names[i]];
      }
      if m.value.prefix !in live && m.value.prefix !in missing {
        missing := missing + [m.value.prefix];
      }
    }
    assert names[..|names|] == names;
    rc := RecoveryCopies(previous, partial, missing, unconfirmed, paths);
  }

  method FindLive(names: seq<Name>) returns (live: set<Name>)
    ensures live == LivePrefixes(names)
  {
    hide LeftoverOf, Trunc;
    live := {};
    for i := 0 to |names|
      invariant live == LivePrefixes(names[..i])
    {
      assert names[..i + 1] == names[..i] + [names[i]];
      if LeftoverOf(names[i]).None? {
        live := live + {Trunc(names[i], 40)};
      }
    }
    assert names[..|names|] == names;
  }

  lemma {:induction false} LeftoversAre(names: seq<Name>, database: Name, previous: bool)
    ensures forall n ::
      n in Leftovers(names, database, previous) <==>
      && n in names && LeftoverOf(n).Some? && LeftoverOf(n).value.previous == previous
      && (database == "" || LeftoverOf(n).value.prefix == Trunc(database, 40))
  {
    hide LeftoverOf, Trunc;
    if names != [] {
      LeftoversAre(names[..|names| - 1], database, previous);
      assert names == names[..|names| - 1] + [names[|names| - 1]];
    }
  }

  /** A prefix is missing exactly when a copy in scope has it and no database that
      is not a copy does. */
  lemma {:induction false} MissingLiveAre(names: seq<Name>, all: seq<Name>, database: Name)
    ensures forall p :: p in MissingLive(names, all, database) <==>
      && !(exists l :: l in all && LeftoverOf(l).None? && Trunc(l, 40) == p)
      && (database == "" || p == Trunc(database, 40))
      && exists n :: n in names && LeftoverOf(n).Some? && LeftoverOf(n).value.prefix == p
  {
    hide LeftoverOf, Trunc;
    if names != [] {
      MissingLiveAre(names[..|names| - 1], all, database);
      assert names == names[..|names| - 1] + [names[|names| - 1]];
    }
  }

  /** What finding returns, for a list of the server's databases. */
  function Found(names: seq<Name>, database: Name, unconfirmed: seq<string>, paths: seq<string>): RecoveryCopies {
    RecoveryCopies(Leftovers(names, database, true), Leftovers(names, database, false),
      MissingLive(names, names, database), unconfirmed, paths)
  }

  // ---- releasing ----

  datatype ReleaseError = CopyMayBeAll | RestoreUnconfirmed

  function CheckRelease(rc: RecoveryCopies, force: bool): Option<ReleaseError> {
    if rc.missingLive != [] then Some(CopyMayBeAll)
    else if rc.unconfirmed != [] && !force then Some(RestoreUnconfirmed)
    else None
  }

  /** One of the copies whose drop went this way. */
  ghost predicate Dropped(copies: seq<Name>, db: Name, fates: nat -> Fate, answered: bool) {
    exists i: nat :: i < |copies| && copies[i] == db && fates(i).runs && (answered ==> fates(i).answered)
  }

  /** Drops the copies; each drop may run or not, and may lose its reply. It is
      refused, and drops nothing, exactly when some database in scope is not live, or
      a restore is unconfirmed and the release is not forced; otherwise every copy
      whose drop runs is gone, nothing else is, and those that answered are told. */
  method Release<T>(c: Cluster<T>, rc: RecoveryCopies, force: bool, fates: nat -> Fate)
    returns (error: Option<ReleaseError>, released: seq<Name>)
    modifies c
    ensures error == CheckRelease(rc, force)
    ensures error == Some(CopyMayBeAll) <==> rc.missingLive != []
    ensures error == Some(RestoreUnconfirmed) <==> rc.missingLive == [] && rc.unconfirmed != [] && !force
    ensures error.Some? ==> c.dbs == old(c.dbs) && released == []
    ensures error.None? ==>
      c.dbs == map db | db in old(c.dbs) && !Dropped(rc.previous + rc.partial, db, fates, false) :: old(c.dbs)[db]
    ensures error.None? ==> forall db :: db in released <==> Dropped(rc.previous + rc.partial, db, fates, true)
  {
    released := [];
    error := CheckRelease(rc, force);
    if error.Some? {
      return;
    }
    var copies := rc.previous + rc.partial;
    for i := 0 to |copies|
      invariant c.dbs == map db | db in old(c.dbs) && !Dropped(copies[..i], db, fates, false) :: old(c.dbs)[db]
      invariant forall db :: db in released <==> Dropped(copies[..i], db, fates, true)
    {
      var ok := c.DropDB(copies[i], fates(i));
      DroppedMore(copies, i, fates);
      if ok {
        released := released + [copies[i]];
      }
    }
    assert copies[..|copies|] == copies;
  }

  lemma DroppedMore(copies: seq<Name>, i: nat, fates: nat -> Fate)
    requires i < |copies|
    ensures forall db, a :: Dropped(copies[..i + 1], db, fates, a) <==>
      Dropped(copies[..i], db, fates, a) || (db == copies[i] && fates(i).runs && (a ==> fates(i).answered))
  {
    var front, more := copies[..i], copies[..i + 1];
    forall db, a
      ensures Dropped(more, db, fates, a) <==>
        Dropped(front, db, fates, a) || (db == copies[i] && fates(i).runs && (a ==> fates(i).answered))
    {
      if k: nat :| k < |front| && front[k] == db && fates(k).runs && (a ==> fates(k).answered) {
        assert more[k] == db;
      }
      if db == copies[i] && fates(i).runs && (a ==> fates(i).answered) {
        assert more[i] == db;
      }
    }
  }

  // ---- planning a rollback ----

  datatype PlanError = NothingKept | NotKept | NoneOfDatabase | PickOne

  function Candidates(previous: seq<Name>, db: Name): seq<Name> {
    if previous == [] then []
    else
      var n := previous[|previous| - 1];
      Candidates(previous[..|previous| - 1], db) +
        if LeftoverOf(n).Some? && LeftoverOf(n).value.prefix == Trunc(db, 40) then [n] else []
  }

  lemma {:induction false} CandidatesAre(previous: seq<Name>, db: Name)
    ensures forall n :: n in Candidates(previous, db) <==>
      n in previous && LeftoverOf(n).Some? && LeftoverOf(n).value.prefix == Trunc(db, 40)
    ensures (forall i, j :: 0 <= i < j < |previous| ==> previous[i] != previous[j]) ==>
      forall i, j ::
        0 <= i < j < |Candidates(previous, db)| ==> Candidates(previous, db)[i] != Candidates(previous, db)[j]
  {
    hide LeftoverOf;
    if previous != [] {
      CandidatesAre(previous[..|previous| - 1], db);
      assert previous == previous[..|previous| - 1] + [previous[|previous| - 1]];
    }
  }

  /** A kept or partial copy of the database, by its prefix. */
  predicate CopyOf(n: Name, db: Name) { LeftoverOf(n).Some? && LeftoverOf(n).value.prefix == Trunc(db, 40) }

  /** The kept database to swap back; pick is "" when none is named. */
  function PlanRollback(rc: RecoveryCopies, db: Name, pick: Name): Result<Name, PlanError> {
    var candidates := Candidates(rc.previous, db);
    if rc.previous == [] then Err(NothingKept)
    else if pick != "" then if pick in candidates then Ok(pick) else Err(NotKept)
    else if |candidates| == 1 then Ok(candidates[0])
    else if candidates == [] then Err(NoneOfDatabase)
    else Err(PickOne)
  }

  /** When a rollback is planned, from a list without repetitions: of the copy that is
      picked, if the database kept one by that name, and of the only one it kept, if
      none is picked. */
  lemma PlanExactly(rc: RecoveryCopies, db: Name, pick: Name, n: Name)
    requires forall i, j :: 0 <= i < j < |rc.previous| ==> rc.previous[i] != rc.previous[j]
    ensures PlanRollback(rc, db, pick) == Ok(n) <==>
      && n in rc.previous && LeftoverOf(n).Some? && LeftoverOf(n).value.prefix == Trunc(db, 40)
      && if pick != "" then n == pick
         else forall m :: m in rc.previous && LeftoverOf(m).Some? && LeftoverOf(m).value.prefix == Trunc(db, 40) ==>
           m == n
    ensures PlanRollback(rc, db, pick) == Err(NothingKept) <==> rc.previous == []
    ensures PlanRollback(rc, db, "") == Err(NoneOfDatabase) <==>
      && rc.previous != []
      && forall m :: m in rc.previous && LeftoverOf(m).Some? ==> LeftoverOf(m).value.prefix != Trunc(db, 40)
  {
    hide LeftoverOf, Trunc, Candidates;
    CandidatesAre(rc.previous, db);
    var candidates := Candidates(rc.previous, db);
    if pick == "" && |candidates| != 1 && candidates != [] {
      assert candidates[0] in candidates && candidates[1] in candidates && candidates[0] != candidates[1];
    }
    assert candidates != [] ==> candidates[0] in candidates;
    assert |candidates| == 1 ==> candidates == [candidates[0]];
  }

  /** A planned rollback names a kept previous database of that database, and only
      one that was picked or is the only one. */
  lemma PlanIsACopy(names: seq<Name>, scope: Name, db: Name, pick: Name, unconfirmed: seq<string>, paths: seq<string>)
    requires var rc := Found(names, scope, unconfirmed, paths);
      PlanRollback(rc, db, pick).Ok?
    ensures var rc := Found(names, scope, unconfirmed, paths);
      var n := PlanRollback(rc, db, pick).value;
      && n in names && LeftoverOf(n) == Some(Leftover(Trunc(db, 40), true))
      && (pick != "" ==> n == pick)
      && (pick == "" ==> forall m :: m in Leftovers(names, scope, true) && CopyOf(m, db) ==> m == n)
  {
    hide LeftoverOf;
    LeftoversAre(names, scope, true);
    CandidatesAre(Leftovers(names, scope, true), db);
    var candidates := Candidates(Leftovers(names, scope, true), db);
    if pick == "" {
      assert candidates == [candidates[0]];
    }
  }

  // ---- no database is lost over any run ----

  /** The database exists under its own name, or as a kept copy. */
  predicate Survives(dbs: set<Name>, db: Name) {
    db in dbs || exists n :: n in dbs && CopyOf(n, db)
  }

  /** No two databases that are not copies share a 40-byte prefix with db. */
  predicate OwnPrefix(dbs: set<Name>, db: Name) {
    forall n :: n in dbs && LeftoverOf(n).None? && Trunc(n, 40) == Trunc(db, 40) ==> n == db
  }

  ghost predicate Lists(names: seq<Name>, dbs: set<Name>) { forall n :: n in names <==> n in dbs }

  /** A release that is let through leaves every database it drops copies of. */
  lemma ReleaseOnlyWhileLive(dbs: set<Name>, after: set<Name>, names: seq<Name>, scope: Name, force: bool,
                             unconfirmed: seq<string>, paths: seq<string>, db: Name)
    requires Lists(names, dbs) && OwnPrefix(dbs, db) && Survives(dbs, db)
    requires var rc := Found(names, scope, unconfirmed, paths);
      && (CheckRelease(rc, force).Some? ==> after == dbs)
      && after <= dbs && forall n :: n in dbs && n !in after ==> n in rc.previous + rc.partial
    requires LeftoverOf(db).None?
    ensures Survives(after, db)
    ensures (exists n :: n in dbs && n !in after && CopyOf(n, db)) ==> db in after
  {
    hide LeftoverOf;
    LeftoversAre(names, scope, true);
    LeftoversAre(names, scope, false);
    MissingLiveAre(names, names, scope);
    forall n | n in dbs && n !in after && CopyOf(n, db) ensures db in after {
      var p := Trunc(db, 40);
      assert InScope(n, scope) && n in names;
      assert p !in MissingLive(names, names, scope);
      assert p in LivePrefixes(names);
      var m :| m in names && LeftoverOf(m).None? && Trunc(m, 40) == p;
      assert m == db;
    }
  }

  /** A step of anyone on the cluster: a restore, a rollback or a release, each
      possibly killed part-way, or something outside. */
  datatype Op = RestoreOp(db: Name, sfx: string)
    | RollbackOp(db: Name, previous: Name, sfx: string)
    | ReleaseOp(names: seq<Name>, scope: Name, force: bool, unconfirmed: seq<string>)
    | OutsideOp

  /** What a release may have done: nothing, if it is refused, or dropped copies. */
  ghost predicate ReleaseStep<T(!new)>(before: map<Name, T>, after: map<Name, T>, names: seq<Name>, scope: Name,
                                force: bool, unconfirmed: seq<string>) {
    var rc := Found(names, scope, unconfirmed, []);
    && Lists(names, before.Keys)
    && (CheckRelease(rc, force).Some? ==> after == before)
    && after.Keys <= before.Keys && (forall db :: db in after ==> after[db] == before[db])
    && forall db :: db in before && db !in after ==> db in rc.previous + rc.partial
  }

  ghost predicate Step<T(!new)>(before: map<Name, T>, op: Op, after: map<Name, T>) {
    match op
    case RestoreOp(db, sfx) => Hex8(sfx) && '\n' !in db && LeftoverOf(db).None? && RestoreStep(before, after, db, sfx)
    case RollbackOp(db, previous, sfx) =>
      Hex8(sfx) && '\n' !in db && LeftoverOf(db).None? && LeftoverOf(previous) == Some(Leftover(Trunc(db, 40), true))
      && NewName(db, sfx) !in before && RollbackStep(before, after, db, previous, sfx)
    case ReleaseOp(names, scope, force, unconfirmed) => ReleaseStep(before, after, names, scope, force, unconfirmed)
    case OutsideOp => true
  }

  ghost predicate Trace<T(!new)>(states: seq<map<Name, T>>, ops: seq<Op>) {
    |states| == |ops| + 1 && forall i :: 0 <= i < |ops| ==> Step(states[i], ops[i], states[i + 1])
  }

  // ---- contents ----

  /** A database under db's name, or a copy of it, holds these contents. */
  ghost predicate Holds<T(!new)>(dbs: map<Name, T>, db: Name, v: T) {
    exists n :: n in dbs && (n == db || CopyOf(n, db)) && dbs[n] == v
  }

  lemma RestoreHolds<T(!new)>(before: map<Name, T>, after: map<Name, T>, live: Name, sfx: string, db: Name, v: T)
    requires Hex8(sfx) && '\n' !in live && LeftoverOf(live).None? && RestoreStep(before, after, live, sfx)
    requires Holds(before, db, v)
    ensures Holds(after, db, v)
  {
    hide LeftoverOf, Hex8, NewName, OldName;
    NamesReadBack(live, sfx);
    var n :| n in before && (n == db || CopyOf(n, db)) && before[n] == v;
    if n != live {
      assert n in after && after[n] == v;
    } else if live in after && after[live] == v {
      assert n in after && after[n] == v;
    } else {
      var kept := OldName(live, sfx);
      assert kept in after && after[kept] == v && CopyOf(kept, db);
    }
  }

  lemma RollbackHolds<T(!new)>(before: map<Name, T>, after: map<Name, T>, live: Name, previous: Name, sfx: string,
                        db: Name, v: T)
    requires Hex8(sfx) && '\n' !in live && LeftoverOf(live).None? && RollbackStep(before, after, live, previous, sfx)
    requires LeftoverOf(previous) == Some(Leftover(Trunc(live, 40), true)) && NewName(live, sfx) !in before
    requires Holds(before, db, v) && LeftoverOf(db).None? && OwnPrefix(after.Keys, db)
    ensures Holds(after, db, v)
  {
    hide LeftoverOf, Hex8, NewName, OldName;
    NamesReadBack(live, sfx);
    var n :| n in before && (n == db || CopyOf(n, db)) && before[n] == v;
    if n != live && n != previous {
      assert n in after && after[n] == v;
    } else if after == before {
      assert n in after && after[n] == v;
    } else if n == live {
      var displaced := NewName(live, sfx);
      assert displaced in after && after[displaced] == v && CopyOf(displaced, db);
    } else {
      assert live in after.Keys && Trunc(live, 40) == Trunc(db, 40);
      assert live == db && after[live] == v;
    }
  }

  /** A release that was let through and dropped the last holder of the contents,
      while the database was live with others. */
  ghost predicate DroppedWhileLive<T(!new)>(before: map<Name, T>, op: Op, after: map<Name, T>, db: Name, v: T) {
    && op.ReleaseOp? && Holds(before, db, v) && !Holds(after, db, v)
    && db in before && db in after && after[db] == before[db]
  }

  lemma ReleaseHolds<T(!new)>(before: map<Name, T>, op: Op, after: map<Name, T>, db: Name, v: T)
    requires op.ReleaseOp? && Step(before, op, after) && OwnPrefix(before.Keys, db) && LeftoverOf(db).None?
    requires Holds(before, db, v)
    ensures Holds(after, db, v) || DroppedWhileLive(before, op, after, db, v)
  {
    hide LeftoverOf, OwnPrefix;
    var n :| n in before && (n == db || CopyOf(n, db)) && before[n] == v;
    if n in after {
      assert after[n] == v;
    } else {
      assert Survives(before.Keys, db);
      LeftoversAre(op.names, op.scope, true);
      LeftoversAre(op.names, op.scope, false);
      ReleaseOnlyWhileLive(before.Keys, after.Keys, op.names, op.scope, op.force, op.unconfirmed, [], db);
      assert n != db;
      assert n in before.Keys && n !in after.Keys && CopyOf(n, db);
      assert db in after.Keys;
    }
  }

  lemma StepHolds<T(!new)>(before: map<Name, T>, op: Op, after: map<Name, T>, db: Name, v: T)
    requires Step(before, op, after) && !op.OutsideOp? && LeftoverOf(db).None?
    requires OwnPrefix(before.Keys, db) && OwnPrefix(after.Keys, db) && Holds(before, db, v)
    ensures Holds(after, db, v) || DroppedWhileLive(before, op, after, db, v)
  {
    hide LeftoverOf, OwnPrefix, Holds, DroppedWhileLive, RestoreStep, RollbackStep, ReleaseStep;
    match op {
      case RestoreOp(live, sfx) => RestoreHolds(before, after, live, sfx, db, v);
      case RollbackOp(live, previous, sfx) => RollbackHolds(before, after, live, previous, sfx, db, v);
      case ReleaseOp(_, _, _, _) => ReleaseHolds(before, op, after, db, v);
    }
  }

  /** Contents that are held stay held, in every state of every run of restores,
      rollbacks and releases, killed wherever, up to a release that leaves the
      database live with other contents; outside steps must not remove their last
      holder, and database names must differ in their first 40 bytes. */
  lemma {:induction false} ContentsStayHeld<T(!new)>(states: seq<map<Name, T>>, ops: seq<Op>, db: Name, v: T, k: nat)
    requires Trace(states, ops) && LeftoverOf(db).None? && k < |states| && Holds(states[0], db, v)
    requires forall s :: s in states ==> OwnPrefix(s.Keys, db)
    requires forall i :: 0 <= i < k && ops[i].OutsideOp? && Holds(states[i], db, v) ==> Holds(states[i + 1], db, v)
    ensures Holds(states[k], db, v) ||
      exists i :: 0 <= i < k && DroppedWhileLive(states[i], ops[i], states[i + 1], db, v)
  {
    hide LeftoverOf, Holds, OwnPrefix, Step, DroppedWhileLive;
    if k > 0 {
      ContentsStayHeld(states, ops, db, v, k - 1);
      if Holds(states[k - 1], db, v) && !ops[k - 1].OutsideOp? {
        assert Step(states[k - 1], ops[k - 1], states[k - 1 + 1]);
        assert states[k - 1] in states && states[k] in states;
        StepHolds(states[k - 1], ops[k - 1], states[k], db, v);
      }
    }
  }

  /** Contents the database had at the start or has been live with since. */
  ghost predicate Genuine<T(!new)>(states: seq<map<Name, T>>, k: nat, db: Name, first: T, v: T)
    requires k < |states|
  {
    v == first || exists i :: 0 <= i <= k && db in states[i] && states[i][db] == v
  }

  ghost predicate HoldsGenuine<T(!new)>(states: seq<map<Name, T>>, k: nat, db: Name, first: T)
    requires k < |states|
  {
    exists v :: Genuine(states, k, db, first, v) && Holds(states[k], db, v)
  }

  /** No database is lost: in every state of every such run it is held, under its
      own name or as a copy, with contents it really had, never only as a
      replacement that was still loading. */
  lemma {:induction false} NoDatabaseIsLost<T(!new)>(states: seq<map<Name, T>>, ops: seq<Op>, db: Name, first: T,
                                              k: nat)
    requires Trace(states, ops) && LeftoverOf(db).None? && k < |states| && Holds(states[0], db, first)
    requires forall s :: s in states ==> OwnPrefix(s.Keys, db)
    requires forall i ::
      0 <= i < k && ops[i].OutsideOp? && HoldsGenuine(states, i, db, first) ==> HoldsGenuine(states, i + 1, db, first)
    ensures HoldsGenuine(states, k, db, first)
  {
    hide LeftoverOf, Holds, OwnPrefix, Step;
    if k == 0 {
      assert Genuine(states, 0, db, first, first);
    } else {
      NoDatabaseIsLost(states, ops, db, first, k - 1);
      var j := k - 1;
      if !ops[j].OutsideOp? {
        var v :| Genuine(states, j, db, first, v) && Holds(states[j], db, v);
        assert Step(states[j], ops[j], states[j + 1]);
        assert states[j] in states && states[k] in states;
        StepHolds(states[j], ops[j], states[k], db, v);
        if Holds(states[k], db, v) {
          assert Genuine(states, k, db, first, v);
        } else {
          LiveIsHeld(states[k], db);
          assert Genuine(states, k, db, first, states[k][db]);
        }
      }
    }
  }

  lemma LiveIsHeld<T(!new)>(dbs: map<Name, T>, db: Name)
    requires db in dbs
    ensures Holds(dbs, db, dbs[db])
  {
  }

  // ---- when a release loses a database ----

  /** A release that is let through and runs to its end loses a database exactly
      when the database is not live, its copies are in the release's scope, and
      another live database has the same first 40 bytes. */
  lemma ReleaseLosesIff(dbs: set<Name>, names: seq<Name>, scope: Name, force: bool, unconfirmed: seq<string>,
                        paths: seq<string>, db: Name)
    requires Lists(names, dbs) && LeftoverOf(db).None? && Survives(dbs, db)
    requires CheckRelease(Found(names, scope, unconfirmed, paths), force).None?
    ensures var rc := Found(names, scope, unconfirmed, paths);
      !Survives(dbs - (set n | n in rc.previous + rc.partial), db) <==>
        && db !in dbs && (scope == "" || Trunc(scope, 40) == Trunc(db, 40))
        && exists m :: m in dbs && LeftoverOf(m).None? && m != db && Trunc(m, 40) == Trunc(db, 40)
  {
    hide LeftoverOf, Trunc;
    var rc := Found(names, scope, unconfirmed, paths);
    LeftoversAre(names, scope, true);
    LeftoversAre(names, scope, false);
    MissingLiveAre(names, names, scope);
    var gone := set n | n in rc.previous + rc.partial;
    var p := Trunc(db, 40);
    assert forall n :: n in dbs && CopyOf(n, db) ==> (n in gone <==> scope == "" || Trunc(scope, 40) == p);
    assert db !in gone;
    if db !in dbs && (scope == "" || Trunc(scope, 40) == p) {
      var n :| n in dbs && CopyOf(n, db);
      assert n in names && InScope(n, scope);
      assert p !in MissingLive(names, names, scope);
      assert p in LivePrefixes(names);
    }
  }

  /** Two databases with the same first 40 bytes: while one is missing, releasing
      with the other live discards the only copy of it. */
  lemma SharedPrefixLoses(missing: Name, live: Name, sfx: string)
    requires Hex8(sfx) && '\n' !in missing && missing != live && Trunc(missing, 40) == Trunc(live, 40)
    requires LeftoverOf(live).None?
    ensures var copy := OldName(missing, sfx); var names := [live, copy];
      && Survives({live, copy}, missing)
      && CheckRelease(Found(names, "", [], []), false) == None
      && copy in Leftovers(names, "", true) && !Survives({live}, missing)
  {
    hide LeftoverOf, Hex8, OldName, NewName, Leftovers, MissingLive;
    NamesReadBack(missing, sfx);
    var copy := OldName(missing, sfx);
    var names := [live, copy];
    LeftoversAre(names, "", true);
    MissingLiveAre(names, names, "");
    assert live in names && copy in names;
    assert Trunc(live, 40) in LivePrefixes(names);
    forall p ensures p !in MissingLive(names, names, "") {
      assert forall n :: n in names && InScope(n, "") ==> n == copy;
    }
    NoMembers(MissingLive(names, names, ""));
  }

  lemma NoMembers(s: seq<Name>)
    requires forall x :: x !in s
    ensures s == []
  {
    if s != [] {
      FirstIsMember(s);
    }
  }

  lemma FirstIsMember(s: seq<Name>)
    requires s != []
    ensures s[0] in s
  {
  }
}
