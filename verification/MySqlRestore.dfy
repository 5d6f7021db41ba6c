/** The MySQL in-place restore: dry run, safety dump, reload
    (internal/backup/restore.go). Any command may fail, stop part-way, or do its
    work and lose its reply. */
module MySqlRestore {
  import opened Wrappers
  import opened PgSwap
  import opened KeptCopies

  /** What a database holds: a whole known content, what a failed load left of
      one, nothing yet, or a teploy dry run (its marker table proves it). */
  datatype Data<T> = Whole(content: T) | Broken | Empty | DryRun

  /** A safety dump, and whether its restore was marked as finished. */
  datatype Copy<T> = Copy(data: Data<T>, marked: bool)

  datatype Server<T> = Server(dbs: map<Name, Data<T>>, copy: Option<Copy<T>>)

  function CheckName(db: Name): Name { Trunc(db, 40) + "_teploy_check" }

  /** The dry run's name is at most 40 bytes of the database's, and a mark. */
  lemma CheckNameIs(db: Name)
    ensures var n := CheckName(db);
      13 <= |n| <= 53 && n[..|n| - 13] <= db && n[|n| - 13..] == "_teploy_check" && (|db| <= 40 ==> |n| == |db| + 13)
  {
    hide CutAt;
    assert |"_teploy_check"| == 13;
  }

  /** DROP and CREATE in one command, which can stop between the two. */
  datatype RecreateFate = NotRun | DroppedOnly | Recreated(answered: bool)

  /** CREATE DATABASE and its marker table. */
  datatype CreateFate = NotCreated | Unmarked | Created(answered: bool)

  datatype Fates = Fates(
    unpacks: bool, readsState: bool, fits: bool,
    dropLeftover: Fate, create: CreateFate, dryLoads: bool, dropCheck: Fate, pings: bool,
    dumpFits: bool, makesDir: bool, dumps: bool, discards: bool,
    recreate: RecreateFate, load: Fate, mark: Fate,
    recreateAgain: RecreateFate, reload: Fate, discardsLast: bool)

  datatype Outcome = Restored | PlainError | RecoveryIncomplete

  // ---- what must always hold ----

  /** What the live database held is still live, or whole in the safety dump. */
  predicate Conserved<T(==)>(before: map<Name, Data<T>>, s: Server<T>, db: Name) {
    db in before ==> (db in s.dbs && s.dbs[db] == before[db]) || (s.copy.Some? && s.copy.value.data == before[db])
  }

  /** A copy is marked only once the backup is live. */
  predicate MarkedMeansDone<T(==)>(s: Server<T>, db: Name, backup: T) {
    s.copy.Some? && s.copy.value.marked ==> db in s.dbs && s.dbs[db] == Whole(backup)
  }

  /** No other database is touched but the dry run's. */
  predicate OthersKept<T(==)>(before: map<Name, Data<T>>, s: Server<T>, db: Name) {
    forall d :: d in before && d != db && d != CheckName(db) ==> d in s.dbs && s.dbs[d] == before[d]
  }

  predicate Sound<T(==)>(before: map<Name, Data<T>>, s: Server<T>, db: Name, backup: T) {
    Conserved(before, s, db) && MarkedMeansDone(s, db, backup) && OthersKept(before, s, db)
  }

  /** A leftover dry run is teploy's, and goes. */
  predicate LeftoverGoes<T(==)>(dbs: map<Name, Data<T>>, db: Name, f: Fates) {
    CheckName(db) in dbs ==> dbs[CheckName(db)] == DryRun && Succeeds(f.dropLeftover)
  }

  /** The dump passes: no leftover is in its way, and the whole dump loads. */
  predicate DryRunPasses<T(==)>(dbs: map<Name, Data<T>>, db: Name, f: Fates) {
    LeftoverGoes(dbs, db, f) && f.create == Created(true) && f.dryLoads
  }

  /** The restore gets as far as replacing a database that was not there. */
  predicate ReachesReplace<T(==)>(dbs: map<Name, Data<T>>, db: Name, f: Fates) {
    f.unpacks && f.readsState && f.fits && DryRunPasses(dbs, db, f)
  }

  class Engine<T(==)> {
    var dbs: map<Name, Data<T>>
    var copy: Option<Copy<T>>
    ghost var history: seq<Server<T>>   // the server after every command

    function State(): Server<T>
      reads this
    {
      Server(dbs, copy)
    }

    constructor (dbs: map<Name, Data<T>>)
      ensures this.dbs == dbs && copy == None && history == []
    {
      this.dbs := dbs;
      copy := None;
      history := [];
    }

    method SetDbs(to: map<Name, Data<T>>)
      modifies this
      ensures dbs == to && copy == old(copy) && history == old(history) + [State()]
    {
      dbs := to;
      history := history + [State()];
    }

    method SetCopy(to: Option<Copy<T>>)
      modifies this
      ensures copy == to && dbs == old(dbs) && history == old(history) + [State()]
    {
      copy := to;
      history := history + [State()];
    }

    /** DROP DATABASE IF EXISTS; CREATE DATABASE. */
    method Recreate(db: Name, f: RecreateFate) returns (ok: bool)
      modifies this
      ensures copy == old(copy) && ok == (f == Recreated(true))
      ensures dbs ==
        match f case NotRun => old(dbs) case DroppedOnly => old(dbs) - {db} case Recreated(_) => old(dbs)[db := Empty]
      ensures history == old(history) + [State()]
    {
      SetDbs(match f case NotRun => dbs case DroppedOnly => dbs - {db} case Recreated(_) => dbs[db := Empty]);
      ok := f == Recreated(true);
    }

    /** Loads a dump into a database just created. */
    method Load(db: Name, content: Data<T>, f: Fate) returns (ok: bool)
      modifies this
      ensures copy == old(copy) && ok == Succeeds(f)
      ensures dbs == old(dbs)[db := if f.runs then content else Broken]
      ensures history == old(history) + [State()]
    {
      SetDbs(dbs[db := if f.runs then content else Broken]);
      ok := Succeeds(f);
    }

    /** The dry run: the server accepts the whole dump before anything live is
        touched. None when it does, else what the failure means. */
    method DryRunFirst(db: Name, f: Fates) returns (failure: Option<Outcome>)
      requires CheckName(db) != db
      modifies this
      ensures copy == old(copy) && old(history) <= history
      ensures dbs - {CheckName(db)} == old(dbs) - {CheckName(db)}
      ensures forall h ::
        h in history[|old(history)|..] ==> h.copy == copy && h.dbs - {CheckName(db)} == old(dbs) - {CheckName(db)}
      ensures failure.Some? ==> failure.value == PlainError || failure.value == RecoveryIncomplete
      ensures failure == Some(PlainError) && CheckName(db) in old(dbs) && old(dbs)[CheckName(db)] != DryRun ==>
        dbs == old(dbs)
      ensures failure == None <==> DryRunPasses(old(dbs), db, f)
      ensures failure == Some(RecoveryIncomplete) <==>
        LeftoverGoes(old(dbs), db, f) && !(f.create == Created(true) && f.dryLoads) && !f.pings
      ensures failure == None ==> (CheckName(db) in dbs <==> !f.dropCheck.runs)
    {
      var check := CheckName(db);
      if check in dbs {
        if dbs[check] != DryRun {
          return Some(PlainError);
        }
        if f.dropLeftover.runs {
          SetDbs(dbs - {check});
        }
        if !Succeeds(f.dropLeftover) {
          return Some(PlainError);
        }
      }
      match f.create {
        case NotCreated =>
        case Unmarked => SetDbs(dbs[check := Empty]);
        case Created(_) => SetDbs(dbs[check := DryRun]);
      }
      var created := f.create == Created(true);
      if created && f.dropCheck.runs {
        SetDbs(dbs - {check});
      }
      if !created || !f.dryLoads {
        return Some(if f.pings then PlainError else RecoveryIncomplete);
      }
      failure := None;
    }

    /** The dump of the live database, made whole or not kept at all. */
    method SafetyDump(db: Name, f: Fates) returns (ok: bool)
      requires db in dbs && copy == None
      modifies this
      ensures dbs == old(dbs) && old(history) <= history
      ensures ok <==> f.dumpFits && f.makesDir && f.dumps
      ensures copy == if ok then Some(Copy(dbs[db], false))
        else if f.dumpFits && f.makesDir && !f.discards then Some(Copy(Broken, false)) else None
      ensures forall h :: h in history[|old(history)|..] ==> h.dbs == dbs && (h.copy.Some? ==> !h.copy.value.marked)
    {
      if !f.dumpFits || !f.makesDir {
        return false;
      }
      SetCopy(Some(Copy(if f.dumps then dbs[db] else Broken, false)));
      if !f.dumps && f.discards {
        SetCopy(None);
      }
      ok := f.dumps;
    }

    /** Drops and reloads the live database under the protection of the dump. */
    method Replace(db: Name, backup: T, f: Fates) returns (outcome: Outcome)
      requires copy.Some? ==> db in dbs && copy == Some(Copy(dbs[db], false))
      requires copy.None? ==> db !in dbs
      modifies this
      ensures old(history) <= history
      ensures forall h :: h in history[|old(history)|..] ==> Sound(old(dbs), h, db, backup)
      ensures Sound(old(dbs), State(), db, backup)
      ensures outcome == Restored ==> db in dbs && dbs[db] == Whole(backup)
      ensures outcome == Restored && old(copy).Some? ==>
        copy.Some? && copy.value.data == old(dbs)[db] && copy.value.marked == f.mark.runs
      ensures outcome == PlainError && db in old(dbs) ==> db in dbs && dbs[db] == old(dbs)[db]
      ensures outcome == PlainError && db !in old(dbs) ==> (db in dbs <==> f.recreate.Recreated?)
      ensures outcome == PlainError && db !in old(dbs) && f.recreate == Recreated(true) && !f.load.runs ==>
        dbs[db] == Broken
      ensures outcome == RecoveryIncomplete ==> db in old(dbs) && copy == Some(Copy(old(dbs)[db], false))
      ensures outcome == Restored <==> f.recreate == Recreated(true) && Succeeds(f.load)
      ensures outcome == RecoveryIncomplete <==>
        && db in old(dbs) && !(f.recreate == Recreated(true) && Succeeds(f.load))
        && !(f.recreateAgain == Recreated(true) && Succeeds(f.reload))
    {
      ghost var before, n := dbs, |history|;
      var loaded := false;
      var recreated := Recreate(db, f.recreate);
      assert Sound(before, State(), db, backup);
      if recreated {
        loaded := Load(db, Whole(backup), f.load);
        assert Sound(before, State(), db, backup);
      }
      if loaded {
        if copy.Some? && f.mark.runs {
          SetCopy(Some(copy.value.(marked := true)));
        }
        return Restored;
      }
      if copy.None? {
        return PlainError;
      }
      outcome := ReloadSafety(db, backup, before, f);
    }

    method ReloadSafety(db: Name, backup: T, ghost before: map<Name, Data<T>>, f: Fates) returns (outcome: Outcome)
      requires db in before && copy == Some(Copy(before[db], false)) && OthersKept(before, State(), db)
      modifies this
      ensures old(history) <= history
      ensures forall h :: h in history[|old(history)|..] ==> Sound(before, h, db, backup)
      ensures Sound(before, State(), db, backup)
      ensures outcome == PlainError ==> db in dbs && dbs[db] == before[db]
      ensures outcome == RecoveryIncomplete ==> copy == Some(Copy(before[db], false))
      ensures outcome == if f.recreateAgain == Recreated(true) && Succeeds(f.reload) then PlainError
        else RecoveryIncomplete
    {
      var again := Recreate(db, f.recreateAgain);
      assert Sound(before, State(), db, backup);
      if !again {
        return RecoveryIncomplete;
      }
      var reloaded := Load(db, copy.value.data, f.reload);
      assert Sound(before, State(), db, backup);
      if !reloaded {
        return RecoveryIncomplete;
      }
      if f.discardsLast {
        SetCopy(None);
      }
      outcome := PlainError;
    }

    /** The restore. After every command, wherever it is killed, what the live
        database held is live or whole in an unmarked dump; a plain error means
        it is live; only when there was no database before can a plain error
        leave one, broken. It succeeds exactly when the artifact, the server and the
        space are in order, a leftover dry run is teploy's and goes, the whole dump
        loads into a dry run, the live database, if there is one, is dumped, and it is
        recreated and loaded. Recovery is incomplete exactly when the server does not
        answer after a dry run that did not pass, or the load and the reload of the
        dump both fail. */
    method RestoreInPlace(db: Name, backup: T, f: Fates) returns (outcome: Outcome)
      requires copy == None && CheckName(db) != db
      modifies this
      ensures old(history) <= history
      ensures forall h :: h in history[|old(history)|..] ==> Sound(old(dbs), h, db, backup)
      ensures Sound(old(dbs), State(), db, backup)
      ensures var ready := f.unpacks && f.readsState && f.fits;
        var leftover := CheckName(db) in old(dbs) ==>
          old(dbs)[CheckName(db)] == DryRun && f.dropLeftover.runs && f.dropLeftover.answered;
        var passes := f.create == Created(true) && f.dryLoads;
        var dumped := db in old(dbs) ==> f.dumpFits && f.makesDir && f.dumps;
        var loaded := f.recreate == Recreated(true) && f.load.runs && f.load.answered;
        var reloaded := f.recreateAgain == Recreated(true) && f.reload.runs && f.reload.answered;
        && (outcome == Restored <==> ready && leftover && passes && dumped && loaded)
        && (outcome == RecoveryIncomplete <==>
            ready && leftover &&
            if !passes then !f.pings else db in old(dbs) && dumped && !loaded && !reloaded)
      ensures outcome == Restored ==> db in dbs && dbs[db] == Whole(backup)
      ensures outcome == Restored && db in old(dbs) ==> copy.Some? && copy.value.data == old(dbs)[db]
      ensures outcome == PlainError && db in old(dbs) ==> db in dbs && dbs[db] == old(dbs)[db]
      ensures outcome == PlainError && db !in old(dbs) ==>
        (db in dbs <==> ReachesReplace(old(dbs), db, f) && f.recreate.Recreated?)
      ensures outcome == PlainError && db !in old(dbs) && db in dbs ==> !(f.recreate.answered && Succeeds(f.load))
      ensures db !in old(dbs) && ReachesReplace(old(dbs), db, f) && f.recreate == Recreated(true) && !f.load.runs ==>
        outcome == PlainError && db in dbs && dbs[db] == Broken
      ensures outcome == RecoveryIncomplete && db in old(dbs) ==> !f.pings || copy == Some(Copy(old(dbs)[db], false))
    {
      ghost var before, n := dbs, |history|;
      if !f.unpacks || !f.readsState || !f.fits {
        return PlainError;
      }
      var failure := DryRunFirst(db, f);
      KeptWithout(before, dbs, db);
      forall h | h in history[n..] ensures Sound(before, h, db, backup) {
        KeptWithout(before, h.dbs, db);
      }
      if failure.Some? {
        return failure.value;
      }
      ghost var dry := history;
      ghost var m := |history|;
      if db in dbs {
        var dumped := SafetyDump(db, f);
        assert history[n..] == dry[n..] + history[m..];
        if !dumped {
          return PlainError;
        }
      }
      ghost var dumped, k, mid := history, |history|, dbs;
      outcome := Replace(db, backup, f);
      assert history[n..] == dumped[n..] + history[k..];
      forall h | h in history[k..] ensures Sound(before, h, db, backup) {
        assert Sound(mid, h, db, backup);
      }
    }
  }

  /** A change of the dry-run database alone. */
  lemma KeptWithout<T>(before: map<Name, Data<T>>, after: map<Name, Data<T>>, db: Name)
    requires CheckName(db) != db && after - {CheckName(db)} == before - {CheckName(db)}
    ensures forall d :: d != CheckName(db) ==> (d in after <==> d in before) && (d in before ==> after[d] == before[d])
  {
    forall d | d != CheckName(db) ensures (d in after <==> d in before) && (d in before ==> after[d] == before[d]) {
      assert d in after <==> d in after - {CheckName(db)};
      assert d in before <==> d in before - {CheckName(db)};
      assert d in before ==> (before - {CheckName(db)})[d] == (after - {CheckName(db)})[d];
    }
  }

  /** The copies whose restore never recorded finishing. */
  function Unconfirmed<T>(copies: seq<(string, Copy<T>)>): seq<string> {
    if copies == [] then []
    else Unconfirmed(copies[..|copies| - 1]) + if copies[|copies| - 1].1.marked then [] else [copies[|copies| - 1].0]
  }

  lemma {:induction false} UnmarkedIsUnconfirmed<T>(copies: seq<(string, Copy<T>)>)
    ensures forall x :: x in Unconfirmed(copies) <==>
      exists i :: 0 <= i < |copies| && copies[i].0 == x && !copies[i].1.marked
  {
    if copies != [] {
      var front := copies[..|copies| - 1];
      UnmarkedIsUnconfirmed(front);
      assert forall i :: 0 <= i < |front| ==> front[i] == copies[i];
    }
  }

  /** Wherever a restore was killed, if the live database holds neither what it
      did nor the backup, its dump is whole and unmarked, and release without
      force refuses to discard it. */
  lemma OnlyCopyIsNotReleased<T>(before: map<Name, Data<T>>, s: Server<T>, db: Name, backup: T,
                                 copies: seq<(string, Copy<T>)>, i: nat,
                                 missing: seq<Name>, previous: seq<Name>, partial: seq<Name>, paths: seq<string>)
    requires Sound(before, s, db, backup) && db in before
    requires !(db in s.dbs && (s.dbs[db] == before[db] || s.dbs[db] == Whole(backup)))
    requires i < |copies| && s.copy == Some(copies[i].1)
    ensures copies[i].1.data == before[db]
    ensures CheckRelease(RecoveryCopies(previous, partial, missing, Unconfirmed(copies), paths), false).Some?
  {
    UnmarkedIsUnconfirmed(copies);
    assert copies[i].0 in Unconfirmed(copies);
  }
}
