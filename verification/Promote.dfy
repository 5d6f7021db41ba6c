/** Promoting a staged directory over a live one (internal/backup/backup.go). Any
    command may stop after part of its work, and any reply may be an error. */
module Promote {
  import opened Wrappers

  /** A directory: its top-level entries and what they hold. */
  type Dir<T> = map<string, T>

  /** A command that handles the entries one by one: which it got to, and whether
      it reported success, which it does only after all of them. */
  datatype MoveFate = MoveFate(moved: set<string>, ok: bool)

  /** A copy or a delete: what it leaves in the directory if it stops early. */
  datatype FillFate<T> = FillFate(left: Dir<T>, ok: bool)

  datatype Fates<T> = Fates(
    prepared: bool, madeRecovery: bool,
    aside: MoveFate, asideBack: MoveFate,
    copy: FillFate<T>, clear: FillFate<T>, back: MoveFate)

  datatype Outcome = Promoted | PlainError | RecoveryIncomplete

  /** The part of a directory a move gets to. */
  function Part<T>(d: Dir<T>, f: MoveFate): Dir<T> {
    map k | k in d && (f.ok || k in f.moved) :: d[k]
  }

  /** Every original is in the recovery directory, or else still live, as it was. */
  predicate Conserved<T(==)>(originals: Dir<T>, live: Dir<T>, recovery: Dir<T>) {
    && recovery.Keys <= originals.Keys
    && forall k :: k in originals ==>
         if k in recovery then recovery[k] == originals[k] else k in live && live[k] == originals[k]
  }

  /** What an undo that failed leaves in the recovery directory. */
  function LeftInRecovery<T>(originals: Dir<T>, f: Fates<T>): Dir<T> {
    if !f.aside.ok then
      var moved := Part(originals, f.aside);
      moved - Part(moved, f.asideBack).Keys
    else if !f.clear.ok then originals
    else originals - Part(originals, f.back).Keys
  }

  /** Does a run end with neither the staged tree nor the originals in place? */
  predicate UndoFails<T>(f: Fates<T>) {
    f.prepared && f.madeRecovery && if f.aside.ok then !f.copy.ok && !(f.clear.ok && f.back.ok) else !f.asideBack.ok
  }

  class Dirs<T(==,0)> {
    var live: Dir<T>
    var recovery: Dir<T>
    var recoveryExists: bool
    var staged: Dir<T>
    var archive: bool
    ghost var history: seq<(Dir<T>, Dir<T>)>   // live and recovery after every command

    constructor (live: Dir<T>)
      ensures this.live == live && recovery == map[] && !recoveryExists && history == []
    {
      this.live := live;
      recovery := map[];
      recoveryExists := false;
      staged := map[];
      archive := true;
      history := [];
    }

    ghost method Note()
      modifies this`history
      ensures history == old(history) + [(live, recovery)]
    {
      history := history + [(live, recovery)];
    }

    /** find live -exec mv -t recovery */
    method MoveAside(f: MoveFate) returns (ok: bool)
      modifies this`live, this`recovery, this`history
      ensures ok == f.ok
      ensures live == old(live) - Part(old(live), f).Keys && recovery == old(recovery) + Part(old(live), f)
      ensures history == old(history) + [(live, recovery)]
    {
      var part := Part(live, f);
      live, recovery := live - part.Keys, recovery + part;
      Note();
      ok := f.ok;
    }

    /** find recovery -exec mv -t live */
    method MoveBack(f: MoveFate) returns (ok: bool)
      modifies this`live, this`recovery, this`history
      ensures ok == f.ok
      ensures recovery == old(recovery) - Part(old(recovery), f).Keys && live == old(live) + Part(old(recovery), f)
      ensures history == old(history) + [(live, recovery)]
    {
      var part := Part(recovery, f);
      live, recovery := live + part, recovery - part.Keys;
      Note();
      ok := f.ok;
    }

    /** cp -a staged/. live/ */
    method CopyIn(f: FillFate<T>) returns (ok: bool)
      modifies this`live, this`history
      ensures ok == f.ok && live == old(live) + if f.ok then staged else f.left
      ensures history == old(history) + [(live, recovery)]
    {
      live := live + if f.ok then staged else f.left;
      Note();
      ok := f.ok;
    }

    /** find live -delete: it may be run only when no original is live. */
    method ClearLive(f: FillFate<T>, ghost originals: Dir<T>) returns (ok: bool)
      requires recovery == originals
      modifies this`live, this`history
      ensures ok == f.ok && live == if f.ok then map[] else f.left
      ensures history == old(history) + [(live, recovery)]
    {
      live := if f.ok then map[] else f.left;
      Note();
      ok := f.ok;
    }

    /** rm -rf recovery: it may be run only when the directory is empty. */
    method DropRecovery(removed: bool)
      requires recovery == map[]
      modifies this`recoveryExists
      ensures recoveryExists == (old(recoveryExists) && !removed)
    {
      if removed {
        recoveryExists := false;
      }
    }

    /** After a move aside that reported failure: what was moved goes back, and
        nothing that is still live is touched. */
    method UndoAside(f: Fates<T>, dropped: bool, ghost originals: Dir<T>) returns (outcome: Outcome)
      requires Conserved(originals, live, recovery) && live.Keys <= originals.Keys && live.Keys !! recovery.Keys &&
        recoveryExists
      modifies this`live, this`recovery, this`recoveryExists, this`history
      ensures outcome == PlainError ==> live == originals && recovery == map[]
      ensures outcome == PlainError || (outcome == RecoveryIncomplete && recoveryExists)
      ensures outcome == RecoveryIncomplete <==> !f.asideBack.ok
      ensures recovery == old(recovery) - Part(old(recovery), f.asideBack).Keys
      ensures Conserved(originals, live, recovery)
      ensures history == old(history) + [(live, recovery)]
    {
      MoveBackConserves(originals, live, recovery, f.asideBack);
      var restored := MoveBack(f.asideBack);
      if !restored {
        return RecoveryIncomplete;
      }
      assert live == originals && recovery == map[];
      DropRecovery(dropped);
      outcome := PlainError;
    }

    /** After a copy that reported failure: every original is in the recovery
        directory, so the partial copy may be cleared before they go back. */
    method UndoCopy(f: Fates<T>, dropped: bool, ghost originals: Dir<T>) returns (outcome: Outcome)
      requires recovery == originals && recoveryExists
      modifies this`live, this`recovery, this`recoveryExists, this`history
      ensures outcome == PlainError ==> live == originals && recovery == map[]
      ensures outcome == PlainError || (outcome == RecoveryIncomplete && recoveryExists)
      ensures outcome == RecoveryIncomplete <==> !f.clear.ok || !f.back.ok
      ensures recovery == if f.clear.ok then originals - Part(originals, f.back).Keys else originals
      ensures Conserved(originals, live, recovery)
      ensures old(history) <= history
      ensures forall h :: h in history[|old(history)|..] ==> Conserved(originals, h.0, h.1)
    {
      var cleared := ClearLive(f.clear, originals);
      assert Conserved(originals, live, recovery);
      if !cleared {
        return RecoveryIncomplete;
      }
      MoveBackConserves(originals, live, recovery, f.back);
      var restored := MoveBack(f.back);
      if !restored {
        return RecoveryIncomplete;
      }
      assert live == originals && recovery == map[];
      DropRecovery(dropped);
      outcome := PlainError;
    }

    /** Success leaves the staged tree live and the originals in the recovery
        directory; a plain error leaves the originals live; and after every
        command, part done or whole, each original is in exactly one place. */
    method PromoteStaged(f: Fates<T>, dropped: bool) returns (outcome: Outcome)
      requires recovery == map[] && !recoveryExists
      modifies this`live, this`recovery, this`recoveryExists, this`history
      ensures outcome == Promoted ==> live == staged && recovery == old(live) && recoveryExists
      ensures outcome == PlainError ==> live == old(live) && recovery == map[]
      ensures outcome == RecoveryIncomplete ==> recoveryExists && recovery == LeftInRecovery(old(live), f)
      ensures outcome == RecoveryIncomplete <==>
        && f.prepared && f.madeRecovery
        && if f.aside.ok then !f.copy.ok && !(f.clear.ok && f.back.ok) else !f.asideBack.ok
      ensures Conserved(old(live), live, recovery)
      ensures old(history) <= history
      ensures forall h :: h in history[|old(history)|..] ==> Conserved(old(live), h.0, h.1)
      ensures outcome == Promoted <==> f.prepared && f.madeRecovery && f.aside.ok && f.copy.ok
    {
      if !f.prepared || !f.madeRecovery {
        return PlainError;
      }
      recoveryExists := true;
      ghost var originals := live;
      MoveAsideConserves(originals, live, recovery, f.aside);
      var moved := MoveAside(f.aside);
      if !moved {
        outcome := UndoAside(f, dropped, originals);
        return;
      }
      assert live == map[] && recovery == originals;
      var copied := CopyIn(f.copy);
      assert Conserved(originals, live, recovery);
      if !copied {
        outcome := UndoCopy(f, dropped, originals);
        return;
      }
      assert live == staged;
      outcome := Promoted;
    }

    /** Extraction into a fresh staging directory, then promotion. The staged tree
        and the archive are kept exactly when the error says recovery is
        incomplete (their removal may fail). */
    method ExtractThenPromote(tree: Dir<T>, extracts: FillFate<T>, prepare: Option<Dir<T>>, f: Fates<T>,
                              dropped: bool, cleaned: bool)
      returns (outcome: Outcome)
      requires recovery == map[] && !recoveryExists && archive
      modifies this
      ensures outcome == Promoted ==> extracts.ok && prepare.Some? && live == prepare.value && recovery == old(live)
      ensures outcome == PlainError ==> live == old(live) && recovery == map[]
      ensures outcome == RecoveryIncomplete ==> archive && prepare.Some? && staged == prepare.value && recoveryExists
      ensures outcome == RecoveryIncomplete ==> recovery == LeftInRecovery(old(live), f)
      ensures outcome != RecoveryIncomplete && cleaned ==> !archive && staged == map[]
      ensures Conserved(old(live), live, recovery)
    {
      staged := if extracts.ok then tree else extracts.left;
      if !extracts.ok {
        Cleanup(cleaned);
        return PlainError;
      }
      if prepare.None? {
        Cleanup(cleaned);
        return PlainError;
      }
      staged := prepare.value;
      outcome := PromoteStaged(f, dropped);
      if outcome != RecoveryIncomplete {
        Cleanup(cleaned);
      }
    }

    method Cleanup(cleaned: bool)
      modifies this`staged, this`archive
      ensures cleaned ==> staged == map[] && !archive
      ensures !cleaned ==> staged == old(staged) && archive == old(archive)
    {
      if cleaned {
        staged, archive := map[], false;
      }
    }
  }

  // ---- killed in the middle of a command ----

  /** Wherever a move aside stops, the originals are conserved. */
  lemma MoveAsideConserves<T>(originals: Dir<T>, live: Dir<T>, recovery: Dir<T>, f: MoveFate)
    requires Conserved(originals, live, recovery) && live.Keys !! recovery.Keys && live.Keys <= originals.Keys
    ensures Conserved(originals, live - Part(live, f).Keys, recovery + Part(live, f))
  {
  }

  /** Wherever a move back stops, even over a partly copied tree. */
  lemma MoveBackConserves<T>(originals: Dir<T>, live: Dir<T>, recovery: Dir<T>, f: MoveFate)
    requires Conserved(originals, live, recovery)
    ensures Conserved(originals, live + Part(recovery, f), recovery - Part(recovery, f).Keys)
  {
  }

  /** Clearing the live directory is safe, wherever the delete stops and whatever
      it leaves, exactly when every original is in the recovery directory. */
  lemma ClearingIsSafeIff<T(!new)>(originals: Dir<T>, live: Dir<T>, recovery: Dir<T>)
    requires Conserved(originals, live, recovery)
    ensures (forall f: FillFate<T> :: Conserved(originals, if f.ok then map[] else f.left, recovery)) <==>
      recovery == originals
  {
    if forall f: FillFate<T> :: Conserved(originals, if f.ok then map[] else f.left, recovery) {
      var whole := FillFate(map[], true);
      assert Conserved(originals, if whole.ok then map[] else whole.left, recovery);
      assert forall k :: k in originals ==> k in recovery;
      assert recovery.Keys == originals.Keys;
    }
  }

  /** When an undo has failed, the recovery directory, which the error names, holds
      all the originals exactly when the undo moved none of them back, and the
      move aside had moved them all; otherwise they are split between the two. */
  lemma RecoveryIsWholeIff<T>(originals: Dir<T>, f: Fates<T>)
    requires UndoFails(f)
    ensures LeftInRecovery(originals, f) == originals <==>
      if !f.aside.ok then originals.Keys <= f.aside.moved && originals.Keys !! f.asideBack.moved
      else !f.clear.ok || originals.Keys !! f.back.moved
  {
    var left := LeftInRecovery(originals, f);
    assert left == originals <==> left.Keys == originals.Keys;
    if f.aside.ok && f.clear.ok {
      assert left.Keys == originals.Keys - f.back.moved;
    } else if !f.aside.ok {
      assert left.Keys == (originals.Keys * f.aside.moved) - f.asideBack.moved;
    }
  }

  /** Of any two originals, a run can end with one live and the other not. */
  lemma RollbackCanSplit<T>(originals: Dir<T>, a: string, b: string) returns (f: Fates<T>)
    requires a in originals && b in originals && a != b
    ensures UndoFails(f) && a !in LeftInRecovery(originals, f) && b in LeftInRecovery(originals, f)
  {
    f := Fates(true, true, MoveFate({b}, false), MoveFate({}, false), FillFate(map[], false), FillFate(map[], false),
      MoveFate({}, false));
  }
}
