/** One edit of the Caddyfile as the client runs it (internal/caddy/caddy.go),
    between the remote commands of any other editors. */
module CaddyMutate {
  import opened Wrappers
  import opened CaddyLock

  const LOCK_WAIT_TRIES := 60
  const AFTER_LOCK := 2 * LOCK_WAIT_TRIES

  /** A step not taken by this editor. */
  predicate Foreign<C>(i: nat, e: Event<C>) {
    e.RemoveToken? || e.RemoveLock? || e.editor != i
  }

  /** The writes of one editor. */
  function WritesOf<C>(writes: seq<Write<C>>, i: nat): seq<Write<C>> {
    if writes == [] then []
    else WritesOf(writes[..|writes| - 1], i) + if writes[|writes| - 1].editor == i then [writes[|writes| - 1]] else []
  }

  lemma WritesOfSnoc<C>(writes: seq<Write<C>>, e: Write<C>, i: nat)
    ensures WritesOf(writes + [e], i) == WritesOf(writes, i) + if e.editor == i then [e] else []
  {
    assert (writes + [e])[..|writes|] == writes;
  }

  lemma ForeignStep<C>(rules: Rules<C>, w: World<C>, e: Event<C>, i: nat)
    requires Foreign(i, e)
    ensures var v := Step(rules, w, e); v.At(i) == w.At(i) && WritesOf(v.writes, i) == WritesOf(w.writes, i)
  {
    hide WritesOf;
    var v := Step(rules, w, e);
    if v.writes != w.writes {
      WritesOfSnoc(w.writes, v.writes[|w.writes|], i);
    }
  }

  /** How the commands of one edit answer. */
  datatype Fate = Fate(
    mkdirAnswers: nat -> bool, holderStale: nat -> bool,
    tokenWritten: bool, tokenDirRemoved: bool, readAnswers: bool,
    adapts: bool, staged: bool, commitArrives: bool, commitAnswers: bool,
    reloads: bool, delivered: bool, rollbackArrives: bool, rollbackAnswers: bool)

  datatype Outcome = LockTimeout | TokenFailed | ReadFailed | TransformFailed | Unchanged | Rejected
    | CommitFailed | Done | RolledBack | RollbackFailed

  /** Nobody else does anything. */
  ghost predicate Quiet<C(!new)>(others: nat -> seq<Event<C>>) { forall k: nat :: others(k) == [] }

  ghost predicate Permits<C(!new)>(r: Rules<C>, i: nat, transform: C -> Option<C>) {
    forall prev :: transform(prev).Some? ==> r.allowed(i, prev, transform(prev).value)
  }

  class Server<C(==,!new)> {
    var world: World<C>
    ghost var rules: Rules<C>
    ghost var start: C
    ghost var history: seq<Event<C>>

    /** The server is where some run of single steps has brought it. */
    ghost predicate Valid()
      reads this
    {
      world == Run(rules, Start(start), history)
    }

    constructor (file: C, ghost rules: Rules<C>)
      ensures Valid() && world == Start(file) && this.rules == rules && start == file
    {
      world := Start(file);
      this.rules := rules;
      start := file;
      history := [];
    }

    method Do(r: Rules<C>, e: Event<C>)
      requires Valid() && r == rules
      modifies this`world, this`history
      ensures Valid() && world == Step(r, old(world), e) && history == old(history) + [e]
    {
      assert (history + [e])[..|history|] == history;
      world := Step(r, world, e);
      history := history + [e];
    }

    /** What the others do between two of this editor's commands. */
    method Others(r: Rules<C>, i: nat, es: seq<Event<C>>)
      requires Valid() && r == rules && forall e :: e in es ==> Foreign(i, e)
      modifies this`world, this`history
      ensures Valid() && history == old(history) + es
      ensures world.At(i) == old(world).At(i) && WritesOf(world.writes, i) == WritesOf(old(world).writes, i)
      ensures es == [] ==> world == old(world)
    {
      hide Run, WritesOf, Step, Foreign;
      for n := 0 to |es|
        invariant n == 0 ==> world == old(world)
        invariant Valid() && history == old(history) + es[..n]
        invariant world.At(i) == old(world).At(i) && WritesOf(world.writes, i) == WritesOf(old(world).writes, i)
      {
        ForeignStep(r, world, es[n], i);
        Do(r, es[n]);
        assert es[..n + 1] == es[..n] + [es[n]];
      }
      assert es[..|es|] == es;
    }

    /** What acquiring does to a lock directory found in the way. */
    method TryLock(r: Rules<C>, i: nat, answers: bool) returns (locked: bool)
      requires Valid() && r == rules && world.At(i) == Fresh
      modifies this`world, this`history
      ensures Valid() && history == old(history) + [Mkdir(i, answers)]
      ensures world.writes == old(world).writes
      ensures world.At(i) == if locked then Locked else Fresh
      ensures locked <==> old(world).lock == Absent && answers
      ensures world.file == old(world).file
    {
      hide Run;
      Do(r, Mkdir(i, answers));
      locked := world.At(i) == Locked;
    }

    method WriteInfo(r: Rules<C>, i: nat, fate: Fate) returns (ok: bool)
      requires Valid() && r == rules && world.At(i) == Locked
      modifies this`world, this`history
      ensures Valid() && old(history) <= history && world.writes == old(world).writes
      ensures (ok <==> fate.tokenWritten) && (ok ==> world.At(i) == Named && world.HeldBy(i))
      ensures world.file == old(world).file
    {
      hide Run;
      if fate.tokenWritten {
        Do(r, WriteToken(i));
        return true;
      }
      Do(r, GiveUpToken(i, fate.tokenDirRemoved));
      return false;
    }

    method AcquireLock(r: Rules<C>, i: nat, fate: Fate, others: nat -> seq<Event<C>>) returns (failure: Option<Outcome>)
      requires Valid() && r == rules && world.At(i) == Fresh
      requires forall k, e :: e in others(k) ==> Foreign(i, e)
      modifies this`world, this`history
      ensures Valid() && old(history) <= history
      ensures WritesOf(world.writes, i) == WritesOf(old(world).writes, i)
      ensures failure == None ==> world.At(i) == Named && fate.tokenWritten
      ensures failure.Some? ==> failure.value in {LockTimeout, TokenFailed}
      ensures failure == Some(TokenFailed) ==> !fate.tokenWritten
      ensures Quiet(others) && old(world).lock == Absent && fate.mkdirAnswers(0) ==>
        && failure == (if fate.tokenWritten then None else Some(TokenFailed))
        && world.file == old(world).file && (fate.tokenWritten ==> world.HeldBy(i))
    {
      hide Run, WritesOf, Step;
      for n := 0 to LOCK_WAIT_TRIES
        invariant n == 0 ==> world == old(world)
        invariant Quiet(others) && old(world).lock == Absent && fate.mkdirAnswers(0) ==> n == 0
        invariant Valid() && old(history) <= history && world.At(i) == Fresh
        invariant WritesOf(world.writes, i) == WritesOf(old(world).writes, i)
      {
        Others(r, i, others(2 * n));
        var locked := TryLock(r, i, fate.mkdirAnswers(n));
        Others(r, i, others(2 * n + 1));
        if locked {
          var ok := WriteInfo(r, i, fate);
          return if ok then None else Some(TokenFailed);
        }
        if fate.holderStale(n) {
          Others(r, i, [RemoveLock]);
        }
      }
      return Some(LockTimeout);
    }

    /** A truthful answer: what the outcome says of this editor's writes. */
    ghost predicate Tells(i: nat, outcome: Outcome)
      reads this
    {
      var mine := WritesOf(world.writes, i);
      match outcome
      case Done => |mine| == 1 && mine[0].Commit?
      case RolledBack => |mine| == 2 && mine[0].Commit? && mine[1].Rollback?
      case RollbackFailed => 1 <= |mine| <= 2 && mine[0].Commit?
      case CommitFailed => |mine| <= 1
      case _ => mine == []
    }

    /** The whole edit. Whatever the others do, the lock it took is released, and the
        outcome tells the truth about its writes. When they do nothing and the lock is
        free, every outcome has exactly its cause, and the file ends as it says. */
    method MutateWithCAS(r: Rules<C>, i: nat, transform: C -> Option<C>, fate: Fate, others: nat -> seq<Event<C>>)
      returns (outcome: Outcome)
      requires Valid() && r == rules && world.At(i) == Fresh && WritesOf(world.writes, i) == []
      requires forall k, e :: e in others(k) ==> Foreign(i, e)
      requires Permits(r, i, transform)
      modifies this`world, this`history
      ensures Valid() && old(history) <= history
      ensures Tells(i, outcome)
      ensures outcome !in {LockTimeout, TokenFailed} ==>
        !world.HeldBy(i) && |history| > 0 && history[|history| - 1] == Release(i)
      ensures Quiet(others) && old(world).lock == Absent && fate.mkdirAnswers(0) ==>
        && (outcome == TokenFailed <==> !fate.tokenWritten)
        && (fate.tokenWritten ==> EndsAs(r, i, transform, fate, old(world).file, outcome))
    {
      hide Run, WritesOf;
      var failure := AcquireLock(r, i, fate, others);
      if failure.Some? {
        return failure.value;
      }
      outcome := EditLocked(r, i, transform, fate, others);
      Others(r, i, others(AFTER_LOCK + 4));
      Do(r, Release(i));
    }

    /** How an edit that nobody disturbs ends, by what was in the file. */
    ghost predicate EndsAs(r: Rules<C>, i: nat, transform: C -> Option<C>, fate: Fate, file: C, outcome: Outcome)
      reads this
    {
      var prev := r.view(file);
      var updated := transform(prev);
      var changes := fate.readAnswers && updated.Some? && updated.value != prev;
      var lands := changes && fate.adapts && fate.staged && fate.commitArrives && r.cas(i, file);
      var fails := lands && fate.commitAnswers && !(fate.reloads && fate.delivered);
      && (outcome == ReadFailed <==> !fate.readAnswers)
      && (outcome == TransformFailed <==> fate.readAnswers && updated.None?)
      && (outcome == Unchanged <==> fate.readAnswers && updated == Some(prev))
      && (outcome == Rejected <==> changes && !(fate.adapts && fate.staged))
      && (outcome == CommitFailed <==> changes && fate.adapts && fate.staged && !(lands && fate.commitAnswers))
      && (outcome == Done <==> lands && fate.commitAnswers && fate.reloads && fate.delivered)
      && (outcome == RolledBack <==> fails && fate.rollbackArrives && fate.rollbackAnswers)
      && (outcome == RollbackFailed <==> fails && !(fate.rollbackArrives && fate.rollbackAnswers))
      && world.file == if !lands then file else if fails && fate.rollbackArrives then prev else updated.value
    }

    method ReadFile(r: Rules<C>, i: nat) returns (prev: C)
      requires Valid() && r == rules && world.At(i) == Named
      modifies this`world, this`history
      ensures Valid() && old(history) <= history && world.writes == old(world).writes
      ensures prev == r.view(old(world).file) && world.At(i) == HasRead(prev)
      ensures world.file == old(world).file && world.lock == old(world).lock
    {
      hide Run;
      Do(r, Read(i));
      prev := world.At(i).prev;
    }

    method SendCommit(r: Rules<C>, i: nat, updated: C)
      requires Valid() && r == rules && world.At(i).HasRead?
      requires updated != world.At(i).prev && r.allowed(i, world.At(i).prev, updated)
      modifies this`world, this`history
      ensures Valid() && old(history) <= history && world.writes == old(world).writes
      ensures world.At(i) == Sent(old(world).At(i).prev, updated)
      ensures world.file == old(world).file && world.lock == old(world).lock
    {
      hide Run;
      Do(r, Send(i, updated));
    }

    /** The rename behind its guards: it lands only under this editor's token and
        over bytes its compare-and-swap accepts. */
    method CommitUnderGuard(r: Rules<C>, i: nat, answers: bool)
      requires Valid() && r == rules && world.At(i).Sent? && WritesOf(world.writes, i) == []
      modifies this`world, this`history
      ensures Valid() && old(history) <= history
      ensures if old(world).HeldBy(i) && r.cas(i, old(world).file) then world.file == old(world).At(i).updated
              else world == old(world)
      ensures world.At(i).Landed? <==> old(world).HeldBy(i) && r.cas(i, old(world).file) && answers
      ensures world.At(i).Landed? ==> world.At(i).prev == old(world).At(i).prev
      ensures |WritesOf(world.writes, i)| <= 1
      ensures world.At(i).Landed? ==> WritesOf(world.writes, i) == [Commit(i, r.view(old(world).file), world.file)]
    {
      hide Run, WritesOf;
      WritesOfSnoc(world.writes, Commit(i, r.view(world.file), world.At(i).updated), i);
      Do(r, GuardedCommit(i, answers));
    }

    method WriteBack(r: Rules<C>, i: nat)
      requires Valid() && r == rules && world.At(i).Landed?
      requires |WritesOf(world.writes, i)| == 1
      modifies this`world, this`history
      ensures Valid() && old(history) <= history
      ensures world.file == old(world).At(i).prev
      ensures WritesOf(world.writes, i) == WritesOf(old(world).writes, i) + [Rollback(i, old(world).file, world.file)]
    {
      hide Run, WritesOf;
      WritesOfSnoc(world.writes, Rollback(i, world.file, world.At(i).prev), i);
      Do(r, RollBack(i));
    }

    method Keep(r: Rules<C>, i: nat)
      requires Valid() && r == rules && world.At(i).Landed?
      modifies this`world, this`history
      ensures Valid() && old(history) <= history && world.writes == old(world).writes && world.file == old(world).file
    {
      hide Run;
      Do(r, Finish(i));
    }

    /** The edit while the lock is held, as far as anyone lets it be. */
    method EditLocked(r: Rules<C>, i: nat, transform: C -> Option<C>, fate: Fate, others: nat -> seq<Event<C>>)
      returns (outcome: Outcome)
      requires Valid() && r == rules && world.At(i) == Named && WritesOf(world.writes, i) == []
      requires forall k, e :: e in others(k) ==> Foreign(i, e)
      requires Permits(r, i, transform)
      modifies this`world, this`history
      ensures Valid() && old(history) <= history
      ensures Tells(i, outcome) && outcome !in {LockTimeout, TokenFailed}
      ensures Quiet(others) && old(world).HeldBy(i) ==> EndsAs(r, i, transform, fate, old(world).file, outcome)
    {
      hide Run, WritesOf, Step, Valid, Permits, Foreign, EndsAs;
      Others(r, i, others(AFTER_LOCK));
      outcome := EditRead(r, i, transform, fate, others);
    }

    /** From the read on. */
    method EditRead(r: Rules<C>, i: nat, transform: C -> Option<C>, fate: Fate, others: nat -> seq<Event<C>>)
      returns (outcome: Outcome)
      requires Valid() && r == rules && world.At(i) == Named && WritesOf(world.writes, i) == []
      requires forall k, e :: e in others(k) ==> Foreign(i, e)
      requires Permits(r, i, transform)
      modifies this`world, this`history
      ensures Valid() && old(history) <= history
      ensures Tells(i, outcome) && outcome !in {LockTimeout, TokenFailed}
      ensures Quiet(others) && old(world).HeldBy(i) ==> EndsAs(r, i, transform, fate, old(world).file, outcome)
    {
      hide Run, WritesOf, Step, Valid, Foreign, Permits;
      var failure := Prepare(r, i, transform, fate);
      if failure.Some? {
        return failure.value;
      }
      outcome := Land(r, i, fate, others);
    }

    /** Everything before the commit: read, transform, adapt, stage. */
    method Prepare(r: Rules<C>, i: nat, transform: C -> Option<C>, fate: Fate) returns (failure: Option<Outcome>)
      requires Valid() && r == rules && world.At(i) == Named
      requires Permits(r, i, transform)
      modifies this`world, this`history
      ensures Valid() && old(history) <= history && world.writes == old(world).writes
      ensures world.file == old(world).file && world.lock == old(world).lock
      ensures var prev := r.view(old(world).file); var updated := transform(prev);
        if !fate.readAnswers then failure == Some(ReadFailed)
        else if updated.None? then failure == Some(TransformFailed)
        else if updated.value == prev then failure == Some(Unchanged)
        else if !fate.adapts || !fate.staged then failure == Some(Rejected)
        else failure == None && world.At(i) == Sent(prev, updated.value)
    {
      hide Run, WritesOf, Step, Valid;
      if !fate.readAnswers {
        return Some(ReadFailed);
      }
      var prev := ReadFile(r, i);
      var updated := transform(prev);
      if updated.None? {
        return Some(TransformFailed);
      }
      if updated.value == prev {
        return Some(Unchanged);
      }
      if !fate.adapts || !fate.staged {
        return Some(Rejected);
      }
      SendCommit(r, i, updated.value);
      failure := None;
    }

    /** The commit on its way, and what follows once it has landed. */
    method Land(r: Rules<C>, i: nat, fate: Fate, others: nat -> seq<Event<C>>) returns (outcome: Outcome)
      requires Valid() && r == rules && world.At(i).Sent? && WritesOf(world.writes, i) == []
      requires forall k, e :: e in others(k) ==> Foreign(i, e)
      modifies this`world, this`history
      ensures Valid() && old(history) <= history
      ensures Tells(i, outcome) && outcome in {CommitFailed, Done, RolledBack, RollbackFailed}
      ensures Quiet(others) && old(world).HeldBy(i) ==>
        var lands := fate.commitArrives && r.cas(i, old(world).file);
        var fails := lands && fate.commitAnswers && !(fate.reloads && fate.delivered);
        && (outcome == CommitFailed <==> !(lands && fate.commitAnswers))
        && (outcome == Done <==> lands && fate.commitAnswers && fate.reloads && fate.delivered)
        && (outcome == RolledBack <==> fails && fate.rollbackArrives && fate.rollbackAnswers)
        && world.file == if !lands then old(world).file
          else if fails && fate.rollbackArrives then old(world).At(i).prev else old(world).At(i).updated
    {
      hide Run, WritesOf, Step, Valid;
      Others(r, i, others(AFTER_LOCK + 1));
      if fate.commitArrives {
        CommitUnderGuard(r, i, fate.commitAnswers);
      }
      if !world.At(i).Landed? {
        return CommitFailed;
      }
      outcome := Confirm(r, i, fate, others);
    }

    /** Reload, verify delivery, and roll back if either fails. */
    method Confirm(r: Rules<C>, i: nat, fate: Fate, others: nat -> seq<Event<C>>) returns (outcome: Outcome)
      requires Valid() && r == rules && world.At(i).Landed?
      requires |WritesOf(world.writes, i)| == 1 && WritesOf(world.writes, i)[0].Commit?
      requires forall k, e :: e in others(k) ==> Foreign(i, e)
      modifies this`world, this`history
      ensures Valid() && old(history) <= history
      ensures Tells(i, outcome) && outcome in {Done, RolledBack, RollbackFailed}
      ensures outcome == Done <==> fate.reloads && fate.delivered
      ensures outcome == RolledBack <==> outcome != Done && fate.rollbackArrives && fate.rollbackAnswers
      ensures Quiet(others) ==>
        world.file == if outcome != Done && fate.rollbackArrives then old(world).At(i).prev else old(world).file
    {
      hide Run, WritesOf, Step;
      Others(r, i, others(AFTER_LOCK + 2));
      if fate.reloads && fate.delivered {
        Keep(r, i);
        return Done;
      }
      Others(r, i, others(AFTER_LOCK + 3));
      if fate.rollbackArrives {
        WriteBack(r, i);
      }
      outcome := if fate.rollbackArrives && fate.rollbackAnswers then RolledBack else RollbackFailed;
    }
  }
}
