/** The shared-proxy commit lock and the edits made under it
    (internal/caddy/caddy.go): any number of editors, one step a remote command,
    and a lock directory that anyone may remove at any moment. */
module CaddyLock {

  /** The lock directory, and whose token its info file holds. Editors are
      numbered by their tokens, which are unique. */
  datatype Lock = Absent | Dir(info: Holder)
  datatype Holder = Nobody | Holder(editor: nat)

  /** How far one edit has come. */
  datatype Phase<C> =
    | Fresh
    | Locked                          // made the directory, its token is on the way
    | Named                           // its token was written
    | HasRead(prev: C)
    | Sent(prev: C, updated: C)       // the guarded commit command is on its way
    | Landed(prev: C, updated: C)     // the commit answered; a rollback may follow
    | Over(tokenInFlight: bool)       // a token write given up on may still land

  /** A write of the Caddyfile: what reads of the bytes it replaced (for a rollback,
      those bytes), and the bytes it left. */
  datatype Write<C> = Commit(editor: nat, before: C, after: C) | Rollback(editor: nat, before: C, after: C)

  /** The server. log says which commits made the bytes in the file: an editor
      takes it with the bytes it reads, and its writes put it back. */
  datatype World<C> = World(
    file: C, lock: Lock, phases: map<nat, Phase<C>>,
    writes: seq<Write<C>>, log: seq<Write<C>>, readLog: map<nat, seq<Write<C>>>)
  {
    function At(i: nat): Phase<C> { if i in phases then phases[i] else Fresh }

    function To(i: nat, p: Phase<C>): World<C> { this.(phases := phases[i := p]) }

    predicate HeldBy(i: nat) { lock == Dir(Holder(i)) }

    function LogRead(i: nat): seq<Write<C>> { if i in readLog then readLog[i] else [] }
  }

  datatype Event<C> =
    | Mkdir(editor: nat, answered: bool)
    | WriteToken(editor: nat)
    | GiveUpToken(editor: nat, removed: bool)
    | TokenLandsLate(editor: nat)
    | Read(editor: nat)
    | Abandon(editor: nat)
    | Send(editor: nat, updated: C)
    | GuardedCommit(editor: nat, answered: bool)
    | RollBack(editor: nat)
    | Finish(editor: nat)
    | Release(editor: nat)
    | RemoveToken
    | RemoveLock

  /** What may be edited into what, which bytes an editor's exact-block
      compare-and-swap accepts, and what a read makes of the bytes: it trims them. */
  datatype Rules<!C> = Rules(allowed: (nat, C, C) -> bool, cas: (nat, C) -> bool, view: C -> C)

  ghost predicate Idempotent<C(!new)>(rules: Rules<C>) {
    forall c :: rules.view(rules.view(c)) == rules.view(c)
  }

  function Step<C(==)>(rules: Rules<C>, w: World<C>, e: Event<C>): World<C> {
    match e
    case Mkdir(i, answered) =>
      if w.At(i) == Fresh && w.lock == Absent then
        var made := w.(lock := Dir(Nobody));
        if answered then made.To(i, Locked) else made
      else w
    case WriteToken(i) =>
      // The upload makes the directory again if someone removed it.
      if w.At(i) == Locked then w.(lock := Dir(Holder(i))).To(i, Named) else w
    case GiveUpToken(i, removed) =>
      if w.At(i) == Locked then w.(lock := if removed then Absent else w.lock).To(i, Over(true)) else w
    case TokenLandsLate(i) =>
      if w.At(i) == Over(true) then w.(lock := Dir(Holder(i))).To(i, Over(false)) else w
    case Read(i) =>
      if w.At(i) == Named then w.(readLog := w.readLog[i := w.log]).To(i, HasRead(rules.view(w.file))) else w
    case Abandon(i) =>
      if w.At(i).HasRead? || w.At(i).Sent? then w.To(i, Over(false)) else w
    case Send(i, updated) =>
      if w.At(i).HasRead? && updated != w.At(i).prev && rules.allowed(i, w.At(i).prev, updated)
      then w.To(i, Sent(w.At(i).prev, updated)) else w
    case GuardedCommit(i, answered) =>
      if w.At(i).Sent? && w.HeldBy(i) && rules.cas(i, w.file) then
        var prev, updated := w.At(i).prev, w.At(i).updated;
        w.(file := updated,
           writes := w.writes + [Commit(i, rules.view(w.file), updated)],
           log := w.LogRead(i) + [Commit(i, prev, updated)])
         .To(i, if answered then Landed(prev, updated) else Over(false))
      else w
    case RollBack(i) =>
      if w.At(i).Landed? then
        w.(file := w.At(i).prev,
           writes := w.writes + [Rollback(i, w.file, w.At(i).prev)],
           log := w.LogRead(i))
         .To(i, Over(false))
      else w
    case Finish(i) =>
      if w.At(i).Landed? then w.To(i, Over(false)) else w
    case Release(i) =>
      if w.HeldBy(i) then w.(lock := Absent) else w
    case RemoveToken =>
      if w.lock.Dir? then w.(lock := Dir(Nobody)) else w
    case RemoveLock => w.(lock := Absent)
  }

  function Run<C(==)>(rules: Rules<C>, w: World<C>, es: seq<Event<C>>): World<C> {
    if es == [] then w else Step(rules, Run(rules, w, es[..|es| - 1]), es[|es| - 1])
  }

  function Start<C>(file: C): World<C> { World(file, Absent, map[], [], [], map[]) }

  // ---- chains of edits ----

  /** The commits lead, each from what reads of the bytes the one before it left,
      from init to what reads of the file, and each is an edit its editor may make. */
  predicate Chain<C(==)>(rules: Rules<C>, init: C, log: seq<Write<C>>, seen: C) {
    if log == [] then seen == rules.view(init)
    else
      var last := log[|log| - 1];
      && last.Commit? && seen == rules.view(last.after) && rules.allowed(last.editor, last.before, last.after)
      && Chain(rules, init, log[..|log| - 1], last.before)
  }

  lemma ChainSnoc<C>(rules: Rules<C>, init: C, log: seq<Write<C>>, mid: C, e: Write<C>)
    requires Chain(rules, init, log, mid) && e.Commit? && e.before == mid && rules.allowed(e.editor, e.before, e.after)
    ensures Chain(rules, init, log + [e], rules.view(e.after))
  {
    assert (log + [e])[..|log|] == log;
  }

  lemma ChainSeen<C(!new)>(rules: Rules<C>, init: C, log: seq<Write<C>>, seen: C)
    requires Idempotent(rules) && Chain(rules, init, log, seen)
    ensures rules.view(seen) == seen
  {
  }

  // ---- every run, fenced or not ----

  ghost predicate Reading<C(!new)>(rules: Rules<C>, init: C, w: World<C>, i: nat) {
    match w.At(i)
    case HasRead(prev) => Chain(rules, init, w.LogRead(i), prev)
    case Sent(prev, updated) => Chain(rules, init, w.LogRead(i), prev) && rules.allowed(i, prev, updated)
    case Landed(prev, updated) => Chain(rules, init, w.LogRead(i), prev)
    case _ => true
  }

  ghost predicate Traced<C(!new)>(rules: Rules<C>, init: C, w: World<C>) {
    && Chain(rules, init, w.log, rules.view(w.file))
    && forall i: nat :: Reading(rules, init, w, i)
  }

  lemma StepTraced<C(!new)>(rules: Rules<C>, init: C, w: World<C>, e: Event<C>)
    requires Traced(rules, init, w) && Idempotent(rules)
    ensures Traced(rules, init, Step(rules, w, e))
  {
    hide Chain;
    var v := Step(rules, w, e);
    if e.GuardedCommit? && v != w {
      assert Reading(rules, init, w, e.editor);
      ChainSnoc(rules, init, w.LogRead(e.editor), w.At(e.editor).prev,
        Commit(e.editor, w.At(e.editor).prev, w.At(e.editor).updated));
    } else if e.RollBack? && v != w {
      assert Reading(rules, init, w, e.editor);
      ChainSeen(rules, init, w.LogRead(e.editor), w.At(e.editor).prev);
    }
    forall i: nat ensures Reading(rules, init, v, i) {
      assert Reading(rules, init, w, i);
    }
  }

  /** In every run, whoever removes the lock and whenever, the Caddyfile is the
      first one with a chain of whole edits applied to it: no two edits mix. */
  lemma {:induction false} FileIsAlwaysAChain<C(!new)>(rules: Rules<C>, init: C, es: seq<Event<C>>)
    requires Idempotent(rules)
    ensures var w := Run(rules, Start(init), es); Chain(rules, init, w.log, rules.view(w.file))
    ensures Traced(rules, init, Run(rules, Start(init), es))
  {
    if es != [] {
      FileIsAlwaysAChain(rules, init, es[..|es| - 1]);
      StepTraced(rules, init, Run(rules, Start(init), es[..|es| - 1]), es[|es| - 1]);
    }
  }

  // ---- runs whose rollbacks are harmless ----

  /** A rollback finds its own commit last, and whoever else holds the lock by now
      has not read the bytes it takes away. */
  ghost predicate Harmless<C>(w: World<C>, i: nat) {
    && |w.log| == |w.LogRead(i)| + 1
    && forall j: nat :: j != i && w.HeldBy(j) ==> !w.At(j).HasRead? && !w.At(j).Sent?
  }

  ghost predicate FencedStep<C>(w: World<C>, e: Event<C>) {
    e.RollBack? && w.At(e.editor).Landed? ==> Harmless(w, e.editor)
  }

  ghost predicate Fenced<C>(rules: Rules<C>, w: World<C>, es: seq<Event<C>>) {
    forall n :: 0 <= n < |es| ==> FencedStep(Run(rules, w, es[..n]), es[n])
  }

  /** The commits no rollback took back, in the order they landed. */
  function Survivors<C(==)>(writes: seq<Write<C>>): seq<Write<C>> {
    if writes == [] then []
    else
      var before, last := Survivors(writes[..|writes| - 1]), writes[|writes| - 1];
      if last.Commit? then before + [last] else WithoutEditor(before, last.editor)
  }

  function WithoutEditor<C>(log: seq<Write<C>>, i: nat): seq<Write<C>> {
    if log == [] then []
    else WithoutEditor(log[..|log| - 1], i) + if log[|log| - 1].editor == i then [] else [log[|log| - 1]]
  }

  ghost predicate NoWriteBy<C>(writes: seq<Write<C>>, i: nat) {
    forall n :: 0 <= n < |writes| ==> writes[n].editor != i
  }

  /** What the token in the info file guarantees. */
  ghost predicate TokenMeans<C>(rules: Rules<C>, w: World<C>, i: nat) {
    w.HeldBy(i) ==>
      match w.At(i)
      case Fresh => false
      case Locked => false
      case Named => true
      case HasRead(prev) => rules.view(w.file) == prev && w.log == w.LogRead(i)
      case Sent(prev, _) => rules.view(w.file) == prev && w.log == w.LogRead(i)
      case Landed(prev, updated) => w.file == updated && w.log == w.LogRead(i) + [Commit(i, prev, updated)]
      case Over(inFlight) => !inFlight
  }

  ghost predicate YetToCommit<C>(p: Phase<C>) { p.Fresh? || p.Locked? || p.Named? || p.HasRead? || p.Sent? }

  ghost predicate Orderly<C(!new)>(rules: Rules<C>, w: World<C>) {
    && w.log == Survivors(w.writes)
    && (forall i: nat :: TokenMeans(rules, w, i))
    && (forall i: nat :: YetToCommit(w.At(i)) ==> NoWriteBy(w.writes, i))
    && (forall i: nat :: w.At(i).HasRead? || w.At(i).Sent? || w.At(i).Landed? ==> NoWriteBy(w.LogRead(i), i))
    && (forall i: nat :: OwnCommitStands(w, i))
    && OneEach(w.log)
  }

  /** No editor has two commits in a log. */
  ghost predicate OneEach<C>(log: seq<Write<C>>) {
    forall a, b :: 0 <= a < b < |log| ==> log[a].editor != log[b].editor
  }

  /** While a rollback may follow, the editor's commit stands in the log right
      after what it had read. */
  ghost predicate OwnCommitStands<C>(w: World<C>, i: nat) {
    w.At(i).Landed? ==> w.LogRead(i) + [Commit(i, w.At(i).prev, w.At(i).updated)] <= w.log
  }

  lemma {:induction false} WithoutStranger<C>(log: seq<Write<C>>, i: nat)
    requires NoWriteBy(log, i)
    ensures WithoutEditor(log, i) == log
  {
    if log != [] {
      assert NoWriteBy(log[..|log| - 1], i);
      WithoutStranger(log[..|log| - 1], i);
      assert log == log[..|log| - 1] + [log[|log| - 1]];
    }
  }

  lemma {:induction false} SurvivorsOnlyWrites<C>(writes: seq<Write<C>>, i: nat)
    requires NoWriteBy(writes, i)
    ensures NoWriteBy(Survivors(writes), i)
  {
    if writes != [] {
      var front := writes[..|writes| - 1];
      assert NoWriteBy(front, i);
      SurvivorsOnlyWrites(front, i);
      if writes[|writes| - 1].Rollback? {
        WithoutKeeps(Survivors(front), writes[|writes| - 1].editor, i);
      }
    }
  }

  lemma {:induction false} WithoutKeeps<C>(log: seq<Write<C>>, j: nat, i: nat)
    requires NoWriteBy(log, i)
    ensures NoWriteBy(WithoutEditor(log, j), i)
  {
    if log != [] {
      assert NoWriteBy(log[..|log| - 1], i);
      WithoutKeeps(log[..|log| - 1], j, i);
    }
  }

  lemma SurvivorsCommit<C>(writes: seq<Write<C>>, e: Write<C>)
    requires e.Commit?
    ensures Survivors(writes + [e]) == Survivors(writes) + [e]
  {
    assert (writes + [e])[..|writes|] == writes;
  }

  lemma SurvivorsRollback<C>(writes: seq<Write<C>>, e: Write<C>, log: seq<Write<C>>, own: Write<C>)
    requires e.Rollback? && Survivors(writes) == log + [own] && own.editor == e.editor && NoWriteBy(log, e.editor)
    ensures Survivors(writes + [e]) == log
  {
    assert (writes + [e])[..|writes|] == writes;
    assert (log + [own])[..|log|] == log;
    WithoutStranger(log, e.editor);
  }

  /** What a fenced run promises of each commit: the bytes replaced are the bytes
      read, and they pass the editor's compare-and-swap. */
  ghost predicate ReplacesWhatItRead<C>(rules: Rules<C>, w: World<C>, e: Event<C>) {
    Step(rules, w, e).writes != w.writes && e.GuardedCommit? ==>
      w.At(e.editor).Sent? && rules.view(w.file) == w.At(e.editor).prev && rules.cas(e.editor, w.file)
  }

  lemma StepReplacesWhatItRead<C(!new)>(rules: Rules<C>, w: World<C>, e: Event<C>)
    requires Orderly(rules, w)
    ensures ReplacesWhatItRead(rules, w, e)
  {
    if e.GuardedCommit? {
      assert TokenMeans(rules, w, e.editor);
    }
  }

  /** The log a harmless rollback finds. */
  lemma OwnCommitIsLast<C(!new)>(rules: Rules<C>, w: World<C>, i: nat)
    requires Orderly(rules, w) && w.At(i).Landed? && |w.log| == |w.LogRead(i)| + 1
    ensures w.log == w.LogRead(i) + [Commit(i, w.At(i).prev, w.At(i).updated)]
  {
    hide Survivors, TokenMeans;
    assert OwnCommitStands(w, i);
  }

  lemma StepLog<C(!new)>(rules: Rules<C>, w: World<C>, e: Event<C>)
    requires Orderly(rules, w) && FencedStep(w, e)
    ensures Step(rules, w, e).log == Survivors(Step(rules, w, e).writes)
  {
    hide Survivors, WithoutEditor;
    var v := Step(rules, w, e);
    if v.writes != w.writes {
      assert TokenMeans(rules, w, e.editor);
      if e.GuardedCommit? {
        SurvivorsCommit(w.writes, v.writes[|w.writes|]);
      } else {
        OwnCommitIsLast(rules, w, e.editor);
        SurvivorsRollback(w.writes, v.writes[|w.writes|], w.LogRead(e.editor),
          Commit(e.editor, w.At(e.editor).prev, w.At(e.editor).updated));
      }
    }
  }

  /** A holder that has committed is the last to have. */
  lemma LandedHolderIsLast<C(!new)>(rules: Rules<C>, w: World<C>, i: nat, j: nat)
    requires Orderly(rules, w) && w.At(i).Landed? && |w.log| == |w.LogRead(i)| + 1 && i != j && w.HeldBy(j)
    ensures !w.At(j).Landed?
  {
    hide Survivors;
    OwnCommitIsLast(rules, w, i);
    assert TokenMeans(rules, w, j);
    assert w.log[|w.log| - 1].editor == i;
  }

  lemma StepToken<C(!new)>(rules: Rules<C>, w: World<C>, e: Event<C>, i: nat)
    requires Orderly(rules, w) && FencedStep(w, e)
    ensures TokenMeans(rules, Step(rules, w, e), i)
  {
    hide Survivors;
    assert TokenMeans(rules, w, i);
    if e.GuardedCommit? {
      assert TokenMeans(rules, w, e.editor);
    } else if e.RollBack? && w.At(e.editor).Landed? && i != e.editor && w.HeldBy(i) {
      OwnCommitIsLast(rules, w, e.editor);
      LandedHolderIsLast(rules, w, e.editor, i);
    }
  }

  lemma StepWritten<C(!new)>(rules: Rules<C>, w: World<C>, e: Event<C>, i: nat)
    requires Orderly(rules, w) && FencedStep(w, e)
    ensures var v := Step(rules, w, e);
      && (YetToCommit(v.At(i)) ==> NoWriteBy(v.writes, i))
      && (v.At(i).HasRead? || v.At(i).Sent? || v.At(i).Landed? ==> NoWriteBy(v.LogRead(i), i))
  {
    hide Survivors, TokenMeans;
    var v := Step(rules, w, e);
    if YetToCommit(v.At(i)) {
      assert YetToCommit(w.At(i)) && NoWriteBy(w.writes, i);
    }
    if e == Read(i) && w.At(i).Named? {
      SurvivorsOnlyWrites(w.writes, i);
      assert v.LogRead(i) == w.log;
    } else {
      assert v.LogRead(i) == w.LogRead(i);
    }
  }

  lemma StepKeepsOwnCommit<C(!new)>(rules: Rules<C>, w: World<C>, e: Event<C>, i: nat)
    requires Orderly(rules, w) && FencedStep(w, e)
    ensures OwnCommitStands(Step(rules, w, e), i)
  {
    hide Survivors;
    assert OwnCommitStands(w, i);
    if (e.GuardedCommit? || e.RollBack?) && Step(rules, w, e) != w {
      assert TokenMeans(rules, w, e.editor);
      if w.At(i).Landed? && e.RollBack? && e.editor != i {
        OwnCommitIsLast(rules, w, e.editor);
        var mine, theirs := Commit(i, w.At(i).prev, w.At(i).updated), w.LogRead(e.editor);
        assert w.log[|w.LogRead(i)|] == mine;
        assert |w.LogRead(i)| < |theirs|;
      }
    }
  }

  lemma StepOneEach<C(!new)>(rules: Rules<C>, w: World<C>, e: Event<C>)
    requires Orderly(rules, w) && FencedStep(w, e)
    ensures OneEach(Step(rules, w, e).log)
  {
    hide Survivors;
    if (e.GuardedCommit? || e.RollBack?) && Step(rules, w, e) != w {
      assert TokenMeans(rules, w, e.editor);
      if e.RollBack? {
        OwnCommitIsLast(rules, w, e.editor);
      }
      var v, read := Step(rules, w, e), w.LogRead(e.editor);
      assert read <= w.log && read <= v.log && |v.log| <= |read| + 1;
      forall a, b | 0 <= a < b < |v.log| ensures v.log[a].editor != v.log[b].editor {
        assert b < |read| ==> v.log[b] == w.log[b];
        assert v.log[a] == w.log[a] == read[a];
      }
    }
  }

  lemma StepOrderly<C(!new)>(rules: Rules<C>, w: World<C>, e: Event<C>)
    requires Orderly(rules, w) && FencedStep(w, e)
    ensures Orderly(rules, Step(rules, w, e))
  {
    hide Step, Survivors, TokenMeans, OneEach, NoWriteBy, OwnCommitStands;
    StepLog(rules, w, e);
    StepOneEach(rules, w, e);
    var v := Step(rules, w, e);
    forall i: nat ensures TokenMeans(rules, v, i) {
      StepToken(rules, w, e, i);
    }
    forall i: nat ensures YetToCommit(v.At(i)) ==> NoWriteBy(v.writes, i) {
      StepWritten(rules, w, e, i);
    }
    forall i: nat ensures v.At(i).HasRead? || v.At(i).Sent? || v.At(i).Landed? ==> NoWriteBy(v.LogRead(i), i) {
      StepWritten(rules, w, e, i);
    }
    forall i: nat ensures OwnCommitStands(v, i) {
      StepKeepsOwnCommit(rules, w, e, i);
    }
  }

  lemma {:induction false} FencedPrefix<C>(rules: Rules<C>, w: World<C>, es: seq<Event<C>>, n: nat)
    requires Fenced(rules, w, es) && n <= |es|
    ensures Fenced(rules, w, es[..n])
  {
    forall m | 0 <= m < n ensures FencedStep(Run(rules, w, es[..n][..m]), es[..n][m]) {
      assert es[..n][..m] == es[..m];
    }
  }

  lemma {:induction false} FencedRunsAreOrderly<C(!new)>(rules: Rules<C>, init: C, es: seq<Event<C>>)
    requires Fenced(rules, Start(init), es)
    ensures Orderly(rules, Run(rules, Start(init), es))
  {
    if es != [] {
      FencedPrefix(rules, Start(init), es, |es| - 1);
      FencedRunsAreOrderly(rules, init, es[..|es| - 1]);
      StepOrderly(rules, Run(rules, Start(init), es[..|es| - 1]), es[|es| - 1]);
    }
  }

  /** No lost update: if every rollback is harmless when it is written, then
      whoever removes the lock, every commit replaces exactly the bytes its editor
      read, and the file is the first one with every commit not taken back by its
      own editor applied, in the order they landed. */
  lemma NoLostUpdate<C(!new)>(rules: Rules<C>, init: C, es: seq<Event<C>>)
    requires Idempotent(rules) && Fenced(rules, Start(init), es)
    ensures forall n :: 0 <= n < |es| ==> ReplacesWhatItRead(rules, Run(rules, Start(init), es[..n]), es[n])
    ensures var w := Run(rules, Start(init), es); Chain(rules, init, Survivors(w.writes), rules.view(w.file))
  {
    hide Run, Step, Chain, Survivors, FencedStep, TokenMeans, ReplacesWhatItRead;
    forall n | 0 <= n < |es| ensures ReplacesWhatItRead(rules, Run(rules, Start(init), es[..n]), es[n]) {
      FencedPrefix(rules, Start(init), es, n);
      FencedRunsAreOrderly(rules, init, es[..n]);
      StepReplacesWhatItRead(rules, Run(rules, Start(init), es[..n]), es[n]);
    }
    FencedRunsAreOrderly(rules, init, es);
    FileIsAlwaysAChain(rules, init, es);
  }

  // ---- what an unfenced rollback loses ----

  /** Exactly the harmless rollbacks keep what the protocol promises. */
  lemma RollbackIsHarmlessIff<C(!new)>(rules: Rules<C>, w: World<C>, i: nat)
    requires Orderly(rules, w) && w.At(i).Landed?
    ensures Orderly(rules, Step(rules, w, RollBack(i))) <==> Harmless(w, i)
    ensures w.HeldBy(i) ==> Harmless(w, i)
  {
    hide Survivors, NoWriteBy, OneEach;
    var v := Step(rules, w, RollBack(i));
    assert OwnCommitStands(w, i) && TokenMeans(rules, w, i);
    if Harmless(w, i) {
      StepOrderly(rules, w, RollBack(i));
    } else if Orderly(rules, v) {
      RollbackLog(rules, w, i);
      if |w.log| == |w.LogRead(i)| + 1 {
        var j: nat :| j != i && w.HeldBy(j) && (w.At(j).HasRead? || w.At(j).Sent?);
        ReaderIsStranded(rules, w, i, j);
      }
    }
  }

  /** A holder that has read the bytes is left with a log the file no longer has. */
  lemma ReaderIsStranded<C(!new)>(rules: Rules<C>, w: World<C>, i: nat, j: nat)
    requires Orderly(rules, w) && w.At(i).Landed? && |w.log| == |w.LogRead(i)| + 1
    requires i != j && w.HeldBy(j) && (w.At(j).HasRead? || w.At(j).Sent?)
    ensures !TokenMeans(rules, Step(rules, w, RollBack(i)), j)
  {
    hide Survivors;
    assert TokenMeans(rules, w, j);
  }

  /** A rollback takes its own commit out of the survivors, and nothing else. */
  lemma RollbackLog<C(!new)>(rules: Rules<C>, w: World<C>, i: nat)
    requires Orderly(rules, w) && w.At(i).Landed?
    ensures var v := Step(rules, w, RollBack(i)); v.log == w.LogRead(i) && |Survivors(v.writes)| == |w.log| - 1
  {
    hide NoWriteBy;
    assert OwnCommitStands(w, i);
    var v, k := Step(rules, w, RollBack(i)), |w.LogRead(i)|;
    assert w.log[k] == (w.LogRead(i) + [Commit(i, w.At(i).prev, w.At(i).updated)])[k];
    assert v.writes[..|w.writes|] == w.writes;
    WithoutOne(w.log, k);
  }

  /** A rollback drops from the file its own edit and exactly the edits committed
      after it: none of them if and only if its own is the last. What it does to an
      edit still to come is RollbackIsHarmlessIff. */
  lemma RollbackLosesExactly<C(!new)>(rules: Rules<C>, init: C, es: seq<Event<C>>, i: nat)
    requires Idempotent(rules) && Fenced(rules, Start(init), es)
    requires Run(rules, Start(init), es).At(i).Landed?
    ensures var w := Run(rules, Start(init), es);
      var v, k := Step(rules, w, RollBack(i)), |w.LogRead(i)|;
      && k < |w.log| && w.log[k] == Commit(i, w.At(i).prev, w.At(i).updated)
      && v.log == w.log[..k] && Chain(rules, init, v.log, rules.view(v.file))
      && (v.log == WithoutEditor(w.log, i) <==> k == |w.log| - 1)
      && (w.HeldBy(i) ==> k == |w.log| - 1)
  {
    hide Run, Chain;
    FencedRunsAreOrderly(rules, init, es);
    FileIsAlwaysAChain(rules, init, es);
    var w := Run(rules, Start(init), es);
    StepTraced(rules, init, w, RollBack(i));
    assert OwnCommitStands(w, i) && TokenMeans(rules, w, i);
    var k := |w.LogRead(i)|;
    assert w.log[k] == (w.LogRead(i) + [Commit(i, w.At(i).prev, w.At(i).updated)])[k];
    WithoutOne(w.log, k);
  }

  lemma {:induction false} WithoutOne<C>(log: seq<Write<C>>, k: nat)
    requires k < |log| && OneEach(log)
    ensures WithoutEditor(log, log[k].editor) == log[..k] + log[k + 1..]
  {
    var front := log[..|log| - 1];
    if k == |log| - 1 {
      assert NoWriteBy(front, log[k].editor);
      WithoutStranger(front, log[k].editor);
    } else {
      WithoutOne(front, k);
      assert log[..k] + log[k + 1..] == front[..k] + front[k + 1..] + [log[|log| - 1]];
    }
  }

  lemma RunStep<C>(rules: Rules<C>, w: World<C>, es: seq<Event<C>>, n: nat)
    requires n < |es|
    ensures Run(rules, w, es[..n + 1]) == Step(rules, Run(rules, w, es[..n]), es[n])
  {
    assert es[..n + 1][..n] == es[..n];
  }

  lemma RunNothing<C>(rules: Rules<C>, w: World<C>, es: seq<Event<C>>)
    ensures Run(rules, w, es[..0]) == w
  {
  }

  /** Editor 1 commits and waits for its reload; its lock is broken, editor 2
      edits what it finds, succeeds and lets go; editor 1's reload fails. */
  function BrokenLock(): seq<Event<int>> {
    [Mkdir(1, true), WriteToken(1), Read(1), Send(1, 10), GuardedCommit(1, true), RemoveLock,
     Mkdir(2, true), WriteToken(2), Read(2), Send(2, 20), GuardedCommit(2, true), Finish(2), Release(2)]
  }

  /** The server after the first n of those steps. */
  function BrokenWorld(n: nat): World<int> {
    var first, second := Commit(1, 0, 10), Commit(2, 10, 20);
    var one, two := [first], [first, second];
    var read := map[1 := [], 2 := one];
    if n == 0 then Start(0)
    else if n == 1 then World(0, Dir(Nobody), map[1 := Locked], [], [], map[])
    else if n == 2 then World(0, Dir(Holder(1)), map[1 := Named], [], [], map[])
    else if n == 3 then World(0, Dir(Holder(1)), map[1 := HasRead(0)], [], [], map[1 := []])
    else if n == 4 then World(0, Dir(Holder(1)), map[1 := Sent(0, 10)], [], [], map[1 := []])
    else if n == 5 then World(10, Dir(Holder(1)), map[1 := Landed(0, 10)], one, one, map[1 := []])
    else if n == 6 then World(10, Absent, map[1 := Landed(0, 10)], one, one, map[1 := []])
    else if n == 7 then World(10, Dir(Nobody), map[1 := Landed(0, 10), 2 := Locked], one, one, map[1 := []])
    else if n == 8 then World(10, Dir(Holder(2)), map[1 := Landed(0, 10), 2 := Named], one, one, map[1 := []])
    else if n == 9 then World(10, Dir(Holder(2)), map[1 := Landed(0, 10), 2 := HasRead(10)], one, one, read)
    else if n == 10 then World(10, Dir(Holder(2)), map[1 := Landed(0, 10), 2 := Sent(10, 20)], one, one, read)
    else if n == 11 then World(20, Dir(Holder(2)), map[1 := Landed(0, 10), 2 := Landed(10, 20)], two, two, read)
    else if n == 12 then World(20, Dir(Holder(2)), map[1 := Landed(0, 10), 2 := Over(false)], two, two, read)
    else World(20, Absent, map[1 := Landed(0, 10), 2 := Over(false)], two, two, read)
  }

  ghost predicate Permissive(rules: Rules<int>) {
    (forall i, a, b :: rules.allowed(i, a, b)) && (forall i, a :: rules.cas(i, a)) && forall a :: rules.view(a) == a
  }

  lemma BrokenStepFirst(rules: Rules<int>, n: nat)
    requires n < 6 && Permissive(rules)
    ensures Step(rules, BrokenWorld(n), BrokenLock()[n]) == BrokenWorld(n + 1)
  {
    if n < 3 {
      assert BrokenLock()[n] == [Mkdir(1, true), WriteToken(1), Read(1)][n];
    } else {
      assert BrokenLock()[n] == [Send(1, 10), GuardedCommit(1, true), RemoveLock][n - 3];
    }
  }

  lemma BrokenStepSecond(rules: Rules<int>, n: nat)
    requires 6 <= n < 13 && Permissive(rules)
    ensures Step(rules, BrokenWorld(n), BrokenLock()[n]) == BrokenWorld(n + 1)
  {
    if n < 9 {
      assert BrokenLock()[n] == [Mkdir(2, true), WriteToken(2), Read(2)][n - 6];
    } else {
      assert BrokenLock()[n] == [Send(2, 20), GuardedCommit(2, true), Finish(2), Release(2)][n - 9];
    }
  }

  lemma {:induction false} BrokenRun(rules: Rules<int>, n: nat)
    requires n <= 13 && Permissive(rules)
    ensures Run(rules, Start(0), BrokenLock()[..n]) == BrokenWorld(n)
  {
    if n == 0 {
      RunNothing(rules, Start(0), BrokenLock());
    } else {
      hide BrokenWorld, Step, BrokenLock;
      BrokenRun(rules, n - 1);
      if n <= 6 {
        BrokenStepFirst(rules, n - 1);
      } else {
        BrokenStepSecond(rules, n - 1);
      }
      BrokenLockSize();
      RunStep(rules, Start(0), BrokenLock(), n - 1);
    }
  }

  lemma BrokenLockSize()
    ensures |BrokenLock()| == 13
  {
  }

  /** The rollback the code leaves unfenced then takes editor 2's edit away. */
  lemma UnfencedRollbackLosesAnUpdate(rules: Rules<int>)
    requires Permissive(rules)
    ensures var w := Run(rules, Start(0), BrokenLock());
      && w.file == 20 && w.writes == [Commit(1, 0, 10), Commit(2, 10, 20)] && w.At(2) == Over(false)
      && Step(rules, w, RollBack(1)).file == 0
  {
    hide Run, BrokenLock;
    BrokenRun(rules, 13);
    BrokenLockSize();
    assert BrokenLock()[..13] == BrokenLock();
  }

  /** Nor is it enough that its commit is the last: here editor 2 holds the lock
      and has read it. Its own commit then lands on bytes it never read, and brings
      back the edit that was rejected. */
  lemma RollbackUnderAReaderRevives(rules: Rules<int>)
    requires Permissive(rules)
    ensures var w := Run(rules, Start(0), BrokenLock()[..10]);
      var v := Step(rules, w, RollBack(1));
      && w.At(1) == Landed(0, 10) && w.log == w.LogRead(1) + [Commit(1, 0, 10)]
      && v.file == 0 && !ReplacesWhatItRead(rules, v, GuardedCommit(2, true))
      && Step(rules, v, GuardedCommit(2, true)).file == 20
      && Step(rules, v, GuardedCommit(2, true)).log == [Commit(1, 0, 10), Commit(2, 10, 20)]
  {
    hide Run, BrokenLock;
    BrokenRun(rules, 10);
    BrokenLockSize();
    var w := BrokenWorld(10);
    assert w.LogRead(1) == [] && w.LogRead(2) == [Commit(1, 0, 10)];
    var v := Step(rules, w, RollBack(1));
    assert v.At(2) == Sent(10, 20) && v.HeldBy(2);
  }
}
