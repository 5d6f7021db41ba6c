/** The Postgres swap restore and its rollback (internal/backup/postgres.go,
    restore.go). A command may fail, or do its work and lose its reply. Names are
    byte strings, one character a byte. */
module PgSwap {
  import opened Wrappers

  type Name = string

  // ---- names ----

  /** Not the continuation of a UTF-8 sequence. */
  predicate RuneStart(b: char) { !('\U{80}' <= b < '\U{C0}') }

  function CutAt(s: Name, n: nat): (r: Name)
    requires n <= |s|
    ensures |r| <= n && r <= s
  {
    if n > 0 && n < |s| && !RuneStart(s[n]) then CutAt(s, n - 1) else s[..n]
  }

  function Trunc(s: Name, n: nat): (r: Name)
    ensures |r| <= n && r <= s
  {
    if |s| <= n then s else CutAt(s, n)
  }

  /** The countdown to a rune boundary. */
  method TruncBytes(s: Name, n: nat) returns (r: Name)
    ensures r == Trunc(s, n)
  {
    if |s| <= n {
      return s;
    }
    var i := n;
    while i > 0 && !RuneStart(s[i])
      invariant 0 <= i <= n < |s|
      invariant CutAt(s, n) == CutAt(s, i)
    {
      i := i - 1;
    }
    r := s[..i];
  }

  lemma {:induction false} CutBoundary(s: Name, n: nat)
    requires n < |s|
    ensures var r := CutAt(s, n); |r| == 0 || RuneStart(s[|r|])
    ensures forall i :: |CutAt(s, n)| < i <= n ==> !RuneStart(s[i])
  {
    if n > 0 && !RuneStart(s[n]) {
      CutBoundary(s, n - 1);
    }
  }

  /** Truncation keeps the longest prefix that fits and ends between two runes: not
      before a byte from 0x80 to 0xBF, which continues one. */
  lemma TruncIsLongestRunePrefix(s: Name, n: nat)
    ensures var r := Trunc(s, n);
      && r <= s && |r| <= n && (|s| <= n ==> r == s)
      && (|s| > n ==> r == [] || !(0x80 <= s[|r|] as int <= 0xBF))
      && (|s| > n ==> forall i :: |r| < i <= n ==> 0x80 <= s[i] as int <= 0xBF)
  {
    if |s| > n {
      CutBoundary(s, n);
    }
  }

  const NEW := "_teploy_new_"
  const OLD := "_teploy_old_"

  predicate Hex8(s: string) { |s| == 8 && forall c :: c in s ==> '0' <= c <= '9' || 'a' <= c <= 'f' }

  function NewName(db: Name, sfx: string): Name { Trunc(db, 40) + NEW + sfx }
  function OldName(db: Name, sfx: string): Name { Trunc(db, 40) + OLD + sfx }

  datatype Leftover = Leftover(prefix: Name, previous: bool)

  /** What the pgLeftoverName pattern makes of a name. */
  function LeftoverOf(n: Name): Option<Leftover> {
    if |n| < 20 || !Hex8(n[|n| - 8..]) || '\n' in n[..|n| - 20] then None
    else if n[|n| - 20..|n| - 8] == OLD then Some(Leftover(n[..|n| - 20], true))
    else if n[|n| - 20..|n| - 8] == NEW then Some(Leftover(n[..|n| - 20], false))
    else None
  }

  lemma KindsDiffer()
    ensures |OLD| == 12 && |NEW| == 12 && OLD != NEW
  {
    assert OLD[8] == 'o' && NEW[8] == 'n';
  }

  lemma LeftoverParts(prefix: Name, kind: string, sfx: string)
    requires Hex8(sfx) && '\n' !in prefix && |kind| == 12
    ensures var n := prefix + kind + sfx;
      n[|n| - 8..] == sfx && n[|n| - 20..|n| - 8] == kind && n[..|n| - 20] == prefix && |n| >= 20
  {
  }

  /** Generated names fit an identifier, and their prefix reads back, for every
      database name on one line. */
  lemma NamesReadBack(db: Name, sfx: string)
    requires Hex8(sfx) && '\n' !in db
    ensures |NewName(db, sfx)| <= 63 && |OldName(db, sfx)| <= 63
    ensures LeftoverOf(NewName(db, sfx)) == Some(Leftover(Trunc(db, 40), false))
    ensures LeftoverOf(OldName(db, sfx)) == Some(Leftover(Trunc(db, 40), true))
    ensures NewName(db, sfx) != OldName(db, sfx)
  {
    hide Hex8, Trunc;
    KindsDiffer();
    var p := Trunc(db, 40);
    assert '\n' !in p by { assert forall c :: c in p ==> c in db; }
    LeftoverParts(p, NEW, sfx);
    LeftoverParts(p, OLD, sfx);
    SuffixSize(sfx);
  }

  lemma SuffixSize(sfx: string)
    requires Hex8(sfx)
    ensures |sfx| == 8
  {
  }

  /** Exactly the names that are read as leftovers: a prefix on one line, the mark
      of a kept or of a half-loaded database, and eight hexadecimal digits. */
  lemma LeftoverExactly(n: Name, p: Name, previous: bool)
    ensures LeftoverOf(n) == Some(Leftover(p, previous)) <==>
      && '\n' !in p && |n| == |p| + 20 && n[..|p|] == p
      && n[|p|..|p| + 12] == (if previous then "_teploy_old_" else "_teploy_new_")
      && forall c :: c in n[|p| + 12..] ==> c in "0123456789abcdef"
  {
    KindsDiffer();
    if |n| >= 20 {
      var k := |n| - 20;
      assert n[..k] == p ==> |p| == k;
      HexIs(n[k + 12..]);
    }
  }

  lemma HexIs(s: string)
    ensures Hex8(s) <==> |s| == 8 && forall c :: c in s ==> c in "0123456789abcdef"
  {
    HexDigits();
  }

  lemma HexDigits()
    ensures forall c: char :: c in "0123456789abcdef" <==> '0' <= c <= '9' || 'a' <= c <= 'f'
  {
    var digits := "0123456789abcdef";
    assert digits[0] == '0' && digits[1] == '1' && digits[2] == '2' && digits[3] == '3' && digits[4] == '4';
    assert digits[5] == '5' && digits[6] == '6' && digits[7] == '7' && digits[8] == '8' && digits[9] == '9';
    assert digits[10] == 'a' && digits[11] == 'b' && digits[12] == 'c' && digits[13] == 'd' && digits[14] == 'e';
    assert digits[15] == 'f';
    forall c: char | '0' <= c <= '9' || 'a' <= c <= 'f' ensures c in digits {
      var i := if c <= '9' then c as int - '0' as int else c as int - 'a' as int + 10;
      assert digits[i] == c;
    }
  }

  // ---- commands ----

  /** One attempt at the swap transaction. */
  datatype SwapFate = Commits(answered: bool) | InUse | Fails

  datatype Reply = Answered | SessionsRemain | Lost

  datatype Status = Status(live: bool, replacement: bool, previous: bool)

  /** A one-statement command that may lose its reply: it runs or not. */
  datatype Fate = Fate(runs: bool, answered: bool)

  predicate Succeeds(f: Fate) { f.runs && f.answered }

  const TRIES := 5

  /** The i-th try at the swap is made: every one before found sessions, and the
      caller went on. */
  ghost predicate Tried(fates: nat -> SwapFate, cancelled: nat -> bool, i: nat) {
    i < 5 && forall j: nat :: j < i ==> fates(j).InUse? && !cancelled(j)
  }

  /** Some try commits, its reply included if it is asked for. */
  ghost predicate Committed(fates: nat -> SwapFate, cancelled: nat -> bool, answered: bool) {
    exists i: nat :: Tried(fates, cancelled, i) && fates(i).Commits? && (answered ==> fates(i).answered)
  }

  /** One of five questions is answered. */
  ghost predicate Read(answers: nat -> bool) { exists i: nat :: i < 5 && answers(i) }

  /** Only one try does not find sessions. */
  lemma OneTry(fates: nat -> SwapFate, cancelled: nat -> bool, i: nat)
    requires Tried(fates, cancelled, i) && !fates(i).InUse?
    ensures forall k: nat :: Tried(fates, cancelled, k) && !fates(k).InUse? ==> k == i
  {
  }

  class Cluster<T(==)> {
    var dbs: map<Name, T>
    ghost var history: seq<map<Name, T>>   // the databases after every command

    constructor (dbs: map<Name, T>)
      ensures this.dbs == dbs && history == []
    {
      this.dbs := dbs;
      history := [];
    }

    method Put(db: Name, content: T)
      modifies this
      ensures dbs == old(dbs)[db := content] && history == old(history) + [dbs]
    {
      dbs := dbs[db := content];
      history := history + [dbs];
    }

    /** Can the renames be made? They are one transaction. */
    predicate CanSwap(live: Name, from: Name, to: Name, exists_: bool)
      reads this
    {
      && from in dbs && (exists_ ==> live in dbs && to !in dbs && to != live) && (!exists_ ==> live !in dbs)
      && from != live && from != to
    }

    /** The databases after the swap. */
    function Swapped(live: Name, from: Name, to: Name, exists_: bool): map<Name, T>
      reads this
      requires CanSwap(live, from, to, exists_)
    {
      if exists_ then (dbs - {from})[to := dbs[live]][live := dbs[from]] else (dbs - {from})[live := dbs[from]]
    }

    /** Renames live to `to` (if it exists) and `from` to live, retried while
        sessions remain: done exactly when a try commits and can be made, and known
        to be when its reply arrives. */
    method Swap(live: Name, from: Name, to: Name, exists_: bool, fates: nat -> SwapFate, cancelled: nat -> bool)
      returns (reply: Reply)
      modifies this
      ensures if old(CanSwap(live, from, to, exists_)) && Committed(fates, cancelled, false)
              then dbs == old(Swapped(live, from, to, exists_)) else dbs == old(dbs)
      ensures reply == Answered <==> old(CanSwap(live, from, to, exists_)) && Committed(fates, cancelled, true)
      ensures reply == SessionsRemain <==> forall i: nat :: Tried(fates, cancelled, i) ==> fates(i).InUse?
      ensures history == old(history) + if dbs == old(dbs) then [] else [dbs]
    {
      reply := Lost;
      for i := 0 to TRIES
        invariant dbs == old(dbs) && history == old(history)
        invariant i > 0 ==> reply == SessionsRemain
        invariant forall j: nat :: j < i ==> fates(j).InUse? && !cancelled(j)
      {
        assert Tried(fates, cancelled, i);
        match fates(i) {
          case Commits(answered) =>
            OneTry(fates, cancelled, i);
            if CanSwap(live, from, to, exists_) {
              dbs := Swapped(live, from, to, exists_);
              history := history + [dbs];
              return if answered then Answered else Lost;
            }
            return Lost;
          case InUse => reply := SessionsRemain;
          case Fails =>
            OneTry(fates, cancelled, i);
            return Lost;
        }
        if cancelled(i) {
          assert forall k: nat :: Tried(fates, cancelled, k) ==> k <= i;
          return SessionsRemain;
        }
      }
    }

    /** Re-reads which of the three names exist; None when no try is answered. */
    method SwapState(live: Name, from: Name, to: Name, answers: nat -> bool) returns (st: Option<Status>)
      ensures st.Some? ==> st.value == Status(live in dbs, from in dbs, to in dbs)
      ensures st.Some? <==> Read(answers)
    {
      for i := 0 to TRIES
        invariant forall j: nat :: j < i ==> !answers(j)
      {
        if answers(i) {
          return Some(Status(live in dbs, from in dbs, to in dbs));
        }
      }
      st := None;
    }

    method DropDB(db: Name, f: Fate) returns (ok: bool)
      modifies this
      ensures ok == Succeeds(f) && dbs == if f.runs then old(dbs) - {db} else old(dbs)
      ensures history == old(history) + if f.runs then [dbs] else []
    {
      if f.runs {
        dbs := dbs - {db};
        history := history + [dbs];
      }
      ok := Succeeds(f);
    }
  }

  // ---- restore ----

  datatype Fates<T> = Fates(
    inspected: bool, create: Fate, loads: bool, partial: T,
    swap: nat -> SwapFate, cancelled: nat -> bool, stateAnswers: nat -> bool,
    drop: Fate, aliveAfterLoad: bool, aliveAfterDrop: bool)

  /** Done names the kept previous database. Dead is recovery-incomplete because
      the server stopped answering, Unknown because the swap's state cannot be
      read, Unexpected because it makes no sense. */
  datatype Outcome = Done(kept: Option<Name>) | Plain | Dead | Unknown | Unexpected

  /** Nothing but the leftover replacement differs. */
  predicate Untouched<T(==)>(before: map<Name, T>, after: map<Name, T>, newDB: Name) {
    after - {newDB} == before
  }

  /** Every database but the live one is as it was, and what the live one held is
      still there, under its own name or the kept one. */
  predicate NothingLost<T(==)>(before: map<Name, T>, after: map<Name, T>, live: Name, oldDB: Name) {
    && (forall db :: db in before && db != live ==> db in after && after[db] == before[db])
    && (live in before ==>
      (live in after && after[live] == before[live]) || (oldDB in after && after[oldDB] == before[live]))
  }

  /** What a restore may have done by the time it ends or is killed. */
  predicate RestoreStep<T(==)>(before: map<Name, T>, after: map<Name, T>, live: Name, sfx: string) {
    && NothingLost(before, after, live, OldName(live, sfx))
    && after.Keys <= before.Keys + {live, NewName(live, sfx), OldName(live, sfx)}
  }

  /** What a rollback may have done: nothing, or the whole swap. */
  predicate RollbackStep<T(==)>(before: map<Name, T>, after: map<Name, T>, live: Name, previous: Name, sfx: string) {
    && previous in before
    && (after == before ||
        (live in after && after[live] == before[previous] &&
          (live in before ==> NewName(live, sfx) in after && after[NewName(live, sfx)] == before[live])))
    && (forall db :: db in before && db != live && db != previous ==> db in after && after[db] == before[db])
    && after.Keys <= before.Keys + {live, NewName(live, sfx)}
  }

  /** A failed load, told truthfully: untouched only if the server still answers. */
  method LoadFailed<T>(c: Cluster<T>, newDB: Name, f: Fates<T>) returns (outcome: Outcome)
    modifies c
    ensures outcome ==
      if f.aliveAfterLoad && ((f.drop.runs && f.drop.answered) || f.aliveAfterDrop) then Plain else Dead
    ensures c.dbs == if f.aliveAfterLoad && f.drop.runs then old(c.dbs) - {newDB} else old(c.dbs)
    ensures c.history == old(c.history) || c.history == old(c.history) + [c.dbs]
  {
    if !f.aliveAfterLoad {
      return Dead;
    }
    var dropped := c.DropDB(newDB, f.drop);
    if !dropped && !f.aliveAfterDrop {
      return Dead;
    }
    outcome := Plain;
  }

  /** The databases but for the replacement. */
  function Rest<T>(dbs: map<Name, T>, newDB: Name): map<Name, T> { dbs - {newDB} }

  /** The databases with the backup live, and what was live under its kept name. */
  function Restored<T>(before: map<Name, T>, live: Name, oldDB: Name, backup: T): map<Name, T> {
    (if live in before then before[oldDB := before[live]] else before)[live := backup]
  }

  /** The loaded replacement, swapped in; and what a failed swap's state means. */
  method SwapReplacement<T>(c: Cluster<T>, live: Name, sfx: string, exists_: bool, f: Fates<T>)
    returns (outcome: Outcome)
    requires NewName(live, sfx) in c.dbs && OldName(live, sfx) !in c.dbs && exists_ == (live in c.dbs)
    requires NewName(live, sfx) != live && OldName(live, sfx) != live && NewName(live, sfx) != OldName(live, sfx)
    modifies c
    ensures outcome ==
      if Committed(f.swap, f.cancelled, true) then Done(if exists_ then Some(OldName(live, sfx)) else None)
      else if !Read(f.stateAnswers) then Unknown
      else if Committed(f.swap, f.cancelled, false) then Done(if exists_ then Some(OldName(live, sfx)) else None)
      else Plain
    ensures Committed(f.swap, f.cancelled, false) ==>
      c.dbs == Restored(Rest(old(c.dbs), NewName(live, sfx)), live, OldName(live, sfx), old(c.dbs)[NewName(live, sfx)])
    ensures !Committed(f.swap, f.cancelled, false) ==>
      c.dbs == if f.drop.runs && Read(f.stateAnswers) then Rest(old(c.dbs), NewName(live, sfx)) else old(c.dbs)
    ensures RestoreStep(Rest(old(c.dbs), NewName(live, sfx)), c.dbs, live, sfx)
    ensures old(c.history) <= c.history
    ensures forall h ::
      h in c.history[|old(c.history)|..] ==> RestoreStep(Rest(old(c.dbs), NewName(live, sfx)), h, live, sfx)
  {
    hide NewName, OldName;
    var newDB, oldDB := NewName(live, sfx), OldName(live, sfx);
    var reply := c.Swap(live, newDB, oldDB, exists_, f.swap, f.cancelled);
    assert RestoreStep(Rest(old(c.dbs), newDB), c.dbs, live, sfx);
    if reply != Answered {
      var read := c.SwapState(live, newDB, oldDB, f.stateAnswers);
      if read.None? {
        return Unknown;
      }
      var st := read.value;
      if st.live && st.replacement && !st.previous {
        var dropped := c.DropDB(newDB, f.drop);
        return Plain;
      }
      if st.replacement && !st.live && !exists_ {
        var dropped := c.DropDB(newDB, f.drop);
        return Plain;
      }
      if !(st.live && !st.replacement && (st.previous || !exists_)) {
        return Unexpected;
      }
    }
    outcome := Done(if exists_ then Some(oldDB) else None);
  }

  /** The restore succeeds exactly when the replacement is created and loaded, and
      a try at the swap commits and is known to have, by its reply or by reading the
      state. It tells the truth under lost replies: success means the live name holds
      the backup and the kept name what it held before; a plain error, or a server
      that is dead after the load, means nothing changed but the leftover; no outcome
      loses anything; and with fresh names, when nobody else interferes, the state
      after a failed swap always makes sense. */
  method RestorePostgres<T>(c: Cluster<T>, live: Name, sfx: string, backup: T, f: Fates<T>) returns (outcome: Outcome)
    requires Hex8(sfx) && '\n' !in live
    requires NewName(live, sfx) !in c.dbs && OldName(live, sfx) !in c.dbs
    requires NewName(live, sfx) != live && OldName(live, sfx) != live
    modifies c
    ensures var loaded := f.inspected && f.create.runs && f.create.answered && f.loads;
      var dead := !f.aliveAfterLoad || (!(f.drop.runs && f.drop.answered) && !f.aliveAfterDrop);
      && (outcome.Done? <==>
          && loaded
          && (Committed(f.swap, f.cancelled, true) ||
              (Committed(f.swap, f.cancelled, false) && Read(f.stateAnswers))))
      && (outcome == Unknown <==> loaded && !Committed(f.swap, f.cancelled, true) && !Read(f.stateAnswers))
      && (outcome == Dead <==> f.inspected && f.create.runs && f.create.answered && !f.loads && dead)
    ensures outcome.Done? ==> c.dbs == Restored(old(c.dbs), live, OldName(live, sfx), backup)
    ensures outcome.Done? ==> outcome.kept == (if live in old(c.dbs) then Some(OldName(live, sfx)) else None)
    ensures outcome == Plain || outcome == Dead ==> Untouched(old(c.dbs), c.dbs, NewName(live, sfx))
    ensures outcome != Unexpected
    ensures RestoreStep(old(c.dbs), c.dbs, live, sfx)
    ensures old(c.history) <= c.history
    ensures forall h :: h in c.history[|old(c.history)|..] ==> RestoreStep(old(c.dbs), h, live, sfx)
  {
    var newDB, oldDB := NewName(live, sfx), OldName(live, sfx);
    NamesReadBack(live, sfx);
    hide NewName, OldName;
    if !f.inspected {
      return Plain;
    }
    var exists_ := live in c.dbs;
    ghost var before, n := c.dbs, |c.history|;
    if !Succeeds(f.create) {
      if f.create.runs {
        c.Put(newDB, f.partial);
      }
      return Plain;
    }
    c.Put(newDB, if f.loads then backup else f.partial);
    assert Rest(c.dbs, newDB) == before && RestoreStep(before, c.dbs, live, sfx);
    assert c.history[n..] == [c.dbs];
    ghost var loaded := c.history;
    if !f.loads {
      outcome := LoadFailed(c, newDB, f);
      assert RestoreStep(before, c.dbs, live, sfx);
      assert c.history[n..] == loaded[n..] + c.history[|loaded|..];
      return;
    }
    outcome := SwapReplacement(c, live, sfx, exists_, f);
    assert c.history[n..] == loaded[n..] + c.history[|loaded|..];
  }

  // ---- rollback ----

  datatype RollbackFates = RollbackFates(
    firstAnswers: nat -> bool, swap: nat -> SwapFate, cancelled: nat -> bool, stateAnswers: nat -> bool)

  datatype RollbackOutcome = RolledBack(displaced: Option<Name>) | NotRead | NothingChanged | RollbackUnknown

  /** Swapping a kept database back. It is done, and said to be, exactly when the
      names are read, a try commits, and its reply arrives or the state is read;
      then the live name holds what was kept and what it held is kept in turn. Told
      as not done, nothing changed. */
  method RollbackRestore<T>(c: Cluster<T>, live: Name, previous: Name, sfx: string, f: RollbackFates)
    returns (outcome: RollbackOutcome)
    requires previous in c.dbs && previous != live && NewName(live, sfx) !in c.dbs && NewName(live, sfx) != live
    modifies c
    ensures outcome == NotRead <==> !Read(f.firstAnswers)
    ensures outcome.RolledBack? <==>
      && Read(f.firstAnswers)
      && (Committed(f.swap, f.cancelled, true) || (Committed(f.swap, f.cancelled, false) && Read(f.stateAnswers)))
    ensures outcome == RollbackUnknown <==>
      Read(f.firstAnswers) && !Committed(f.swap, f.cancelled, true) && !Read(f.stateAnswers)
    ensures Read(f.firstAnswers) && Committed(f.swap, f.cancelled, false) ==>
      c.dbs == Restored(old(c.dbs) - {previous}, live, NewName(live, sfx), old(c.dbs)[previous])
    ensures !Read(f.firstAnswers) || !Committed(f.swap, f.cancelled, false) ==> c.dbs == old(c.dbs)
    ensures outcome.RolledBack? ==>
      outcome.displaced == if live in old(c.dbs) then Some(NewName(live, sfx)) else None
    ensures RollbackStep(old(c.dbs), c.dbs, live, previous, sfx)
    ensures old(c.history) <= c.history
    ensures forall h :: h in c.history[|old(c.history)|..] ==> RollbackStep(old(c.dbs), h, live, previous, sfx)
  {
    var displaced := NewName(live, sfx);
    hide NewName;
    var read := c.SwapState(live, previous, displaced, f.firstAnswers);
    if read.None? {
      return NotRead;
    }
    var was := read.value.live;
    var reply := c.Swap(live, previous, displaced, was, f.swap, f.cancelled);
    if reply != Answered {
      var after := c.SwapState(live, previous, displaced, f.stateAnswers);
      if after.None? {
        return RollbackUnknown;
      }
      var st := after.value;
      if !(st.live && !st.replacement && (st.previous || !was)) {
        return NothingChanged;
      }
    }
    outcome := RolledBack(if was then Some(displaced) else None);
  }
}
