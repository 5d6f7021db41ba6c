/** Resuming from the admission ledger: the fold of its records and the replay
    dedup they reseed (internal/autodeploy/ledger.go, webhook.go). */
module Admissions {
  import opened Wrappers
  import opened Ordering
  import opened Ledger

  predicate Terminal(r: AdmissionRecord) {
    r.kind == Superseded || r.kind == Processed
  }

  // ---- the fold, record by record ----

  function FoldState(recs: seq<AdmissionRecord>): map<string, Kind> {
    if recs == [] then map[]
    else
      var state, r := FoldState(recs[..|recs| - 1]), recs[|recs| - 1];
      if r.kind == Admitted then state[r.id := Admitted]
      else if Terminal(r) && r.id in state && state[r.id] == Admitted then state[r.id := r.kind]
      else state
  }

  /** The digest map: the first admission of a digest sets its time. */
  function FoldDigests(recs: seq<AdmissionRecord>): map<string, int> {
    if recs == [] then map[]
    else
      var digests, r := FoldDigests(recs[..|recs| - 1]), recs[|recs| - 1];
      if r.kind == Admitted && r.digest !in digests then digests[r.digest := r.received] else digests
  }

  /** The admitted ones among the first n records that a state calls admitted. */
  function StillAdmitted(recs: seq<AdmissionRecord>, n: nat, state: map<string, Kind>): seq<AdmissionRecord>
    requires n <= |recs|
  {
    if n == 0 then []
    else
      StillAdmitted(recs, n - 1, state) +
      if recs[n - 1].kind == Admitted && recs[n - 1].id in state && state[recs[n - 1].id] == Admitted
        then [recs[n - 1]] else []
  }

  function Pending(recs: seq<AdmissionRecord>): seq<AdmissionRecord> {
    StillAdmitted(recs, |recs|, FoldState(recs))
  }

  method FoldAdmissions(recs: seq<AdmissionRecord>) returns (pending: seq<AdmissionRecord>, digests: map<string, int>)
    ensures pending == Pending(recs)
    ensures digests == FoldDigests(recs)
  {
    digests := map[];
    var state: map<string, Kind> := map[];
    for i := 0 to |recs|
      invariant state == FoldState(recs[..i])
      invariant digests == FoldDigests(recs[..i])
    {
      assert recs[..i + 1][..i] == recs[..i];
      var rec := recs[i];
      match rec.kind {
        case Admitted =>
          state := state[rec.id := Admitted];
          if rec.digest !in digests {
            digests := digests[rec.digest := rec.received];
          }
        case Superseded =>
          if rec.id in state && state[rec.id] == Admitted {
            state := state[rec.id := rec.kind];
          }
        case Processed =>
          if rec.id in state && state[rec.id] == Admitted {
            state := state[rec.id := rec.kind];
          }
        case Unknown(_) =>
      }
    }
    assert recs[..|recs|] == recs;
    pending := [];
    for i := 0 to |recs|
      invariant pending == StillAdmitted(recs, i, state)
    {
      if recs[i].kind == Admitted && recs[i].id in state && state[recs[i].id] == Admitted {
        pending := pending + [recs[i]];
      }
    }
  }

  // ---- what it means ----

  /** No record after position i ends admission id. */
  ghost predicate NotEndedAfter(recs: seq<AdmissionRecord>, i: nat, id: string) {
    forall j :: i < j < |recs| ==> !(Terminal(recs[j]) && recs[j].id == id)
  }

  ghost predicate Live(recs: seq<AdmissionRecord>, id: string) {
    exists i :: 0 <= i < |recs| && recs[i].kind == Admitted && recs[i].id == id && NotEndedAfter(recs, i, id)
  }

  lemma {:induction false} StateIsLive(recs: seq<AdmissionRecord>, id: string)
    ensures (id in FoldState(recs) && FoldState(recs)[id] == Admitted) <==> Live(recs, id)
  {
    if recs != [] {
      var front, r := recs[..|recs| - 1], recs[|recs| - 1];
      StateIsLive(front, id);
      if r.kind == Admitted && r.id == id {
        assert NotEndedAfter(recs, |recs| - 1, id);
      } else {
        if Live(front, id) && !(Terminal(r) && r.id == id) {
          var i :| 0 <= i < |front| && front[i].kind == Admitted && front[i].id == id && NotEndedAfter(front, i, id);
          assert NotEndedAfter(recs, i, id);
        }
        if Live(recs, id) {
          var i :| 0 <= i < |recs| && recs[i].kind == Admitted && recs[i].id == id && NotEndedAfter(recs, i, id);
          assert recs[|recs| - 1] == r;
          assert NotEndedAfter(front, i, id);
        }
      }
    }
  }

  /** The documented fold: admitted, and not superseded or processed later. */
  ghost predicate Outstanding(recs: seq<AdmissionRecord>, i: nat)
    requires i < |recs|
  {
    recs[i].kind == Admitted && NotEndedAfter(recs, i, recs[i].id)
  }

  ghost function AllOutstanding(recs: seq<AdmissionRecord>, n: nat): seq<AdmissionRecord>
    requires n <= |recs|
  {
    if n == 0 then [] else AllOutstanding(recs, n - 1) + if Outstanding(recs, n - 1) then [recs[n - 1]] else []
  }

  /** An id admitted again after it ended, and not ended since. */
  ghost predicate Readmitted(recs: seq<AdmissionRecord>) {
    exists i, k ::
      0 <= i < k < |recs| && recs[i].kind == Admitted && recs[k].kind == Admitted && recs[i].id == recs[k].id
      && !NotEndedAfter(recs, i, recs[i].id) && NotEndedAfter(recs, k, recs[k].id)
  }

  lemma SnocCancels<T>(a: seq<T>, b: seq<T>, x: T)
    ensures a + [x] == b + [x] <==> a == b
  {
    if a + [x] == b + [x] {
      assert |a + [x]| == |b + [x]|;
      assert a == (a + [x])[..|a|] && b == (b + [x])[..|b|];
    }
  }

  lemma SnocLonger<T>(a: seq<T>, b: seq<T>, x: T)
    requires |a| <= |b|
    ensures a != b + [x]
  {
    assert |b + [x]| == |b| + 1;
  }

  /** Every live admission among the first n records is outstanding. */
  ghost predicate LiveAreOutstanding(recs: seq<AdmissionRecord>, n: nat)
    requires n <= |recs|
  {
    forall i :: 0 <= i < n && recs[i].kind == Admitted && Live(recs, recs[i].id) ==> Outstanding(recs, i)
  }

  lemma {:induction false} StillAdmittedCovers(recs: seq<AdmissionRecord>, n: nat)
    requires n <= |recs|
    ensures |AllOutstanding(recs, n)| <= |StillAdmitted(recs, n, FoldState(recs))|
    ensures AllOutstanding(recs, n) == StillAdmitted(recs, n, FoldState(recs)) <==> LiveAreOutstanding(recs, n)
  {
    if n > 0 {
      StillAdmittedCovers(recs, n - 1);
      StateIsLive(recs, recs[n - 1].id);
      hide FoldState;
      var a, b, last := AllOutstanding(recs, n - 1), StillAdmitted(recs, n - 1, FoldState(recs)), recs[n - 1];
      assert Outstanding(recs, n - 1) ==> Live(recs, last.id);
      hide Live, Outstanding, NotEndedAfter;
      SnocCancels(a, b, last);
      SnocLonger(a, b, last);
      OutstandingIsAdmitted(recs, n - 1);
      var still := last.kind == Admitted && Live(recs, last.id);
      assert LiveAreOutstanding(recs, n) <==> (LiveAreOutstanding(recs, n - 1) && (still ==> Outstanding(recs, n - 1)));
      assert StillAdmitted(recs, n, FoldState(recs)) == b + if still then [last] else [];
      assert AllOutstanding(recs, n) == a + if Outstanding(recs, n - 1) then [last] else [];
      assert a + [] == a && b + [] == b;
      if Outstanding(recs, n - 1) {
        assert still;
      } else if still {
        assert AllOutstanding(recs, n) == a && StillAdmitted(recs, n, FoldState(recs)) == b + [last];
      } else {
        assert AllOutstanding(recs, n) == a && StillAdmitted(recs, n, FoldState(recs)) == b;
      }
    }
  }

  lemma OutstandingIsAdmitted(recs: seq<AdmissionRecord>, i: nat)
    requires i < |recs|
    ensures Outstanding(recs, i) ==> recs[i].kind == Admitted
  {
  }

  /** The fold is the documented one exactly when no id was admitted again after
      it ended; ids are minted at random, so none is. */
  lemma FoldIsExactIff(recs: seq<AdmissionRecord>)
    ensures Pending(recs) == AllOutstanding(recs, |recs|) <==> !Readmitted(recs)
  {
    StillAdmittedCovers(recs, |recs|);
    if !Readmitted(recs) {
      forall i | 0 <= i < |recs| && recs[i].kind == Admitted && Live(recs, recs[i].id) ensures Outstanding(recs, i) {
        var id := recs[i].id;
        var k :| 0 <= k < |recs| && recs[k].kind == Admitted && recs[k].id == id && NotEndedAfter(recs, k, id);
        if k <= i {
          assert NotEndedAfter(recs, i, id);
        }
      }
    } else {
      var i, k :| 0 <= i < k < |recs| && recs[i].kind == Admitted && recs[k].kind == Admitted &&
        recs[i].id == recs[k].id
        && !NotEndedAfter(recs, i, recs[i].id) && NotEndedAfter(recs, k, recs[k].id);
      assert Live(recs, recs[i].id);
      assert !Outstanding(recs, i);
    }
  }

  ghost predicate UniqueIds(recs: seq<AdmissionRecord>) {
    forall i, k ::
      0 <= i < k < |recs| && recs[i].kind == Admitted && recs[k].kind == Admitted ==> recs[i].id != recs[k].id
  }

  lemma UniqueIdsFoldExactly(recs: seq<AdmissionRecord>)
    requires UniqueIds(recs)
    ensures Pending(recs) == AllOutstanding(recs, |recs|)
  {
    FoldIsExactIff(recs);
  }

  /** One more record, on what the fold already knows. */
  function PendingStep(pending: seq<AdmissionRecord>, r: AdmissionRecord): seq<AdmissionRecord> {
    if r.kind == Admitted then pending + [r]
    else if Terminal(r) then Without(pending, r.id)
    else pending
  }

  function Without(pending: seq<AdmissionRecord>, id: string): seq<AdmissionRecord> {
    if pending == [] then []
    else Without(pending[..|pending| - 1], id) + if pending[|pending| - 1].id == id then []
      else [pending[|pending| - 1]]
  }

  lemma WithoutSnoc(pending: seq<AdmissionRecord>, r: AdmissionRecord, id: string)
    ensures Without(pending + [r], id) == Without(pending, id) + if r.id == id then [] else [r]
  {
    assert (pending + [r])[..|pending|] == pending;
  }

  /** How one more record changes what the state calls admitted. */
  lemma StateStep(recs: seq<AdmissionRecord>, r: AdmissionRecord, id: string)
    requires r.kind == Admitted ==> r.id != id
    ensures (id in FoldState(recs + [r]) && FoldState(recs + [r])[id] == Admitted)
       <==> id in FoldState(recs) && FoldState(recs)[id] == Admitted && !(Terminal(r) && r.id == id)
  {
    assert (recs + [r])[..|recs|] == recs;
  }

  lemma {:induction false} StillAdmittedStep(recs: seq<AdmissionRecord>, r: AdmissionRecord, n: nat)
    requires n <= |recs| && UniqueIds(recs + [r])
    ensures StillAdmitted(recs + [r], n, FoldState(recs + [r]))
         == if Terminal(r) then Without(StillAdmitted(recs, n, FoldState(recs)), r.id)
           else StillAdmitted(recs, n, FoldState(recs))
  {
    hide FoldState;
    if n > 0 {
      StillAdmittedStep(recs, r, n - 1);
      var more, last := recs + [r], recs[n - 1];
      assert more[n - 1] == last && more[|recs|] == r;
      var before, after := StillAdmitted(recs, n - 1, FoldState(recs)), StillAdmitted(more, n - 1, FoldState(more));
      assert StillAdmitted(more, n, FoldState(more)) == after +
        if last.kind == Admitted && last.id in FoldState(more) && FoldState(more)[last.id] == Admitted then [last]
        else [];
      if last.kind != Admitted {
        assert StillAdmitted(recs, n, FoldState(recs)) == before;
      } else {
        StateStep(recs, r, last.id);
        if last.id in FoldState(recs) && FoldState(recs)[last.id] == Admitted {
          assert StillAdmitted(recs, n, FoldState(recs)) == before + [last];
          WithoutSnoc(before, last, r.id);
          assert Terminal(r) && r.id == last.id ==> Without(before + [last], r.id) == Without(before, r.id);
        } else {
          assert StillAdmitted(recs, n, FoldState(recs)) == before;
        }
      }
    }
  }

  /** Folding a longer ledger is folding the shorter one and one step more. */
  lemma FoldExtends(recs: seq<AdmissionRecord>, r: AdmissionRecord)
    requires UniqueIds(recs + [r])
    ensures Pending(recs + [r]) == PendingStep(Pending(recs), r)
  {
    assert (recs + [r])[..|recs|] == recs;
    assert StillAdmitted(recs + [r], |recs| + 1, FoldState(recs + [r])) ==
      StillAdmitted(recs + [r], |recs|, FoldState(recs + [r])) + if r.kind == Admitted then [r] else [];
    StillAdmittedStep(recs, r, |recs|);
  }

  // ---- the newest pending admission ----

  ghost predicate NewestFor(pending: seq<AdmissionRecord>, app: string, i: nat) {
    && i < |pending| && pending[i].app == app
    && forall j :: 0 <= j < |pending| && pending[j].app == app ==>
         pending[j].received <= pending[i].received && (j > i ==> pending[j].received < pending[i].received)
  }

  /** The last of the app's latest-received records. */
  method NewestPending(pending: seq<AdmissionRecord>, app: string) returns (newest: Option<AdmissionRecord>)
    ensures newest == None <==> forall r :: r in pending ==> r.app != app
    ensures newest.Some? ==> exists i: nat :: NewestFor(pending, app, i) && newest.value == pending[i]
  {
    newest := None;
    ghost var at: nat := 0;
    for i := 0 to |pending|
      invariant newest == None ==> forall r :: r in pending[..i] ==> r.app != app
      invariant newest.Some? ==> NewestFor(pending[..i], app, at) && newest.value == pending[at]
    {
      assert pending[..i + 1] == pending[..i] + [pending[i]];
      if pending[i].app == app && (newest == None || pending[i].received >= newest.value.received) {
        newest, at := Some(pending[i]), i;
        forall j | 0 <= j <= i && pending[j].app == app ensures pending[j].received <= pending[i].received {
          assert j < i ==> pending[..i][j] == pending[j];
        }
      }
    }
    assert pending[..|pending|] == pending;
  }
}
