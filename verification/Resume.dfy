/** What a restart resumes (internal/autodeploy/ledger.go,
    internal/cli/autodeploy_serve.go): the ledger's bytes and its fold together. */
module Resume {
  import opened Wrappers
  import opened Ledger
  import opened LedgerRuns
  import opened Admissions

  lemma {:induction false} SublistMembers<T>(a: seq<T>, b: seq<T>)
    requires Sublist(a, b)
    ensures forall x :: x in a ==> x in b
    decreases |b|
  {
    if a != [] {
      var front, last := b[..|b| - 1], b[|b| - 1];
      assert b == front + [last] && a == a[..|a| - 1] + [a[|a| - 1]];
      if Sublist(a, front) {
        SublistMembers(a, front);
      } else {
        SublistMembers(a[..|a| - 1], front);
      }
    }
  }

  lemma {:induction false} SublistUnique(a: seq<AdmissionRecord>, b: seq<AdmissionRecord>)
    requires Sublist(a, b) && UniqueIds(b)
    ensures UniqueIds(a)
    decreases |b|
  {
    if a != [] {
      var front, last := b[..|b| - 1], b[|b| - 1];
      assert UniqueIds(front);
      if Sublist(a, front) {
        SublistUnique(a, front);
      } else {
        SublistUnique(a[..|a| - 1], front);
        SublistMembers(a[..|a| - 1], front);
        forall i, k | 0 <= i < k < |a| && a[i].kind == Admitted && a[k].kind == Admitted ensures a[i].id != a[k].id {
          assert a[i] == a[..|a| - 1][i];
          if k < |a| - 1 {
            assert a[k] == a[..|a| - 1][k];
          } else {
            assert a[i] in front;
            var j :| 0 <= j < |front| && front[j] == a[i];
            assert b[j] == a[i] && b[|b| - 1] == a[k];
          }
        }
      }
    }
  }

  lemma {:induction false} OutstandingAre(recs: seq<AdmissionRecord>, n: nat)
    requires n <= |recs|
    ensures forall r :: r in AllOutstanding(recs, n) <==>
      exists i :: 0 <= i < n && recs[i] == r && r.kind == Admitted &&
        forall j :: i < j < |recs| && recs[j].id == r.id ==> recs[j].kind != Superseded && recs[j].kind != Processed
    ensures Sublist(AllOutstanding(recs, n), recs[..n])
  {
    if n > 0 {
      OutstandingAre(recs, n - 1);
      assert recs[..n] == recs[..n - 1] + [recs[n - 1]];
      SublistSnoc(AllOutstanding(recs, n - 1), recs[..n - 1], recs[n - 1]);
      assert AllOutstanding(recs, n - 1) + [] == AllOutstanding(recs, n - 1);
    }
  }

  /** With ids of their own, the pending records are, in the order of the ledger, the
      admissions that no later record supersedes or calls processed. */
  lemma PendingAre(recs: seq<AdmissionRecord>)
    requires UniqueIds(recs)
    ensures forall r :: r in Pending(recs) <==>
      exists i :: 0 <= i < |recs| && recs[i] == r && r.kind == Admitted &&
        forall j :: i < j < |recs| && recs[j].id == r.id ==> recs[j].kind != Superseded && recs[j].kind != Processed
    ensures Sublist(Pending(recs), recs)
  {
    hide Pending, AllOutstanding, UniqueIds, Sublist;
    UniqueIdsFoldExactly(recs);
    OutstandingAre(recs, |recs|);
    assert recs[..|recs|] == recs;
  }

  lemma {:induction false} OutstandingIsListed(recs: seq<AdmissionRecord>, n: nat, i: nat)
    requires i < n <= |recs| && Outstanding(recs, i)
    ensures recs[i] in AllOutstanding(recs, n)
  {
    if i < n - 1 {
      OutstandingIsListed(recs, n - 1, i);
    }
  }

  /** A 200 is kept: whatever the runs, the failed writes and the crashes, a push
      that was acknowledged and never ended is pending when the ledger is next
      folded. */
  lemma AcknowledgedPushIsPending(c: Codec, events: seq<Event>, kept: nat, r: AdmissionRecord)
    requires Faithful(c) && Run(c, EMPTY, events)
    requires var w := After(c, EMPTY, events);
      && w.file.synced <= kept <= |w.file.content|
      && UniqueIds(w.submitted) && r in w.acked && r.kind == Admitted
      && forall s :: s in w.submitted && s.id == r.id ==> !Terminal(s)
    ensures var w := After(c, EMPTY, events);
      forall data | data == w.file.content || data == w.file.content[..kept] ::
        ParseLedger(c, data).Ok? && r in Pending(ParseLedger(c, data).value)
  {
    hide ParseLedger, After, Run, Sublist, Faithful, UniqueIds, Pending, AllOutstanding;
    var w := After(c, EMPTY, events);
    LedgerIsCrashSafe(c, events, kept);
    forall data | data == w.file.content || data == w.file.content[..kept]
      ensures ParseLedger(c, data).Ok? && r in Pending(ParseLedger(c, data).value)
    {
      var recs := ParseLedger(c, data).value;
      SublistMembers(w.acked, recs);
      SublistMembers(recs, w.submitted);
      SublistUnique(recs, w.submitted);
      UniqueIdsFoldExactly(recs);
      var i :| 0 <= i < |recs| && recs[i] == r;
      assert Outstanding(recs, i) by {
        forall j | i < j < |recs| ensures !(Terminal(recs[j]) && recs[j].id == r.id) {
          assert recs[j] in w.submitted;
        }
      }
      OutstandingIsListed(recs, |recs|, i);
    }
  }

  // ---- resuming keeps one admission an app ----

  function SupersededBy(p: AdmissionRecord, newest: string, at: int): AdmissionRecord {
    p.(kind := Superseded, supersededBy := newest, at := at)
  }

  /** The records resuming appends: one for every other pending admission of the
      app. */
  function Superseding(pending: seq<AdmissionRecord>, app: string, newest: string, at: int): seq<AdmissionRecord> {
    if pending == [] then []
    else
      var p := pending[|pending| - 1];
      Superseding(pending[..|pending| - 1], app, newest, at) +
        if p.app == app && p.id != newest then [SupersededBy(p, newest, at)] else []
  }

  /** Those whose id none of the records has. */
  function Spared(pending: seq<AdmissionRecord>, ended: seq<AdmissionRecord>): seq<AdmissionRecord> {
    if ended == [] then pending else Without(Spared(pending, ended[..|ended| - 1]), ended[|ended| - 1].id)
  }

  lemma {:induction false} WithoutMembers(pending: seq<AdmissionRecord>, id: string)
    ensures forall p :: p in Without(pending, id) <==> p in pending && p.id != id
  {
    if pending != [] {
      WithoutMembers(pending[..|pending| - 1], id);
      assert pending == pending[..|pending| - 1] + [pending[|pending| - 1]];
    }
  }

  lemma {:induction false} SparedMembers(pending: seq<AdmissionRecord>, ended: seq<AdmissionRecord>)
    ensures forall p :: p in Spared(pending, ended) <==> p in pending && forall e :: e in ended ==> e.id != p.id
  {
    if ended != [] {
      var front, last := ended[..|ended| - 1], ended[|ended| - 1];
      SparedMembers(pending, front);
      WithoutMembers(Spared(pending, front), last.id);
      assert ended == front + [last];
    }
  }

  lemma {:induction false} FoldEnded(recs: seq<AdmissionRecord>, ended: seq<AdmissionRecord>)
    requires UniqueIds(recs) && forall e :: e in ended ==> e.kind == Superseded
    ensures UniqueIds(recs + ended) && Pending(recs + ended) == Spared(Pending(recs), ended)
  {
    if ended == [] {
      assert recs + ended == recs;
    } else {
      hide UniqueIds, Pending, Without;
      var front, last := ended[..|ended| - 1], ended[|ended| - 1];
      assert forall e :: e in front ==> e in ended;
      FoldEnded(recs, front);
      assert last in ended && recs + ended == (recs + front) + [last];
      EndedIsUnique(recs + front, last);
      FoldExtends(recs + front, last);
    }
  }

  lemma EndedIsUnique(recs: seq<AdmissionRecord>, last: AdmissionRecord)
    requires UniqueIds(recs) && last.kind == Superseded
    ensures UniqueIds(recs + [last])
  {
  }

  lemma {:induction false} SupersedingIds(pending: seq<AdmissionRecord>, app: string, newest: string, at: int)
    ensures forall e :: e in Superseding(pending, app, newest, at) ==>
      e.kind == Superseded && e.id != newest && e.supersededBy == newest && e.at == at
    ensures forall e ::
      e in Superseding(pending, app, newest, at) ==> exists p :: p in pending && p.app == app && p.id == e.id
    ensures forall p ::
      p in pending && p.app == app && p.id != newest ==>
      exists e :: e in Superseding(pending, app, newest, at) && e.id == p.id
  {
    if pending != [] {
      var front, p := pending[..|pending| - 1], pending[|pending| - 1];
      SupersedingIds(front, app, newest, at);
      assert pending == front + [p];
      assert p.app == app && p.id != newest ==> SupersededBy(p, newest, at) in Superseding(pending, app, newest, at);
    }
  }

  /** A resume that got only some of its superseding records to disk, or stopped
      part-way, leaves the newest, every other app's, and exactly those of the
      app's others whose record is missing. */
  lemma PartialResumeKeepsTheNewest(recs: seq<AdmissionRecord>, app: string, newest: AdmissionRecord, at: int,
                                    written: seq<AdmissionRecord>)
    requires UniqueIds(recs) && newest in Pending(recs) && newest.app == app
    requires forall p, q :: p in Pending(recs) && q in Pending(recs) && p.id == q.id ==> p == q
    requires Sublist(written, Superseding(Pending(recs), app, newest.id, at))
    ensures var after := Pending(recs + written);
      forall p :: p in after <==>
        p in Pending(recs) && (p.app != app || p == newest || forall e :: e in written ==> e.id != p.id)
  {
    hide Pending, UniqueIds;
    var pending := Pending(recs);
    var ended := Superseding(pending, app, newest.id, at);
    SupersedingIds(pending, app, newest.id, at);
    SublistMembers(written, ended);
    FoldEnded(recs, written);
    SparedMembers(pending, written);
    forall p | p in pending && (p.app != app || p == newest) ensures forall e :: e in written ==> e.id != p.id {
      forall e | e in written ensures e.id != p.id {
        var q :| q in pending && q.app == app && q.id == e.id;
      }
    }
  }
}
