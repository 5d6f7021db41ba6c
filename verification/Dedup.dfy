/** Replay rejection and its reseeding from the admission ledger
    (internal/autodeploy/webhook.go, ledger.go). Times are nanoseconds. */
module Dedup {
  import opened Ordering
  import opened Ledger
  import opened Admissions

  const DELIVERY_TTL := 24 * 3600 * 1_000_000_000

  function ContentIDFromDigest(digest: string): string { "content:" + digest }

  lemma ContentIDInjective(a: string, b: string)
    requires ContentIDFromDigest(a) == ContentIDFromDigest(b)
    ensures a == b
  {
    assert ContentIDFromDigest(a)[8..] == a && ContentIDFromDigest(b)[8..] == b;
  }

  /** Would a delivery of id at time t be rejected as a replay? */
  predicate Replays(seen: map<string, int>, id: string, t: int) {
    id in seen && t - seen[id] <= DELIVERY_TTL
  }

  function Recorded(seen: map<string, int>, id: string, now: int): map<string, int> {
    if id in seen then seen else seen[id := now]
  }

  class DeliveryDedup {
    var seen: map<string, int>

    constructor ()
      ensures seen == map[]
    {
      seen := map[];
    }

    /** A replay is an id recorded within the last 24 hours. Older entries go, and a
        new id is recorded. */
    method SeenAndRecord(id: string, now: int) returns (replay: bool)
      modifies this
      ensures replay <==> id in old(seen) && now - old(seen)[id] <= 86_400_000_000_000
      ensures var recent := map k | k in old(seen) && now - old(seen)[k] <= 86_400_000_000_000 :: old(seen)[k];
        seen == if replay then recent else recent[id := now]
      ensures replay == Replays(old(seen), id, now)
    {
      var keys := seen.Keys;
      while keys != {}
        invariant keys <= seen.Keys <= old(seen).Keys
        invariant forall k :: k in seen ==> seen[k] == old(seen)[k]
        invariant forall k :: k in old(seen) ==> (k in seen <==> k in keys || now - old(seen)[k] <= DELIVERY_TTL)
      {
        var k :| k in keys;
        keys := keys - {k};
        if now - seen[k] > DELIVERY_TTL {
          seen := seen - {k};
        }
      }
      assert seen == map k | k in old(seen) && now - old(seen)[k] <= DELIVERY_TTL :: old(seen)[k];
      if id in seen {
        return true;
      }
      seen := seen[id := now];
      return false;
    }

    method RecordOnly(id: string, now: int)
      modifies this
      ensures seen == Recorded(old(seen), id, now)
    {
      if id !in seen {
        seen := seen[id := now];
      }
    }

    method Unrecord(id: string)
      modifies this
      ensures seen == old(seen) - {id}
    {
      seen := seen - {id};
    }
  }

  // ---- seeding ----

  /** What a pass over the first n sorted digests leaves; clock(i) is the reading
      the i-th one is recorded at. */
  function SeedFirst(seen: map<string, int>, digests: map<string, int>, keys: seq<string>, n: nat, now: int,
                     clock: nat -> int): map<string, int>
    requires n <= |keys| && forall k :: k in keys ==> k in digests
  {
    if n == 0 then seen
    else
      var before := SeedFirst(seen, digests, keys, n - 1, now, clock);
      if now - digests[keys[n - 1]] > DELIVERY_TTL then before
      else Recorded(before, ContentIDFromDigest(keys[n - 1]), clock(n - 1))
  }

  method SeedDedupFromLedger(d: DeliveryDedup, digests: map<string, int>, now: int, clock: nat -> int)
    returns (ghost keys: seq<string>)
    modifies d
    ensures forall k :: k in keys <==> k in digests
    ensures d.seen == SeedFirst(old(d.seen), digests, keys, |keys|, now, clock)
  {
    var rest := digests.Keys;
    var ks: seq<string> := [];
    while rest != {}
      invariant rest <= digests.Keys
      invariant forall k :: k in ks <==> k in digests && k !in rest
    {
      var k :| k in rest;
      rest := rest - {k};
      ks := ks + [k];
    }
    SortByElements(StrLess, ks);
    ks := SortBy(StrLess, ks);
    keys := ks;
    for i := 0 to |ks|
      invariant d.seen == SeedFirst(old(d.seen), digests, ks, i, now, clock)
    {
      if now - digests[ks[i]] > DELIVERY_TTL {
        continue;
      }
      d.RecordOnly(ContentIDFromDigest(ks[i]), clock(i));
    }
  }

  lemma {:induction false} SeedFirstEntries(seen: map<string, int>, digests: map<string, int>, keys: seq<string>,
                                            n: nat, now: int, clock: nat -> int, digest: string)
    requires n <= |keys| && forall k :: k in keys ==> k in digests
    ensures var id, after := ContentIDFromDigest(digest), SeedFirst(seen, digests, keys, n, now, clock);
      && (id in after <==> id in seen || (digest in keys[..n] && now - digests[digest] <= DELIVERY_TTL))
      && (id in seen ==> after[id] == seen[id])
      && (id in after && id !in seen ==> exists i :: 0 <= i < n && after[id] == clock(i))
  {
    if n > 0 {
      SeedFirstEntries(seen, digests, keys, n - 1, now, clock, digest);
      assert keys[..n] == keys[..n - 1] + [keys[n - 1]];
      if ContentIDFromDigest(keys[n - 1]) == ContentIDFromDigest(digest) {
        ContentIDInjective(keys[n - 1], digest);
      }
    }
  }

  /** The digest was first admitted by record i. */
  ghost predicate FirstAdmission(recs: seq<AdmissionRecord>, digest: string, i: nat) {
    && i < |recs| && recs[i].kind == Admitted && recs[i].digest == digest
    && forall j :: 0 <= j < i ==> !(recs[j].kind == Admitted && recs[j].digest == digest)
  }

  ghost predicate FirstAdmittedWithinTTL(recs: seq<AdmissionRecord>, digest: string, now: int) {
    exists i: nat :: FirstAdmission(recs, digest, i) && now - recs[i].received <= 86_400_000_000_000
  }

  lemma {:induction false} DigestsAreFirstAdmissions(recs: seq<AdmissionRecord>, digest: string)
    ensures digest in FoldDigests(recs) <==> exists i: nat :: FirstAdmission(recs, digest, i)
    ensures forall i: nat ::
      FirstAdmission(recs, digest, i) ==> digest in FoldDigests(recs) && FoldDigests(recs)[digest] == recs[i].received
  {
    if recs != [] {
      var front := recs[..|recs| - 1];
      DigestsAreFirstAdmissions(front, digest);
      forall i: nat | FirstAdmission(front, digest, i) ensures FirstAdmission(recs, digest, i) {}
      forall i: nat | FirstAdmission(recs, digest, i) ensures i == |front| || FirstAdmission(front, digest, i) {
        if i < |front| {
          assert front[i] == recs[i];
        }
      }
      if digest !in FoldDigests(front) && recs[|front|].kind == Admitted && recs[|front|].digest == digest {
        forall j | 0 <= j < |front| ensures !(recs[j].kind == Admitted && recs[j].digest == digest) {
          NoAdmissionBefore(front, digest, j);
        }
        assert FirstAdmission(recs, digest, |front|);
      }
    }
  }

  /** An admitted digest has a first admission. */
  lemma {:induction false} NoAdmissionBefore(recs: seq<AdmissionRecord>, digest: string, j: nat)
    requires j < |recs| && forall i: nat :: !FirstAdmission(recs, digest, i)
    ensures !(recs[j].kind == Admitted && recs[j].digest == digest)
  {
    forall i | 0 <= i < j ensures !(recs[i].kind == Admitted && recs[i].digest == digest) {
      NoAdmissionBefore(recs, digest, i);
    }
    assert !FirstAdmission(recs, digest, j);
  }

  /** After a restart an authenticated body reads as a replay exactly as long as
      its dedup entry is fresh: the entry loaded from the dedup file, or one made
      while seeding because the body's first admission was within the TTL. */
  lemma SeededReplays(recs: seq<AdmissionRecord>, seen: map<string, int>, keys: seq<string>, now: int,
                      clock: nat -> int, digest: string, t: int)
    requires forall k :: k in keys <==> k in FoldDigests(recs)
    ensures var id, after := ContentIDFromDigest(digest), SeedFirst(seen, FoldDigests(recs), keys, |keys|, now, clock);
      && (id in after <==> id in seen || FirstAdmittedWithinTTL(recs, digest, now))
      && (id in seen ==> (Replays(after, id, t) <==> Replays(seen, id, t)))
      && ((forall i: nat :: t - clock(i) <= DELIVERY_TTL) && id !in seen ==>
            (Replays(after, id, t) <==> FirstAdmittedWithinTTL(recs, digest, now)))
  {
    SeedFirstEntries(seen, FoldDigests(recs), keys, |keys|, now, clock, digest);
    assert keys[..|keys|] == keys;
    DigestsAreFirstAdmissions(recs, digest);
  }

  ghost predicate AdmittedWithinTTL(recs: seq<AdmissionRecord>, digest: string, now: int) {
    exists i :: 0 <= i < |recs| && recs[i].kind == Admitted && recs[i].digest == digest &&
      now - recs[i].received <= DELIVERY_TTL
  }

  /** Which admitted bodies seeding misses: those whose first admission is older
      than the TTL, however recently they were admitted again. */
  lemma SeedingMissesIff(recs: seq<AdmissionRecord>, keys: seq<string>, now: int, clock: nat -> int, digest: string)
    requires forall k :: k in keys <==> k in FoldDigests(recs)
    requires AdmittedWithinTTL(recs, digest, now)
    ensures ContentIDFromDigest(digest) !in SeedFirst(map[], FoldDigests(recs), keys, |keys|, now, clock)
       <==> exists i: nat :: FirstAdmission(recs, digest, i) && now - recs[i].received > 86_400_000_000_000
  {
    SeededReplays(recs, map[], keys, now, clock, digest, now);
    var j :| 0 <= j < |recs| && recs[j].kind == Admitted && recs[j].digest == digest &&
      now - recs[j].received <= DELIVERY_TTL;
    if forall i: nat :: !FirstAdmission(recs, digest, i) {
      NoAdmissionBefore(recs, digest, j);
    }
    forall i: nat, k: nat | FirstAdmission(recs, digest, i) && FirstAdmission(recs, digest, k) ensures i == k {
    }
  }

  /** A body admitted a second time one TTL after the first, then a restart: the
      second admission is a nanosecond old and its redelivery is not a replay. */
  lemma ReadmittedBodyIsForgotten(first: AdmissionRecord, again: AdmissionRecord, clock: nat -> int)
    requires first.kind == Admitted && again.kind == Admitted && first.digest == again.digest
    requires first.received == 0 && again.received == DELIVERY_TTL + 1
    ensures var now := DELIVERY_TTL + 2;
      && AdmittedWithinTTL([first, again], first.digest, now)
      && !Replays(SeedFirst(map[], FoldDigests([first, again]), [first.digest], 1, now, clock),
        ContentIDFromDigest(first.digest), now)
  {
    var recs := [first, again];
    assert recs[1].received == again.received;
    assert recs[..1] == [first] && recs[..1][..0] == [];
    assert FoldDigests(recs[..1]) == map[first.digest := 0];
    assert FoldDigests(recs) == map[first.digest := 0];
  }
}
