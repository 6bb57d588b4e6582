/** The comparison verdict over nine continuation records: three arms, three repetitions. */
module Verdict {
  import opened Options

  const RETRIEVAL_CALL_LIMIT := 4

  datatype Arm = A | B | C | OtherArm(name: string)

  datatype Key = Key(arm: Arm, repetition: int)

  /** `verified` is a verification error recorded as None; `lookup` is `lookup_before_work is True`. */
  datatype Record = Record(
    arm: Arm, repetition: int, session: Option<string>, settled: bool, behaviorPass: bool, constraintPass: bool,
      verified: bool,
    retrievalCalls: int, retrievedConstraint: bool, retrievedFailure: bool, trajectoryVerified: bool, lookup: bool)
  {
    function Id(): Key {
      Key(arm, repetition)
    }
  }

  const EXPECTED: set<Key> := {
    Key(A, 1), Key(A, 2), Key(A, 3), Key(B, 1), Key(B, 2), Key(B, 3), Key(C, 1), Key(C, 2), Key(C, 3)}

  predicate Passes(r: Record, lookupRequired: bool) {
    && r.arm.C? && r.settled && r.behaviorPass && r.constraintPass && r.verified
    && 1 <= r.retrievalCalls <= RETRIEVAL_CALL_LIMIT
    && r.retrievedConstraint && r.retrievedFailure && r.trajectoryVerified
    && (lookupRequired ==> r.lookup)
  }

  predicate Misses(r: Record) {
    r.arm.A? && r.settled && r.verified && !r.constraintPass
  }

  function KeySet(records: seq<Record>): set<Key> {
    set r | r in records :: r.Id()
  }

  function SessionSet(records: seq<Record>): set<Option<string>> {
    set r | r in records :: r.session
  }

  // ----- what the flags mean, without mentioning order -----

  ghost predicate IsComplete(records: seq<Record>) {
    && |records| == 9
    && KeySet(records) == EXPECTED
    && |SessionSet(records)| == 9
    && forall r :: r in records ==> r.session.Some? && r.session.value != ""
  }

  ghost predicate IsFeasible(records: seq<Record>, lookupRequired: bool) {
    IsComplete(records) && forall r :: r in records && r.arm.C? ==> Passes(r, lookupRequired)
  }

  ghost predicate IsBenefit(records: seq<Record>, lookupRequired: bool) {
    IsFeasible(records, lookupRequired) && exists r :: r in records && Misses(r)
  }

  /** The flags depend only on which records there are. */
  lemma OrderIsIrrelevant(a: seq<Record>, b: seq<Record>, lookupRequired: bool)
    requires multiset(a) == multiset(b)
    ensures IsComplete(a) == IsComplete(b)
    ensures IsFeasible(a, lookupRequired) == IsFeasible(b, lookupRequired)
    ensures IsBenefit(a, lookupRequired) == IsBenefit(b, lookupRequired)
  {
    assert |multiset(a)| == |a| && |multiset(b)| == |b|;
    forall r ensures r in a <==> r in b { assert r in a <==> r in multiset(a); assert r in b <==> r in multiset(b); }
    assert KeySet(a) == KeySet(b) && SessionSet(a) == SessionSet(b);
  }

  // ----- the computation -----

  /** `dict(zip(keys, records))`: a later record replaces an earlier one. */
  function ByKey(records: seq<Record>): map<Key, Record> {
    if records == [] then map[]
    else ByKey(records[..|records| - 1])[records[|records| - 1].Id() := records[|records| - 1]]
  }

  function Passed(records: seq<Record>, lookupRequired: bool): seq<Record> {
    if records == [] then []
    else
      var last := records[|records| - 1];
      Passed(records[..|records| - 1], lookupRequired) + (if Passes(last, lookupRequired) then [last] else [])
  }

  method Evaluate(records: seq<Record>, lookupRequired: bool) returns (complete: bool, feasible: bool, benefit: bool)
    ensures complete == IsComplete(records)
    ensures feasible == IsFeasible(records, lookupRequired)
    ensures benefit == IsBenefit(records, lookupRequired)
  {
    complete := |records| == 9 && KeySet(records) == EXPECTED && |SessionSet(records)| == 9 &&
      forall r :: r in records ==> r.session.Some? && r.session.value != "";
    var byKey, passed := ByKey(records), Passed(records, lookupRequired);
    var pairedFailure := false;
    for repetition := 1 to 4
      invariant pairedFailure <==> exists k :: 1 <= k < repetition && PairedAt(byKey, passed, k)
    {
      if Key(A, repetition) in byKey && Key(B, repetition) in byKey && Key(C, repetition) in byKey {
        var a, c := byKey[Key(A, repetition)], byKey[Key(C, repetition)];
        pairedFailure := pairedFailure || (a.settled && a.verified && !a.constraintPass && c in passed);
        assert PairedAt(byKey, passed, repetition) <==> a.settled && a.verified && !a.constraintPass && c in passed;
      }
    }
    feasible := complete && |passed| == 3;
    benefit := feasible && pairedFailure;
    if complete {
      AllPassed(records, lookupRequired);
      if feasible { PairedIsMiss(records, lookupRequired, byKey, passed); }
    }
  }

  ghost predicate PairedAt(byKey: map<Key, Record>, passed: seq<Record>, k: int) {
    && Key(A, k) in byKey && Key(B, k) in byKey && Key(C, k) in byKey
    && byKey[Key(A, k)].settled && byKey[Key(A, k)].verified && !byKey[Key(A, k)].constraintPass &&
       byKey[Key(C, k)] in passed
  }

  // ----- counting -----

  lemma KeySetSnoc(records: seq<Record>)
    requires records != []
    ensures KeySet(records) == KeySet(records[..|records| - 1]) + {records[|records| - 1].Id()}
  {
    var n := |records| - 1;
    assert records == records[..n] + [records[n]];
  }

  lemma {:induction false} KeySetSize(records: seq<Record>)
    ensures |KeySet(records)| <= |records|
  {
    if records == [] {
      assert KeySet(records) == {};
    } else {
      KeySetSize(records[..|records| - 1]);
      KeySetSnoc(records);
    }
  }

  /** As many keys as records means that no key repeats. */
  lemma {:induction false} KeysDistinct(records: seq<Record>, i: nat, j: nat)
    requires |KeySet(records)| == |records| && i < j < |records|
    ensures records[i].Id() != records[j].Id()
    decreases |records|
  {
    var n := |records| - 1;
    var init := records[..n];
    KeySetSize(init);
    KeySetSnoc(records);
    assert init[i] in init;
    if j < n { KeysDistinct(init, i, j); }
  }

  lemma NineKeys()
    ensures |EXPECTED| == 9
  {
  }

  /** The position of a key in complete records; there is only one. */
  lemma PositionOf(records: seq<Record>, k: Key) returns (i: nat)
    requires |records| == 9 && KeySet(records) == EXPECTED && k in EXPECTED
    ensures i < |records| && records[i].Id() == k
    ensures forall j :: 0 <= j < |records| && records[j].Id() == k ==> j == i
  {
    NineKeys();
    assert k in KeySet(records);
    var r :| r in records && r.Id() == k;
    i :| 0 <= i < |records| && records[i] == r;
    forall j | 0 <= j < |records| && records[j].Id() == k ensures j == i {
      if j < i { KeysDistinct(records, j, i); }
      if i < j { KeysDistinct(records, i, j); }
    }
  }

  /** The three positions of the C runs. */
  lemma PositionsOfC(records: seq<Record>) returns (i: nat, j: nat, k: nat)
    requires |records| == 9 && KeySet(records) == EXPECTED
    ensures i != j && j != k && i != k && i < |records| && j < |records| && k < |records|
    ensures forall m: nat :: m < |records| ==> (records[m].arm.C? <==> m == i || m == j || m == k)
  {
    i := PositionOf(records, Key(C, 1));
    j := PositionOf(records, Key(C, 2));
    k := PositionOf(records, Key(C, 3));
    forall m: nat | m < |records| && records[m].arm.C? ensures m == i || m == j || m == k {
      assert records[m].Id() in KeySet(records);
    }
  }

  ghost function PassedAt(records: seq<Record>, lookupRequired: bool): set<nat> {
    set i: nat | i < |records| && Passes(records[i], lookupRequired)
  }

  lemma {:induction false} PassedCount(records: seq<Record>, lookupRequired: bool)
    ensures |Passed(records, lookupRequired)| == |PassedAt(records, lookupRequired)|
  {
    if records == [] {
      assert PassedAt(records, lookupRequired) == {};
    } else {
      var n := |records| - 1;
      PassedCount(records[..n], lookupRequired);
      var before, all := PassedAt(records[..n], lookupRequired), PassedAt(records, lookupRequired);
      forall i: nat ensures i in all <==> i in before || (i == n && Passes(records[n], lookupRequired)) {
        if i < n { assert records[..n][i] == records[i]; }
      }
      if Passes(records[n], lookupRequired) { assert all == before + {n}; } else { assert all == before; }
    }
  }

  lemma {:induction false} PassedMembers(records: seq<Record>, lookupRequired: bool, r: Record)
    ensures r in Passed(records, lookupRequired) <==> r in records && Passes(r, lookupRequired)
  {
    if records != [] {
      var n := |records| - 1;
      PassedMembers(records[..n], lookupRequired, r);
      assert records == records[..n] + [records[n]];
    }
  }

  /** With complete records, three passes means that every C run passes. */
  lemma AllPassed(records: seq<Record>, lookupRequired: bool)
    requires IsComplete(records)
    ensures |Passed(records, lookupRequired)| == 3 <==>
            forall r :: r in records && r.arm.C? ==> Passes(r, lookupRequired)
  {
    var i, j, k := PositionsOfC(records);
    PassedCount(records, lookupRequired);
    PassedAmong(PassedAt(records, lookupRequired), i, j, k);
    AllOrSome(records, lookupRequired, i, j, k);
  }

  lemma AllOrSome(records: seq<Record>, lookupRequired: bool, i: nat, j: nat, k: nat)
    requires i < |records| && j < |records| && k < |records|
    requires forall m: nat :: m < |records| ==> (records[m].arm.C? <==> m == i || m == j || m == k)
    ensures PassedAt(records, lookupRequired) == {i, j, k} <==>
            forall r :: r in records && r.arm.C? ==> Passes(r, lookupRequired)
  {
    var passed := PassedAt(records, lookupRequired);
    if passed == {i, j, k} {
      forall r | r in records && r.arm.C? ensures Passes(r, lookupRequired) {
        var m: nat :| m < |records| && records[m] == r;
        assert m in passed;
      }
    }
    if forall r :: r in records && r.arm.C? ==> Passes(r, lookupRequired) {
      forall m: nat | m < |records| && records[m].arm.C? ensures m in passed { assert records[m] in records; }
    }
  }

  lemma PassedAmong(passed: set<nat>, i: nat, j: nat, k: nat)
    requires i != j && j != k && i != k && passed <= {i, j, k}
    ensures |passed| == 3 <==> passed == {i, j, k}
  {
    assert |{i, j, k}| == 3;
    var rest := {i, j, k} - passed;
    assert {i, j, k} == passed + rest && passed !! rest;
    assert |{i, j, k}| == |passed| + |rest|;
    assert rest == {} <==> passed == {i, j, k};
  }

  lemma {:induction false} ByKeyFinds(records: seq<Record>, i: nat)
    requires i < |records| && forall j :: i < j < |records| ==> records[j].Id() != records[i].Id()
    ensures records[i].Id() in ByKey(records) && ByKey(records)[records[i].Id()] == records[i]
  {
    if i < |records| - 1 { ByKeyFinds(records[..|records| - 1], i); }
  }

  /** In complete records the dictionary holds the one record of each key. */
  lemma Found(records: seq<Record>, k: Key)
    requires |records| == 9 && KeySet(records) == EXPECTED && k in EXPECTED
    ensures k in ByKey(records) && ByKey(records)[k] in records && ByKey(records)[k].Id() == k
    ensures forall r :: r in records && r.Id() == k ==> ByKey(records)[k] == r
  {
    var i := PositionOf(records, k);
    ByKeyFinds(records, i);
  }

  /** In a feasible comparison, a paired failure is any verified settled A run that misses the constraint. */
  lemma PairedIsMiss(records: seq<Record>, lookupRequired: bool, byKey: map<Key, Record>, passed: seq<Record>)
    requires IsFeasible(records, lookupRequired) && byKey == ByKey(records) && passed == Passed(records, lookupRequired)
    ensures (exists k :: 1 <= k < 4 && PairedAt(byKey, passed, k)) <==> exists r :: r in records && Misses(r)
  {
    forall k | 1 <= k < 4
      ensures Key(A, k) in byKey && byKey[Key(A, k)] in records && byKey[Key(A, k)].arm.A?
      ensures PairedAt(byKey, passed, k) <==> Misses(byKey[Key(A, k)])
    {
      AllPresent(records, lookupRequired, k);
    }
    if r :| r in records && Misses(r) {
      assert r.Id() in KeySet(records);
      Found(records, r.Id());
      assert PairedAt(byKey, passed, r.repetition);
    }
  }

  lemma AllPresent(records: seq<Record>, lookupRequired: bool, k: int)
    requires IsFeasible(records, lookupRequired) && 1 <= k < 4
    ensures var byKey := ByKey(records);
            && Key(A, k) in byKey && Key(B, k) in byKey && Key(C, k) in byKey
            && byKey[Key(A, k)] in records && byKey[Key(A, k)].arm.A?
            && byKey[Key(C, k)] in Passed(records, lookupRequired)
  {
    Found(records, Key(A, k));
    Found(records, Key(B, k));
    Found(records, Key(C, k));
    PassedMembers(records, lookupRequired, ByKey(records)[Key(C, k)]);
  }

  /** The order of the runs, repetition by repetition. */
  const RUN_ORDER: seq<Key> := [
    Key(A, 1), Key(B, 1), Key(C, 1), Key(B, 2), Key(C, 2), Key(A, 2), Key(C, 3), Key(A, 3), Key(B, 3)]

  /** Runs in that order supply every arm and repetition once. */
  lemma RunOrderSuffices(records: seq<Record>)
    requires |records| == |RUN_ORDER| && forall i :: 0 <= i < |records| ==> records[i].Id() == RUN_ORDER[i]
    ensures |records| == 9 && KeySet(records) == EXPECTED
  {
    forall i | 0 <= i < |records| ensures RUN_ORDER[i] in KeySet(records) { assert records[i] in records; }
    assert EXPECTED <= KeySet(records) by {
      assert RUN_ORDER[0] in KeySet(records) && RUN_ORDER[1] in KeySet(records) && RUN_ORDER[2] in KeySet(records);
      assert RUN_ORDER[3] in KeySet(records) && RUN_ORDER[4] in KeySet(records) && RUN_ORDER[5] in KeySet(records);
      assert RUN_ORDER[6] in KeySet(records) && RUN_ORDER[7] in KeySet(records) && RUN_ORDER[8] in KeySet(records);
    }
    forall k | k in KeySet(records) ensures k in EXPECTED {
      var r :| r in records && r.Id() == k;
      var i :| 0 <= i < |records| && records[i] == r;
      assert RUN_ORDER[i] in EXPECTED;
    }
  }
}
