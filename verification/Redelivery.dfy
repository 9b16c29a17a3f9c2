/** When the broker accepts an event twice: never without faults, and after a fault exactly when it
    left an accepted event pending that no drain holds as sent. */
module Redelivery {

  import opened Permutations
  import opened Outbox

  // ----- runs without faults ------------------------------------------------

  /** No drain fails and no acknowledgement is lost. */
  predicate FaultFree(step: Step) {
    !step.Fail? && (step.Publish? ==> step.accepted == step.acknowledged)
  }

  ghost predicate Holds(s: State, id: Id) {
    exists r :: r in s.relays && id in s.relays[r].sent
  }

  /** The broker accepts an event it had accepted before, some time after `s`. */
  ghost predicate Repeats(s: State, t: State) {
    exists i, j :: 0 <= i < j < |t.broker| && |s.broker| <= j && t.broker[i] == t.broker[j]
  }

  ghost predicate AllFaultFree(steps: seq<Step>) {
    forall k :: 0 <= k < |steps| ==> FaultFree(steps[k])
  }

  /** The trace a fault leaves: an event accepted by the broker, yet pending and held by no drain. */
  ghost predicate Orphaned(s: State, id: Id) {
    id in s.broker && id in Pending(s.rows) && !Holds(s, id)
  }

  ghost predicate NoOrphan(s: State) {
    Inv(s) && forall id :: id in s.broker ==> s.rows[id].published || Holds(s, id)
  }

  lemma StepKeepsNoOrphan(s: State, step: Step)
    requires NoOrphan(s) && Enabled(s, step) && FaultFree(step)
    ensures NoOrphan(Apply(s, step)) && s.broker <= Apply(s, step).broker && !Repeats(s, Apply(s, step))
  {
    StepKeepsInv(s, step);
    if step.Publish? {
      PublishKeepsNoOrphan(s, step);
    } else {
      QuietKeepsNoOrphan(s, step);
    }
  }

  lemma QuietKeepsNoOrphan(s: State, step: Step)
    requires NoOrphan(s) && Enabled(s, step) && FaultFree(step) && !step.Publish?
    ensures Apply(s, step).broker == s.broker
    ensures forall id :: id in s.broker ==>
              id in Apply(s, step).rows && (Apply(s, step).rows[id].published || Holds(Apply(s, step), id))
  {
    var t := Apply(s, step);
    match step
    case Claim(r, _, _) => KeptDrains(s, t, r);
    case Commit(r) => KeptDrains(s, t, r);
    case Mark(r) => KeptDrains(s, t, r);
    case Append(_, _, _) => KeptDrains(s, t, 0);
    case CommitWrite(_) => KeptDrains(s, t, 0);
    case AbortWrite(_) => KeptDrains(s, t, 0);
  }

  /** A step that publishes nothing and keeps what every drain has sent, unless the drain of `r`
      has marked it. */
  lemma KeptDrains(s: State, t: State, r: RelayId)
    requires NoOrphan(s) && t.broker == s.broker
    requires forall id :: id in s.broker ==> id in t.rows && (s.rows[id].published ==> t.rows[id].published)
    requires forall q :: q in s.relays && q != r ==> q in t.relays && t.relays[q].sent == s.relays[q].sent
    requires r in s.relays ==>
               || (r in t.relays && t.relays[r].sent == s.relays[r].sent)
               || (forall id :: id in s.relays[r].sent && id in s.broker ==> t.rows[id].published)
    ensures forall id :: id in t.broker ==> t.rows[id].published || Holds(t, id)
  {
    forall id | id in t.broker ensures t.rows[id].published || Holds(t, id) {
      if !t.rows[id].published {
        var q :| q in s.relays && id in s.relays[q].sent;
        assert q in t.relays && id in t.relays[q].sent;
      }
    }
  }

  lemma NotYetSent(s: State, r: RelayId)
    requires NoOrphan(s) && r in s.relays && s.relays[r].next < |s.relays[r].claimed|
    ensures s.relays[r].claimed[s.relays[r].next] in s.rows
    ensures s.relays[r].claimed[s.relays[r].next] !in s.broker
  {
    var d := s.relays[r];
    var id := d.claimed[d.next];
    assert DrainInv(s, d) && id in d.claimed && id in Pending(s.rows);
    forall q | q in s.relays ensures id !in s.relays[q].sent {
      assert DrainInv(s, s.relays[q]);
      if q == r {
        assert id !in d.claimed[..d.next];
      } else {
        assert id !in s.relays[q].claimed;
      }
    }
  }

  lemma PublishKeepsNoOrphan(s: State, step: Step)
    requires NoOrphan(s) && step.Publish? && Enabled(s, step) && FaultFree(step)
    ensures s.broker <= Apply(s, step).broker && !Repeats(s, Apply(s, step))
    ensures forall id :: id in Apply(s, step).broker ==>
              id in Apply(s, step).rows && (Apply(s, step).rows[id].published || Holds(Apply(s, step), id))
  {
    var t, r := Apply(s, step), step.relay;
    var d := s.relays[r];
    var id := d.claimed[d.next];
    NotYetSent(s, r);
    forall x | x in t.broker ensures x in t.rows && (t.rows[x].published || Holds(t, x)) {
      if x == id {
        assert id in t.relays[r].sent;
      } else if !s.rows[x].published {
        var q :| q in s.relays && x in s.relays[q].sent;
        assert x in t.relays[q].sent;
      }
    }
  }

  /** From a state without orphans no fault-free run repeats an event. */
  lemma {:induction false} NoOrphanNoRepeat(s: State, steps: seq<Step>, t: State)
    requires NoOrphan(s) && IsRun(s, steps, t) && AllFaultFree(steps)
    ensures NoOrphan(t) && s.broker <= t.broker && !Repeats(s, t)
    decreases steps
  {
    if steps != [] {
      var u := Apply(s, steps[0]);
      StepKeepsNoOrphan(s, steps[0]);
      NoOrphanNoRepeat(u, steps[1..], t);
      forall i, j | 0 <= i < j < |t.broker| && |s.broker| <= j ensures t.broker[i] != t.broker[j] {
        if j < |u.broker| {
          assert u.broker[i] == t.broker[i] && u.broker[j] == t.broker[j];
        }
      }
    }
  }

  /** Without faults delivery is at most once: the broker never accepts the same event twice. */
  lemma FaultFreeIsAtMostOnce(s: State, steps: seq<Step>, t: State)
    requires NoOrphan(s) && Distinct(s.broker) && IsRun(s, steps, t) && AllFaultFree(steps)
    ensures NoOrphan(t) && Distinct(t.broker)
  {
    NoOrphanNoRepeat(s, steps, t);
    forall i, j | 0 <= i < j < |t.broker| ensures t.broker[i] != t.broker[j] {
      if j < |s.broker| {
        assert s.broker[i] == t.broker[i] && s.broker[j] == t.broker[j];
      }
    }
  }

  /** The outbox holding one pending row, 7. */
  function OnePending(broker: seq<Id>): State {
    State(map[7 := Row(0, false)], map[], map[], broker)
  }

  const LOST_DRAIN := [Claim(0, 1, [7]), Publish(0, true, true), Fail(0)]

  lemma LostDrainRuns(broker: seq<Id>)
    ensures IsRun(OnePending(broker), LOST_DRAIN, OnePending(broker + [7]))
  {
    var s := OnePending(broker);
    assert Pending(s.rows) - Locked(s) == {7};
    var t := Apply(s, Claim(0, 1, [7]));
    var u := Apply(t, Publish(0, true, true));
    assert Apply(u, Fail(0)) == OnePending(broker + [7]);
    RunOne(u, Fail(0), [], OnePending(broker + [7]));
    RunOne(t, Publish(0, true, true), [Fail(0)], OnePending(broker + [7]));
    RunOne(s, Claim(0, 1, [7]), [Publish(0, true, true), Fail(0)], OnePending(broker + [7]));
  }

  /** Faults do duplicate: from the empty outbox, a drain that fails after its publish was
      acknowledged leaves the row pending, and the next drain publishes it again. */
  lemma FaultsDuplicate()
    ensures exists steps, s :: IsRun(EMPTY, steps, s) && !Distinct(s.broker)
  {
    var appended := Apply(EMPTY, Append(0, 7, 0));
    assert Apply(appended, CommitWrite(0)) == OnePending([]);
    RunOne(appended, CommitWrite(0), [], OnePending([]));
    RunOne(EMPTY, Append(0, 7, 0), [CommitWrite(0)], OnePending([]));
    LostDrainRuns([]);
    LostDrainRuns([] + [7]);
    RunAppend(EMPTY, [Append(0, 7, 0)] + [CommitWrite(0)], OnePending([]), LOST_DRAIN, OnePending([] + [7]));
    var steps := [Append(0, 7, 0)] + [CommitWrite(0)] + LOST_DRAIN;
    RunAppend(EMPTY, steps, OnePending([] + [7]), LOST_DRAIN, OnePending([] + [7] + [7]));
    assert !Distinct(OnePending([] + [7] + [7]).broker) by {
      assert ([] + [7] + [7])[0] == ([] + [7] + [7])[1];
    }
  }

  // ----- when a duplicate is still to come ----------------------------------

  /** Publishes that the broker refuses move a drain on without other effect. */
  lemma {:induction false} SkipTo(s: State, r: RelayId, k: nat) returns (steps: seq<Step>)
    requires r in s.relays && s.relays[r].next <= k <= |s.relays[r].claimed|
    ensures AllFaultFree(steps) && IsRun(s, steps, s.(relays := s.relays[r := s.relays[r].(next := k)]))
    decreases k - s.relays[r].next
  {
    var d := s.relays[r];
    if d.next == k {
      assert s.relays[r := d.(next := k)] == s.relays;
      steps := [];
    } else {
      var step := Publish(r, false, false);
      var t := Apply(s, step);
      var rest := SkipTo(t, r, k);
      assert t.relays[r := t.relays[r].(next := k)] == s.relays[r := d.(next := k)];
      RunOne(s, step, rest, s.(relays := s.relays[r := d.(next := k)]));
      steps := [step] + rest;
    }
  }

  /** Some fault-free continuation accepts an event again. */
  ghost predicate CanRepeat(s: State) {
    exists steps, t :: IsRun(s, steps, t) && AllFaultFree(steps) && Repeats(s, t)
  }

  lemma RepeatsLater(s: State, steps: seq<Step>, t: State)
    requires IsRun(s, steps, t) && AllFaultFree(steps) && |s.broker| <= |t.broker| && CanRepeat(t)
    ensures CanRepeat(s)
  {
    var rest, u :| IsRun(t, rest, u) && AllFaultFree(rest) && Repeats(t, u);
    RunAppend(s, steps, t, rest, u);
    assert Repeats(s, u);
  }

  /** A drain whose turn it is to offer an event already accepted repeats it. */
  lemma OfferRepeats(s: State, r: RelayId, k: nat)
    requires r in s.relays && s.relays[r].next <= k < |s.relays[r].claimed| && s.relays[r].claimed[k] in s.broker
    ensures CanRepeat(s)
  {
    var skip := SkipTo(s, r, k);
    var u := s.(relays := s.relays[r := s.relays[r].(next := k)]);
    var step := Publish(r, true, true);
    var t := Apply(u, step);
    RunSnoc(s, skip, u, step);
    var i :| 0 <= i < |s.broker| && s.broker[i] == s.relays[r].claimed[k];
    assert t.broker == s.broker + [s.relays[r].claimed[k]];
    assert t.broker[i] == t.broker[|s.broker|];
    assert Repeats(s, t);
  }

  /** A new drain can claim all free rows. */
  lemma ClaimAll(s: State, id: Id) returns (step: Step, k: nat)
    requires id in Pending(s.rows) && id !in Locked(s)
    ensures step.Claim? && Enabled(s, step) && k < |step.ids| && step.ids[k] == id
  {
    var r := FreshRelay(s.relays.Keys);
    var free := Pending(s.rows) - Locked(s);
    var ids := ClaimExists(s.rows, Locked(s), |free| + 1);
    ClaimSize(s.rows, Locked(s), |free| + 1, ids);
    assert id in ids;
    k :| 0 <= k < |ids| && ids[k] == id;
    step := Claim(r, |free| + 1, ids);
  }

  /** An event that no drain has claimed is claimed by a new one, together with all free rows. */
  lemma UnclaimedRepeats(s: State, id: Id)
    requires id in s.broker && id in Pending(s.rows) && id !in Locked(s)
    ensures CanRepeat(s)
  {
    var step, k := ClaimAll(s, id);
    OfferRepeats(Apply(s, step), step.relay, k);
    RunOne(s, step, [], Apply(s, step));
    RepeatsLater(s, [step], Apply(s, step));
  }

  lemma {:induction false} FreshRelay(used: set<RelayId>) returns (r: RelayId)
    ensures r !in used && forall x :: x in used ==> x < r
    decreases used
  {
    if used == {} {
      r := 0;
    } else {
      var x :| x in used;
      var earlier := FreshRelay(used - {x});
      r := if earlier <= x then x + 1 else earlier;
      assert forall y :: y in used ==> y == x || y in used - {x};
    }
  }

  /** A drain can always come to its end: skip the rest, mark what was sent, commit. */
  lemma FinishDrain(s: State, r: RelayId) returns (steps: seq<Step>, w: State)
    requires r in s.relays && s.relays[r].next <= |s.relays[r].claimed|
    ensures AllFaultFree(steps) && IsRun(s, steps, w)
    ensures w == s.(rows := MarkSent(s.rows, s.relays[r].sent), relays := s.relays - {r})
  {
    var d := s.relays[r];
    steps := SkipTo(s, r, |d.claimed|);
    var u := s.(relays := s.relays[r := d.(next := |d.claimed|)]);
    if d.sent != [] {
      RunSnoc(s, steps, u, Mark(r));
      MarkForgotten(u, r);
      steps, u := steps + [Mark(r)], Apply(u, Mark(r));
    }
    RunSnoc(s, steps, u, Commit(r));
    steps, w := steps + [Commit(r)], Apply(u, Commit(r));
    assert w.relays == s.relays - {r};
  }

  /** A drain that has passed the event without an acknowledgement gives it back when it commits. */
  lemma GivesBack(s: State, r: RelayId, id: Id)
    requires Inv(s) && Orphaned(s, id) && r in s.relays && id in s.relays[r].claimed
    ensures
      var w := s.(rows := MarkSent(s.rows, s.relays[r].sent), relays := s.relays - {r});
      id in Pending(w.rows) && id !in Locked(w)
  {
    assert id !in s.relays[r].sent;
    forall q | q in s.relays && q != r ensures id !in s.relays[q].claimed {
    }
  }

  lemma PassedRepeats(s: State, r: RelayId, id: Id)
    requires Inv(s) && Orphaned(s, id) && r in s.relays && id in s.relays[r].claimed
    ensures CanRepeat(s)
  {
    assert DrainInv(s, s.relays[r]);
    var back, w := FinishDrain(s, r);
    GivesBack(s, r, id);
    UnclaimedRepeats(w, id);
    RepeatsLater(s, back, w);
  }

  /** A duplicate can still come without further faults exactly when a fault has left an orphan. */
  lemma RepeatsIff(s: State)
    requires Inv(s)
    ensures CanRepeat(s) <==> exists id :: Orphaned(s, id)
  {
    if id :| Orphaned(s, id) {
      if r :| r in s.relays && id in s.relays[r].claimed {
        PassedRepeats(s, r, id);
      } else {
        UnclaimedRepeats(s, id);
      }
    } else {
      forall id | id in s.broker ensures s.rows[id].published || Holds(s, id) {
        assert !Orphaned(s, id);
      }
      forall steps, t | IsRun(s, steps, t) && AllFaultFree(steps) ensures !Repeats(s, t) {
        NoOrphanNoRepeat(s, steps, t);
      }
    }
  }
}
