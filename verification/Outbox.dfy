/** The transactional outbox and the relays that drain it, as a transition system. Writers append
    rows inside transactions; a relay claims a batch of unlocked pending rows, publishes them one
    by one, marks the acknowledged ones and commits. Any relay may fail at any point, and the
    broker may accept a message whose acknowledgement is lost. */
module Outbox {
  import opened Basics
  import opened Permutations

  type Id = nat
  type Tx = nat
  type RelayId = nat

  datatype Row = Row(createdAt: int, published: bool)

  /** A drain in progress: rows `claimed` are locked, the first `next` of them were offered to the
      broker, and `sent` lists the ones it acknowledged. */
  datatype Session = Session(claimed: seq<Id>, next: nat, sent: seq<Id>, marked: bool)

  datatype State = State(
    rows: map<Id, Row>,
    open: map<Tx, map<Id, int>>,
    relays: map<RelayId, Session>,
    broker: seq<Id>)

  const EMPTY := State(map[], map[], map[], [])

  function Pending(rows: map<Id, Row>): set<Id> {
    set id | id in rows && !rows[id].published
  }

  function Locked(s: State): set<Id> {
    set r, id | r in s.relays && id in s.relays[r].claimed :: id
  }

  function Age(rows: map<Id, Row>, id: Id): int {
    if id in rows then rows[id].createdAt else 0
  }

  /** The answer of the claiming query: the oldest unlocked pending rows, at most `batch` of them,
      and fewer only when there are no more. */
  ghost predicate IsClaim(rows: map<Id, Row>, locked: set<Id>, batch: nat, ids: seq<Id>) {
    var free := Pending(rows) - locked;
    && Distinct(ids) && |ids| <= batch
    && (forall id :: id in ids ==> id in free)
    && (forall i, j :: 0 <= i < j < |ids| ==> Age(rows, ids[i]) <= Age(rows, ids[j]))
    && (forall id, other :: id in ids && other in free && other !in ids ==> Age(rows, id) <= Age(rows, other))
    && (|ids| < batch ==> forall id :: id in free ==> id in ids)
  }

  datatype Step =
    | Append(tx: Tx, id: Id, createdAt: int)
    | CommitWrite(tx: Tx)
    | AbortWrite(tx: Tx)
    | Claim(relay: RelayId, batch: nat, ids: seq<Id>)
    | Publish(relay: RelayId, accepted: bool, acknowledged: bool)
    | Mark(relay: RelayId)
    | Commit(relay: RelayId)
    | Fail(relay: RelayId)

  function Rows(open: map<Id, int>): map<Id, Row> {
    map id | id in open :: Row(open[id], false)
  }

  function MarkSent(rows: map<Id, Row>, sent: seq<Id>): map<Id, Row> {
    map id | id in rows :: if id in sent then rows[id].(published := true) else rows[id]
  }

  ghost predicate Unused(s: State, id: Id) {
    id !in s.rows && forall tx :: tx in s.open ==> id !in s.open[tx]
  }

  ghost predicate Enabled(s: State, step: Step) {
    match step
    case Append(tx, id, _) => Unused(s, id)
    case CommitWrite(tx) => tx in s.open
    case AbortWrite(tx) => tx in s.open
    case Claim(r, batch, ids) => r !in s.relays && IsClaim(s.rows, Locked(s), batch, ids)
    case Publish(r, accepted, acknowledged) =>
      r in s.relays && s.relays[r].next < |s.relays[r].claimed| && (acknowledged ==> accepted)
    case Mark(r) =>
      r in s.relays && s.relays[r].next == |s.relays[r].claimed| && s.relays[r].sent != []
    case Commit(r) =>
      r in s.relays && s.relays[r].next == |s.relays[r].claimed| && (s.relays[r].marked || s.relays[r].sent == [])
    case Fail(r) => r in s.relays
  }

  function Apply(s: State, step: Step): State
    requires Enabled(s, step)
  {
    match step
    case Append(tx, id, createdAt) =>
      s.(open := s.open[tx := (if tx in s.open then s.open[tx] else map[])[id := createdAt]])
    case CommitWrite(tx) => s.(rows := s.rows + Rows(s.open[tx]), open := s.open - {tx})
    case AbortWrite(tx) => s.(open := s.open - {tx})
    case Claim(r, _, ids) => s.(relays := s.relays[r := Session(ids, 0, [], false)])
    case Publish(r, accepted, acknowledged) =>
      var d := s.relays[r];
      var id := d.claimed[d.next];
      s.(relays := s.relays[r := d.(next := d.next + 1, sent := if acknowledged then d.sent + [id] else d.sent)],
         broker := if accepted then s.broker + [id] else s.broker)
    case Mark(r) => s.(relays := s.relays[r := s.relays[r].(marked := true)])
    case Commit(r) => s.(rows := MarkSent(s.rows, s.relays[r].sent), relays := s.relays - {r})
    case Fail(r) => s.(relays := s.relays - {r})
  }

  // ----- safety over every run ----------------------------------------------

  ghost predicate DrainInv(s: State, d: Session) {
    && Distinct(d.claimed) && Distinct(d.sent) && d.next <= |d.claimed|
    && (forall id :: id in d.claimed ==> id in Pending(s.rows))
    && (forall id :: id in d.sent ==> id in d.claimed[..d.next] && id in s.broker)
  }

  ghost predicate Inv(s: State) {
    && (forall id :: id in s.rows && s.rows[id].published ==> id in s.broker)
    && (forall id :: id in s.broker ==> id in s.rows)
    && (forall tx, id :: tx in s.open && id in s.open[tx] ==> id !in s.rows)
    && (forall t, u, id :: t in s.open && u in s.open && id in s.open[t] && id in s.open[u] ==> t == u)
    && (forall r :: r in s.relays ==> DrainInv(s, s.relays[r]))
    && (forall q, r, id :: q in s.relays && r in s.relays && id in s.relays[q].claimed && id in s.relays[r].claimed ==> q == r)
  }

  /** A run is a sequence of enabled steps. */
  ghost predicate IsRun(s: State, steps: seq<Step>, t: State)
    decreases steps
  {
    if steps == [] then s == t
    else Enabled(s, steps[0]) && IsRun(Apply(s, steps[0]), steps[1..], t)
  }

  lemma StepKeepsInv(s: State, step: Step)
    requires Inv(s) && Enabled(s, step)
    ensures Inv(Apply(s, step))
  {
    match step
    case Publish(r, _, _) => PublishKeepsInv(s, step);
    case Commit(r) => CommitKeepsInv(s, r);
    case Claim(r, _, ids) => ClaimKeepsInv(s, step);
    case Append(_, _, _) => AppendKeepsInv(s, step);
    case CommitWrite(_) => WriteEndKeepsInv(s, step);
    case AbortWrite(_) => WriteEndKeepsInv(s, step);
    case Mark(_) => SessionKeepsInv(s, step);
    case Fail(_) => SessionKeepsInv(s, step);
  }

  lemma AppendKeepsInv(s: State, step: Step)
    requires Inv(s) && Enabled(s, step) && step.Append?
    ensures Inv(Apply(s, step))
  {
    var t := Apply(s, step);
    forall q | q in t.relays ensures DrainInv(t, t.relays[q]) {
      assert DrainInv(s, s.relays[q]);
    }
  }

  lemma WriteEndKeepsInv(s: State, step: Step)
    requires Inv(s) && Enabled(s, step) && (step.CommitWrite? || step.AbortWrite?)
    ensures Inv(Apply(s, step))
  {
    var t := Apply(s, step);
    forall q | q in t.relays ensures DrainInv(t, t.relays[q]) {
      assert DrainInv(s, s.relays[q]);
    }
  }

  lemma SessionKeepsInv(s: State, step: Step)
    requires Inv(s) && Enabled(s, step) && (step.Mark? || step.Fail?)
    ensures Inv(Apply(s, step))
  {
    var t := Apply(s, step);
    forall q | q in t.relays ensures DrainInv(t, t.relays[q]) {
      assert DrainInv(s, s.relays[q]);
    }
  }

  lemma ClaimKeepsInv(s: State, step: Step)
    requires Inv(s) && step.Claim? && Enabled(s, step)
    ensures Inv(Apply(s, step))
  {
    var t := Apply(s, step);
    forall q | q in t.relays ensures DrainInv(t, t.relays[q]) {
      if q != step.relay {
        assert DrainInv(s, s.relays[q]);
      }
    }
    forall q, id | q in s.relays && id in s.relays[q].claimed ensures id in Locked(s) {
    }
  }

  lemma PublishKeepsInv(s: State, step: Step)
    requires Inv(s) && step.Publish? && Enabled(s, step)
    ensures Inv(Apply(s, step))
  {
    var t, r := Apply(s, step), step.relay;
    var d := s.relays[r];
    var id := d.claimed[d.next];
    PrefixStep(d.claimed, d.next);
    assert id !in d.claimed[..d.next];
    assert DrainInv(s, d) && id in d.claimed;
    forall q | q in t.relays ensures DrainInv(t, t.relays[q]) {
      assert DrainInv(s, s.relays[q]);
    }
  }

  lemma CommitKeepsInv(s: State, r: RelayId)
    requires Inv(s) && Enabled(s, Commit(r))
    ensures Inv(Apply(s, Commit(r)))
  {
    var t := Apply(s, Commit(r));
    assert DrainInv(s, s.relays[r]);
    forall id | id in s.relays[r].sent ensures id in s.broker && id in s.relays[r].claimed {
    }
    forall q | q in t.relays ensures DrainInv(t, t.relays[q]) {
      assert DrainInv(s, s.relays[q]);
    }
  }

  /** The safety theorem: whatever writers, relays, the broker and crashes do, every reachable
      state satisfies the invariant. */
  lemma {:induction false} RunKeepsInv(s: State, steps: seq<Step>, t: State)
    requires Inv(s) && IsRun(s, steps, t)
    ensures Inv(t)
    decreases steps
  {
    if steps != [] {
      StepKeepsInv(s, steps[0]);
      RunKeepsInv(Apply(s, steps[0]), steps[1..], t);
    }
  }

  /** What the invariant says in the words of the design. */
  lemma ReachableIsSafe(steps: seq<Step>, s: State)
    requires IsRun(EMPTY, steps, s)
    ensures forall id :: id in s.rows ==> id in Pending(s.rows) || id in s.broker
    ensures forall id :: id in s.rows && s.rows[id].published ==> id in s.broker
    ensures forall id :: id in s.broker ==> id in s.rows
    ensures forall tx, id :: tx in s.open && id in s.open[tx] ==> id !in s.broker
    ensures forall q, r, id :: q in s.relays && r in s.relays && id in s.relays[q].claimed && id in s.relays[r].claimed ==> q == r
  {
    RunKeepsInv(EMPTY, steps, s);
  }

  // ----- conservation -------------------------------------------------------

  lemma {:induction false} DistinctSize<T>(s: seq<T>)
    requires Distinct(s)
    ensures |Elements(s)| == |s|
  {
    if s != [] {
      var init, last := s[..|s| - 1], s[|s| - 1];
      DistinctSize(init);
      assert Elements(s) == Elements(init) + {last};
      assert last !in init;
    }
  }

  lemma MarkSentCounts(rows: map<Id, Row>, sent: seq<Id>)
    requires Distinct(sent) && forall id :: id in sent ==> id in Pending(rows)
    ensures Pending(MarkSent(rows, sent)) == Pending(rows) - Elements(sent)
    ensures |Pending(MarkSent(rows, sent))| == |Pending(rows)| - |sent|
  {
    DistinctSize(sent);
    assert Elements(sent) <= Pending(rows);
  }

  /** A drain that commits lowers the pending count by exactly the publishes it saw acknowledged. */
  lemma CommitLowersPending(s: State, r: RelayId)
    requires Inv(s) && Enabled(s, Commit(r))
    ensures
      var before, after := Pending(s.rows), Pending(Apply(s, Commit(r)).rows);
      after == before - Elements(s.relays[r].sent) && |after| == |before| - |s.relays[r].sent|
  {
    var d := s.relays[r];
    assert DrainInv(s, d);
    forall id | id in d.sent ensures id in Pending(s.rows) {
      assert id in d.claimed;
    }
    MarkSentCounts(s.rows, d.sent);
  }

  /** Every other step leaves the committed rows alone, except that a writer's commit adds new
      pending ones; rows are never dropped and never become unpublished. */
  lemma {:induction false} RowsOnlyGrow(s: State, steps: seq<Step>, t: State)
    requires Inv(s) && IsRun(s, steps, t)
    ensures Grown(s, t)
    decreases steps
  {
    if steps != [] {
      StepKeepsInv(s, steps[0]);
      StepGrows(s, steps[0]);
      RowsOnlyGrow(Apply(s, steps[0]), steps[1..], t);
    }
  }

  lemma StepGrows(s: State, step: Step)
    requires Inv(s) && Enabled(s, step)
    ensures Grown(s, Apply(s, step))
  {
  }

  ghost predicate Grown(s: State, t: State) {
    && (forall id :: id in s.rows ==> id in t.rows && t.rows[id].createdAt == s.rows[id].createdAt)
    && (forall id :: id in s.rows && s.rows[id].published ==> t.rows[id].published)
    && s.broker <= t.broker
  }

  /** A failed drain gives back everything it had claimed. */
  lemma FailReleases(s: State, r: RelayId)
    requires Inv(s) && r in s.relays
    ensures Apply(s, Fail(r)).rows == s.rows
    ensures forall id :: id in s.relays[r].claimed ==> id in Pending(s.rows) - Locked(Apply(s, Fail(r)))
  {
    assert DrainInv(s, s.relays[r]);
  }

  // ----- composing runs -----------------------------------------------------

  lemma RunOne(s: State, step: Step, rest: seq<Step>, t: State)
    requires Enabled(s, step) && IsRun(Apply(s, step), rest, t)
    ensures IsRun(s, [step] + rest, t)
  {
    assert ([step] + rest)[1..] == rest;
  }

  lemma {:induction false} RunAppend(s: State, first: seq<Step>, t: State, second: seq<Step>, u: State)
    requires IsRun(s, first, t) && IsRun(t, second, u)
    ensures IsRun(s, first + second, u)
    decreases first
  {
    if first == [] {
      assert first + second == second;
    } else {
      assert (first + second)[1..] == first[1..] + second;
      RunAppend(Apply(s, first[0]), first[1..], t, second, u);
    }
  }

  lemma {:induction false} RunSnoc(s: State, steps: seq<Step>, t: State, step: Step)
    requires IsRun(s, steps, t) && Enabled(t, step)
    ensures IsRun(s, steps + [step], Apply(t, step))
  {
    RunOne(t, step, [], Apply(t, step));
    RunAppend(s, steps, t, [step], Apply(t, step));
  }

  // ----- draining -----------------------------------------------------------

  /** What happens to one publish: acknowledged; accepted by the broker but reported as an error;
      or refused. */
  datatype Outcome = Acknowledged | AckLost | Refused

  /** What happens to the final commit; `Unseen` is a commit whose confirmation is lost. */
  datatype Ending = Committed | RolledBack | Unseen

  const DEFAULT_BATCH: nat := 100

  function BatchOf(batch: int): (n: nat)
    ensures batch > 0 ==> n == batch
    ensures batch <= 0 ==> n == 100
  {
    if batch <= 0 then DEFAULT_BATCH else batch
  }

  function Acked(publish: Id -> Outcome): Id -> bool { (id: Id) => publish(id).Acknowledged? }

  function Accepted(publish: Id -> Outcome): Id -> bool { (id: Id) => !publish(id).Refused? }

  lemma {:induction false} DistinctFilter<T(!new)>(s: seq<T>, p: T -> bool)
    requires Distinct(s)
    ensures Distinct(Filter(s, p))
    ensures forall x :: x in Filter(s, p) ==> x in s
  {
    if s != [] {
      var init, last := s[..|s| - 1], s[|s| - 1];
      DistinctFilter(init, p);
      assert last !in init;
      assert s == init + [last];
    }
  }

  /** The state when `r` has offered the first `i` claimed rows to the broker. */
  function Midway(before: State, r: RelayId, answer: seq<Id>, publish: Id -> Outcome, i: nat): State
    requires i <= |answer|
  {
    before.(
      relays := before.relays[r := Session(answer, i, Filter(answer[..i], Acked(publish)), false)],
      broker := before.broker + Filter(answer[..i], Accepted(publish)))
  }

  lemma Reclaim(relays: map<RelayId, Session>, r: RelayId, d: Session, e: Session)
    ensures relays[r := d][r := e] == relays[r := e]
  {
  }

  lemma Unclaim(relays: map<RelayId, Session>, r: RelayId, d: Session)
    requires r !in relays
    ensures relays[r := d] - {r} == relays
  {
  }

  lemma MidwayStep(before: State, r: RelayId, answer: seq<Id>, publish: Id -> Outcome, i: nat)
    requires i < |answer|
    ensures
      var step := Publish(r, !publish(answer[i]).Refused?, publish(answer[i]).Acknowledged?);
      && Enabled(Midway(before, r, answer, publish, i), step)
      && Apply(Midway(before, r, answer, publish, i), step) == Midway(before, r, answer, publish, i + 1)
  {
    var s, t := Midway(before, r, answer, publish, i), Midway(before, r, answer, publish, i + 1);
    PrefixStep(answer, i);
    Reclaim(before.relays, r, s.relays[r], t.relays[r]);
    var sent := Filter(answer[..i], Accepted(publish));
    assert before.broker + (sent + [answer[i]]) == before.broker + sent + [answer[i]];
  }

  /** A claim is read as a whole: one row that does not decode fails the drain. */
  predicate AllDecode(ids: seq<Id>, decodes: Id -> bool) {
    forall id :: id in ids ==> decodes(id)
  }

  class Store {
    var s: State

    constructor (s: State)
      ensures this.s == s
    {
      this.s := s;
    }

    /** Takes one step of the transition system. */
    method Take(step: Step, ghost start: State, ghost steps: seq<Step>) returns (ghost more: seq<Step>)
      requires Enabled(s, step) && IsRun(start, steps, s)
      modifies this
      ensures s == Apply(old(s), step) && IsRun(start, more, s)
    {
      RunSnoc(start, steps, s, step);
      s := Apply(s, step);
      more := steps + [step];
    }

    /** The loop that offers the claimed rows to the broker, skipping those that fail. */
    method Offer(r: RelayId, answer: seq<Id>, publish: Id -> Outcome, ghost before: State, ghost sofar: seq<Step>)
      returns (ghost steps: seq<Step>)
      requires IsRun(before, sofar, s) && s == Midway(before, r, answer, publish, 0)
      modifies this
      ensures IsRun(before, steps, s) && s == Midway(before, r, answer, publish, |answer|)
      ensures answer[..|answer|] == answer
    {
      steps := sofar;
      for i := 0 to |answer|
        invariant IsRun(before, steps, s) && s == Midway(before, r, answer, publish, i)
      {
        MidwayStep(before, r, answer, publish, i);
        var outcome := publish(answer[i]);
        steps := Take(Publish(r, !outcome.Refused?, outcome.Acknowledged?), before, steps);
      }
    }

    /** One drain by relay `r`; `answer` is what the claiming query returns, and the remaining
        parameters decide which operations fail. It is a run of the transition system. */
    method Drain(r: RelayId, batch: int, answer: seq<Id>, decodes: Id -> bool, publish: Id -> Outcome,
                 marks: bool, ending: Ending)
      returns (result: Option<nat>, ghost steps: seq<Step>)
      requires r !in s.relays && IsClaim(s.rows, Locked(s), BatchOf(batch), answer)
      modifies this
      ensures IsRun(old(s), steps, s) && s.relays == old(s).relays
      ensures result.Some? <==>
                && AllDecode(answer, decodes) && ending == Committed
                && (marks || Filter(answer, Acked(publish)) == [])
      ensures result.Some? ==>
                && result.value == |Filter(answer, Acked(publish))|
                && s.rows == MarkSent(old(s).rows, Filter(answer, Acked(publish)))
                && |Pending(s.rows)| == |Pending(old(s).rows)| - result.value
      ensures s.rows ==
                if AllDecode(answer, decodes) && ending != RolledBack
                   && (marks || Filter(answer, Acked(publish)) == [])
                then MarkSent(old(s).rows, Filter(answer, Acked(publish))) else old(s).rows
      ensures s.open == old(s).open
      ensures s.broker == old(s).broker +
                if AllDecode(answer, decodes) then Filter(answer, Accepted(publish)) else []
    {
      var before := s;
      steps := Take(Claim(r, BatchOf(batch), answer), before, []);
      if !AllDecode(answer, decodes) {
        Unclaim(before.relays, r, s.relays[r]);
        steps := Take(Fail(r), before, steps);
        assert s == before && before.broker + [] == before.broker;
        return None, steps;
      }
      result, steps := Deliver(r, answer, publish, marks, ending, before, steps);
    }

    /** A drain whose claim decodes: publish, then mark and commit. */
    method Deliver(r: RelayId, answer: seq<Id>, publish: Id -> Outcome, marks: bool, ending: Ending,
                   ghost before: State, ghost sofar: seq<Step>)
      returns (result: Option<nat>, ghost steps: seq<Step>)
      requires IsRun(before, sofar, s) && s == Midway(before, r, answer, publish, 0) && r !in before.relays
      requires Distinct(answer) && forall id :: id in answer ==> id in Pending(before.rows)
      modifies this
      ensures IsRun(before, steps, s) && s.relays == before.relays && s.open == before.open
      ensures s.broker == before.broker + Filter(answer, Accepted(publish))
      ensures result.Some? <==> ending == Committed && (marks || Filter(answer, Acked(publish)) == [])
      ensures result.Some? ==>
                && result.value == |Filter(answer, Acked(publish))|
                && |Pending(s.rows)| == |Pending(before.rows)| - result.value
      ensures s.rows == if ending != RolledBack && (marks || Filter(answer, Acked(publish)) == [])
                        then MarkSent(before.rows, Filter(answer, Acked(publish))) else before.rows
    {
      steps := Offer(r, answer, publish, before, sofar);
      DistinctFilter(answer, Acked(publish));
      MarkSentCounts(before.rows, Filter(answer, Acked(publish)));
      Unclaim(before.relays, r, s.relays[r]);
      result, steps := Finish(r, marks, ending, before, steps);
    }

    /** The end of a drain: mark what was sent, then commit. */
    method Finish(r: RelayId, marks: bool, ending: Ending, ghost before: State, ghost sofar: seq<Step>)
      returns (result: Option<nat>, ghost steps: seq<Step>)
      requires r in s.relays && s.relays[r].next == |s.relays[r].claimed| && !s.relays[r].marked
      requires IsRun(before, sofar, s)
      modifies this
      ensures IsRun(before, steps, s) && s.relays == old(s).relays - {r} && s.broker == old(s).broker && s.open == old(s).open
      ensures result.Some? <==> ending == Committed && (marks || old(s).relays[r].sent == [])
      ensures result.Some? ==> result.value == |old(s).relays[r].sent|
      ensures s.rows == if (marks || old(s).relays[r].sent == []) && ending != RolledBack
                        then MarkSent(old(s).rows, old(s).relays[r].sent) else old(s).rows
    {
      var published := s.relays[r].sent;
      steps := sofar;
      if |published| > 0 {
        if !marks {
          steps := Take(Fail(r), before, steps);
          return None, steps;
        }
        MarkForgotten(s, r);
        steps := Take(Mark(r), before, steps);
      } else {
        NothingSent(s.rows);
      }
      if ending == RolledBack {
        steps := Take(Fail(r), before, steps);
        return None, steps;
      }
      steps := Take(Commit(r), before, steps);
      return if ending == Unseen then None else Some(|published|), steps;
    }

  }

  /** Marking changes nothing but the session, which the end of the transaction drops. */
  lemma MarkForgotten(s: State, r: RelayId)
    requires Enabled(s, Mark(r))
    ensures Apply(s, Mark(r)).relays - {r} == s.relays - {r}
  {
  }

  lemma NothingSent(rows: map<Id, Row>)
    ensures MarkSent(rows, []) == rows
  {
  }

  /** A claim takes as many rows as the batch allows. */
  lemma ClaimSize(rows: map<Id, Row>, locked: set<Id>, batch: nat, ids: seq<Id>)
    requires IsClaim(rows, locked, batch, ids)
    ensures
      var free := Pending(rows) - locked;
      |ids| == if |free| < batch then |free| else batch
  {
    var free := Pending(rows) - locked;
    DistinctSize(ids);
    SubsetSize(Elements(ids), free);
    if |ids| < batch {
      assert Elements(ids) == free;
    }
  }

  lemma SubsetSize<T>(a: set<T>, b: set<T>)
    requires a <= b
    ensures |a| <= |b|
  {
    assert b == a + (b - a);
  }

  /** The claiming query always has an answer. */
  lemma ClaimExists(rows: map<Id, Row>, locked: set<Id>, batch: nat) returns (ids: seq<Id>)
    ensures IsClaim(rows, locked, batch, ids)
  {
    var free := Pending(rows) - locked;
    var listed := ListOf(free);
    var older := (x: Id, y: Id) => Age(rows, x) <= Age(rows, y);
    SortSorts(listed, older);
    var sorted := Sort(listed, older);
    PermutationMembers(sorted, listed);
    DistinctPermutation(listed, sorted);
    ids := if |sorted| <= batch then sorted else sorted[..batch];
    forall id, other | id in ids && other in free && other !in ids ensures Age(rows, id) <= Age(rows, other) {
      var i :| 0 <= i < |ids| && ids[i] == id;
      var j :| 0 <= j < |sorted| && sorted[j] == other;
      assert forall k :: 0 <= k < |ids| ==> ids[k] in ids;
      assert j >= |ids|;
      assert older(sorted[i], sorted[j]);
    }
    forall i, j | 0 <= i < j < |ids| ensures Age(rows, ids[i]) <= Age(rows, ids[j]) {
      assert older(sorted[i], sorted[j]);
    }
  }

  lemma {:induction false} ListOf(s: set<Id>) returns (r: seq<Id>)
    ensures Distinct(r) && forall x :: x in r <==> x in s
    decreases s
  {
    if s == {} {
      r := [];
    } else {
      var x :| x in s;
      var rest := ListOf(s - {x});
      r := rest + [x];
    }
  }

  lemma DistinctPermutation(s: seq<Id>, t: seq<Id>)
    requires Distinct(s) && multiset(s) == multiset(t)
    ensures Distinct(t)
  {
    forall i, j | 0 <= i < j < |t| ensures t[i] != t[j] {
      var k, l := TwoSources(t, s, i, j);
    }
  }
}
