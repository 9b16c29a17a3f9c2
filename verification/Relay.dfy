/** The relay's loop: one drain a tick, working alone, with every failure of a tick as a parameter.
    What a tick does to the rows is a function, so the fate of every pending row can be told. */
module Relay {
  import opened Basics
  import opened Permutations
  import opened Outbox

  /** What a relay meets: the answers of the claiming query, which rows decode, and, for every tick,
      what happens to a publish, whether marking works and how the transaction ends. */
  datatype World = World(
    query: map<Id, Row> -> seq<Id>, decodes: Id -> bool, publish: (nat, Id) -> Outcome,
    marks: nat -> bool, endings: nat -> Ending)

  /** What happens to a publish in one tick. */
  function At(w: World, tick: nat): Id -> Outcome {
    (id: Id) => w.publish(tick, id)
  }

  ghost predicate ClaimsOldest(rows: map<Id, Row>, w: World, batch: nat) {
    IsClaim(rows, {}, batch, w.query(rows))
  }

  /** The query answers with the oldest pending rows. */
  ghost predicate Answers(w: World, batch: nat) {
    forall rows :: ClaimsOldest(rows, w, batch)
  }

  /** The rows after one tick. */
  function Ticked(rows: map<Id, Row>, w: World, tick: nat): map<Id, Row> {
    var answer := w.query(rows);
    var sent := Filter(answer, Acked(At(w, tick)));
    if AllDecode(answer, w.decodes) && !w.endings(tick).RolledBack? && (w.marks(tick) || sent == []) then MarkSent(rows, sent) else rows
  }

  function RowsAfter(rows: map<Id, Row>, w: World, ticks: nat): map<Id, Row> {
    if ticks == 0 then rows else Ticked(RowsAfter(rows, w, ticks - 1), w, ticks - 1)
  }

  /** What the broker accepts in one tick. */
  function Offered(rows: map<Id, Row>, w: World, tick: nat): seq<Id> {
    if AllDecode(w.query(rows), w.decodes) then Filter(w.query(rows), Accepted(At(w, tick))) else []
  }

  function OfferedAfter(rows: map<Id, Row>, w: World, ticks: nat): seq<Id> {
    if ticks == 0 then [] else OfferedAfter(rows, w, ticks - 1) + Offered(RowsAfter(rows, w, ticks - 1), w, ticks - 1)
  }

  class Relay {
    const store: Store
    const id: RelayId
    const batch: int

    constructor (store: Store, id: RelayId, batch: int)
      ensures this.store == store && this.id == id
      ensures this.batch == if batch > 0 then batch else 100
    {
      this.store := store;
      this.id := id;
      this.batch := if batch > 0 then batch else DEFAULT_BATCH;
    }

    /** One tick. A drain that fails is logged and otherwise ignored. */
    method Tick(w: World, tick: nat)
      requires Inv(store.s) && store.s.relays == map[] && Answers(w, BatchOf(batch))
      modifies store
      ensures Inv(store.s) && store.s.relays == map[]
      ensures store.s.rows == Ticked(old(store.s).rows, w, tick)
      ensures store.s.broker == old(store.s).broker + Offered(old(store.s).rows, w, tick)
    {
      ghost var before := store.s;
      assert Locked(before) == {} && ClaimsOldest(before.rows, w, BatchOf(batch));
      var result, steps := store.Drain(id, batch, w.query(store.s.rows), w.decodes, At(w, tick), w.marks(tick), w.endings(tick));
      RunKeepsInv(before, steps, store.s);
    }

    method Run(w: World, ticks: nat)
      requires Inv(store.s) && store.s.relays == map[] && Answers(w, BatchOf(batch))
      modifies store
      ensures Inv(store.s) && store.s.relays == map[]
      ensures store.s.rows == RowsAfter(old(store.s).rows, w, ticks)
      ensures store.s.broker == old(store.s).broker + OfferedAfter(old(store.s).rows, w, ticks)
    {
      ghost var rows, broker := store.s.rows, store.s.broker;
      assert broker + [] == broker;
      for tick := 0 to ticks
        invariant Inv(store.s) && store.s.relays == map[]
        invariant store.s.rows == RowsAfter(rows, w, tick)
        invariant store.s.broker == broker + OfferedAfter(rows, w, tick)
      {
        Associative(broker, OfferedAfter(rows, w, tick), Offered(RowsAfter(rows, w, tick), w, tick));
        Tick(w, tick);
      }
    }
  }

  // ----- a broker that acknowledges everything ------------------------------

  /** Nothing goes wrong with this row in this tick. */
  ghost predicate SmoothAt(w: World, tick: nat, id: Id) {
    && w.decodes(id) && w.publish(tick, id).Acknowledged?
    && w.marks(tick) && !w.endings(tick).RolledBack?
  }

  ghost predicate Smooth(w: World) {
    forall tick, id :: SmoothAt(w, tick, id)
  }

  function AtLeastZero(n: int): nat {
    if n < 0 then 0 else n
  }

  /** What is left of a backlog of `n` when every tick takes a batch. */
  function Remaining(n: nat, ticks: nat, batch: nat): nat {
    AtLeastZero(n - ticks * batch)
  }

  lemma NextTick(n: nat, tick: nat, batch: nat)
    ensures
      var left := Remaining(n, tick, batch);
      Remaining(n, tick + 1, batch) == left - if left < batch then left else batch
  {
    assert (tick + 1) * batch == tick * batch + batch;
  }

  /** What became of a row: it is still left, or was offered. */
  ghost predicate LeftOrOffered(pending: set<Id>, left: set<Id>, offered: seq<Id>, id: Id) {
    (id in offered ==> id in pending) && (id in left <==> id in pending && id !in offered)
  }

  /** What has left the pending rows is what the broker accepted, each event once. */
  ghost predicate Delivered(pending: set<Id>, left: set<Id>, offered: seq<Id>) {
    Distinct(offered) && forall id :: LeftOrOffered(pending, left, offered, id)
  }

  lemma SmoothStep(pending: set<Id>, rows: map<Id, Row>, w: World, batch: nat, tick: nat, offered: seq<Id>)
    requires Answers(w, batch) && Smooth(w) && Delivered(pending, Pending(rows), offered)
    ensures Delivered(pending, Pending(Ticked(rows, w, tick)), offered + Offered(rows, w, tick))
  {
    var answer, after := w.query(rows), Pending(Ticked(rows, w, tick));
    SmoothTick(rows, w, batch, tick);
    assert forall id :: id in answer <==> id in Elements(answer);
    forall id ensures LeftOrOffered(pending, after, offered + answer, id) && (id in answer ==> id !in Elements(offered)) {
      assert LeftOrOffered(pending, Pending(rows), offered, id);
    }
    DistinctConcat(offered, answer);
  }

  /** Tick by tick the broker gets exactly what leaves the backlog. */
  lemma {:induction false} SmoothDelivers(rows: map<Id, Row>, w: World, batch: nat, ticks: nat)
    requires Answers(w, batch) && Smooth(w)
    ensures Delivered(Pending(rows), Pending(RowsAfter(rows, w, ticks)), OfferedAfter(rows, w, ticks))
  {
    hide Ticked, Offered;
    if ticks == 0 {
      NothingDelivered(Pending(rows));
    } else {
      SmoothDelivers(rows, w, batch, ticks - 1);
      SmoothStep(Pending(rows), RowsAfter(rows, w, ticks - 1), w, batch, ticks - 1, OfferedAfter(rows, w, ticks - 1));
    }
  }

  lemma NothingDelivered(pending: set<Id>)
    ensures Delivered(pending, pending, [])
  {
  }

  /** One batch a tick leaves the backlog. */
  lemma {:induction false} SmoothShrinks(rows: map<Id, Row>, w: World, batch: nat, ticks: nat)
    requires Answers(w, batch) && Smooth(w)
    ensures |Pending(RowsAfter(rows, w, ticks))| == Remaining(|Pending(rows)|, ticks, batch)
  {
    if ticks > 0 {
      SmoothShrinks(rows, w, batch, ticks - 1);
      SmoothSize(RowsAfter(rows, w, ticks - 1), w, batch, ticks - 1);
      NextTick(|Pending(rows)|, ticks - 1, batch);
    }
  }

  /** One smooth tick: the broker accepts the claim, and the claim leaves the pending rows. */
  lemma SmoothTick(rows: map<Id, Row>, w: World, batch: nat, tick: nat)
    requires Answers(w, batch) && Smooth(w)
    ensures
      var answer, after := w.query(rows), Pending(Ticked(rows, w, tick));
      && Offered(rows, w, tick) == answer && Distinct(answer) && Elements(answer) <= Pending(rows)
      && after == Pending(rows) - Elements(answer)
      && |after| == |Pending(rows)| - if |Pending(rows)| < batch then |Pending(rows)| else batch
  {
    var answer := w.query(rows);
    assert ClaimsOldest(rows, w, batch);
    SmoothFilters(answer, w, tick);
    assert Ticked(rows, w, tick) == MarkSent(rows, answer);
    MarkSentCounts(rows, answer);
    ClaimSize(rows, {}, batch, answer);
  }

  lemma SmoothSize(rows: map<Id, Row>, w: World, batch: nat, tick: nat)
    requires Answers(w, batch) && Smooth(w)
    ensures |Pending(Ticked(rows, w, tick))| == |Pending(rows)| - if |Pending(rows)| < batch then |Pending(rows)| else batch
  {
    SmoothTick(rows, w, batch, tick);
  }

  lemma SmoothFilters(answer: seq<Id>, w: World, tick: nat)
    requires Smooth(w)
    ensures AllDecode(answer, w.decodes) && w.marks(tick) && !w.endings(tick).RolledBack?
    ensures Filter(answer, Acked(At(w, tick))) == answer && Filter(answer, Accepted(At(w, tick))) == answer
  {
    assert SmoothAt(w, tick, 0);
    assert forall id :: id in answer ==> SmoothAt(w, tick, id);
    AllPass(answer, Acked(At(w, tick)));
    AllPass(answer, Accepted(At(w, tick)));
  }

  lemma DistinctConcat(s: seq<Id>, t: seq<Id>)
    requires Distinct(s) && Distinct(t) && forall x :: x in t ==> x !in Elements(s)
    ensures Distinct(s + t) && Elements(s + t) == Elements(s) + Elements(t)
  {
    var all := s + t;
    forall i, j | 0 <= i < j < |all| ensures all[i] != all[j] {
      if i < |s| <= j {
        assert all[i] in Elements(s) && all[j] in t;
      }
    }
  }

  /** Exactly once: a long enough smooth run hands the broker every pending event, each one time. */
  lemma BacklogDeliveredOnce(rows: map<Id, Row>, w: World, batch: nat, ticks: nat)
    requires Answers(w, batch) && Smooth(w) && ticks * batch >= |Pending(rows)|
    ensures Distinct(OfferedAfter(rows, w, ticks)) && Elements(OfferedAfter(rows, w, ticks)) == Pending(rows)
    ensures Pending(RowsAfter(rows, w, ticks)) == {}
  {
    SmoothDelivers(rows, w, batch, ticks);
    SmoothShrinks(rows, w, batch, ticks);
    var left, offered := Pending(RowsAfter(rows, w, ticks)), OfferedAfter(rows, w, ticks);
    assert |left| == 0 && left == {};
    forall id ensures id in Elements(offered) <==> id in Pending(rows) {
      assert LeftOrOffered(Pending(rows), left, offered, id);
    }
  }

  // ----- the fate of a row --------------------------------------------------

  predicate Effective(w: World, tick: nat) {
    w.marks(tick) && !w.endings(tick).RolledBack?
  }

  /** The pending rows created before a row. */
  function Older(rows: map<Id, Row>, x: Id): set<Id> {
    set y | y in Pending(rows) && Age(rows, y) < Age(rows, x)
  }

  /** Pending rows were created at different times. */
  ghost predicate DistinctTimes(rows: map<Id, Row>) {
    forall x, y :: x in Pending(rows) && y in Pending(rows) && x != y ==> Age(rows, x) != Age(rows, y)
  }

  /** Later rows are the earlier ones with more of them published. */
  ghost predicate Later(rows: map<Id, Row>, more: map<Id, Row>) {
    && Pending(more) <= Pending(rows)
    && forall x :: Age(more, x) == Age(rows, x)
  }

  lemma TickIsLater(rows: map<Id, Row>, w: World, tick: nat)
    ensures Later(rows, Ticked(rows, w, tick))
  {
  }

  lemma {:induction false} AfterIsLater(rows: map<Id, Row>, w: World, t: nat, u: nat)
    requires t <= u
    ensures Later(RowsAfter(rows, w, t), RowsAfter(rows, w, u))
    decreases u
  {
    if t < u {
      AfterIsLater(rows, w, t, u - 1);
      TickIsLater(RowsAfter(rows, w, u - 1), w, u - 1);
    }
  }

  lemma OlderLater(rows: map<Id, Row>, more: map<Id, Row>, x: Id)
    requires Later(rows, more)
    ensures Older(more, x) <= Older(rows, x)
    ensures DistinctTimes(rows) ==> DistinctTimes(more)
  {
    forall y | y in Older(more, x) ensures y in Older(rows, x) {
      assert Age(more, y) == Age(rows, y) && Age(more, x) == Age(rows, x);
    }
    if DistinctTimes(rows) {
      forall y, z | y in Pending(more) && z in Pending(more) && y != z ensures Age(more, y) != Age(more, z) {
        assert Age(more, y) == Age(rows, y) && Age(more, z) == Age(rows, z);
      }
    }
  }

  /** A row with a batch of older ones ahead of it is not claimed. */
  lemma BehindBatchNotClaimed(rows: map<Id, Row>, batch: nat, ids: seq<Id>, ahead: set<Id>, x: Id)
    requires IsClaim(rows, {}, batch, ids) && ahead <= Older(rows, x) && |ahead| >= batch
    ensures x !in ids
  {
    if x in ids {
      forall y | y in ahead ensures y in ids {
      }
      DistinctSize(ids);
      SubsetSize(ahead + {x}, Elements(ids));
    }
  }

  /** A row with fewer than a batch of older ones ahead of it is claimed. */
  lemma FrontIsClaimed(rows: map<Id, Row>, batch: nat, ids: seq<Id>, x: Id)
    requires IsClaim(rows, {}, batch, ids) && DistinctTimes(rows) && x in Pending(rows) && |Older(rows, x)| < batch
    ensures x in ids
  {
    if x !in ids {
      assert forall id :: id in Elements(ids) <==> id in ids;
      forall id | id in ids ensures id in Older(rows, x) {
        assert Age(rows, id) <= Age(rows, x) && Age(rows, id) != Age(rows, x);
      }
      DistinctSize(ids);
      SubsetSize(Elements(ids), Older(rows, x));
    }
  }

  /** The tick hands the row to the broker for good, if it claims it. */
  predicate Goes(w: World, x: Id, tick: nat) {
    Effective(w, tick) && w.publish(tick, x).Acknowledged?
  }

  ghost predicate GoesAfter(w: World, x: Id, t: nat) {
    exists u :: u >= t && Goes(w, x, u)
  }

  /** Again and again there is an effective tick in which the broker acknowledges the row. */
  ghost predicate Live(w: World, x: Id) {
    forall t :: GoesAfter(w, x, t)
  }

  /** The broker never acknowledges the row. */
  ghost predicate NeverAcked(w: World, x: Id) {
    forall tick :: !w.publish(tick, x).Acknowledged?
  }

  ghost function OlderNotLive(rows: map<Id, Row>, w: World, x: Id): set<Id> {
    set y | y in Older(rows, x) && !Live(w, y)
  }

  /** Progress, for a broker that changes from tick to tick: where all rows decode, a live row leaves
      the queue after any tick, as long as fewer than a batch of older rows are not live. */
  lemma {:induction false} LiveRowLeaves(rows: map<Id, Row>, w: World, batch: nat, t: nat, x: Id) returns (u: nat)
    requires Answers(w, batch) && DistinctTimes(rows) && forall id :: id in Pending(rows) ==> w.decodes(id)
    requires Live(w, x) && |OlderNotLive(rows, w, x)| < batch
    ensures u >= t && x !in Pending(RowsAfter(rows, w, u))
    decreases |Older(RowsAfter(rows, w, t), x)|
  {
    var now := RowsAfter(rows, w, t);
    AfterIsLater(rows, w, 0, t);
    OlderLater(rows, now, x);
    if x !in Pending(now) {
      return t;
    }
    if |Older(now, x)| < batch {
      assert GoesAfter(w, x, t);
      var v :| v >= t && Goes(w, x, v);
      FrontLeavesAt(rows, w, batch, t, v, x);
      return v + 1;
    }
    var y := LiveOlder(rows, now, w, batch, x);
    OlderShrinks(rows, now, w, x, y);
    var v := LiveRowLeaves(rows, w, batch, t, y);
    AfterIsLater(rows, w, t, v);
    OlderLater(now, RowsAfter(rows, w, v), x);
    SmallerSet(Older(RowsAfter(rows, w, v), x), Older(now, x), y);
    u := LiveRowLeaves(rows, w, batch, v, x);
  }

  lemma SmallerSet(a: set<Id>, b: set<Id>, y: Id)
    requires a <= b && y in b && y !in a
    ensures |a| < |b|
  {
    SubsetSize(a, b - {y});
  }

  /** Among a batch of older rows, fewer of which are not live, one is live. */
  lemma LiveOlder(rows: map<Id, Row>, now: map<Id, Row>, w: World, batch: nat, x: Id) returns (y: Id)
    requires Later(rows, now) && |Older(now, x)| >= batch > |OlderNotLive(rows, w, x)|
    ensures y in Older(now, x) && Live(w, y)
  {
    OlderLater(rows, now, x);
    if forall z :: z in Older(now, x) ==> !Live(w, z) {
      SubsetSize(Older(now, x), OlderNotLive(rows, w, x));
    }
    y :| y in Older(now, x) && Live(w, y);
  }

  lemma OlderShrinks(rows: map<Id, Row>, now: map<Id, Row>, w: World, x: Id, y: Id)
    requires Later(rows, now) && y in Older(now, x)
    ensures |Older(now, y)| < |Older(now, x)|
    ensures |OlderNotLive(rows, w, y)| <= |OlderNotLive(rows, w, x)|
  {
    SmallerSet(Older(now, y), Older(now, x), y);
    assert Age(now, y) == Age(rows, y) && Age(now, x) == Age(rows, x);
    SubsetSize(OlderNotLive(rows, w, y), OlderNotLive(rows, w, x));
  }

  /** A row at the front stays there, and leaves in the tick that acknowledges it, if not before. */
  lemma FrontLeavesAt(rows: map<Id, Row>, w: World, batch: nat, t: nat, v: nat, x: Id)
    requires Answers(w, batch) && DistinctTimes(rows) && forall id :: id in Pending(rows) ==> w.decodes(id)
    requires t <= v && Goes(w, x, v) && |Older(RowsAfter(rows, w, t), x)| < batch
    ensures x !in Pending(RowsAfter(rows, w, v + 1))
  {
    var now := RowsAfter(rows, w, v);
    AfterIsLater(rows, w, 0, v);
    OlderLater(rows, now, x);
    AfterIsLater(rows, w, t, v);
    OlderLater(RowsAfter(rows, w, t), now, x);
    SubsetSize(Older(now, x), Older(RowsAfter(rows, w, t), x));
    TickIsLater(now, w, v);
    if x in Pending(now) {
      var answer := w.query(now);
      assert ClaimsOldest(now, w, batch);
      FrontIsClaimed(now, batch, answer, x);
      FilterMembers(answer, Acked(At(w, v)));
    }
  }

  /** Starvation, whatever the broker does meanwhile: behind a batch of older rows that it never
      acknowledges a row is never published, nor even claimed. */
  lemma {:induction false} StarvedBehindRefused(rows: map<Id, Row>, w: World, batch: nat, ticks: nat, refused: set<Id>, x: Id)
    requires Answers(w, batch) && x in Pending(rows)
    requires refused <= Older(rows, x) && |refused| >= batch && forall y :: y in refused ==> NeverAcked(w, y)
    ensures x in Pending(RowsAfter(rows, w, ticks)) && refused <= Older(RowsAfter(rows, w, ticks), x)
    ensures x !in w.query(RowsAfter(rows, w, ticks))
  {
    if ticks > 0 {
      StarvedBehindRefused(rows, w, batch, ticks - 1, refused, x);
      var now := RowsAfter(rows, w, ticks - 1);
      FilterMembers(w.query(now), Acked(At(w, ticks - 1)));
      TickIsLater(now, w, ticks - 1);
      var next := RowsAfter(rows, w, ticks);
      forall y | y in refused ensures y in Older(next, x) {
        assert NeverAcked(w, y) && y in Older(now, x);
        assert Age(next, y) == Age(now, y) && Age(next, x) == Age(now, x);
      }
    }
    assert ClaimsOldest(RowsAfter(rows, w, ticks), w, batch);
    BehindBatchNotClaimed(RowsAfter(rows, w, ticks), batch, w.query(RowsAfter(rows, w, ticks)), refused, x);
  }

  /** The exact condition, where all rows decode and each older row is either acknowledged again and
      again or never: a live row is published some time if and only if fewer than a batch of older rows
      are refused for good. */
  lemma EventuallyPublishedIff(rows: map<Id, Row>, w: World, batch: nat, x: Id)
    requires Answers(w, batch) && DistinctTimes(rows) && forall id :: id in Pending(rows) ==> w.decodes(id)
    requires x in Pending(rows) && Live(w, x) && forall y :: y in Older(rows, x) ==> Live(w, y) || NeverAcked(w, y)
    ensures (exists ticks :: x !in Pending(RowsAfter(rows, w, ticks))) <==> |OlderNotLive(rows, w, x)| < batch
  {
    if |OlderNotLive(rows, w, x)| < batch {
      var u := LiveRowLeaves(rows, w, batch, 0, x);
    } else {
      forall ticks: nat ensures x in Pending(RowsAfter(rows, w, ticks)) {
        StarvedBehindRefused(rows, w, batch, ticks, OlderNotLive(rows, w, x), x);
      }
    }
  }

  /** A row that does not decode is never published, and blocks every younger row. */
  lemma {:induction false} BadRowBlocks(rows: map<Id, Row>, w: World, batch: nat, ticks: nat, bad: Id, x: Id)
    requires Answers(w, batch) && bad in Pending(rows) && !w.decodes(bad)
    requires x in Pending(rows) && (x == bad || bad in Older(rows, x))
    ensures x in Pending(RowsAfter(rows, w, ticks)) && bad in Pending(RowsAfter(rows, w, ticks))
  {
    hide Ticked;
    if ticks > 0 {
      BadRowBlocks(rows, w, batch, ticks - 1, bad, x);
      AfterIsLater(rows, w, 0, ticks - 1);
      var now := RowsAfter(rows, w, ticks - 1);
      assert Age(now, bad) == Age(rows, bad) && Age(now, x) == Age(rows, x);
      BadRowStays(now, w, batch, ticks - 1, bad, x);
    }
  }

  lemma BadRowStays(rows: map<Id, Row>, w: World, batch: nat, tick: nat, bad: Id, x: Id)
    requires Answers(w, batch) && bad in Pending(rows) && !w.decodes(bad)
    requires x in Pending(rows) && (x == bad || bad in Older(rows, x))
    ensures x in Pending(Ticked(rows, w, tick)) && bad in Pending(Ticked(rows, w, tick))
  {
    var answer := w.query(rows);
    assert ClaimsOldest(rows, w, batch);
    assert x in answer ==> bad in answer;
    FilterMembers(answer, Acked(At(w, tick)));
  }

  /** Among the oldest batch it blocks everything. */
  lemma {:induction false} BadFrontBlocksAll(rows: map<Id, Row>, w: World, batch: nat, ticks: nat, bad: Id)
    requires Answers(w, batch) && DistinctTimes(rows) && bad in Pending(rows) && !w.decodes(bad) && |Older(rows, bad)| < batch
    ensures RowsAfter(rows, w, ticks) == rows
  {
    if ticks > 0 {
      BadFrontBlocksAll(rows, w, batch, ticks - 1, bad);
      assert ClaimsOldest(rows, w, batch);
      FrontIsClaimed(rows, batch, w.query(rows), bad);
    }
  }

  /** A queue that fails: one refused row ahead and a batch of one. */
  lemma OneRefusedRowStarves(w: World, ticks: nat)
    requires Answers(w, 1) && NeverAcked(w, 1)
    ensures 2 in Pending(RowsAfter(map[1 := Row(0, false), 2 := Row(5, false)], w, ticks))
  {
    StarvedBehindRefused(map[1 := Row(0, false), 2 := Row(5, false)], w, 1, ticks, {1}, 2);
  }

  /** Whatever the creation times: while the broker acknowledges no row of the claim, nothing moves. */
  lemma {:induction false} RefusedBatchBlocks(rows: map<Id, Row>, w: World, ticks: nat)
    requires forall id :: id in w.query(rows) ==> NeverAcked(w, id)
    ensures RowsAfter(rows, w, ticks) == rows
  {
    if ticks > 0 {
      RefusedBatchBlocks(rows, w, ticks - 1);
      NonePass(w.query(rows), Acked(At(w, ticks - 1)));
      NothingSent(rows);
    }
  }
}
