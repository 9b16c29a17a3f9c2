/** The relay's queue while a publish of a row ends the same way in every tick: how far the batches
    get, and by which tick a row is published. */
module Queue {
  import opened Basics
  import opened Permutations
  import opened Outbox
  import opened Relay

  /** The pending rows, oldest first; no two were created at the same time. */
  ghost predicate IsQueue(rows: map<Id, Row>, q: seq<Id>) {
    Elements(q) == Pending(rows) && Ascending(rows, q)
  }

  ghost predicate Ascending(rows: map<Id, Row>, q: seq<Id>) {
    forall i, j :: 0 <= i < j < |q| ==> Age(rows, q[i]) < Age(rows, q[j])
  }

  /** There is a queue whenever pending rows were created at different times. */
  lemma QueueExists(rows: map<Id, Row>) returns (q: seq<Id>)
    requires DistinctTimes(rows)
    ensures IsQueue(rows, q)
  {
    var batch := |Pending(rows)| + 1;
    q := ClaimExists(rows, {}, batch);
    ClaimSize(rows, {}, batch, q);
    assert forall id :: id in q <==> id in Elements(q);
    forall i, j | 0 <= i < j < |q| ensures Age(rows, q[i]) < Age(rows, q[j]) {
      assert q[i] in q && q[j] in q && q[i] != q[j];
    }
  }

  /** The claim is the front of the queue. */
  lemma ClaimIsFront(rows: map<Id, Row>, q: seq<Id>, batch: nat, ids: seq<Id>)
    requires IsQueue(rows, q) && IsClaim(rows, {}, batch, ids)
    ensures ids == Take(q, batch)
  {
    ClaimSize(rows, {}, batch, ids);
    AscendingDistinct(rows, q);
    DistinctSize(q);
    forall k | 0 <= k < |ids| ensures ids[k] == q[k] {
      ClaimAt(rows, q, batch, ids, k);
    }
  }

  lemma {:induction false} ClaimAt(rows: map<Id, Row>, q: seq<Id>, batch: nat, ids: seq<Id>, k: nat)
    requires IsQueue(rows, q) && IsClaim(rows, {}, batch, ids) && k < |ids| <= |q|
    ensures ids[k] == q[k]
  {
    forall l | 0 <= l < k ensures ids[l] == q[l] {
      ClaimAt(rows, q, batch, ids, l);
    }
    NoOlderLeft(rows, q, batch, ids, k);
    assert ids[k] in ids && ids[k] in Elements(q);
    var m :| 0 <= m < |q| && q[m] == ids[k];
    assert forall l :: 0 <= l < k ==> q[l] != ids[k];
  }

  /** After `k` agreeing places the next claimed row is no younger than the next of the queue. */
  lemma NoOlderLeft(rows: map<Id, Row>, q: seq<Id>, batch: nat, ids: seq<Id>, k: nat)
    requires IsQueue(rows, q) && IsClaim(rows, {}, batch, ids) && k < |ids| <= |q|
    requires forall l :: 0 <= l < k ==> ids[l] == q[l]
    ensures Age(rows, ids[k]) <= Age(rows, q[k])
  {
    assert ids[k] in ids && q[k] in Elements(q);
    if q[k] in ids {
      var l :| 0 <= l < |ids| && ids[l] == q[k];
      assert l >= k;
    }
  }

  /** A publish of a row ends the same way in every tick. */
  ghost predicate Steady(w: World) {
    forall tick, id :: w.publish(tick, id) == w.publish(0, id)
  }

  /** A row the broker does not acknowledge stays in the queue. */
  function Stuck(w: World): Id -> bool {
    (id: Id) => !w.publish(0, id).Acknowledged?
  }

  /** The queue after an effective tick. */
  function NextQueue(q: seq<Id>, w: World, batch: nat): seq<Id> {
    var front := Take(q, batch);
    if AllDecode(front, w.decodes) then Filter(front, Stuck(w)) + q[|front|..] else q
  }

  lemma {:induction false} FilterAscending(rows: map<Id, Row>, q: seq<Id>, p: Id -> bool)
    requires Ascending(rows, q)
    ensures Ascending(rows, Filter(q, p))
  {
    if q != [] {
      var init := q[..|q| - 1];
      FilterAscending(rows, init, p);
      FilterMembers(init, p);
      AllOlder(rows, q, Filter(init, p));
    }
  }

  lemma AllOlder(rows: map<Id, Row>, q: seq<Id>, ids: seq<Id>)
    requires Ascending(rows, q) && q != [] && forall id :: id in ids ==> id in q[..|q| - 1]
    ensures forall i :: 0 <= i < |ids| ==> Age(rows, ids[i]) < Age(rows, q[|q| - 1])
  {
    forall i | 0 <= i < |ids| ensures Age(rows, ids[i]) < Age(rows, q[|q| - 1]) {
      assert ids[i] in ids;
      var k :| 0 <= k < |q| - 1 && q[..|q| - 1][k] == ids[i];
      assert q[k] == ids[i];
    }
  }

  lemma AscendingDistinct(rows: map<Id, Row>, q: seq<Id>)
    requires Ascending(rows, q)
    ensures Distinct(q)
  {
  }

  lemma AscendingConcat(rows: map<Id, Row>, front: seq<Id>, kept: seq<Id>, rest: seq<Id>)
    requires Ascending(rows, front + rest) && Ascending(rows, kept) && forall id :: id in kept ==> id in front
    ensures Ascending(rows, kept + rest)
  {
    var all, given := kept + rest, front + rest;
    forall i, j | 0 <= i < j < |all| ensures Age(rows, all[i]) < Age(rows, all[j]) {
      if i < |kept| <= j {
        assert kept[i] in kept;
        var k :| 0 <= k < |front| && front[k] == kept[i];
        assert given[k] == all[i] && given[j - |kept| + |front|] == all[j];
      } else if |kept| <= i {
        assert given[i - |kept| + |front|] == all[i] && given[j - |kept| + |front|] == all[j];
      }
    }
  }

  lemma SameAges(rows: map<Id, Row>, sent: seq<Id>, q: seq<Id>)
    requires Ascending(rows, q)
    ensures Ascending(MarkSent(rows, sent), q)
  {
    forall id ensures Age(MarkSent(rows, sent), id) == Age(rows, id) {
    }
  }

  /** A tick moves the queue on, or leaves it as it was. */
  lemma TickMovesQueue(rows: map<Id, Row>, q: seq<Id>, w: World, batch: nat, tick: nat)
    requires IsQueue(rows, q) && Answers(w, batch) && Steady(w)
    ensures IsQueue(Ticked(rows, w, tick), if Effective(w, tick) then NextQueue(q, w, batch) else q)
  {
    var answer := w.query(rows);
    assert ClaimsOldest(rows, w, batch);
    ClaimIsFront(rows, q, batch, answer);
    var sent := Filter(answer, Acked(At(w, tick)));
    if AllDecode(answer, w.decodes) && Effective(w, tick) {
      FrontLeaves(rows, q, w, tick, answer);
    } else if sent == [] {
      NothingSent(rows);
    }
  }

  lemma FrontLeaves(rows: map<Id, Row>, q: seq<Id>, w: World, tick: nat, front: seq<Id>)
    requires IsQueue(rows, q) && Steady(w) && front <= q
    ensures IsQueue(MarkSent(rows, Filter(front, Acked(At(w, tick)))), Filter(front, Stuck(w)) + q[|front|..])
  {
    var sent, kept, rest := Filter(front, Acked(At(w, tick))), Filter(front, Stuck(w)), q[|front|..];
    assert q == front + rest;
    assert Ascending(rows, front);
    FilterAscending(rows, front, Stuck(w));
    FilterMembers(front, Stuck(w));
    FilterMembers(front, Acked(At(w, tick)));
    AscendingConcat(rows, front, kept, rest);
    SameAges(rows, sent, kept + rest);
    AscendingDistinct(rows, q);
    PartsDisjoint(front, rest);
    var after := Pending(MarkSent(rows, sent));
    assert forall id :: id in q <==> id in Elements(q);
    forall id ensures id in Elements(kept + rest) <==> id in after {
      assert id in after <==> id in Pending(rows) && id !in sent;
      assert id in q <==> id in front || id in rest;
    }
  }

  lemma PartsDisjoint(front: seq<Id>, rest: seq<Id>)
    requires Distinct(front + rest)
    ensures forall id :: id in front ==> id !in rest
  {
    var all := front + rest;
    forall i, j | 0 <= i < |front| && 0 <= j < |rest| ensures front[i] != rest[j] {
      assert all[i] != all[|front| + j];
    }
  }

  // ----- how far the queue is worked off ------------------------------------

  /** How many ticks took effect. */
  function Effects(w: World, ticks: nat): (n: nat)
    ensures n <= ticks
  {
    if ticks == 0 then 0 else Effects(w, ticks - 1) + if Effective(w, ticks - 1) then 1 else 0
  }

  /** Stuck rows among the first `n` of the queue. */
  function StuckBefore(q: seq<Id>, w: World, n: nat): nat
    requires n <= |q|
  {
    |Filter(q[..n], Stuck(w))|
  }

  /** Where a batch ends: it takes up the stuck rows met so far and as many new ones as there is room for. */
  function NextBoundary(q: seq<Id>, w: World, batch: nat, before: nat): (next: nat)
    requires before <= |q|
    ensures before <= next <= |q|
  {
    Min(|q|, before + AtLeastZero(batch - StuckBefore(q, w, before)))
  }

  /** How far batches reach when everything decodes. */
  function Reach(q: seq<Id>, w: World, batch: nat, n: nat): (r: nat)
    ensures r <= |q|
  {
    if n == 0 then 0
    else
      var before := Reach(q, w, batch, n - 1);
      NextBoundary(q, w, batch, before)
  }

  /** The place of the first row that does not decode, or the length of the queue. */
  function FirstBad(q: seq<Id>, w: World): (d: nat)
    ensures d <= |q|
  {
    if q == [] then 0
    else
      var d := FirstBad(q[..|q| - 1], w);
      if d < |q| - 1 || !w.decodes(q[|q| - 1]) then d else |q|
  }

  lemma {:induction false} FirstBadIs(q: seq<Id>, w: World)
    ensures FirstBad(q, w) < |q| ==> !w.decodes(q[FirstBad(q, w)])
    ensures forall i :: 0 <= i < FirstBad(q, w) ==> w.decodes(q[i])
  {
    if q != [] {
      var init := q[..|q| - 1];
      FirstBadIs(init, w);
      forall i | 0 <= i < FirstBad(q, w) ensures w.decodes(q[i]) {
        if i < |init| {
          assert init[i] == q[i];
        }
      }
    }
  }

  /** Batches stop for good before the first one that would hold a row that does not decode. */
  function Served(q: seq<Id>, w: World, batch: nat, n: nat): (r: nat)
    ensures r <= |q|
  {
    if n == 0 then 0
    else
      var before := Served(q, w, batch, n - 1);
      var next := NextBoundary(q, w, batch, before);
      if next <= FirstBad(q, w) then next else before
  }

  /** The queue when the first `n` rows have been worked off: of these the stuck ones are left. */
  function Left(q: seq<Id>, w: World, n: nat): seq<Id>
    requires n <= |q|
  {
    Filter(q[..n], Stuck(w)) + q[n..]
  }

  lemma {:induction false} ServedWithinBatch(q: seq<Id>, w: World, batch: nat, n: nat)
    ensures StuckBefore(q, w, Served(q, w, batch, n)) <= batch && Served(q, w, batch, n) <= FirstBad(q, w)
  {
    if n > 0 {
      ServedWithinBatch(q, w, batch, n - 1);
      StuckWithinBatch(q, w, batch, Served(q, w, batch, n - 1));
    }
  }

  lemma StuckWithinBatch(q: seq<Id>, w: World, batch: nat, before: nat)
    requires before <= |q| && StuckBefore(q, w, before) <= batch
    ensures StuckBefore(q, w, NextBoundary(q, w, batch, before)) <= batch
  {
    var next := NextBoundary(q, w, batch, before);
    StuckBetween(q, w, before, next);
    assert next - before <= batch - StuckBefore(q, w, before);
  }

  lemma {:induction false} StuckBetween(q: seq<Id>, w: World, a: nat, b: nat)
    requires a <= b <= |q|
    ensures StuckBefore(q, w, a) <= StuckBefore(q, w, b) <= StuckBefore(q, w, a) + (b - a)
    decreases b
  {
    if a < b {
      StuckBetween(q, w, a, b - 1);
      assert q[..b][..b - 1] == q[..b - 1];
    }
  }

  /** The batch holds the stuck rows left over and the rows up to the next boundary. */
  lemma BatchIs(q: seq<Id>, w: World, batch: nat, before: nat)
    requires before <= |q| && StuckBefore(q, w, before) <= batch
    ensures
      var next, left := NextBoundary(q, w, batch, before), Left(q, w, before);
      && Take(left, batch) == Filter(q[..before], Stuck(w)) + q[before..next]
      && left[|Take(left, batch)|..] == q[next..]
  {
  }

  /** A batch of rows that decode leaves its stuck rows behind. */
  lemma BatchLeaves(q: seq<Id>, w: World, before: nat, next: nat)
    requires before <= next <= |q|
    ensures Filter(Filter(q[..before], Stuck(w)) + q[before..next], Stuck(w)) == Filter(q[..next], Stuck(w))
  {
    FilterTwice(q[..before], Stuck(w));
    FilterConcat(Filter(q[..before], Stuck(w)), q[before..next], Stuck(w));
    FilterConcat(q[..before], q[before..next], Stuck(w));
    assert q[..before] + q[before..next] == q[..next];
  }

  /** The batch decodes as a whole exactly when the first row that does not decode lies behind it. */
  lemma BatchDecodesIff(q: seq<Id>, w: World, before: nat, next: nat)
    requires before <= FirstBad(q, w) && before <= next <= |q|
    ensures AllDecode(Filter(q[..before], Stuck(w)) + q[before..next], w.decodes) <==> next <= FirstBad(q, w)
  {
    var bad, kept, added := FirstBad(q, w), Filter(q[..before], Stuck(w)), q[before..next];
    FirstBadIs(q, w);
    KeptDecodes(q, w, before);
    if bad < next {
      assert added[bad - before] == q[bad];
      assert q[bad] in kept + added;
    } else {
      forall id | id in added ensures w.decodes(id) {
        var k :| 0 <= k < |added| && added[k] == id;
        assert q[before + k] == id;
      }
    }
  }

  /** One effective tick works the queue off up to the next boundary, unless its batch does not decode. */
  lemma NextLeft(q: seq<Id>, w: World, batch: nat, before: nat)
    requires before <= FirstBad(q, w) && StuckBefore(q, w, before) <= batch
    ensures
      var next := NextBoundary(q, w, batch, before);
      NextQueue(Left(q, w, before), w, batch) == Left(q, w, if next <= FirstBad(q, w) then next else before)
  {
    var next := NextBoundary(q, w, batch, before);
    BatchIs(q, w, batch, before);
    BatchDecodesIff(q, w, before, next);
    BatchLeaves(q, w, before, next);
  }

  lemma NextServed(q: seq<Id>, w: World, batch: nat, n: nat)
    ensures NextQueue(Left(q, w, Served(q, w, batch, n)), w, batch) == Left(q, w, Served(q, w, batch, n + 1))
  {
    ServedWithinBatch(q, w, batch, n);
    NextLeft(q, w, batch, Served(q, w, batch, n));
  }

  lemma KeptDecodes(q: seq<Id>, w: World, before: nat)
    requires before <= FirstBad(q, w)
    ensures AllDecode(Filter(q[..before], Stuck(w)), w.decodes)
  {
    FirstBadIs(q, w);
    FilterMembers(q[..before], Stuck(w));
  }

  lemma QueueTick(rows: map<Id, Row>, q: seq<Id>, w: World, batch: nat, tick: nat, n: nat, m: nat)
    requires IsQueue(rows, Left(q, w, Served(q, w, batch, n))) && Answers(w, batch) && Steady(w)
    requires m == if Effective(w, tick) then n + 1 else n
    ensures IsQueue(Ticked(rows, w, tick), Left(q, w, Served(q, w, batch, m)))
  {
    NextServed(q, w, batch, n);
    TickMovesQueue(rows, Left(q, w, Served(q, w, batch, n)), w, batch, tick);
  }

  /** The queue after any number of ticks. */
  lemma {:induction false} QueueAfter(rows: map<Id, Row>, q: seq<Id>, w: World, batch: nat, ticks: nat)
    requires IsQueue(rows, q) && Answers(w, batch) && Steady(w)
    ensures IsQueue(RowsAfter(rows, w, ticks), Left(q, w, Served(q, w, batch, Effects(w, ticks))))
  {
    if ticks == 0 {
      assert Left(q, w, 0) == q;
    } else {
      QueueAfter(rows, q, w, batch, ticks - 1);
      QueueTick(RowsAfter(rows, w, ticks - 1), q, w, batch, ticks - 1, Effects(w, ticks - 1), Effects(w, ticks));
    }
  }

  // ----- the fate of a row --------------------------------------------------

  /** Of distinct rows the ones left are those not worked off yet and the stuck ones. */
  lemma InLeft(q: seq<Id>, w: World, n: nat, i: nat)
    requires n <= |q| && i < |q| && Distinct(q)
    ensures q[i] in Elements(Left(q, w, n)) <==> i >= n || Stuck(w)(q[i])
  {
    FilterMembers(q[..n], Stuck(w));
    if i < n {
      assert q[..n][i] == q[i];
      forall j | 0 <= j < |q[n..]| ensures q[n..][j] != q[i] {
        assert q[n..][j] == q[n + j];
      }
    } else {
      assert q[n..][i - n] == q[i];
    }
  }

  /** A row that the broker acknowledges is published after some ticks exactly when the batches of the
      effective ones have reached it. */
  lemma PublishedIff(rows: map<Id, Row>, q: seq<Id>, w: World, batch: nat, ticks: nat, i: nat)
    requires IsQueue(rows, q) && Answers(w, batch) && Steady(w) && i < |q| && !Stuck(w)(q[i])
    ensures q[i] !in Pending(RowsAfter(rows, w, ticks)) <==> i < Served(q, w, batch, Effects(w, ticks))
  {
    QueueAfter(rows, q, w, batch, ticks);
    AscendingDistinct(rows, q);
    InLeft(q, w, Served(q, w, batch, Effects(w, ticks)), i);
  }

  lemma {:induction false} ReachGrows(q: seq<Id>, w: World, batch: nat, n: nat, m: nat)
    requires n <= m
    ensures Reach(q, w, batch, n) <= Reach(q, w, batch, m)
    decreases m
  {
    if n < m {
      ReachGrows(q, w, batch, n, m - 1);
    }
  }

  /** Batches get as far as the boundary before the first row that does not decode. */
  lemma {:induction false} ServedStops(q: seq<Id>, w: World, batch: nat, n: nat) returns (k: nat)
    ensures k <= n && Served(q, w, batch, n) == Reach(q, w, batch, k) <= FirstBad(q, w)
    ensures k < n ==> Reach(q, w, batch, k + 1) > FirstBad(q, w)
  {
    if n == 0 {
      k := 0;
    } else {
      k := ServedStops(q, w, batch, n - 1);
      if k == n - 1 && Reach(q, w, batch, n) <= FirstBad(q, w) {
        k := n;
      }
    }
  }

  /** The exact condition: some batch boundary lies behind the row, but not behind the first row that
      does not decode. */
  lemma ServedIff(q: seq<Id>, w: World, batch: nat, n: nat, i: nat)
    requires i < |q|
    ensures i < Served(q, w, batch, n) <==> exists k: nat :: k <= n && i < Reach(q, w, batch, k) <= FirstBad(q, w)
  {
    var s := ServedStops(q, w, batch, n);
    forall k: nat | k <= n && i < Reach(q, w, batch, k) <= FirstBad(q, w) ensures i < Served(q, w, batch, n) {
      ReachedIsServed(q, w, batch, n, s, k);
    }
  }

  lemma ReachedIsServed(q: seq<Id>, w: World, batch: nat, n: nat, s: nat, k: nat)
    requires k <= n && Reach(q, w, batch, k) <= FirstBad(q, w)
    requires s < n ==> Reach(q, w, batch, s + 1) > FirstBad(q, w)
    requires s <= n && Served(q, w, batch, n) == Reach(q, w, batch, s)
    ensures Reach(q, w, batch, k) <= Served(q, w, batch, n)
  {
    if k <= s {
      ReachGrows(q, w, batch, k, s);
    } else {
      ReachGrows(q, w, batch, s + 1, k);
    }
  }

  /** Where every row decodes: a row is reached exactly when fewer than a batch of older rows are
      stuck, and then no later than by the tick of its place in the queue. */
  lemma {:induction false} ReachedInTime(q: seq<Id>, w: World, batch: nat, i: nat, n: nat)
    requires i < |q| && StuckBefore(q, w, i) < batch
    ensures Reach(q, w, batch, n) > i || Reach(q, w, batch, n) >= n
  {
    if n > 0 {
      ReachedInTime(q, w, batch, i, n - 1);
      var before := Reach(q, w, batch, n - 1);
      if before <= i {
        StuckBetween(q, w, before, i);
      }
    }
  }

  /** Among rows that decode, a row the broker acknowledges is published by the tick whose effect has
      the row's place as its number, if ever: exactly when fewer than `batch` older rows are stuck. */
  lemma PublishedInTimeIff(rows: map<Id, Row>, q: seq<Id>, w: World, batch: nat, ticks: nat, i: nat)
    requires IsQueue(rows, q) && Answers(w, batch) && Steady(w) && i < |q| && !Stuck(w)(q[i])
    requires FirstBad(q, w) == |q| && Effects(w, ticks) > i
    ensures q[i] !in Pending(RowsAfter(rows, w, ticks)) <==> StuckBefore(q, w, i) < batch
  {
    if StuckBefore(q, w, i) < batch {
      ReachedInTime(q, w, batch, i, i + 1);
      ServedIff(q, w, batch, Effects(w, ticks), i);
      PublishedIff(rows, q, w, batch, ticks, i);
    } else {
      var refused := Elements(Filter(q[..i], Stuck(w)));
      StuckAreOlder(rows, q, w, i);
      StarvedBehindRefused(rows, w, batch, ticks, refused, q[i]);
    }
  }

  lemma StuckAreOlder(rows: map<Id, Row>, q: seq<Id>, w: World, i: nat)
    requires IsQueue(rows, q) && Steady(w) && i < |q|
    ensures
      var refused := Elements(Filter(q[..i], Stuck(w)));
      && q[i] in Pending(rows) && refused <= Older(rows, q[i]) && |refused| == StuckBefore(q, w, i)
      && forall y :: y in refused ==> NeverAcked(w, y)
  {
    AscendingDistinct(rows, q);
    DistinctFilter(q[..i], Stuck(w));
    DistinctSize(Filter(q[..i], Stuck(w)));
    FilterMembers(q[..i], Stuck(w));
    assert forall id :: id in q <==> id in Elements(q);
    forall y | y in Filter(q[..i], Stuck(w)) ensures y in Older(rows, q[i]) && NeverAcked(w, y) {
      var k :| 0 <= k < i && q[..i][k] == y;
      assert q[k] == y && y in q && q[i] in q;
    }
  }
}
