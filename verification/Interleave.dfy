/** Interleaving the lexical and the semantic search results. */
module Interleave {

  import opened Basics
  import opened Dedupe

  datatype Chunk = Chunk(id: string, body: string)

  /** A list entry, which can be missing. */
  datatype Slot = Missing | Present(chunk: Chunk)

  function IdOf(c: Chunk): string { c.id }

  // ----- specification ------------------------------------------------------

  /** The merge that takes from both lists in turn, the first list first. */
  function RoundRobin<T>(a: seq<T>, b: seq<T>): seq<T> {
    if a == [] then b
    else if b == [] then a
    else [a[0], b[0]] + RoundRobin(a[1..], b[1..])
  }

  /** The chunks of a list that are there and have an id. */
  function Usable(slots: seq<Slot>): seq<Chunk> {
    if slots == [] then []
    else
      var init, last := Usable(slots[..|slots| - 1]), slots[|slots| - 1];
      if last.Present? && last.chunk.id != "" then init + [last.chunk] else init
  }

  function Deduplicated(slots: seq<Slot>): seq<Chunk> {
    Firsts(Usable(slots), IdOf)
  }

  function Best(lexical: seq<Slot>, semantic: seq<Slot>, limit: nat): seq<Chunk> {
    Take(Deduplicated(RoundRobin(lexical, semantic)), limit)
  }

  /** Where each entry goes: the lists take turns, the first list first, until one of them ends. */
  lemma {:induction false} RoundRobinPlaces<T>(a: seq<T>, b: seq<T>, i: nat)
    ensures |RoundRobin(a, b)| == |a| + |b|
    ensures i < |a| ==> RoundRobin(a, b)[i + (if i < |b| then i else |b|)] == a[i]
    ensures i < |b| ==> RoundRobin(a, b)[i + (if i < |a| then i + 1 else |a|)] == b[i]
  {
    if a != [] && b != [] {
      RoundRobinPlaces(a[1..], b[1..], if i == 0 then 0 else i - 1);
    }
  }

  /** The usable entries are those that are there and have an id. */
  lemma {:induction false} UsableIff(slots: seq<Slot>, c: Chunk)
    ensures c in Usable(slots) <==> c.id != "" && Present(c) in slots
  {
    if slots != [] {
      UsableIff(slots[..|slots| - 1], c);
      assert slots == slots[..|slots| - 1] + [slots[|slots| - 1]];
    }
  }

  // ----- the loop -----------------------------------------------------------

  /** The first n entries of a list, or all of them. */
  function Upto<T>(s: seq<T>, n: nat): seq<T> {
    if n <= |s| then s[..n] else s
  }

  function At<T>(s: seq<T>, n: nat): seq<T> {
    if n < |s| then [s[n]] else []
  }

  lemma UptoTail<T>(s: seq<T>, n: nat)
    requires s != [] && n > 0
    ensures Upto(s, n) != [] && Upto(s, n)[0] == s[0] && Upto(s, n)[1..] == Upto(s[1..], n - 1)
  {}

  lemma UptoNext<T>(s: seq<T>, n: nat)
    ensures Upto(s, n + 1) == Upto(s, n) + At(s, n)
  {}

  lemma RoundRobinFirst<T>(a: seq<T>, b: seq<T>)
    requires a != [] && b != []
    ensures RoundRobin(Upto(a, 0), Upto(b, 0)) == []
    ensures RoundRobin(Upto(a, 1), Upto(b, 1)) == [] + [a[0]] + [b[0]]
  {
    assert Upto(a, 1) == [a[0]] && Upto(b, 1) == [b[0]];
    assert [a[0]][1..] == [];
  }

  /** One round of the merge. */
  lemma {:induction false} RoundRobinStep<T>(a: seq<T>, b: seq<T>, n: nat)
    ensures RoundRobin(Upto(a, n + 1), Upto(b, n + 1)) == RoundRobin(Upto(a, n), Upto(b, n)) + At(a, n) + At(b, n)
  {
    if a == [] {
      UptoNext(b, n);
    } else if b == [] {
      UptoNext(a, n);
      assert At(b, n) == [];
    } else {
      if n == 0 {
        RoundRobinFirst(a, b);
      } else {
        RoundRobinStep(a[1..], b[1..], n - 1);
        RoundRobinTail(a, b, n);
      }
    }
  }

  /** One round of the tails is one round of the lists. */
  lemma RoundRobinTail<T>(a: seq<T>, b: seq<T>, n: nat)
    requires a != [] && b != [] && n > 0
    requires RoundRobin(Upto(a[1..], n), Upto(b[1..], n)) ==
               RoundRobin(Upto(a[1..], n - 1), Upto(b[1..], n - 1)) + At(a[1..], n - 1) + At(b[1..], n - 1)
    ensures RoundRobin(Upto(a, n + 1), Upto(b, n + 1)) == RoundRobin(Upto(a, n), Upto(b, n)) + At(a, n) + At(b, n)
  {
    RoundRobinHead(a, b, n + 1);
    RoundRobinHead(a, b, n);
    var heads, sofar := [a[0], b[0]], RoundRobin(Upto(a[1..], n - 1), Upto(b[1..], n - 1));
    Associative(heads, sofar + At(a, n), At(b, n));
    Associative(heads, sofar, At(a, n));
  }

  lemma RoundRobinHead<T>(a: seq<T>, b: seq<T>, n: nat)
    requires a != [] && b != [] && n > 0
    ensures RoundRobin(Upto(a, n), Upto(b, n)) == [a[0], b[0]] + RoundRobin(Upto(a[1..], n - 1), Upto(b[1..], n - 1))
  {
    UptoTail(a, n);
    UptoTail(b, n);
  }

  lemma {:induction false} UsableAppend(s: seq<Slot>, t: seq<Slot>)
    ensures Usable(s + t) == Usable(s) + Usable(t)
  {
    if t == [] {
      assert s + t == s;
    } else {
      UsableAppend(s, t[..|t| - 1]);
      assert (s + t)[..|s + t| - 1] == s + t[..|t| - 1];
    }
  }

  lemma DistinctGrow(s: seq<Slot>, t: seq<Slot>)
    ensures Deduplicated(s) <= Deduplicated(s + t)
  {
    UsableAppend(s, t);
    FirstsGrow(Usable(s), Usable(t), IdOf);
  }

  // ----- what the caller gets -----------------------------------------------

  lemma {:induction false} UsableShort(s: seq<Slot>)
    ensures |Usable(s)| <= |s|
    ensures forall k :: 0 <= k < |Usable(s)| ==> Usable(s)[k].id != "" && Present(Usable(s)[k]) in s
  {
    if s != [] {
      UsableShort(s[..|s| - 1]);
    }
  }

  lemma {:induction false} FirstsShort(s: seq<Chunk>)
    ensures |Firsts(s, IdOf)| <= |s|
    ensures forall c :: c in Firsts(s, IdOf) ==> c in s
  {
    if s != [] {
      FirstsShort(s[..|s| - 1]);
    }
  }

  /** No id twice, none empty, nothing made up; and unless the list is full, every id is there. */
  lemma BestIsDistinct(lexical: seq<Slot>, semantic: seq<Slot>, limit: nat)
    ensures
      var best, all := Best(lexical, semantic, limit), Usable(RoundRobin(lexical, semantic));
      && |best| <= limit
      && (forall i, j :: 0 <= i < j < |best| ==> best[i].id != best[j].id)
      && (forall c :: c in best ==> c.id != "" && c in all)
      && (|best| < limit ==> Keys(best, IdOf) == Keys(all, IdOf))
  {
    var all := Usable(RoundRobin(lexical, semantic));
    UsableShort(RoundRobin(lexical, semantic));
    FirstsShort(all);
    FirstsKeys(all, IdOf);
    var best := Best(lexical, semantic, limit);
    forall i, j | 0 <= i < j < |best| ensures best[i].id != best[j].id {
      assert IdOf(Firsts(all, IdOf)[i]) != IdOf(Firsts(all, IdOf)[j]);
    }
    forall c | c in best ensures c.id != "" && c in all {
      assert c in Firsts(all, IdOf);
      var k :| 0 <= k < |all| && all[k] == c;
    }
  }

  lemma {:induction false} RoundsShort(a: seq<Slot>, b: seq<Slot>, n: nat)
    ensures |RoundRobin(Upto(a, n), Upto(b, n))| <= 2 * n
    ensures Rounds(a, b, n) <= Deduplicated(RoundRobin(a, b))
    ensures n > 0 ==> RoundRobin(Upto(a, n - 1), Upto(b, n - 1)) + At(a, n - 1) + At(b, n - 1) == RoundRobin(Upto(a, n), Upto(b, n))
  {
    RoundsGrow(a, b, n);
    if n > 0 {
      RoundsShort(a, b, n - 1);
      RoundRobinStep(a, b, n - 1);
    }
  }

  lemma RoundGrows(a: seq<Slot>, b: seq<Slot>, n: nat)
    ensures Rounds(a, b, n) <= Rounds(a, b, n + 1)
  {
    var before := RoundRobin(Upto(a, n), Upto(b, n));
    RoundRobinStep(a, b, n);
    DistinctGrow(before, At(a, n));
    DistinctGrow(before + At(a, n), At(b, n));
    PrefixTransitive(Deduplicated(before), Deduplicated(before + At(a, n)), Deduplicated(before + At(a, n) + At(b, n)));
  }

  /** The distinct chunks of the first n rounds. */
  function Rounds(a: seq<Slot>, b: seq<Slot>, n: nat): seq<Chunk> {
    Deduplicated(RoundRobin(Upto(a, n), Upto(b, n)))
  }

  lemma {:induction false} RoundsGrowTo(a: seq<Slot>, b: seq<Slot>, n: nat, m: nat)
    requires n <= m
    ensures Rounds(a, b, n) <= Rounds(a, b, m)
  {
    if n < m {
      RoundsGrowTo(a, b, n, m - 1);
      OneRoundMore(a, b, n, m);
    }
  }

  lemma OneRoundMore(a: seq<Slot>, b: seq<Slot>, n: nat, m: nat)
    requires n < m && Rounds(a, b, n) <= Rounds(a, b, m - 1)
    ensures Rounds(a, b, n) <= Rounds(a, b, m)
  {
    hide Rounds;
    RoundGrows(a, b, m - 1);
    PrefixTransitive(Rounds(a, b, n), Rounds(a, b, m - 1), Rounds(a, b, m));
  }

  lemma RoundsGrow(a: seq<Slot>, b: seq<Slot>, n: nat)
    ensures Rounds(a, b, n) <= Deduplicated(RoundRobin(a, b))
  {
    var m := n + |a| + |b|;
    RoundsGrowTo(a, b, n, m);
    assert Upto(a, m) == a && Upto(b, m) == b;
  }

  /** Neither list starves the other: the first half of the limit of each list is always represented. */
  lemma BothListsRepresented(lexical: seq<Slot>, semantic: seq<Slot>, limit: nat, i: nat, c: Chunk)
    requires c.id != ""
    requires (At(lexical, i) == [Present(c)] && 2 * i < limit) || (At(semantic, i) == [Present(c)] && 2 * i + 1 < limit)
    ensures c.id in Keys(Best(lexical, semantic, limit), IdOf)
  {
    var before, x, y := RoundRobin(Upto(lexical, i), Upto(semantic, i)), At(lexical, i), At(semantic, i);
    var all := Deduplicated(RoundRobin(lexical, semantic));
    RoundsShort(lexical, semantic, i);
    assert Deduplicated(before + x + y) <= all by {
      RoundsShort(lexical, semantic, i + 1);
    }
    if x == [Present(c)] && 2 * i < limit {
      InFront(before, c, y, all, limit);
    } else {
      assert before + x + y == before + x + [Present(c)] + [];
      InFront(before + x, c, [], all, limit);
    }
  }

  lemma InFront(before: seq<Slot>, c: Chunk, after: seq<Slot>, all: seq<Chunk>, limit: nat)
    requires |before| < limit && c.id != "" && Deduplicated(before + [Present(c)] + after) <= all
    ensures c.id in Keys(Take(all, limit), IdOf)
  {
    var upto := before + [Present(c)];
    UsableShort(upto);
    FirstsShort(Usable(upto));
    DistinctGrow(upto, after);
    assert upto[..|before|] == before;
    assert Usable(upto) == Usable(before) + [c];
    KeysSnoc(Usable(before), c, IdOf);
    FirstsKeys(Usable(upto), IdOf);
    var front := Deduplicated(upto);
    assert IdOf(c) in Keys(front, IdOf);
    var k :| 0 <= k < |front| && IdOf(front[k]) == c.id;
    assert Take(all, limit)[k] == front[k];
  }

  // ----- the merger ---------------------------------------------------------

  /** One more entry is added unless it is missing, without id, present already or over the limit. */
  lemma OneMore(offered: seq<Slot>, slot: Slot, limit: nat)
    ensures
      var out := Take(Deduplicated(offered), limit);
      Take(Deduplicated(offered + [slot]), limit) ==
        if slot.Missing? || |out| >= limit || slot.chunk.id == "" || slot.chunk.id in Keys(out, IdOf) then out
        else out + [slot.chunk]
  {
    var all := Usable(offered);
    assert (offered + [slot])[..|offered|] == offered;
    DistinctGrow(offered, [slot]);
    if slot.Present? && slot.chunk.id != "" {
      FirstsSnoc(all, slot.chunk, IdOf);
      FirstsKeys(all, IdOf);
    }
  }

  /** When the limit is reached or both lists are used up, further rounds change nothing. */
  lemma Settled(lexical: seq<Slot>, semantic: seq<Slot>, n: nat, limit: nat)
    requires
      limit <= |Take(Rounds(lexical, semantic, n), limit)| || (|lexical| <= n && |semantic| <= n)
    ensures Take(Rounds(lexical, semantic, n), limit) == Best(lexical, semantic, limit)
  {
    RoundsGrow(lexical, semantic, n);
    if |lexical| <= n && |semantic| <= n {
      assert Upto(lexical, n) == lexical && Upto(semantic, n) == semantic;
    }
  }

  class Merger {
    const limit: nat
    var out: seq<Chunk>
    var seen: set<string>

    /** The list built from the entries offered so far. */
    ghost predicate Built(offered: seq<Slot>)
      reads this
    {
      && out == Take(Deduplicated(offered), limit)
      && seen == Keys(out, IdOf)
    }

    constructor (limit: nat)
      ensures this.limit == limit && Built([])
    {
      this.limit := limit;
      out, seen := [], {};
    }

    method Add(slot: Slot, ghost offered: seq<Slot>)
      requires Built(offered)
      modifies this
      ensures Built(offered + [slot])
    {
      OneMore(offered, slot, limit);
      if slot.Missing? || |out| >= limit {
        return;
      }
      var id := slot.chunk.id;
      if id == "" || id in seen {
        return;
      }
      KeysSnoc(out, slot.chunk, IdOf);
      seen := seen + {id};
      out := out + [slot.chunk];
    }

    /** One round: the next entry of each list that still has one. */
    method AddRound(lexical: seq<Slot>, semantic: seq<Slot>, i: nat)
      requires Built(RoundRobin(Upto(lexical, i), Upto(semantic, i)))
      modifies this
      ensures Built(RoundRobin(Upto(lexical, i + 1), Upto(semantic, i + 1)))
    {
      ghost var before := RoundRobin(Upto(lexical, i), Upto(semantic, i));
      RoundRobinStep(lexical, semantic, i);
      if i < |lexical| {
        Add(lexical[i], before);
      } else {
        assert before + At(lexical, i) == before;
      }
      ghost var between := before + At(lexical, i);
      if i < |semantic| {
        Add(semantic[i], between);
      } else {
        assert between + At(semantic, i) == between;
      }
    }

    method Interleave(lexical: seq<Slot>, semantic: seq<Slot>)
      requires Built([])
      modifies this
      ensures out == Best(lexical, semantic, limit)
    {
      var i := 0;
      while |out| < limit && (i < |lexical| || i < |semantic|)
        invariant Built(RoundRobin(Upto(lexical, i), Upto(semantic, i)))
        decreases |lexical| + |semantic| - i
      {
        AddRound(lexical, semantic, i);
        i := i + 1;
      }
      Settled(lexical, semantic, i, limit);
    }
  }

  method InterleaveChunks(lexical: seq<Slot>, semantic: seq<Slot>, limit: nat) returns (out: seq<Chunk>)
    ensures out == Best(lexical, semantic, limit)
  {
    var merger := new Merger(limit);
    merger.Interleave(lexical, semantic);
    return merger.out;
  }
}
