/** The evidence pack: facts are ranked, cut to the best ones and numbered, and contradictions are
    re-addressed from fact ids to those numbers. The answer service may later swap the facts for
    others. At every stage a reference means the fact at that place of the pack. */
module EvidencePack {
  import opened Basics
  import opened Permutations

  datatype FactId = FactId(text: string)

  /** The label "F" followed by a number, or none yet. */
  datatype Ref = Unset | F(number: nat)

  datatype Fact = Fact(id: FactId, score: real, ref: Ref, body: string)

  /** A contradiction as stored names facts by id; in a pack it names them by reference. */
  datatype Stored = Stored(a: FactId, b: FactId, statement: string)

  datatype Contradiction = Contradiction(a: Ref, b: Ref, statement: string)

  datatype Pack = Pack(facts: seq<Fact>, contradictions: seq<Contradiction>)

  // ----- specification ------------------------------------------------------

  function WithScore(score: Fact -> real): Fact -> Fact {
    (f: Fact) => f.(score := score(f))
  }

  function ByScore(): (Fact, Fact) -> bool {
    (f: Fact, g: Fact) => f.score >= g.score
  }

  /** Best first; facts with equal scores keep their order. */
  function Ranked(facts: seq<Fact>, score: Fact -> real): seq<Fact> {
    Sort(Map(facts, WithScore(score)), ByScore())
  }

  function Numbered(facts: seq<Fact>): seq<Fact> {
    if facts == [] then []
    else Numbered(facts[..|facts| - 1]) + [facts[|facts| - 1].(ref := F(|facts|))]
  }

  function RefsOf(facts: seq<Fact>): map<FactId, Ref> {
    if facts == [] then map[]
    else RefsOf(facts[..|facts| - 1])[facts[|facts| - 1].id := F(|facts|)]
  }

  function Remapped(stored: seq<Stored>, refs: map<FactId, Ref>): seq<Contradiction> {
    if stored == [] then []
    else
      var earlier, c := Remapped(stored[..|stored| - 1], refs), stored[|stored| - 1];
      if c.a in refs && c.b in refs then earlier + [Contradiction(refs[c.a], refs[c.b], c.statement)] else earlier
  }

  function PackOf(facts: seq<Fact>, score: Fact -> real, top: nat, stored: seq<Stored>): Pack {
    var best := Take(Ranked(facts, score), top);
    Pack(Numbered(best), Remapped(stored, RefsOf(best)))
  }

  // ----- the search service -------------------------------------------------

  const DEFAULT_TOP: nat := 30

  function FinalTop(configured: int): (top: nat)
    ensures configured > 0 ==> top == configured
    ensures configured <= 0 ==> top == 30
  {
    if configured <= 0 then DEFAULT_TOP else configured
  }

  lemma ScoreIsOrder()
    ensures TotalPreorder(ByScore())
  {
  }

  /** A stable in-place sort. */
  method SortStable(facts: array<Fact>)
    modifies facts
    ensures facts[..] == Sort(old(facts[..]), ByScore())
  {
    var sorted := Sort(facts[..], ByScore());
    ScoreIsOrder();
    SortSorts(facts[..], ByScore());
    PermutationMembers(sorted, facts[..]);
    forall i | 0 <= i < facts.Length {
      facts[i] := sorted[i];
    }
    assert facts[..] == sorted;
  }

  method RankFacts(facts: array<Fact>, score: Fact -> real)
    modifies facts
    ensures facts[..] == Ranked(old(facts[..]), score)
  {
    ghost var given := facts[..];
    for index := 0 to facts.Length
      invariant forall k :: 0 <= k < index ==> facts[k] == WithScore(score)(given[k])
      invariant forall k :: index <= k < facts.Length ==> facts[k] == given[k]
    {
      facts[index] := facts[index].(score := score(facts[index]));
    }
    assert facts[..] == Map(given, WithScore(score));
    SortStable(facts);
  }

  method AssignRefs(facts: array<Fact>, n: nat) returns (refs: map<FactId, Ref>)
    requires n <= facts.Length
    modifies facts
    ensures facts[..n] == Numbered(old(facts[..n])) && facts[n..] == old(facts[n..])
    ensures refs == RefsOf(old(facts[..n]))
  {
    ghost var given := facts[..];
    refs := map[];
    for index := 0 to n
      invariant facts[..index] == Numbered(given[..index]) && facts[index..] == given[index..]
      invariant refs == RefsOf(given[..index])
    {
      PrefixStep(given, index);
      assert facts[index] == facts[index..][0] == given[index];
      facts[index] := facts[index].(ref := F(index + 1));
      refs := refs[facts[index].id := F(index + 1)];
      assert facts[..index + 1] == facts[..index] + [facts[index]];
      assert facts[index + 1..] == given[index + 1..];
    }
    assert given[..n] == old(facts[..n]);
  }

  method RemapContradictions(stored: seq<Stored>, refs: map<FactId, Ref>) returns (result: seq<Contradiction>)
    ensures result == Remapped(stored, refs)
  {
    result := [];
    for i := 0 to |stored|
      invariant result == Remapped(stored[..i], refs)
    {
      PrefixStep(stored, i);
      var c := stored[i];
      if c.a !in refs || c.b !in refs {
        continue;
      }
      result := result + [Contradiction(refs[c.a], refs[c.b], c.statement)];
    }
    assert stored[..|stored|] == stored;
  }

  method BuildPack(facts: array<Fact>, score: Fact -> real, configured: int, stored: seq<Stored>) returns (pack: Pack)
    modifies facts
    ensures pack == PackOf(old(facts[..]), score, FinalTop(configured), stored)
  {
    RankFacts(facts, score);
    var n := if facts.Length > FinalTop(configured) then FinalTop(configured) else facts.Length;
    assert facts[..n] == Take(facts[..], FinalTop(configured));
    var refs := AssignRefs(facts, n);
    var contradictions := RemapContradictions(stored, refs);
    pack := Pack(facts[..n], contradictions);
  }

  // ----- the answer service -------------------------------------------------

  /** Facts found by text search are numbered as they are read. */
  method FactsByText(rows: seq<Fact>) returns (facts: seq<Fact>)
    ensures facts == Numbered(rows)
  {
    facts := [];
    for index := 0 to |rows|
      invariant facts == Numbered(rows[..index])
    {
      PrefixStep(rows, index);
      facts := facts + [rows[index].(ref := F(index + 1))];
    }
    assert rows[..|rows|] == rows;
  }

  const MIN_FACTS_FOR_ANSWER: nat := 3

  /** With too few facts the pack gets those of the text search instead, and loses contradictions,
      which referred to the facts replaced. `rows` is what the search finds, if it succeeds. */
  method AugmentFacts(pack: Pack, hasRetriever: bool, rows: Option<seq<Fact>>) returns (r: Pack)
    requires Sound(pack)
    ensures Sound(r)
    ensures r == if hasRetriever && |pack.facts| < 3 && rows.Some? && rows.value != []
                 then Pack(Numbered(rows.value), []) else pack
  {
    if !hasRetriever || |pack.facts| >= MIN_FACTS_FOR_ANSWER {
      return pack;
    }
    if rows.None? {
      return pack;
    }
    var facts := FactsByText(rows.value);
    NumberedIs(rows.value);
    if |facts| == 0 {
      return pack;
    }
    return pack.(facts := facts, contradictions := []);
  }

  // ----- what references mean -----------------------------------------------

  ghost predicate Names(facts: seq<Fact>, ref: Ref) {
    ref.F? && 1 <= ref.number <= |facts| && facts[ref.number - 1].ref == ref
  }

  /** Every fact carries its place as reference, and every contradiction refers to facts that are
      there. */
  ghost predicate Sound(pack: Pack) {
    && (forall k :: 0 <= k < |pack.facts| ==> pack.facts[k].ref == F(k + 1))
    && (forall k :: 0 <= k < |pack.contradictions| ==>
          Names(pack.facts, pack.contradictions[k].a) && Names(pack.facts, pack.contradictions[k].b))
  }

  lemma {:induction false} NumberedIs(facts: seq<Fact>)
    ensures |Numbered(facts)| == |facts|
    ensures forall k :: 0 <= k < |facts| ==> Numbered(facts)[k] == facts[k].(ref := F(k + 1))
  {
    if facts != [] {
      NumberedIs(facts[..|facts| - 1]);
    }
  }

  /** The reference recorded for an id is the place of a fact with that id. */
  lemma {:induction false} RefsNameIds(facts: seq<Fact>, id: FactId)
    ensures id in RefsOf(facts) <==> exists k :: 0 <= k < |facts| && facts[k].id == id
    ensures id in RefsOf(facts) ==>
              var ref := RefsOf(facts)[id];
              ref.F? && 1 <= ref.number <= |facts| && facts[ref.number - 1].id == id
  {
    if facts != [] {
      var init := facts[..|facts| - 1];
      RefsNameIds(init, id);
      if facts[|facts| - 1].id != id && exists k :: 0 <= k < |facts| && facts[k].id == id {
        var k :| 0 <= k < |facts| && facts[k].id == id;
        assert init[k].id == id;
      }
    }
  }

  predicate Holds(facts: seq<Fact>, id: FactId) {
    exists k :: 0 <= k < |facts| && facts[k].id == id
  }

  /** Both facts of a contradiction are there. */
  function Both(facts: seq<Fact>): Stored -> bool {
    (c: Stored) => Holds(facts, c.a) && Holds(facts, c.b)
  }

  ghost predicate Addresses(facts: seq<Fact>, ref: Ref, id: FactId) {
    ref.F? && 1 <= ref.number <= |facts| && facts[ref.number - 1].id == id
  }

  /** `out` says what `kept` says, in order, with references to the facts meant in place of ids. */
  ghost predicate Restate(out: seq<Contradiction>, facts: seq<Fact>, kept: seq<Stored>) {
    && |out| == |kept|
    && forall k :: 0 <= k < |out| ==>
         && out[k].statement == kept[k].statement
         && Addresses(facts, out[k].a, kept[k].a) && Addresses(facts, out[k].b, kept[k].b)
  }

  /** The contradictions kept are those whose two facts made it into the pack, in order, and each
      reference is the place of the fact that the id meant. */
  lemma {:induction false} RemappedIs(stored: seq<Stored>, facts: seq<Fact>)
    ensures Restate(Remapped(stored, RefsOf(facts)), facts, Filter(stored, Both(facts)))
  {
    if stored != [] {
      var init, c := stored[..|stored| - 1], stored[|stored| - 1];
      RemappedIs(init, facts);
      RefsNameIds(facts, c.a);
      RefsNameIds(facts, c.b);
    }
  }

  /** Reference integrity of every pack that the search service sends. */
  lemma PackIsSound(facts: seq<Fact>, score: Fact -> real, top: nat, stored: seq<Stored>)
    ensures Sound(PackOf(facts, score, top, stored))
  {
    var best := Take(Ranked(facts, score), top);
    NumberedIs(best);
    RemappedIs(stored, best);
  }

  /** The contradictions of a pack are the stored ones between facts that made the cut, each
      referring to the facts meant. */
  lemma PackContradictions(facts: seq<Fact>, score: Fact -> real, top: nat, stored: seq<Stored>)
    ensures
      var pack := PackOf(facts, score, top, stored);
      var best := Take(Ranked(facts, score), top);
      Restate(pack.contradictions, pack.facts, Filter(stored, Both(best)))
  {
    var best := Take(Ranked(facts, score), top);
    NumberedIs(best);
    RemappedIs(stored, best);
  }

  // ----- what ranking means -------------------------------------------------

  /** The pack holds as many of the scored facts as allowed, and none left out scores higher. */
  lemma TopIsBest(facts: seq<Fact>, score: Fact -> real, top: nat)
    ensures
      var ranked := Ranked(facts, score);
      && multiset(ranked) == multiset(Map(facts, WithScore(score)))
      && |Take(ranked, top)| == (if |facts| < top then |facts| else top)
      && forall i, j :: 0 <= i < |Take(ranked, top)| <= j < |ranked| ==> Take(ranked, top)[i].score >= ranked[j].score
  {
    ScoreIsOrder();
    var scored := Map(facts, WithScore(score));
    SortSorts(scored, ByScore());
    PermutationMembers(Sort(scored, ByScore()), scored);
    var ranked := Ranked(facts, score);
    forall i, j | 0 <= i < |Take(ranked, top)| <= j < |ranked| ensures Take(ranked, top)[i].score >= ranked[j].score {
      assert ByScore()(ranked[i], ranked[j]);
    }
  }

  /** The fact as the search sees it once it has been scored. */
  ghost predicate Scored(f: Fact, g: Fact, score: Fact -> real) {
    f.id == g.id && f.body == g.body && f.score == score(g) && f.ref == g.ref
  }

  /** The ranked facts are the facts given, each with the score it was given. */
  lemma RankedAreScored(facts: seq<Fact>, score: Fact -> real)
    ensures |Ranked(facts, score)| == |facts|
    ensures forall f :: f in Ranked(facts, score) ==> exists g :: g in facts && Scored(f, g, score)
    ensures forall g :: g in facts ==> exists f :: f in Ranked(facts, score) && Scored(f, g, score)
  {
    ScoreIsOrder();
    var scored := Map(facts, WithScore(score));
    SortSorts(scored, ByScore());
    PermutationMembers(Ranked(facts, score), scored);
    assert multiset(Ranked(facts, score)) == multiset(scored);
    assert |multiset(Ranked(facts, score))| == |multiset(scored)|;
    forall f | f in Ranked(facts, score) ensures exists g :: g in facts && Scored(f, g, score) {
      var k :| 0 <= k < |scored| && scored[k] == f;
      assert facts[k] in facts && Scored(f, facts[k], score);
    }
    forall g | g in facts ensures exists f :: f in Ranked(facts, score) && Scored(f, g, score) {
      var k :| 0 <= k < |facts| && facts[k] == g;
      assert scored[k] in scored && Scored(scored[k], g, score);
    }
  }

  /** What a pack shows: its facts are given ones with their scores, best first, and no fact that scores
      higher than one of them is missing. */
  lemma PackHoldsBest(facts: seq<Fact>, score: Fact -> real, top: nat, stored: seq<Stored>, k: nat)
    requires k < |PackOf(facts, score, top, stored).facts|
    ensures
      var shown := PackOf(facts, score, top, stored).facts;
      && (exists g :: g in facts && Scored(shown[k].(ref := g.ref), g, score))
      && (k > 0 ==> shown[k - 1].score >= shown[k].score)
      && (forall g :: g in facts && score(g) > shown[k].score ==>
            exists l :: 0 <= l < |shown| && Scored(shown[l].(ref := g.ref), g, score))
  {
    var ranked, best := Ranked(facts, score), Take(Ranked(facts, score), top);
    var shown := PackOf(facts, score, top, stored).facts;
    NumberedIs(best);
    RankedAreScored(facts, score);
    TopIsBest(facts, score, top);
    SortSorts(Map(facts, WithScore(score)), ByScore());
    ScoreIsOrder();
    assert ranked[k] in ranked;
    if k > 0 {
      assert ByScore()(ranked[k - 1], ranked[k]);
    }
    forall g | g in facts && score(g) > shown[k].score
      ensures exists l :: 0 <= l < |shown| && Scored(shown[l].(ref := g.ref), g, score)
    {
      var f :| f in ranked && Scored(f, g, score);
      var l :| 0 <= l < |ranked| && ranked[l] == f;
      assert l < |best|;
      assert Scored(shown[l].(ref := g.ref), g, score);
    }
  }

  function At(score: real): Fact -> bool {
    (f: Fact) => f.score == score
  }

  lemma {:induction false} FilterFront<T>(x: T, s: seq<T>, p: T -> bool)
    ensures Filter([x] + s, p) == (if p(x) then [x] else []) + Filter(s, p)
  {
    if s == [] {
      assert [x] + s == [x] && [x][..0] == [];
    } else {
      FilterFront(x, s[..|s| - 1], p);
      assert ([x] + s)[..|s|] == [x] + s[..|s| - 1];
    }
  }

  lemma {:induction false} InsertFirstOfItsScore(x: Fact, s: seq<Fact>, score: real)
    requires SortedBy(s, ByScore())
    ensures Filter(Insert(x, s, ByScore()), At(score)) == (if x.score == score then [x] else []) + Filter(s, At(score))
  {
    if s == [] {
      FilterFront(x, [], At(score));
      assert [x] + [] == [x];
    } else if ByScore()(x, s[0]) {
      FilterFront(x, s, At(score));
    } else {
      InsertFirstOfItsScore(x, s[1..], score);
      FilterFront(s[0], s[1..], At(score));
      FilterFront(s[0], Insert(x, s[1..], ByScore()), At(score));
      assert s == [s[0]] + s[1..];
    }
  }

  /** Stability: the facts of any one score come out in the order in which they came in. */
  lemma {:induction false} TiesKeepOrder(facts: seq<Fact>, score: real)
    ensures Filter(Sort(facts, ByScore()), At(score)) == Filter(facts, At(score))
  {
    if facts != [] {
      ScoreIsOrder();
      TiesKeepOrder(facts[1..], score);
      SortSorts(facts[1..], ByScore());
      InsertFirstOfItsScore(facts[0], Sort(facts[1..], ByScore()), score);
      FilterFront(facts[0], facts[1..], At(score));
      assert facts == [facts[0]] + facts[1..];
    }
  }
}
