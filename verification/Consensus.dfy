/** The consensus engine: intervals reported by documents are reduced to an agreed range by two
    weighted medians, an overlap index and a verdict. Floats are reals; the exponential used for
    freshness is a parameter, and the results that depend on it say what they ask of it. */
module Consensus {
  import opened Basics
  import opened Permutations

  datatype Fact = Fact(
    lo: real, hi: real, hasRange: bool, confidence: real, docType: string,
    year: int, geography: string, documentId: string, unit: string)

  datatype Verdict = Insufficient | Agreement | Majority | Split

  datatype Result = Result(
    verdict: Verdict, agreedLo: real, agreedHi: real, hasRange: bool, overlapIndex: real,
    confidence: real, unit: string, sources: nat, ruSources: nat, foreignSources: nat,
    yearFrom: int, yearTo: int)

  datatype Interval = Interval(lo: real, hi: real, weight: real)

  datatype Sample = Sample(value: real, weight: real)

  const RELIABILITY: map<string, real> := map[
    "protocol" := 1.0, "report" := 1.0, "article" := 0.9, "patent" := 0.8,
    "handbook" := 0.9, "normative" := 0.9, "dataset" := 1.0, "web" := 0.5]

  function LookupReliability(docType: string): real {
    if docType in RELIABILITY then RELIABILITY[docType] else 0.7
  }

  function Freshness(currentYear: int, docYear: int, exp: real -> real): real {
    if docYear == 0 then 0.5 else exp(-0.1 * (currentYear - docYear) as real)
  }

  function Clamp(value: real, low: real, high: real): real {
    if value < low then low else if value > high then high else value
  }

  function RawWeight(fact: Fact, currentYear: int, exp: real -> real): real {
    fact.confidence * LookupReliability(fact.docType) * Freshness(currentYear, fact.year, exp)
  }

  /** The interval a fact contributes: padded when it is a point, its ends put in order, and its
      weight floored so that it is always positive. */
  function ToInterval(fact: Fact, currentYear: int, exp: real -> real): (r: Interval)
    ensures r.lo <= r.hi && r.weight > 0.0
    ensures r.lo <= fact.lo <= r.hi && r.lo <= fact.hi <= r.hi
    ensures fact.lo != fact.hi ==> {r.lo, r.hi} == {fact.lo, fact.hi}
    ensures fact.lo == fact.hi ==> r.lo + r.hi == 2.0 * fact.lo && r.hi - r.lo == 0.04 * Abs(fact.lo)
  {
    var pad := if fact.lo == fact.hi then Abs(fact.lo) * 0.02 else 0.0;
    var lo, hi := fact.lo - pad, fact.hi + pad;
    var weight := RawWeight(fact, currentYear, exp);
    Interval(
      if hi < lo then hi else lo,
      if hi < lo then lo else hi,
      if weight <= 0.0 then 0.000001 else weight)
  }

  /** Full trust in protocols, reports and datasets; less in articles, handbooks and norms, then in
      patents, then in what is not listed; least in the web. */
  lemma ReliabilityRanks(other: string)
    requires other !in {"protocol", "report", "dataset", "article", "handbook", "normative", "patent", "web"}
    ensures 1.0 == LookupReliability("protocol") == LookupReliability("report") == LookupReliability("dataset")
    ensures 1.0 > LookupReliability("article") == LookupReliability("handbook") == LookupReliability("normative")
    ensures LookupReliability("article") > LookupReliability("patent") > LookupReliability(other)
    ensures LookupReliability(other) > LookupReliability("web") == 0.5
  {
  }

  lemma ReliabilityPositive(docType: string)
    ensures 0.0 < LookupReliability(docType) <= 1.0
  {
  }

  ghost predicate Multiplies(exp: real -> real, x: real, y: real) {
    exp(x + y) == exp(x) * exp(y)
  }

  ghost predicate Rises(exp: real -> real, x: real, y: real) {
    x < y ==> exp(x) < exp(y)
  }

  /** What the results below ask of the exponential. */
  ghost predicate IsExponential(exp: real -> real) {
    && exp(0.0) == 1.0 && (forall x :: exp(x) > 0.0)
    && (forall x, y :: Multiplies(exp, x, y)) && (forall x, y :: Rises(exp, x, y))
  }

  /** A document of this year is fully fresh; each year that passes takes the same share away; a newer
      document is fresher; and an unknown year counts as half. */
  lemma FreshnessDecays(now: int, year: int, newer: int, exp: real -> real)
    requires IsExponential(exp)
    ensures Freshness(now, 0, exp) == 0.5
    ensures year != 0 ==> Freshness(year, year, exp) == 1.0
    ensures year != 0 ==> Freshness(now + 1, year, exp) == Freshness(now, year, exp) * exp(-0.1)
    ensures year != 0 && newer != 0 && year < newer ==> Freshness(now, year, exp) < Freshness(now, newer, exp)
  {
    var age, next, young := (now - year) as real, (now + 1 - year) as real, (now - newer) as real;
    assert next == age + 1.0;
    assert Multiplies(exp, -0.1 * age, -0.1);
    assert Rises(exp, -0.1 * age, -0.1 * young);
    assert (year - year) as real == 0.0;
  }

  lemma FreshnessPositive(now: int, year: int, exp: real -> real)
    requires IsExponential(exp)
    ensures Freshness(now, year, exp) > 0.0
  {
    assert exp(-0.1 * (now - year) as real) > 0.0;
  }

  /** Where the confidence is positive, the weight is proportional to confidence, to reliability and to
      freshness, and it is 1 where each of them is. */
  lemma WeightIsProportional(f: Fact, g: Fact, currentYear: int, exp: real -> real)
    requires f.confidence > 0.0 && g.confidence > 0.0 && IsExponential(exp)
    ensures
      var a := ToInterval(f, currentYear, exp).weight;
      var b := ToInterval(g, currentYear, exp).weight;
      a * (g.confidence * LookupReliability(g.docType) * Freshness(currentYear, g.year, exp)) ==
        b * (f.confidence * LookupReliability(f.docType) * Freshness(currentYear, f.year, exp))
    ensures f.confidence == LookupReliability(f.docType) == Freshness(currentYear, f.year, exp) == 1.0 ==>
              ToInterval(f, currentYear, exp).weight == 1.0
  {
    hide IsExponential, LookupReliability, Freshness;
    WeightPositive(f, currentYear, exp);
    WeightPositive(g, currentYear, exp);
    Commute(RawWeight(f, currentYear, exp), RawWeight(g, currentYear, exp));
  }

  lemma Commute(a: real, b: real)
    ensures a * b == b * a
  {
  }

  lemma WeightPositive(f: Fact, currentYear: int, exp: real -> real)
    requires f.confidence > 0.0 && IsExponential(exp)
    ensures f.confidence * LookupReliability(f.docType) > 0.0
    ensures RawWeight(f, currentYear, exp) > 0.0
  {
    ReliabilityPositive(f.docType);
    FreshnessPositive(currentYear, f.year, exp);
    PositiveProduct(f.confidence, LookupReliability(f.docType));
    PositiveProduct(f.confidence * LookupReliability(f.docType), Freshness(currentYear, f.year, exp));
  }

  /** A fact without any confidence keeps a millionth, so that it can still be the only one. */
  lemma NoConfidenceIsFloored(f: Fact, currentYear: int, exp: real -> real)
    requires f.confidence == 0.0
    ensures ToInterval(f, currentYear, exp).weight == 0.000001
  {
  }

  /** The weight grows strictly with each of the three factors. */
  lemma WeightGrows(f: Fact, g: Fact, currentYear: int, exp: real -> real)
    requires f.confidence > 0.0 && IsExponential(exp)
    requires f.confidence <= g.confidence && LookupReliability(f.docType) <= LookupReliability(g.docType)
    requires Freshness(currentYear, f.year, exp) <= Freshness(currentYear, g.year, exp)
    requires f.confidence < g.confidence || LookupReliability(f.docType) < LookupReliability(g.docType)
             || Freshness(currentYear, f.year, exp) < Freshness(currentYear, g.year, exp)
    ensures ToInterval(f, currentYear, exp).weight < ToInterval(g, currentYear, exp).weight
  {
    hide IsExponential, LookupReliability, Freshness;
    WeightPositive(f, currentYear, exp);
    WeightPositive(g, currentYear, exp);
    ReliabilityPositive(f.docType);
    FreshnessPositive(currentYear, f.year, exp);
    ProductGrows(f.confidence, LookupReliability(f.docType), g.confidence, LookupReliability(g.docType));
    ProductGrows(f.confidence * LookupReliability(f.docType), Freshness(currentYear, f.year, exp),
                 g.confidence * LookupReliability(g.docType), Freshness(currentYear, g.year, exp));
  }

  lemma ProductGrows(a: real, b: real, c: real, d: real)
    requires 0.0 < a <= c && 0.0 < b <= d
    ensures a * b <= c * d
    ensures a < c || b < d ==> a * b < c * d
  {
    assert c * d - a * b == (c - a) * d + a * (d - b);
    if a < c { PositiveProduct(c - a, d); }
    if b < d { PositiveProduct(a, d - b); }
  }

  // ----- weighted median ----------------------------------------------------

  function WeightOf(): Sample -> real { (x: Sample) => x.weight }

  function Zero(): Sample -> real { (x: Sample) => 0.0 }

  function WeightUpTo(v: real): Sample -> real { (x: Sample) => if x.value <= v then x.weight else 0.0 }

  function DeviationFrom(y: real): Sample -> real { (x: Sample) => x.weight * Abs(x.value - y) }

  function Total(samples: seq<Sample>): real {
    Sum(samples, WeightOf())
  }

  /** The weight of the samples at or below `v`. */
  function AtMost(samples: seq<Sample>, v: real): real {
    Sum(samples, WeightUpTo(v))
  }

  ghost predicate Weighted(samples: seq<Sample>) {
    samples != [] && forall x :: x in samples ==> x.weight > 0.0
  }

  /** `v` is the least sample value at or below which lies half of the weight. */
  ghost predicate IsLowerMedian(samples: seq<Sample>, v: real) {
    && (exists i :: 0 <= i < |samples| && samples[i].value == v)
    && 2.0 * AtMost(samples, v) >= Total(samples)
    && forall u: real :: u < v ==> 2.0 * AtMost(samples, u) < Total(samples)
  }

  function ByValue(): (Sample, Sample) -> bool { (x: Sample, y: Sample) => x.value <= y.value }

  function Samples(intervals: seq<Interval>, pick: Interval -> real): (r: seq<Sample>)
    ensures |r| == |intervals|
    ensures forall i :: 0 <= i < |r| ==> r[i] == Sample(pick(intervals[i]), intervals[i].weight)
  {
    Map(intervals, (x: Interval) => Sample(pick(x), x.weight))
  }

  /** Whatever order the sort gives to equal values, the result is the lower median, and the
      return after the loop is never reached. */
  method WeightedMedian(intervals: seq<Interval>, pick: Interval -> real) returns (v: real)
    requires intervals != [] && forall x :: x in intervals ==> x.weight > 0.0
    ensures IsLowerMedian(Samples(intervals, pick), v)
  {
    ghost var given := Samples(intervals, pick);
    var samples := new Sample[|intervals|](i requires 0 <= i < |intervals| =>
      Sample(pick(intervals[i]), intervals[i].weight));
    assert samples[..] == given;
    var total := 0.0;
    for i := 0 to |intervals|
      invariant samples[..] == given
      invariant total == Sum(given[..i], WeightOf())
    {
      PrefixStep(given, i);
      total := total + intervals[i].weight;
    }
    assert given[..|intervals|] == given;
    SortSlice(samples, ByValue());
    ghost var ordered := samples[..];
    SameMedian(ordered, given);
    var half := total / 2.0;
    assert 2.0 * half == Total(ordered);
    v := FirstToHalf(samples, half);
    assert IsLowerMedian(ordered, v);
  }

  /** The second loop: the value at which the running weight first reaches half of the total. */
  method FirstToHalf(samples: array<Sample>, half: real) returns (v: real)
    requires Weighted(samples[..]) && SortedBy(samples[..], ByValue()) && 2.0 * half == Total(samples[..])
    ensures IsLowerMedian(samples[..], v)
  {
    ghost var ordered := samples[..];
    TotalPositive(ordered);
    assert ordered[..|ordered|] == ordered;
    v := samples[samples.Length - 1].value;
    var cumulative := 0.0;
    for i := 0 to samples.Length
      invariant cumulative == Sum(ordered[..i], WeightOf()) < half
    {
      PrefixStep(ordered, i);
      cumulative := cumulative + samples[i].weight;
      if cumulative >= half {
        CrossingIsMedian(ordered, i);
        return samples[i].value;
      }
    }
    assert false;
  }

  /** Reordering the samples changes none of the sums, so it changes no lower median. */
  lemma SameMedian(s: seq<Sample>, t: seq<Sample>)
    requires multiset(s) == multiset(t)
    ensures Total(s) == Total(t)
    ensures forall v :: AtMost(s, v) == AtMost(t, v)
    ensures forall v :: IsLowerMedian(s, v) <==> IsLowerMedian(t, v)
    ensures Weighted(s) <==> Weighted(t)
  {
    SumPermutation(s, t, WeightOf());
    forall v ensures AtMost(s, v) == AtMost(t, v) {
      SumPermutation(s, t, WeightUpTo(v));
    }
    PermutationMembers(s, t);
    forall v ensures IsLowerMedian(s, v) <==> IsLowerMedian(t, v) {
      if exists i :: 0 <= i < |s| && s[i].value == v {
        var i :| 0 <= i < |s| && s[i].value == v;
        assert s[i] in t;
      }
      if exists i :: 0 <= i < |t| && t[i].value == v {
        var i :| 0 <= i < |t| && t[i].value == v;
        assert t[i] in s;
      }
    }
  }

  lemma {:induction false} TotalPositive(s: seq<Sample>)
    requires Weighted(s)
    ensures Total(s) > 0.0
  {
    var init := s[..|s| - 1];
    assert s[|s| - 1] in s;
    assert Total(s) == Total(init) + s[|s| - 1].weight;
    if init != [] {
      TotalPositive(init);
    }
  }

  /** The loop stops at the first index whose prefix weighs at least half. */
  lemma CrossingIsMedian(s: seq<Sample>, i: nat)
    requires Weighted(s) && SortedBy(s, ByValue()) && i < |s|
    requires 2.0 * Sum(s[..i], WeightOf()) < Total(s) <= 2.0 * Sum(s[..i + 1], WeightOf())
    ensures IsLowerMedian(s, s[i].value)
  {
    var v := s[i].value;
    SplitAt(s, i + 1, v);
    assert AtMost(s[..i + 1], v) == Sum(s[..i + 1], WeightOf()) by {
      SumBounds(s[..i + 1], WeightUpTo(v), WeightOf());
      SumBounds(s[..i + 1], WeightOf(), WeightUpTo(v));
    }
    forall u: real | u < v ensures 2.0 * AtMost(s, u) < Total(s) {
      SplitAt(s, i, u);
      SumBounds(s[..i], WeightUpTo(u), WeightOf());
      SumBounds(s[i..], WeightUpTo(u), Zero());
      SumZero(s[i..]);
    }
  }

  lemma SplitAt(s: seq<Sample>, i: nat, v: real)
    requires i <= |s| && forall x :: x in s ==> x.weight > 0.0
    ensures AtMost(s, v) == AtMost(s[..i], v) + AtMost(s[i..], v)
    ensures AtMost(s[i..], v) >= 0.0
  {
    assert s == s[..i] + s[i..];
    SumAppend(s[..i], s[i..], WeightUpTo(v));
    SumZero(s[i..]);
    SumBounds(s[i..], Zero(), WeightUpTo(v));
  }

  lemma SumZero(s: seq<Sample>)
    ensures Sum(s, Zero()) == 0.0
  {
  }

  /** There is only one lower median, so the order of ties cannot matter. */
  lemma MedianUnique(s: seq<Sample>, v: real, w: real)
    requires IsLowerMedian(s, v) && IsLowerMedian(s, w)
    ensures v == w
  {
  }

  /** Below the lower median lies strictly less than half of the weight. */
  lemma {:induction false} NextBelow(s: seq<Sample>, v: real) returns (u: real)
    ensures u < v
    ensures forall x :: x in s && x.value < v ==> x.value <= u
  {
    if s == [] {
      u := v - 1.0;
    } else {
      u := NextBelow(s[..|s| - 1], v);
      var last := s[|s| - 1].value;
      if u < last < v {
        u := last;
      }
    }
  }

  /** The weight of a sample, signed by the side of `v` on which it lies. */
  function Balance(v: real): Sample -> real {
    (x: Sample) => if x.value <= v then x.weight else -x.weight
  }

  lemma {:induction false} BalanceSum(s: seq<Sample>, v: real)
    ensures Sum(s, Balance(v)) == 2.0 * AtMost(s, v) - Total(s)
  {
    if s != [] {
      BalanceSum(s[..|s| - 1], v);
    }
  }

  /** One sample's deviation moves with or against a shift from `v` to `y`, never faster. */
  lemma StepGain(x: Sample, v: real, y: real, side: real)
    requires x.weight > 0.0 && (side == x.weight || side == -x.weight)
    requires side == x.weight ==> (x.value <= v <= y) || (y <= v <= x.value)
    ensures DeviationFrom(y)(x) >= DeviationFrom(v)(x) + Abs(y - v) * side
  {
    var gain := Abs(x.value - y) - Abs(x.value - v);
    assert x.weight * Abs(x.value - y) - x.weight * Abs(x.value - v) == x.weight * gain;
    if side == x.weight {
      assert gain == Abs(y - v);
    } else {
      ProductNonNegative(x.weight, gain + Abs(y - v));
    }
  }

  lemma ProductNonNegative(a: real, b: real)
    requires a >= 0.0 && b >= 0.0
    ensures a * b >= 0.0
  {
  }

  lemma SameSigns(a: real, b: real)
    requires a <= 0.0 && b <= 0.0
    ensures a * b >= 0.0
  {
    ProductNonNegative(-a, -b);
  }

  lemma GainAbove(x: Sample, v: real, y: real)
    requires x.weight > 0.0 && v <= y
    ensures DeviationFrom(y)(x) >= DeviationFrom(v)(x) + (y - v) * Balance(v)(x)
  {
    StepGain(x, v, y, Balance(v)(x));
  }

  lemma GainBelow(x: Sample, u: real, v: real, y: real)
    requires x.weight > 0.0 && u < v && y < v && (x.value < v ==> x.value <= u)
    ensures DeviationFrom(y)(x) >= DeviationFrom(v)(x) + (y - v) * Balance(u)(x)
  {
    StepGain(x, v, y, -Balance(u)(x));
  }

  lemma DeviationAbove(s: seq<Sample>, v: real, y: real)
    requires Weighted(s) && 2.0 * AtMost(s, v) >= Total(s) && v <= y
    ensures Sum(s, DeviationFrom(v)) <= Sum(s, DeviationFrom(y))
  {
    forall x | x in s ensures DeviationFrom(y)(x) >= DeviationFrom(v)(x) + (y - v) * Balance(v)(x) {
      GainAbove(x, v, y);
    }
    SumLinearBound(s, DeviationFrom(v), y - v, Balance(v), DeviationFrom(y));
    BalanceSum(s, v);
    ProductNonNegative(y - v, Sum(s, Balance(v)));
  }

  lemma DeviationBelow(s: seq<Sample>, u: real, v: real, y: real)
    requires Weighted(s) && 2.0 * AtMost(s, u) < Total(s) && u < v && y < v
    requires forall x :: x in s && x.value < v ==> x.value <= u
    ensures Sum(s, DeviationFrom(v)) <= Sum(s, DeviationFrom(y))
  {
    forall x | x in s ensures DeviationFrom(y)(x) >= DeviationFrom(v)(x) + (y - v) * Balance(u)(x) {
      GainBelow(x, u, v, y);
    }
    SumLinearBound(s, DeviationFrom(v), y - v, Balance(u), DeviationFrom(y));
    BalanceSum(s, u);
    SameSigns(y - v, Sum(s, Balance(u)));
  }

  /** The lower median minimises the weighted sum of absolute deviations over all reals. */
  lemma MedianMinimisesDeviation(s: seq<Sample>, v: real, y: real)
    requires Weighted(s) && IsLowerMedian(s, v)
    ensures Sum(s, DeviationFrom(v)) <= Sum(s, DeviationFrom(y))
  {
    if v <= y {
      DeviationAbove(s, v, y);
    } else {
      var u := NextBelow(s, v);
      DeviationBelow(s, u, v, y);
    }
  }

  /** The weight of the samples selected by `mask`. */
  function MaskedWeight(s: seq<Sample>, mask: seq<bool>): real
    requires |s| == |mask|
  {
    if s == [] then 0.0
    else MaskedWeight(s[..|s| - 1], mask[..|s| - 1]) + if mask[|s| - 1] then s[|s| - 1].weight else 0.0
  }

  /** Robustness: any selection that holds a strict majority of the weight has members on both
      sides of the median, wherever the other samples lie. */
  lemma MajorityBracketsMedian(s: seq<Sample>, mask: seq<bool>, v: real)
    requires Weighted(s) && IsLowerMedian(s, v)
    requires |s| == |mask| && 2.0 * MaskedWeight(s, mask) > Total(s)
    ensures exists i :: 0 <= i < |s| && mask[i] && s[i].value <= v
    ensures exists i :: 0 <= i < |s| && mask[i] && s[i].value >= v
  {
    if forall i :: 0 <= i < |s| && mask[i] ==> s[i].value > v {
      MaskAbove(s, mask, v);
    }
    if forall i :: 0 <= i < |s| && mask[i] ==> s[i].value < v {
      var u := NextBelow(s, v);
      forall i | 0 <= i < |s| && mask[i] ensures s[i].value <= u {
        assert s[i] in s;
      }
      MaskBelow(s, mask, u);
    }
  }

  lemma {:induction false} MaskAbove(s: seq<Sample>, mask: seq<bool>, v: real)
    requires |s| == |mask| && forall x :: x in s ==> x.weight > 0.0
    requires forall i :: 0 <= i < |s| && mask[i] ==> s[i].value > v
    ensures MaskedWeight(s, mask) + AtMost(s, v) <= Total(s)
  {
    if s != [] {
      assert s[|s| - 1] in s;
      MaskAbove(s[..|s| - 1], mask[..|s| - 1], v);
    }
  }

  lemma {:induction false} MaskBelow(s: seq<Sample>, mask: seq<bool>, u: real)
    requires |s| == |mask| && forall x :: x in s ==> x.weight > 0.0
    requires forall i :: 0 <= i < |s| && mask[i] ==> s[i].value <= u
    ensures MaskedWeight(s, mask) <= AtMost(s, u)
  {
    if s != [] {
      assert s[|s| - 1] in s;
      MaskBelow(s[..|s| - 1], mask[..|s| - 1], u);
    }
  }

  /** Raising every value, weights unchanged, never lowers the median. */
  lemma MedianMonotone(s: seq<Sample>, t: seq<Sample>, v: real, w: real)
    requires |s| == |t| && forall i :: 0 <= i < |s| ==> s[i].value <= t[i].value && s[i].weight == t[i].weight > 0.0
    requires IsLowerMedian(s, v) && IsLowerMedian(t, w)
    ensures v <= w
  {
    DominatedWeights(s, t, w);
  }

  lemma {:induction false} DominatedWeights(s: seq<Sample>, t: seq<Sample>, v: real)
    requires |s| == |t| && forall i :: 0 <= i < |s| ==> s[i].value <= t[i].value && s[i].weight == t[i].weight > 0.0
    ensures Total(s) == Total(t) && AtMost(s, v) >= AtMost(t, v)
  {
    if s != [] {
      DominatedWeights(s[..|s| - 1], t[..|s| - 1], v);
    }
  }

  // ----- overlap index and verdict ------------------------------------------

  /** The four bounds are attained by some interval and respected by all. */
  ghost predicate IsExtremes(s: seq<Interval>, maxLo: real, minHi: real, minLo: real, maxHi: real) {
    && (exists x :: x in s && x.lo == maxLo) && (exists x :: x in s && x.hi == minHi)
    && (exists x :: x in s && x.lo == minLo) && (exists x :: x in s && x.hi == maxHi)
    && forall x :: x in s ==> minLo <= x.lo <= maxLo && minHi <= x.hi <= maxHi
  }

  /** Length of the common part over length of the hull; 1 when the hull is a point. */
  function OverlapOf(maxLo: real, minHi: real, minLo: real, maxHi: real): real {
    if maxHi - minLo <= 0.0 then 1.0
    else (if minHi - maxLo > 0.0 then minHi - maxLo else 0.0) / (maxHi - minLo)
  }

  ghost predicate IsOverlap(s: seq<Interval>, index: real) {
    exists maxLo, minHi, minLo, maxHi ::
      IsExtremes(s, maxLo, minHi, minLo, maxHi) && index == OverlapOf(maxLo, minHi, minLo, maxHi)
  }

  lemma ExtremesStep(s: seq<Interval>, item: Interval, maxLo: real, minHi: real, minLo: real, maxHi: real)
    requires IsExtremes(s, maxLo, minHi, minLo, maxHi)
    ensures IsExtremes(s + [item],
                       if item.lo > maxLo then item.lo else maxLo, if item.hi < minHi then item.hi else minHi,
                       if item.lo < minLo then item.lo else minLo, if item.hi > maxHi then item.hi else maxHi)
  {
    var more := s + [item];
    assert item in more && forall x :: x in s ==> x in more;
  }

  method OverlapIndex(intervals: seq<Interval>) returns (index: real)
    requires intervals != []
    ensures IsOverlap(intervals, index)
  {
    var maxLo, minHi := intervals[0].lo, intervals[0].hi;
    var minLo, maxHi := intervals[0].lo, intervals[0].hi;
    for i := 1 to |intervals|
      invariant IsExtremes(intervals[..i], maxLo, minHi, minLo, maxHi)
    {
      PrefixStep(intervals, i);
      var item := intervals[i];
      ExtremesStep(intervals[..i], item, maxLo, minHi, minLo, maxHi);
      maxLo := if item.lo > maxLo then item.lo else maxLo;
      minHi := if item.hi < minHi then item.hi else minHi;
      minLo := if item.lo < minLo then item.lo else minLo;
      maxHi := if item.hi > maxHi then item.hi else maxHi;
    }
    assert intervals[..|intervals|] == intervals;
    if maxHi - minLo <= 0.0 {
      return 1.0;
    }
    index := (if minHi - maxLo > 0.0 then minHi - maxLo else 0.0) / (maxHi - minLo);
  }

  function Touching(lo: real, hi: real): Interval -> bool {
    (x: Interval) => x.hi >= lo && x.lo <= hi
  }

  /** At least three fifths of the intervals meet [lo, hi]. */
  ghost predicate MostTouch(intervals: seq<Interval>, lo: real, hi: real)
    requires intervals != []
  {
    5 * |Filter(intervals, Touching(lo, hi))| >= 3 * |intervals|
  }

  method VerdictFor(intervals: seq<Interval>, documents: nat, result: Result) returns (verdict: Verdict)
    requires intervals != []
    ensures verdict == Insufficient <==> documents < 2
    ensures verdict == Agreement <==> documents >= 3 && result.overlapIndex >= 0.5
    ensures verdict == Majority || verdict == Split ==>
              (verdict == Majority <==> MostTouch(intervals, result.agreedLo, result.agreedHi))
  {
    if documents < 2 {
      return Insufficient;
    }
    if result.overlapIndex >= 0.5 && documents >= 3 {
      return Agreement;
    }
    var touching := 0;
    for i := 0 to |intervals|
      invariant touching == |Filter(intervals[..i], Touching(result.agreedLo, result.agreedHi))|
    {
      PrefixStep(intervals, i);
      var item := intervals[i];
      if item.hi >= result.agreedLo && item.lo <= result.agreedHi {
        touching := touching + 1;
      }
    }
    assert intervals[..|intervals|] == intervals;
    ShareThreshold(touching, |intervals|);
    return if touching as real / |intervals| as real >= 0.6 then Majority else Split;
  }

  lemma ShareThreshold(touching: nat, all: nat)
    requires all > 0
    ensures touching as real / all as real >= 0.6 <==> 5 * touching >= 3 * all
  {
    var share := touching as real / all as real;
    assert share * all as real == touching as real;
    Threshold(share, all as real, 0.6);
    assert touching as real >= 0.6 * all as real <==> 5 * touching >= 3 * all;
  }

  lemma Threshold(share: real, all: real, least: real)
    requires all > 0.0
    ensures share >= least <==> share * all >= least * all
  {
    assert (share - least) * all == share * all - least * all;
    if share >= least {
      ProductNonNegative(share - least, all);
    } else {
      PositiveProduct(least - share, all);
      assert (least - share) * all == least * all - share * all;
    }
  }

  /** The index is a proportion. */
  lemma OverlapIsProportion(s: seq<Interval>, index: real)
    requires IsOverlap(s, index) && forall x :: x in s ==> x.lo <= x.hi
    ensures 0.0 <= index <= 1.0
  {
    var maxLo, minHi, minLo, maxHi :|
      IsExtremes(s, maxLo, minHi, minLo, maxHi) && index == OverlapOf(maxLo, minHi, minLo, maxHi);
    var hull, common := maxHi - minLo, if minHi - maxLo > 0.0 then minHi - maxLo else 0.0;
    if hull > 0.0 {
      RatioBounds(common, hull);
    }
  }

  lemma RatioBounds(part: real, whole: real)
    requires 0.0 <= part <= whole && whole > 0.0
    ensures 0.0 <= part / whole <= 1.0
    ensures part / whole >= 0.5 ==> part > 0.0
  {
    var ratio := part / whole;
    assert ratio * whole == part;
    if ratio < 0.0 { PositiveProduct(-ratio, whole); }
    if ratio > 1.0 { PositiveProduct(ratio - 1.0, whole); }
    if ratio >= 0.5 { PositiveProduct(ratio, whole); }
  }

  lemma OverlapUnique(s: seq<Interval>, a: real, b: real)
    requires IsOverlap(s, a) && IsOverlap(s, b)
    ensures a == b
  {
    var maxLo, minHi, minLo, maxHi :|
      IsExtremes(s, maxLo, minHi, minLo, maxHi) && a == OverlapOf(maxLo, minHi, minLo, maxHi);
    var maxLo', minHi', minLo', maxHi' :|
      IsExtremes(s, maxLo', minHi', minLo', maxHi') && b == OverlapOf(maxLo', minHi', minLo', maxHi');
    assert maxLo == maxLo' && minHi == minHi' && minLo == minLo' && maxHi == maxHi';
  }

  // ----- the whole computation ----------------------------------------------

  function HasRange(): Fact -> bool { (f: Fact) => f.hasRange }

  function From(geography: string): Fact -> bool { (f: Fact) => f.geography == geography }

  function Normalise(currentYear: int, exp: real -> real): Fact -> Interval {
    (f: Fact) => ToInterval(f, currentYear, exp)
  }

  function Counted(facts: seq<Fact>): seq<Fact> {
    Filter(facts, HasRange())
  }

  /** Facts without a range are passed over, the others are taken in order. */
  lemma OneMoreCounted(facts: seq<Fact>, f: Fact)
    ensures Counted([]) == []
    ensures Counted(facts + [f]) == if f.hasRange then Counted(facts) + [f] else Counted(facts)
  {
    assert (facts + [f])[..|facts|] == facts;
  }

  function Intervals(facts: seq<Fact>, currentYear: int, exp: real -> real): seq<Interval> {
    Map(Counted(facts), Normalise(currentYear, exp))
  }

  function Documents(facts: seq<Fact>): set<string> {
    set f | f in facts :: f.documentId
  }

  function Lower(): Interval -> real { (x: Interval) => x.lo }

  function Upper(): Interval -> real { (x: Interval) => x.hi }

  /** The first non-empty unit. */
  function FirstUnit(facts: seq<Fact>): string {
    if facts == [] then ""
    else
      var earlier := FirstUnit(facts[..|facts| - 1]);
      if earlier == "" then facts[|facts| - 1].unit else earlier
  }

  /** `from` is the least known year, 0 when there is none; `to` is the greatest year, at least 0. */
  ghost predicate IsYearSpan(facts: seq<Fact>, from: int, to: int) {
    && (forall f :: f in facts && f.year != 0 ==> from != 0 && from <= f.year)
    && (from != 0 ==> exists f :: f in facts && f.year == from)
    && to >= 0 && (forall f :: f in facts ==> f.year <= to)
    && (to != 0 ==> exists f :: f in facts && f.year == to)
  }

  /** What the counted facts say about their sources, independently of their order. */
  ghost predicate IsSurvey(counted: seq<Fact>, r: Result) {
    && r.ruSources == |Filter(counted, From("ru"))|
    && r.foreignSources == |Filter(counted, From("foreign"))|
    && IsYearSpan(counted, r.yearFrom, r.yearTo)
  }

  ghost predicate IsAgreement(intervals: seq<Interval>, r: Result)
    requires intervals != []
  {
    && IsLowerMedian(Samples(intervals, Lower()), r.agreedLo)
    && IsLowerMedian(Samples(intervals, Upper()), r.agreedHi)
    && IsOverlap(intervals, r.overlapIndex)
    && r.confidence == Clamp(r.overlapIndex, 0.3, 0.95)
    && (r.verdict == Insufficient <==> r.sources < 2)
    && (r.verdict == Agreement <==> r.sources >= 3 && r.overlapIndex >= 0.5)
    && (r.verdict == Majority || r.verdict == Split ==>
         (r.verdict == Majority <==> MostTouch(intervals, r.agreedLo, r.agreedHi)))
  }

  ghost predicate IsConsensusOf(facts: seq<Fact>, currentYear: int, exp: real -> real, r: Result) {
    var counted := Counted(facts);
    && IsSurvey(counted, r)
    && r.sources == |Documents(counted)|
    && r.hasRange == (counted != [])
    && if counted == [] then
         r.verdict == Insufficient && r.agreedLo == r.agreedHi == r.overlapIndex == r.confidence == 0.0
       else
         IsAgreement(Intervals(facts, currentYear, exp), r)
  }

  function CountStats(result: Result, fact: Fact): Result {
    var counted :=
      if fact.geography == "ru" then result.(ruSources := result.ruSources + 1)
      else if fact.geography == "foreign" then result.(foreignSources := result.foreignSources + 1)
      else result;
    if fact.year == 0 then counted
    else counted.(
        yearFrom := if counted.yearFrom == 0 || fact.year < counted.yearFrom then fact.year else counted.yearFrom,
        yearTo := if fact.year > counted.yearTo then fact.year else counted.yearTo)
  }

  lemma CountStatsSurveys(counted: seq<Fact>, fact: Fact, r: Result)
    requires IsSurvey(counted, r)
    ensures IsSurvey(counted + [fact], CountStats(r, fact))
  {
    var more := counted + [fact];
    assert more[..|more| - 1] == counted;
    assert forall f :: f in more <==> f in counted || f == fact;
  }

  /** What the first loop has gathered once the facts `counted` have been seen. */
  ghost predicate IsScan(counted: seq<Fact>, currentYear: int, exp: real -> real,
                         intervals: seq<Interval>, documents: set<string>, r: Result)
  {
    && intervals == Map(counted, Normalise(currentYear, exp))
    && documents == Documents(counted)
    && IsSurvey(counted, r)
    && r.unit == FirstUnit(counted)
    && r.verdict == Insufficient && !r.hasRange
    && r.agreedLo == r.agreedHi == r.overlapIndex == r.confidence == 0.0
  }

  lemma DocumentsStep(counted: seq<Fact>, fact: Fact)
    ensures Documents(counted + [fact]) == Documents(counted) + {fact.documentId}
  {
    assert forall f :: f in counted + [fact] <==> f in counted || f == fact;
  }

  lemma ScanStep(counted: seq<Fact>, fact: Fact, currentYear: int, exp: real -> real,
                 intervals: seq<Interval>, documents: set<string>, r: Result)
    requires IsScan(counted, currentYear, exp, intervals, documents, r)
    ensures
      var named := if r.unit == "" then r.(unit := fact.unit) else r;
      IsScan(counted + [fact], currentYear, exp, intervals + [ToInterval(fact, currentYear, exp)],
             documents + {fact.documentId}, CountStats(named, fact))
  {
    var more := counted + [fact];
    assert more[..|more| - 1] == counted;
    var named := if r.unit == "" then r.(unit := fact.unit) else r;
    CountStatsSurveys(counted, fact, named);
    DocumentsStep(counted, fact);
  }

  lemma IntervalsProper(counted: seq<Fact>, currentYear: int, exp: real -> real)
    ensures forall x :: x in Map(counted, Normalise(currentYear, exp)) ==> x.lo <= x.hi && x.weight > 0.0
  {
  }

  /** The loop that opens `ComputeConsensus`. */
  method Scan(facts: seq<Fact>, currentYear: int, exp: real -> real)
    returns (intervals: seq<Interval>, documents: set<string>, result: Result)
    ensures IsScan(Counted(facts), currentYear, exp, intervals, documents, result)
  {
    intervals, documents := [], {};
    result := Result(Insufficient, 0.0, 0.0, false, 0.0, 0.0, "", 0, 0, 0, 0, 0);
    for i := 0 to |facts|
      invariant IsScan(Counted(facts[..i]), currentYear, exp, intervals, documents, result)
    {
      PrefixStep(facts, i);
      var fact := facts[i];
      if !fact.hasRange {
        continue;
      }
      assert Counted(facts[..i + 1]) == Counted(facts[..i]) + [fact];
      ScanStep(Counted(facts[..i]), fact, currentYear, exp, intervals, documents, result);
      intervals := intervals + [ToInterval(fact, currentYear, exp)];
      documents := documents + {fact.documentId};
      if result.unit == "" {
        result := result.(unit := fact.unit);
      }
      result := CountStats(result, fact);
    }
    assert facts[..|facts|] == facts;
  }

  ghost predicate SameSurvey(r: Result, q: Result) {
    && r.unit == q.unit && r.ruSources == q.ruSources && r.foreignSources == q.foreignSources
    && r.yearFrom == q.yearFrom && r.yearTo == q.yearTo
  }

  method ComputeConsensus(facts: seq<Fact>, currentYear: int, exp: real -> real) returns (result: Result)
    ensures IsConsensusOf(facts, currentYear, exp, result)
    ensures result.unit == UnitOf(facts)
  {
    var intervals, documents;
    intervals, documents, result := Scan(facts, currentYear, exp);
    result := result.(sources := |documents|);
    if |intervals| == 0 {
      return;
    }
    IntervalsProper(Counted(facts), currentYear, exp);
    result := Agree(intervals, result);
  }

  /** The second half: the agreed range and what it is worth. */
  method Agree(intervals: seq<Interval>, scanned: Result) returns (result: Result)
    requires intervals != [] && forall x :: x in intervals ==> x.lo <= x.hi && x.weight > 0.0
    ensures IsAgreement(intervals, result) && result.hasRange
    ensures result.sources == scanned.sources && SameSurvey(result, scanned)
  {
    result := scanned;
    var lo := WeightedMedian(intervals, Lower());
    var hi := WeightedMedian(intervals, Upper());
    RawMediansOrdered(intervals, lo, hi);
    result := result.(agreedLo := lo, agreedHi := hi);
    if result.agreedHi < result.agreedLo {
      result := result.(agreedLo := result.agreedHi, agreedHi := result.agreedLo);
    }
    var index := OverlapIndex(intervals);
    result := result.(hasRange := true, overlapIndex := index, confidence := Clamp(index, 0.3, 0.95));
    var verdict := VerdictFor(intervals, result.sources, result);
    result := result.(verdict := verdict);
  }

  /** The raw lower median never exceeds the raw upper one, so the final swap is never taken. */
  lemma RawMediansOrdered(intervals: seq<Interval>, lo: real, hi: real)
    requires forall x :: x in intervals ==> x.lo <= x.hi && x.weight > 0.0
    requires IsLowerMedian(Samples(intervals, Lower()), lo)
    requires IsLowerMedian(Samples(intervals, Upper()), hi)
    ensures lo <= hi
  {
    MedianMonotone(Samples(intervals, Lower()), Samples(intervals, Upper()), lo, hi);
  }

  /** Reordering the facts changes at most the unit. */
  lemma OrderIndependent(facts: seq<Fact>, others: seq<Fact>, currentYear: int, exp: real -> real, r: Result, q: Result)
    requires multiset(facts) == multiset(others)
    requires IsConsensusOf(facts, currentYear, exp, r) && IsConsensusOf(others, currentYear, exp, q)
    ensures r.(unit := "") == q.(unit := "")
  {
    var a, b := Counted(facts), Counted(others);
    FilterPermutation(facts, others, HasRange());
    SurveyPermutation(a, b, r, q);
    if a != [] {
      IntervalsPermutation(a, b, Normalise(currentYear, exp));
      AgreementPermutation(Intervals(facts, currentYear, exp), Intervals(others, currentYear, exp), r, q);
    }
  }

  lemma IntervalsPermutation(a: seq<Fact>, b: seq<Fact>, f: Fact -> Interval)
    requires multiset(a) == multiset(b)
    ensures multiset(Map(a, f)) == multiset(Map(b, f))
  {
    MapPermutation(a, b, f);
  }

  lemma SurveyPermutation(a: seq<Fact>, b: seq<Fact>, r: Result, q: Result)
    requires multiset(a) == multiset(b) && IsSurvey(a, r) && IsSurvey(b, q)
    ensures r.ruSources == q.ruSources && r.foreignSources == q.foreignSources
    ensures r.yearFrom == q.yearFrom && r.yearTo == q.yearTo
    ensures |a| == |b| && Documents(a) == Documents(b)
  {
    PermutationMembers(a, b);
    FilterPermutation(a, b, From("ru"));
    FilterPermutation(a, b, From("foreign"));
    PermutationMembers(Filter(a, From("ru")), Filter(b, From("ru")));
    PermutationMembers(Filter(a, From("foreign")), Filter(b, From("foreign")));
  }

  lemma MedianPermutation(s: seq<Interval>, t: seq<Interval>, pick: Interval -> real, v: real, w: real)
    requires multiset(s) == multiset(t)
    requires IsLowerMedian(Samples(s, pick), v) && IsLowerMedian(Samples(t, pick), w)
    ensures v == w
  {
    MapPermutation(s, t, (x: Interval) => Sample(pick(x), x.weight));
    SameMedian(Samples(s, pick), Samples(t, pick));
    MedianUnique(Samples(s, pick), v, w);
  }

  lemma OverlapPermutation(s: seq<Interval>, t: seq<Interval>, index: real)
    requires multiset(s) == multiset(t) && IsOverlap(s, index)
    ensures IsOverlap(t, index)
  {
    PermutationMembers(s, t);
    var maxLo, minHi, minLo, maxHi :|
      IsExtremes(s, maxLo, minHi, minLo, maxHi) && index == OverlapOf(maxLo, minHi, minLo, maxHi);
    assert IsExtremes(t, maxLo, minHi, minLo, maxHi);
  }

  lemma TouchPermutation(s: seq<Interval>, t: seq<Interval>, lo: real, hi: real)
    requires s != [] && t != [] && multiset(s) == multiset(t)
    ensures MostTouch(s, lo, hi) <==> MostTouch(t, lo, hi)
  {
    PermutationMembers(s, t);
    FilterPermutation(s, t, Touching(lo, hi));
    PermutationMembers(Filter(s, Touching(lo, hi)), Filter(t, Touching(lo, hi)));
  }

  lemma AgreementPermutation(s: seq<Interval>, t: seq<Interval>, r: Result, q: Result)
    requires s != [] && t != [] && multiset(s) == multiset(t) && r.sources == q.sources
    requires IsAgreement(s, r) && IsAgreement(t, q)
    ensures r.agreedLo == q.agreedLo && r.agreedHi == q.agreedHi
    ensures r.overlapIndex == q.overlapIndex && r.confidence == q.confidence && r.verdict == q.verdict
  {
    MedianPermutation(s, t, Lower(), r.agreedLo, q.agreedLo);
    MedianPermutation(s, t, Upper(), r.agreedHi, q.agreedHi);
    OverlapPermutation(s, t, r.overlapIndex);
    OverlapUnique(t, r.overlapIndex, q.overlapIndex);
    TouchPermutation(s, t, r.agreedLo, r.agreedHi);
  }

  /** The unit that a consensus of the facts gets. */
  function UnitOf(facts: seq<Fact>): string {
    FirstUnit(Counted(facts))
  }

  /** Every reordering of the facts yields the same unit. */
  ghost predicate UnitFixed(facts: seq<Fact>) {
    forall others: seq<Fact> :: multiset(others) == multiset(facts) ==> UnitOf(others) == UnitOf(facts)
  }

  ghost predicate OneUnit(facts: seq<Fact>) {
    forall f, g :: f in facts && g in facts && f.unit != "" && g.unit != "" ==> f.unit == g.unit
  }

  /** The unit is the one field of a result that may depend on the order in which the facts come:
      exactly when two facts with a range carry different non-empty units. */
  lemma UnitFixedIff(facts: seq<Fact>)
    ensures UnitFixed(facts) <==> OneUnit(Counted(facts))
  {
    if OneUnit(Counted(facts)) {
      forall others: seq<Fact> | multiset(others) == multiset(facts) ensures UnitOf(others) == UnitOf(facts) {
        OneUnitFixes(facts, others);
      }
    }
    if UnitFixed(facts) {
      FilterMembers(facts, HasRange());
      forall f, g | f in Counted(facts) && g in Counted(facts) && f.unit != "" && g.unit != "" ensures f.unit == g.unit {
        var s := UnitFirst(facts, f);
        var t := UnitFirst(facts, g);
      }
    }
  }

  lemma OneUnitFixes(facts: seq<Fact>, others: seq<Fact>)
    requires multiset(others) == multiset(facts) && OneUnit(Counted(facts))
    ensures UnitOf(others) == UnitOf(facts)
  {
    FilterPermutation(others, facts, HasRange());
    PermutationMembers(Counted(others), Counted(facts));
    FirstUnitFound(Counted(facts));
    FirstUnitFound(Counted(others));
  }

  /** The facts in an order that puts the unit of `f` first. */
  lemma UnitFirst(facts: seq<Fact>, f: Fact) returns (s: seq<Fact>)
    requires f in facts && HasRange()(f) && f.unit != ""
    ensures multiset(s) == multiset(facts) && UnitOf(s) == f.unit
  {
    s := ToFront(facts, f);
    FilterConcat([f], s[1..], HasRange());
    assert s == [f] + s[1..];
    assert [f][..0] == [] && Filter([f], HasRange()) == [f];
    FirstUnitHead(Counted(s));
  }

  lemma {:induction false} FirstUnitFound(facts: seq<Fact>)
    ensures FirstUnit(facts) != "" ==> exists f :: f in facts && f.unit == FirstUnit(facts)
    ensures FirstUnit(facts) == "" ==> forall f :: f in facts ==> f.unit == ""
  {
    if facts != [] {
      var init, last := facts[..|facts| - 1], facts[|facts| - 1];
      FirstUnitFound(init);
      assert facts == init + [last];
    }
  }

  lemma {:induction false} FirstUnitHead(facts: seq<Fact>)
    requires facts != [] && facts[0].unit != ""
    ensures FirstUnit(facts) == facts[0].unit
  {
    if |facts| > 1 {
      FirstUnitHead(facts[..|facts| - 1]);
    }
  }

  lemma ToFront(facts: seq<Fact>, f: Fact) returns (s: seq<Fact>)
    requires f in facts
    ensures s != [] && s[0] == f && multiset(s) == multiset(facts)
  {
    var i :| 0 <= i < |facts| && facts[i] == f;
    s := [f] + facts[..i] + facts[i + 1..];
    assert facts == facts[..i] + [f] + facts[i + 1..];
  }

  /** All intervals contain [lo, hi]. */
  ghost predicate IsCore(intervals: seq<Interval>, lo: real, hi: real) {
    lo <= hi && forall x :: x in intervals ==> x.lo <= lo && hi <= x.hi
  }

  /** What the verdict "consensus" means: every pair of intervals meets in a common part, the
      agreed range contains that part, and every interval touches the agreed range, so the
      majority test would pass as well. */
  lemma AgreementSharesCore(intervals: seq<Interval>, r: Result)
    requires intervals != [] && forall x :: x in intervals ==> x.lo <= x.hi
    requires IsAgreement(intervals, r) && r.verdict == Agreement
    ensures exists lo, hi :: IsCore(intervals, lo, hi) && r.agreedLo <= lo && hi <= r.agreedHi
    ensures forall x :: x in intervals ==> Touching(r.agreedLo, r.agreedHi)(x)
    ensures MostTouch(intervals, r.agreedLo, r.agreedHi)
  {
    var maxLo, minHi, minLo, maxHi :|
      IsExtremes(intervals, maxLo, minHi, minLo, maxHi) && r.overlapIndex == OverlapOf(maxLo, minHi, minLo, maxHi);
    HalfOverlapMeets(maxLo, minHi, minLo, maxHi);
    MediansAmongEnds(intervals, r, maxLo, minHi, minLo, maxHi);
    assert IsCore(intervals, maxLo, minHi);
    AllPass(intervals, Touching(r.agreedLo, r.agreedHi));
  }

  lemma HalfOverlapMeets(maxLo: real, minHi: real, minLo: real, maxHi: real)
    requires minLo <= maxLo && minHi <= maxHi && minLo <= minHi && maxLo <= maxHi
    requires OverlapOf(maxLo, minHi, minLo, maxHi) >= 0.5
    ensures maxLo <= minHi
  {
    if maxHi > minLo {
      RatioBounds(if minHi > maxLo then minHi - maxLo else 0.0, maxHi - minLo);
    }
  }

  lemma MediansAmongEnds(intervals: seq<Interval>, r: Result, maxLo: real, minHi: real, minLo: real, maxHi: real)
    requires intervals != [] && IsExtremes(intervals, maxLo, minHi, minLo, maxHi)
    requires IsLowerMedian(Samples(intervals, Lower()), r.agreedLo)
    requires IsLowerMedian(Samples(intervals, Upper()), r.agreedHi)
    ensures r.agreedLo <= maxLo && minHi <= r.agreedHi
  {
    var i :| 0 <= i < |intervals| && Samples(intervals, Lower())[i].value == r.agreedLo;
    var j :| 0 <= j < |intervals| && Samples(intervals, Upper())[j].value == r.agreedHi;
    assert intervals[i] in intervals && intervals[j] in intervals;
  }

  /** Robustness of the whole computation: when sources holding a strict majority of the weight
      report intervals inside [a, b], the agreed range lies inside [a, b] too. */
  lemma MajorityConfinesAgreement(intervals: seq<Interval>, mask: seq<bool>, r: Result, a: real, b: real)
    requires intervals != [] && forall x :: x in intervals ==> x.lo <= x.hi && x.weight > 0.0
    requires IsAgreement(intervals, r)
    requires |mask| == |intervals| && 2.0 * MaskedWeight(Samples(intervals, Lower()), mask) > Total(Samples(intervals, Lower()))
    requires forall i :: 0 <= i < |mask| && mask[i] ==> a <= intervals[i].lo && intervals[i].hi <= b
    ensures a <= r.agreedLo <= r.agreedHi <= b
  {
    hide IsOverlap, MostTouch, Clamp;
    var los, his := Samples(intervals, Lower()), Samples(intervals, Upper());
    SameWeights(los, his, mask);
    MajorityBracketsMedian(los, mask, r.agreedLo);
    MajorityBracketsMedian(his, mask, r.agreedHi);
    RawMediansOrdered(intervals, r.agreedLo, r.agreedHi);
  }

  function Only(n: nat, k: nat): (mask: seq<bool>)
    ensures |mask| == n && forall i :: 0 <= i < n ==> (mask[i] <==> i == k)
  {
    seq(n, i requires 0 <= i < n => i == k)
  }

  lemma {:induction false} OnlyWeighs(s: seq<Sample>, k: nat)
    ensures MaskedWeight(s, Only(|s|, k)) == if k < |s| then s[k].weight else 0.0
  {
    if s != [] {
      OnlyWeighs(s[..|s| - 1], k);
      assert Only(|s|, k)[..|s| - 1] == Only(|s| - 1, k);
    }
  }

  /** A source that weighs more than all others together sets the agreed range. */
  lemma DominantSetsRange(intervals: seq<Interval>, k: nat, r: Result)
    requires k < |intervals| && forall x :: x in intervals ==> x.lo <= x.hi && x.weight > 0.0
    requires IsAgreement(intervals, r)
    requires 2.0 * intervals[k].weight > Total(Samples(intervals, Lower()))
    ensures r.agreedLo == intervals[k].lo && r.agreedHi == intervals[k].hi
  {
    hide IsOverlap, MostTouch, Clamp;
    var los, his, mask := Samples(intervals, Lower()), Samples(intervals, Upper()), Only(|intervals|, k);
    SameWeights(los, his, mask);
    OnlyWeighs(los, k);
    MajorityBracketsMedian(los, mask, r.agreedLo);
    MajorityBracketsMedian(his, mask, r.agreedHi);
  }

  /** Of two sources that report one interval each, alike in type and year, the more confident one
      sets the agreed range. */
  lemma MoreConfidentSetsRange(f: Fact, g: Fact, currentYear: int, exp: real -> real, r: Result)
    requires f.hasRange && g.hasRange && f.docType == g.docType && f.year == g.year
    requires f.confidence > g.confidence > 0.0 && IsExponential(exp)
    requires IsConsensusOf([f, g], currentYear, exp, r) || IsConsensusOf([g, f], currentYear, exp, r)
    ensures
      var own := ToInterval(f, currentYear, exp);
      r.agreedLo == own.lo && r.agreedHi == own.hi
  {
    hide IsAgreement, IsSurvey, ToInterval;
    WeightGrows(g, f, currentYear, exp);
    if IsConsensusOf([f, g], currentYear, exp, r) {
      TwoIntervals(f, g, currentYear, exp);
      DominantSetsRange(Intervals([f, g], currentYear, exp), 0, r);
    } else {
      TwoIntervals(g, f, currentYear, exp);
      DominantSetsRange(Intervals([g, f], currentYear, exp), 1, r);
    }
  }

  lemma TwoIntervals(f: Fact, g: Fact, currentYear: int, exp: real -> real)
    requires f.hasRange && g.hasRange
    ensures
      var a, b := ToInterval(f, currentYear, exp), ToInterval(g, currentYear, exp);
      && Intervals([f, g], currentYear, exp) == [a, b] && Counted([f, g]) == [f, g]
      && Total(Samples([a, b], Lower())) == a.weight + b.weight
      && forall x :: x in [a, b] ==> x.lo <= x.hi && x.weight > 0.0
  {
    hide ToInterval, Total;
    CountedBoth(f, g);
    var a, b := ToInterval(f, currentYear, exp), ToInterval(g, currentYear, exp);
    assert Map([f, g], Normalise(currentYear, exp)) == [a, b];
    assert Samples([a, b], Lower()) == [Sample(a.lo, a.weight), Sample(b.lo, b.weight)];
    TotalOfTwo(Sample(a.lo, a.weight), Sample(b.lo, b.weight));
    ProperInterval(f, currentYear, exp);
    ProperInterval(g, currentYear, exp);
  }

  lemma ProperInterval(f: Fact, currentYear: int, exp: real -> real)
    ensures var x := ToInterval(f, currentYear, exp); x.lo <= x.hi && x.weight > 0.0
  {
  }

  lemma CountedBoth(f: Fact, g: Fact)
    requires f.hasRange && g.hasRange
    ensures Counted([f, g]) == [f, g]
  {
    AllPass([f, g], HasRange());
  }

  lemma TotalOfTwo(x: Sample, y: Sample)
    ensures Total([x, y]) == x.weight + y.weight
  {
    assert [x, y][..1] == [x] && [x][..0] == [];
    assert Sum([x], WeightOf()) == Sum([], WeightOf()) + x.weight;
  }

  /** The overlap index is the share of the hull that all intervals have in common: no common part
      exceeds it, and it is attained unless nothing is common. */
  lemma OverlapIsShare(s: seq<Interval>, index: real, a: real, b: real, lo: real, hi: real)
    requires s != [] && IsOverlap(s, index) && a < b && forall x :: x in s ==> a <= x.lo <= x.hi <= b
    requires (exists x :: x in s && x.lo == a) && (exists x :: x in s && x.hi == b)
    ensures IsCore(s, lo, hi) ==> hi - lo <= index * (b - a)
    ensures index > 0.0 ==> exists l, h :: IsCore(s, l, h) && h - l == index * (b - a)
  {
    hide IsCore, OverlapOf, IsExtremes;
    var maxLo, minHi, minLo, maxHi :|
      IsExtremes(s, maxLo, minHi, minLo, maxHi) && index == OverlapOf(maxLo, minHi, minLo, maxHi);
    HullIs(s, maxLo, minHi, minLo, maxHi, a, b);
    ShareOfHull(index, maxLo, minHi, a, b);
    if IsCore(s, lo, hi) {
      CoreWithin(s, maxLo, minHi, a, b, lo, hi);
      assert hi - lo <= index * (b - a);
    }
    if index > 0.0 {
      CommonIsCore(s, maxLo, minHi, a, b);
      assert IsCore(s, maxLo, minHi) && minHi - maxLo == index * (b - a);
    }
  }

  lemma HullIs(s: seq<Interval>, maxLo: real, minHi: real, minLo: real, maxHi: real, a: real, b: real)
    requires IsExtremes(s, maxLo, minHi, minLo, maxHi) && forall x :: x in s ==> a <= x.lo <= x.hi <= b
    requires (exists x :: x in s && x.lo == a) && (exists x :: x in s && x.hi == b)
    ensures minLo == a && maxHi == b
  {
  }

  /** Sources that all report the same single value overlap fully. */
  lemma SameValueOverlaps(s: seq<Interval>, index: real, v: real)
    requires IsOverlap(s, index) && forall x :: x in s ==> x.lo == x.hi == v
    ensures index == 1.0
  {
  }

  predicate Within(v: real, lo: real, hi: real) {
    lo <= v <= hi
  }

  /** An interval touches a range exactly when they have a value in common. */
  lemma TouchingMeets(x: Interval, lo: real, hi: real)
    requires x.lo <= x.hi && lo <= hi
    ensures Touching(lo, hi)(x) <==> exists v :: Within(v, lo, hi) && Within(v, x.lo, x.hi)
  {
    if Touching(lo, hi)(x) {
      var v := if x.lo >= lo then x.lo else lo;
      assert Within(v, lo, hi) && Within(v, x.lo, x.hi);
    }
  }

  lemma ShareOfHull(index: real, maxLo: real, minHi: real, minLo: real, maxHi: real)
    requires minLo < maxHi && index == OverlapOf(maxLo, minHi, minLo, maxHi)
    ensures index * (maxHi - minLo) == if minHi > maxLo then minHi - maxLo else 0.0
    ensures index > 0.0 ==> minHi > maxLo
  {
    Quotient(if minHi > maxLo then minHi - maxLo else 0.0, maxHi - minLo);
  }

  lemma CoreWithin(s: seq<Interval>, maxLo: real, minHi: real, minLo: real, maxHi: real, lo: real, hi: real)
    requires IsExtremes(s, maxLo, minHi, minLo, maxHi) && IsCore(s, lo, hi)
    ensures hi - lo <= minHi - maxLo
  {
  }

  lemma CommonIsCore(s: seq<Interval>, maxLo: real, minHi: real, minLo: real, maxHi: real)
    requires IsExtremes(s, maxLo, minHi, minLo, maxHi) && maxLo <= minHi
    ensures IsCore(s, maxLo, minHi)
  {
  }

  lemma Quotient(part: real, whole: real)
    requires whole > 0.0
    ensures (part / whole) * whole == part
  {
  }

  lemma {:induction false} SameWeights(s: seq<Sample>, t: seq<Sample>, mask: seq<bool>)
    requires |s| == |t| == |mask| && forall i :: 0 <= i < |s| ==> s[i].weight == t[i].weight
    ensures MaskedWeight(s, mask) == MaskedWeight(t, mask) && Total(s) == Total(t)
  {
    if s != [] {
      SameWeights(s[..|s| - 1], t[..|s| - 1], mask[..|s| - 1]);
    }
  }

  /** The guarantees above, for the result computed from any facts with a range. */
  lemma ResultSound(facts: seq<Fact>, currentYear: int, exp: real -> real, r: Result)
    requires IsConsensusOf(facts, currentYear, exp, r) && r.hasRange
    ensures r.agreedLo <= r.agreedHi
    ensures 0.0 <= r.overlapIndex <= 1.0 && 0.3 <= r.confidence <= 0.95
    ensures 0.3 <= r.overlapIndex <= 0.95 ==> r.confidence == r.overlapIndex
    ensures r.overlapIndex < 0.3 ==> r.confidence == 0.3
    ensures r.overlapIndex > 0.95 ==> r.confidence == 0.95
    ensures r.verdict == Agreement ==>
              var intervals := Intervals(facts, currentYear, exp);
              && (exists lo, hi :: IsCore(intervals, lo, hi) && r.agreedLo <= lo && hi <= r.agreedHi)
              && intervals != [] && MostTouch(intervals, r.agreedLo, r.agreedHi)
  {
    var intervals := Intervals(facts, currentYear, exp);
    IntervalsProper(Counted(facts), currentYear, exp);
    RawMediansOrdered(intervals, r.agreedLo, r.agreedHi);
    OverlapIsProportion(intervals, r.overlapIndex);
    if r.verdict == Agreement {
      AgreementSharesCore(intervals, r);
    }
  }
}
