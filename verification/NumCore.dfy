/** Numeric fact extraction: ten patterns are tried in priority order over the same text, and a
    match is accepted only where no earlier one already lies. The pattern matches themselves, and
    the two context tests, come from regular expressions and are parameters. */
module NumCore {
  import opened Basics
  import opened Permutations

  /** The patterns, in the order in which they are tried. */
  datatype Pattern =
    RangeWords | RangeSep | PlusMinus | Approx | Gte | Lte | Gt | Lt | PhPrefix | Eq

  const PATTERNS: seq<Pattern> :=
    [RangeWords, RangeSep, PlusMinus, Approx, Gte, Lte, Gt, Lt, PhPrefix, Eq]

  /** A match: its span, the numbers captured (`y` only where two are) and the unit captured. */
  datatype Match = Match(start: nat, end: nat, x: real, y: real, unit: string)

  datatype Operator = OpRange | OpApprox | OpGte | OpLte | OpGt | OpLt | OpEq

  datatype Candidate = Candidate(start: nat, end: nat, operator: Operator, vmin: Option<real>, vmax: Option<real>, unit: string)

  datatype UnitDef = UnitDef(code: string, factor: real, offset: real, parameter: ParameterDef)

  datatype ParameterDef = ParameterDef(slug: string, plausibleMin: Option<real>, plausibleMax: Option<real>)

  datatype Fact = Fact(
    operator: Operator, vmin: Option<real>, vmax: Option<real>, unitCode: string,
    vminSi: Option<real>, vmaxSi: Option<real>, parameter: string,
    charFrom: nat, charTo: nat, confidence: real, implausible: bool)

  /** What `add` is called with for a match of each pattern. */
  function Interpret(p: Pattern, m: Match): Candidate {
    var x, y := Some(m.x), Some(m.y);
    match p
    case RangeWords => Candidate(m.start, m.end, OpRange, x, y, m.unit)
    case RangeSep => Candidate(m.start, m.end, OpRange, x, y, m.unit)
    case PlusMinus => Candidate(m.start, m.end, OpRange, Some(m.x - m.y), Some(m.x + m.y), m.unit)
    case Approx => Candidate(m.start, m.end, OpApprox, x, x, m.unit)
    case Gte => Candidate(m.start, m.end, OpGte, x, None, m.unit)
    case Lte => Candidate(m.start, m.end, OpLte, None, x, m.unit)
    case Gt => Candidate(m.start, m.end, OpGt, x, None, m.unit)
    case Lt => Candidate(m.start, m.end, OpLt, None, x, m.unit)
    case PhPrefix => Candidate(m.start, m.end, OpEq, x, x, "pH")
    case Eq => Candidate(m.start, m.end, OpEq, x, x, m.unit)
  }

  /** All candidates in the order in which they are offered. */
  function Offered(patterns: seq<Pattern>, matches: Pattern -> seq<Match>): seq<Candidate> {
    if patterns == [] then []
    else
      var last := patterns[|patterns| - 1];
      Offered(patterns[..|patterns| - 1], matches) + Map(matches(last), (m: Match) => Interpret(last, m))
  }

  /** Every match of every pattern is offered, pattern by pattern and in the order of the matches. */
  lemma {:induction false} OfferedPlace(patterns: seq<Pattern>, matches: Pattern -> seq<Match>, k: nat, l: nat)
    requires k < |patterns| && l < |matches(patterns[k])|
    ensures
      var before, all := |Offered(patterns[..k], matches)|, Offered(patterns, matches);
      && before + |matches(patterns[k])| <= |all|
      && all[before + l] == Interpret(patterns[k], matches(patterns[k])[l])
      && |Offered(patterns[..k + 1], matches)| == before + |matches(patterns[k])|
  {
    hide Interpret;
    var init, last := patterns[..|patterns| - 1], |patterns| - 1;
    if k < last {
      OfferedPlace(init, matches, k, l);
      assert init[..k] == patterns[..k] && init[..k + 1] == patterns[..k + 1] && init[k] == patterns[k];
    } else {
      assert patterns[..k + 1] == patterns;
    }
  }

  /** Nothing else is offered. */
  lemma {:induction false} OfferedOnly(patterns: seq<Pattern>, matches: Pattern -> seq<Match>, c: Candidate)
    ensures c in Offered(patterns, matches) <==> exists p, m :: p in patterns && m in matches(p) && c == Interpret(p, m)
  {
    if patterns != [] {
      var init, last := patterns[..|patterns| - 1], patterns[|patterns| - 1];
      OfferedOnly(init, matches, c);
      var ms := matches(last);
      var own := Map(ms, (m: Match) => Interpret(last, m));
      assert patterns == init + [last];
      if c in own {
        var i :| 0 <= i < |own| && own[i] == c;
        assert last in patterns && ms[i] in ms;
      }
      if p, m :| p in patterns && m in matches(p) && c == Interpret(p, m) {
        if p == last {
          var i :| 0 <= i < |ms| && ms[i] == m;
          assert own[i] == c;
        }
      }
    }
  }

  // ----- normalisation ------------------------------------------------------

  /** A piece of the text as normalisation sees it: a character, which is replaced by one character,
      or a number in scientific notation, whose multiplication sign, ten and caret become an `e`. */
  datatype Segment = Plain(c: char) | Scientific(mantissa: string, times: string, exponent: string)

  /** The sign of multiplication and the two digits of the ten are always there. */
  predicate WellCut(s: Segment) {
    s.Scientific? ==> |s.times| >= 3
  }

  function Original(segments: seq<Segment>): string {
    if segments == [] then ""
    else
      var last := segments[|segments| - 1];
      Original(segments[..|segments| - 1]) + match last
        case Plain(c) => [c]
        case Scientific(mantissa, times, exponent) => mantissa + times + exponent
  }

  /** `plain` unifies spaces, dashes and look-alikes; `digit` also turns superscripts into digits. */
  function Normal(segments: seq<Segment>, plain: char -> char, digit: char -> char): string {
    if segments == [] then ""
    else
      var last := segments[|segments| - 1];
      Normal(segments[..|segments| - 1], plain, digit) + match last
        case Plain(c) => [plain(c)]
        case Scientific(mantissa, _, exponent) => Map(mantissa, plain) + "e" + Map(exponent, digit)
  }

  /** Positions of facts count in the normalised text. They agree with the full text exactly as long
      as no number in scientific notation comes before; after one they fall short. */
  lemma {:induction false} OffsetsAgreeIff(segments: seq<Segment>, plain: char -> char, digit: char -> char)
    requires forall i :: 0 <= i < |segments| ==> WellCut(segments[i])
    ensures |Normal(segments, plain, digit)| <= |Original(segments)|
    ensures |Normal(segments, plain, digit)| == |Original(segments)| <==> forall i :: 0 <= i < |segments| ==> segments[i].Plain?
  {
    if segments != [] {
      var init := segments[..|segments| - 1];
      OffsetsAgreeIff(init, plain, digit);
      assert WellCut(segments[|init|]);
      assert forall i :: 0 <= i < |init| ==> segments[i] == init[i];
    }
  }

  /** Characters outside numbers in scientific notation are replaced one by one. */
  lemma {:induction false} PlainIsReplaced(segments: seq<Segment>, plain: char -> char, digit: char -> char, i: nat)
    requires i < |segments| && forall k :: 0 <= k < |segments| ==> segments[k].Plain?
    ensures |Normal(segments, plain, digit)| == |Original(segments)| == |segments|
    ensures Original(segments)[i] == segments[i].c && Normal(segments, plain, digit)[i] == plain(segments[i].c)
  {
    var init := segments[..|segments| - 1];
    if i < |init| {
      PlainIsReplaced(init, plain, digit, i);
    } else if init != [] {
      PlainIsReplaced(init, plain, digit, 0);
    }
  }

  /** A number in scientific notation becomes mantissa, `e` and exponent. */
  lemma ScientificIsFolded(before: seq<Segment>, mantissa: string, times: string, exponent: string,
                           plain: char -> char, digit: char -> char)
    requires (forall i :: 0 <= i < |mantissa| ==> plain(mantissa[i]) == mantissa[i])
             && (forall i :: 0 <= i < |exponent| ==> digit(exponent[i]) == exponent[i])
    ensures
      var s := before + [Scientific(mantissa, times, exponent)];
      && Original(s) == Original(before) + mantissa + times + exponent
      && Normal(s, plain, digit) == Normal(before, plain, digit) + mantissa + "e" + exponent
  {
    assert (before + [Scientific(mantissa, times, exponent)])[..|before|] == before;
    assert Map(mantissa, plain) == mantissa && Map(exponent, digit) == exponent;
  }

  // ----- values -------------------------------------------------------------

  const MAGNITUDE_CEILING := 1000000000000.0
  const TOLERANCE := 0.000001

  function Si(value: Option<real>, unit: UnitDef): Option<real> {
    if value.None? then None else Some(Scale(value.value, unit.factor) + unit.offset)
  }

  predicate Plausible(value: Option<real>, p: ParameterDef) {
    || value.None?
    || ((p.plausibleMin.Some? ==> value.value >= p.plausibleMin.value - Abs(p.plausibleMin.value) * TOLERANCE - TOLERANCE)
        && (p.plausibleMax.Some? ==> value.value <= p.plausibleMax.value + Abs(p.plausibleMax.value) * TOLERANCE + TOLERANCE))
  }

  /** Conversion is the straight line through the unit's offset with the unit's factor as slope. */
  lemma SiIsLinear(x: real, y: real, unit: UnitDef)
    ensures Si(None, unit) == None
    ensures Si(Some(0.0), unit) == Some(unit.offset)
    ensures Si(Some(1.0), unit) == Some(unit.offset + unit.factor)
    ensures Si(Some(x), unit).value - Si(Some(y), unit).value == (x - y) * unit.factor
  {
    assert Scale(x, unit.factor) - Scale(y, unit.factor) == (x - y) * unit.factor;
    assert Scale(0.0, unit.factor) == 0.0 && Scale(1.0, unit.factor) == unit.factor;
  }

  /** A millionth of the bound and a millionth more. */
  function Slack(bound: real): real {
    0.000001 * (1.0 + Abs(bound))
  }

  /** A value is plausible exactly when it misses no bound by more than the slack; so every value inside
      the range is, and so is an absent one. */
  lemma PlausibleIff(value: real, p: ParameterDef)
    ensures Plausible(None, p)
    ensures Plausible(Some(value), p) <==>
              && (p.plausibleMin.Some? ==> p.plausibleMin.value - value <= Slack(p.plausibleMin.value))
              && (p.plausibleMax.Some? ==> value - p.plausibleMax.value <= Slack(p.plausibleMax.value))
    ensures Between(value, p.plausibleMin, p.plausibleMax) ==> Plausible(Some(value), p)
  {
  }

  predicate Ordered(lo: Option<real>, hi: Option<real>) {
    lo.Some? && hi.Some? ==> lo.value <= hi.value
  }

  predicate TooLarge(value: Option<real>) {
    value.Some? && Abs(value.value) >= MAGNITUDE_CEILING
  }

  /** The fact a candidate yields once its span is accepted, if any. */
  function FactOf(c: Candidate, units: map<string, UnitDef>, lower: string -> string): Option<Fact> {
    if lower(c.unit) !in units || TooLarge(c.vmin) || TooLarge(c.vmax) then None
    else
      var unit := units[lower(c.unit)];
      var swap := c.vmin.Some? && c.vmax.Some? && c.vmin.value > c.vmax.value;
      var vmin, vmax := if swap then c.vmax else c.vmin, if swap then c.vmin else c.vmax;
      var ok := Plausible(Si(vmin, unit), unit.parameter) && Plausible(Si(vmax, unit), unit.parameter);
      Some(Fact(c.operator, vmin, vmax, unit.code, Si(vmin, unit), Si(vmax, unit), unit.parameter.slug,
                c.start, c.end, if ok then 0.97 else 0.5, !ok))
  }

  /** Conversion keeps bounds in order exactly when the factor is not negative or they coincide. */
  lemma SiOrderedIff(lo: real, hi: real, unit: UnitDef)
    requires lo <= hi
    ensures Ordered(Si(Some(lo), unit), Si(Some(hi), unit)) <==> unit.factor >= 0.0 || lo == hi
  {
    var f := unit.factor;
    assert Scale(hi, f) - Scale(lo, f) == (hi - lo) * f;
    ProductSign(hi - lo, f);
  }

  lemma ProductSign(a: real, b: real)
    requires a >= 0.0
    ensures a * b >= 0.0 <==> b >= 0.0 || a == 0.0
  {
    if b < 0.0 && a > 0.0 {
      assert a * (-b) > 0.0;
      assert a * b == -(a * (-b));
    }
  }

  /** Every fact lists its bounds in order, and its SI bounds too when the unit's factor is
      positive. The bounds are the candidate's, and nothing is lost or invented. */
  lemma FactBounds(c: Candidate, units: map<string, UnitDef>, lower: string -> string)
    requires FactOf(c, units, lower).Some?
    ensures
      var f := FactOf(c, units, lower).value;
      && Ordered(f.vmin, f.vmax)
      && multiset{f.vmin, f.vmax} == multiset{c.vmin, c.vmax}
      && (units[lower(c.unit)].factor > 0.0 ==> Ordered(f.vminSi, f.vmaxSi))
      && (f.confidence == 0.97 <==> !f.implausible)
  {
    var f, unit := FactOf(c, units, lower).value, units[lower(c.unit)];
    if f.vmin.Some? && f.vmax.Some? {
      SiOrderedIff(f.vmin.value, f.vmax.value, unit);
    }
  }

  /** An accepted candidate yields a fact exactly when its unit is known and neither bound is huge. */
  lemma FactYieldedIff(c: Candidate, units: map<string, UnitDef>, lower: string -> string)
    ensures FactOf(c, units, lower).Some? <==>
              && lower(c.unit) in units
              && (c.vmin.Some? ==> Abs(c.vmin.value) < 1000000000000.0)
              && (c.vmax.Some? ==> Abs(c.vmax.value) < 1000000000000.0)
  {
  }

  /** The SI bound is the bound converted, and absent with it. */
  ghost predicate ConvertsTo(bound: Option<real>, si: Option<real>, unit: UnitDef) {
    (bound.None? <==> si.None?) && (bound.Some? ==> si.value == bound.value * unit.factor + unit.offset)
  }

  /** What a fact says besides its bounds: operator, place, unit and parameter are the candidate's, its
      SI bounds are its bounds converted, and it is marked when one of them is not plausible. */
  lemma FactSays(c: Candidate, units: map<string, UnitDef>, lower: string -> string)
    requires FactOf(c, units, lower).Some?
    ensures
      var f, unit := FactOf(c, units, lower).value, units[lower(c.unit)];
      && f.operator == c.operator && f.charFrom == c.start && f.charTo == c.end
      && f.unitCode == unit.code && f.parameter == unit.parameter.slug
      && ConvertsTo(f.vmin, f.vminSi, unit) && ConvertsTo(f.vmax, f.vmaxSi, unit)
      && (f.implausible <==> !Plausible(f.vminSi, unit.parameter) || !Plausible(f.vmaxSi, unit.parameter))
      && f.confidence == (if f.implausible then 0.5 else 0.97)
  {
    ConvertsOne(FactOf(c, units, lower).value.vmin, units[lower(c.unit)]);
    ConvertsOne(FactOf(c, units, lower).value.vmax, units[lower(c.unit)]);
  }

  lemma ConvertsOne(bound: Option<real>, unit: UnitDef)
    ensures ConvertsTo(bound, Si(bound, unit), unit)
  {
    if bound.Some? {
      assert Scale(bound.value, unit.factor) == bound.value * unit.factor;
    }
  }

  /** The operator says which bounds there are; a strict one stands for a strict comparison, and the
      prefix pattern supplies its own unit. */
  lemma OperatorFits(p: Pattern, m: Match)
    ensures
      var c := Interpret(p, m);
      && (c.vmin.None? <==> c.operator == OpLte || c.operator == OpLt)
      && (c.vmax.None? <==> c.operator == OpGte || c.operator == OpGt)
      && (c.operator == OpGt <==> p == Gt) && (c.operator == OpLt <==> p == Lt)
      && (c.operator == OpApprox <==> p == Approx)
      && (c.operator == OpRange <==> p == RangeWords || p == RangeSep || p == PlusMinus)
      && (c.operator == OpApprox || c.operator == OpEq ==> c.vmin == c.vmax == Some(m.x))
      && c.start == m.start && c.end == m.end && c.unit == (if p == PhPrefix then "pH" else m.unit)
  {
  }

  predicate Between(v: real, lo: Option<real>, hi: Option<real>) {
    (lo.Some? ==> lo.value <= v) && (hi.Some? ==> v <= hi.value)
  }

  /** The values that a match of each pattern speaks of. */
  predicate SpeaksOf(p: Pattern, m: Match, v: real) {
    match p
    case RangeWords => m.x <= v <= m.y || m.y <= v <= m.x
    case RangeSep => m.x <= v <= m.y || m.y <= v <= m.x
    case PlusMinus => Abs(v - m.x) <= Abs(m.y)
    case Gte => v >= m.x
    case Gt => v >= m.x
    case Lte => v <= m.x
    case Lt => v <= m.x
    case _ => v == m.x
  }

  /** The interval of a fact holds exactly the values its match speaks of, in whatever order the
      match names them; a strict comparison is recorded with its bound. */
  lemma FactCoversMeaning(p: Pattern, m: Match, units: map<string, UnitDef>, lower: string -> string, v: real)
    requires FactOf(Interpret(p, m), units, lower).Some?
    ensures var f := FactOf(Interpret(p, m), units, lower).value; Between(v, f.vmin, f.vmax) <==> SpeaksOf(p, m, v)
  {
  }

  // ----- acceptance ---------------------------------------------------------

  predicate Disjoint(a: Candidate, b: Candidate) {
    a.end <= b.start || a.start >= b.end
  }

  /** Disjoint spans are those without a common position. */
  lemma DisjointIff(a: Candidate, b: Candidate)
    requires a.start < a.end && b.start < b.end
    ensures Disjoint(a, b) <==> !exists at: nat :: Covers(a, at) && Covers(b, at)
  {
    if !Disjoint(a, b) {
      var at := if a.start >= b.start then a.start else b.start;
      assert Covers(a, at) && Covers(b, at);
    }
  }

  predicate Covers(c: Candidate, at: nat) {
    c.start <= at < c.end
  }

  /** Candidate `i` is accepted when its context allows it and no accepted earlier one overlaps. */
  predicate Accepts(cs: seq<Candidate>, i: nat, allowed: (nat, nat) -> bool)
    requires i < |cs|
  {
    allowed(cs[i].start, cs[i].end) && forall j :: 0 <= j < i && Accepts(cs, j, allowed) ==> Disjoint(cs[i], cs[j])
  }

  /** The accepted indices below `n`, in order of acceptance. */
  function AcceptedBelow(cs: seq<Candidate>, n: nat, allowed: (nat, nat) -> bool): seq<nat>
    requires n <= |cs|
  {
    if n == 0 then []
    else
      var earlier := AcceptedBelow(cs, n - 1, allowed);
      if Accepts(cs, n - 1, allowed) then earlier + [n - 1] else earlier
  }

  lemma {:induction false} AcceptedBelowIs(cs: seq<Candidate>, n: nat, allowed: (nat, nat) -> bool)
    requires n <= |cs|
    ensures forall j :: j in AcceptedBelow(cs, n, allowed) <==> 0 <= j < n && Accepts(cs, j, allowed)
  {
    if n > 0 {
      AcceptedBelowIs(cs, n - 1, allowed);
    }
  }

  /** The facts of the accepted candidates below `n`, in order of acceptance. */
  function FactsBelow(cs: seq<Candidate>, n: nat, allowed: (nat, nat) -> bool, units: map<string, UnitDef>,
                      lower: string -> string): seq<Fact>
    requires n <= |cs|
  {
    if n == 0 then []
    else
      var earlier := FactsBelow(cs, n - 1, allowed, units, lower);
      if Accepts(cs, n - 1, allowed) && FactOf(cs[n - 1], units, lower).Some?
      then earlier + [FactOf(cs[n - 1], units, lower).value]
      else earlier
  }

  function ByPosition(): (Fact, Fact) -> bool { (a: Fact, b: Fact) => a.charFrom <= b.charFrom }

  function Allowed(stopped: nat -> bool, tableRow: (nat, nat) -> bool): (nat, nat) -> bool {
    (from: nat, to: nat) => !stopped(from) && !tableRow(from, to)
  }

  /** Offers every match, pattern by pattern, and sorts the facts by position. */
  method ExtractFacts(matches: Pattern -> seq<Match>, stopped: nat -> bool, tableRow: (nat, nat) -> bool,
                      units: map<string, UnitDef>, lower: string -> string)
    returns (facts: seq<Fact>, ghost spans: seq<Candidate>)
    ensures
      var cs := Offered(PATTERNS, matches);
      spans == Picked(cs, AcceptedBelow(cs, |cs|, Allowed(stopped, tableRow)))
    ensures SortedBy(facts, ByPosition())
    ensures
      var cs := Offered(PATTERNS, matches);
      multiset(facts) == multiset(FactsBelow(cs, |cs|, Allowed(stopped, tableRow), units, lower))
  {
    facts, spans := [], [];
    var accepted: seq<Candidate> := [];
    var cs := Offered(PATTERNS, matches);
    ghost var allowed := Allowed(stopped, tableRow);
    for i := 0 to |cs|
      invariant accepted == Picked(cs, AcceptedBelow(cs, i, allowed))
      invariant facts == FactsBelow(cs, i, allowed, units, lower)
    {
      var free := Free(cs[i], accepted);
      AcceptsIffFree(cs, i, allowed);
      if free && !stopped(cs[i].start) && !tableRow(cs[i].start, cs[i].end) {
        PickedStep(cs, AcceptedBelow(cs, i, allowed), i);
        accepted := accepted + [cs[i]];
        var fact := FactOf(cs[i], units, lower);
        if fact.Some? {
          facts := facts + [fact.value];
        }
      }
    }
    spans := accepted;
    SortSorts(facts, ByPosition());
    facts := Sort(facts, ByPosition());
  }

  function Picked(cs: seq<Candidate>, indices: seq<nat>): seq<Candidate> {
    if indices == [] then []
    else
      var last := indices[|indices| - 1];
      Picked(cs, indices[..|indices| - 1]) + if last < |cs| then [cs[last]] else []
  }

  lemma PickedStep(cs: seq<Candidate>, indices: seq<nat>, i: nat)
    requires i < |cs|
    ensures Picked(cs, indices + [i]) == Picked(cs, indices) + [cs[i]]
  {
    assert (indices + [i])[..|indices|] == indices;
  }

  lemma {:induction false} PickedMembers(cs: seq<Candidate>, indices: seq<nat>)
    requires forall j :: j in indices ==> j < |cs|
    ensures forall c :: c in Picked(cs, indices) <==> exists j :: j in indices && cs[j] == c
  {
    if indices != [] {
      var init, last := indices[..|indices| - 1], indices[|indices| - 1];
      assert indices == init + [last];
      assert last in indices && forall j :: j in init ==> j in indices;
      PickedMembers(cs, init);
    }
  }

  /** No accepted span overlaps. */
  predicate Free(c: Candidate, accepted: seq<Candidate>) {
    forall a :: a in accepted ==> Disjoint(c, a)
  }

  lemma AcceptsIffFree(cs: seq<Candidate>, i: nat, allowed: (nat, nat) -> bool)
    requires i < |cs|
    ensures Accepts(cs, i, allowed) <==>
              allowed(cs[i].start, cs[i].end) && Free(cs[i], Picked(cs, AcceptedBelow(cs, i, allowed)))
  {
    var indices := AcceptedBelow(cs, i, allowed);
    AcceptedBelowIs(cs, i, allowed);
    PickedMembers(cs, indices);
    if Free(cs[i], Picked(cs, indices)) {
      forall j | 0 <= j < i && Accepts(cs, j, allowed) ensures Disjoint(cs[i], cs[j]) {
        assert j in indices;
        assert cs[j] in Picked(cs, indices);
      }
    }
  }

  // ----- what acceptance guarantees -----------------------------------------

  lemma {:induction false} AcceptedIncreasing(cs: seq<Candidate>, n: nat, allowed: (nat, nat) -> bool)
    requires n <= |cs|
    ensures forall p, q :: 0 <= p < q < |AcceptedBelow(cs, n, allowed)| ==>
              AcceptedBelow(cs, n, allowed)[p] < AcceptedBelow(cs, n, allowed)[q]
  {
    if n > 0 {
      AcceptedIncreasing(cs, n - 1, allowed);
      AcceptedBelowIs(cs, n - 1, allowed);
      var earlier := AcceptedBelow(cs, n - 1, allowed);
      assert forall p :: 0 <= p < |earlier| ==> earlier[p] in earlier;
    }
  }

  lemma {:induction false} PickedAt(cs: seq<Candidate>, indices: seq<nat>, p: nat)
    requires p < |indices| && forall j :: 0 <= j < |indices| ==> indices[j] < |cs|
    ensures |Picked(cs, indices)| == |indices| && Picked(cs, indices)[p] == cs[indices[p]]
  {
    var init := indices[..|indices| - 1];
    if p < |init| {
      PickedAt(cs, init, p);
    } else if init != [] {
      PickedAt(cs, init, 0);
    }
  }

  /** The accepted spans are pairwise disjoint. */
  lemma SpansDisjoint(cs: seq<Candidate>, allowed: (nat, nat) -> bool, spans: seq<Candidate>, p: nat, q: nat)
    requires spans == Picked(cs, AcceptedBelow(cs, |cs|, allowed)) && p < q < |spans|
    ensures Disjoint(spans[p], spans[q])
  {
    var indices := AcceptedBelow(cs, |cs|, allowed);
    AcceptedBelowIs(cs, |cs|, allowed);
    AcceptedIncreasing(cs, |cs|, allowed);
    assert forall j :: 0 <= j < |indices| ==> indices[j] in indices;
    if indices != [] {
      PickedAt(cs, indices, 0);
    }
    PickedAt(cs, indices, p);
    PickedAt(cs, indices, q);
    AcceptedDisjoint(cs, indices[q], indices[p], allowed);
  }

  /** Every accepted span has a context that allows it; a stop word before it or a table row around it does
      not. */
  lemma SpansRespectContext(cs: seq<Candidate>, stopped: nat -> bool, tableRow: (nat, nat) -> bool, spans: seq<Candidate>,
                            c: Candidate)
    requires spans == Picked(cs, AcceptedBelow(cs, |cs|, Allowed(stopped, tableRow))) && c in spans
    ensures c in cs && !stopped(c.start) && !tableRow(c.start, c.end)
  {
    var indices := AcceptedBelow(cs, |cs|, Allowed(stopped, tableRow));
    AcceptedBelowIs(cs, |cs|, Allowed(stopped, tableRow));
    PickedMembers(cs, indices);
    var j :| j in indices && cs[j] == c;
    assert Accepts(cs, j, Allowed(stopped, tableRow));
  }

  /** The only other reason to leave a candidate out is an accepted span that was offered before it and
      overlaps it. */
  lemma LeftOutOnlyForOverlap(cs: seq<Candidate>, stopped: nat -> bool, tableRow: (nat, nat) -> bool, spans: seq<Candidate>,
                              i: nat) returns (j: nat)
    requires spans == Picked(cs, AcceptedBelow(cs, |cs|, Allowed(stopped, tableRow)))
    requires i < |cs| && cs[i] !in spans && !stopped(cs[i].start) && !tableRow(cs[i].start, cs[i].end)
    ensures j < i && cs[j] in spans && !Disjoint(cs[i], cs[j])
  {
    j := SpansMaximal(cs, Allowed(stopped, tableRow), spans, i);
  }

  /** The selection is maximal: a candidate whose context allows it is left out only when it
      overlaps an accepted span that was offered before it. */
  lemma SpansMaximal(cs: seq<Candidate>, allowed: (nat, nat) -> bool, spans: seq<Candidate>, i: nat)
    returns (j: nat)
    requires spans == Picked(cs, AcceptedBelow(cs, |cs|, allowed))
    requires i < |cs| && cs[i] !in spans && allowed(cs[i].start, cs[i].end)
    ensures j < i && cs[j] in spans && !Disjoint(cs[i], cs[j])
  {
    var indices := AcceptedBelow(cs, |cs|, allowed);
    AcceptedBelowIs(cs, |cs|, allowed);
    PickedMembers(cs, indices);
    assert i !in indices;
    j :| 0 <= j < i && Accepts(cs, j, allowed) && !Disjoint(cs[i], cs[j]);
    assert j in indices;
  }

  lemma AcceptedDisjoint(cs: seq<Candidate>, i: nat, j: nat, allowed: (nat, nat) -> bool)
    requires i < |cs| && j < |cs| && i != j && Accepts(cs, i, allowed) && Accepts(cs, j, allowed)
    ensures Disjoint(cs[i], cs[j]) && Disjoint(cs[j], cs[i])
  {
  }

  /** No other selection satisfies the rule: any choice that takes a candidate exactly when its
      context allows it and it avoids the earlier ones taken is this one. */
  lemma {:induction false} GreedyUnique(cs: seq<Candidate>, taken: nat -> bool, allowed: (nat, nat) -> bool, i: nat)
    requires i < |cs|
    requires forall k :: 0 <= k < |cs| ==>
               (taken(k) <==> allowed(cs[k].start, cs[k].end) && forall j :: 0 <= j < k && taken(j) ==> Disjoint(cs[k], cs[j]))
    ensures taken(i) <==> Accepts(cs, i, allowed)
  {
    forall j | 0 <= j < i ensures taken(j) <==> Accepts(cs, j, allowed) {
      GreedyUnique(cs, taken, allowed, j);
    }
  }

  /** Each fact comes from an accepted candidate. */
  lemma {:induction false} FactSource(cs: seq<Candidate>, n: nat, allowed: (nat, nat) -> bool,
                                      units: map<string, UnitDef>, lower: string -> string, k: nat)
    returns (i: nat)
    requires n <= |cs| && k < |FactsBelow(cs, n, allowed, units, lower)|
    ensures i < n && Accepts(cs, i, allowed)
    ensures FactOf(cs[i], units, lower) == Some(FactsBelow(cs, n, allowed, units, lower)[k])
    ensures k < |FactsBelow(cs, n, allowed, units, lower)| <= n
    ensures |FactsBelow(cs, i, allowed, units, lower)| == k
  {
    var earlier := FactsBelow(cs, n - 1, allowed, units, lower);
    if k < |earlier| {
      i := FactSource(cs, n - 1, allowed, units, lower, k);
    } else {
      i := n - 1;
      FactsFew(cs, n - 1, allowed, units, lower);
    }
  }

  /** And each accepted candidate that yields a fact has it in the result. */
  lemma {:induction false} AcceptedYieldsFact(cs: seq<Candidate>, n: nat, allowed: (nat, nat) -> bool,
                                              units: map<string, UnitDef>, lower: string -> string, i: nat)
    requires i < n <= |cs| && Accepts(cs, i, allowed) && FactOf(cs[i], units, lower).Some?
    ensures FactOf(cs[i], units, lower).value in FactsBelow(cs, n, allowed, units, lower)
  {
    if i < n - 1 {
      AcceptedYieldsFact(cs, n - 1, allowed, units, lower, i);
    }
  }

  lemma {:induction false} FactsFew(cs: seq<Candidate>, n: nat, allowed: (nat, nat) -> bool,
                                    units: map<string, UnitDef>, lower: string -> string)
    requires n <= |cs|
    ensures |FactsBelow(cs, n, allowed, units, lower)| <= n
  {
    if n > 0 {
      FactsFew(cs, n - 1, allowed, units, lower);
    }
  }

  /** The facts returned are disjoint, so sorting by position puts them strictly one after another,
      and each has its bounds in order. A pattern never matches an empty span. */
  lemma ResultDisjoint(cs: seq<Candidate>, allowed: (nat, nat) -> bool, units: map<string, UnitDef>,
                       lower: string -> string, facts: seq<Fact>, p: nat, q: nat)
    requires forall i :: 0 <= i < |cs| ==> cs[i].start < cs[i].end
    requires SortedBy(facts, ByPosition())
    requires multiset(facts) == multiset(FactsBelow(cs, |cs|, allowed, units, lower))
    requires p < q < |facts|
    ensures facts[p].charTo <= facts[q].charFrom
    ensures Ordered(facts[p].vmin, facts[p].vmax)
  {
    var all := FactsBelow(cs, |cs|, allowed, units, lower);
    var k, l := TwoSources(facts, all, p, q);
    var i := FactSource(cs, |cs|, allowed, units, lower, k);
    var j := FactSource(cs, |cs|, allowed, units, lower, l);
    assert i != j;
    AcceptedDisjoint(cs, i, j, allowed);
    FactBounds(cs[i], units, lower);
    assert ByPosition()(facts[p], facts[q]);
  }
}
