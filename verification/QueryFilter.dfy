/** From a question to the fact filter: constraints are read from clauses of the question, overridden
    by the user's explicit filters, converted to SI units, and turned into closed ranges that the
    fact query intersects with each fact's interval. */
module QueryFilter {

  import opened Basics
  import NumCore

  datatype Constraint = Constraint(
    parameter: string, op: string, vmin: real, vmax: real, unit: string,
    vminSi: real, vmaxSi: real, siUnit: string)

  datatype Plan = Plan(geography: string, constraints: seq<Constraint>, years: Option<Years>)

  datatype Years = Years(from: Option<real>, to: Option<real>)

  /** A clause of the question that mentions a rule's keyword: its numbers, its unit, and what the
      operator words in it suggest. */
  datatype Clause = Clause(numbers: seq<real>, unit: string, isRange: bool, hasUpper: bool, hasLower: bool)

  /** One entry of the user's filter list; a field is absent when missing or of the wrong type. */
  datatype FilterItem = FilterItem(
    parameter: Option<string>, op: Option<string>, unit: Option<string>,
    value: Option<real>, vmin: Option<real>, vmax: Option<real>)

  datatype Filters = Filters(
    geography: Option<string>, params: seq<Option<FilterItem>>, yearFrom: Option<real>, yearTo: Option<real>)

  // ----- SI conversion ------------------------------------------------------

  datatype UnitSI = UnitSI(factor: real, offset: real, siUnit: string)

  /** The unit table, keyed by lower-case names. */
  const QUERY_UNITS: map<string, UnitSI> := map[
    "м/с" := UnitSI(1.0, 0.0, "m/s"), "m/s" := UnitSI(1.0, 0.0, "m/s"),
    "°c" := UnitSI(1.0, 273.15, "K"),
    "мг/дм³" := UnitSI(0.001, 0.0, "kg/m^3"), "мг/дм3" := UnitSI(0.001, 0.0, "kg/m^3"),
    "мг/л" := UnitSI(0.001, 0.0, "kg/m^3"), "mg/l" := UnitSI(0.001, 0.0, "kg/m^3"),
    "mg/dm3" := UnitSI(0.001, 0.0, "kg/m^3"),
    "%" := UnitSI(1.0, 0.0, "ratio"), "а/м²" := UnitSI(1.0, 0.0, "A/m^2"),
    "мпа" := UnitSI(1000000.0, 0.0, "Pa")]

  /** Positive factors, and a unit name that is not empty. */
  ghost predicate Sound(units: map<string, UnitSI>) {
    forall u :: u in units ==> units[u].factor > 0.0 && units[u].siUnit != ""
  }

  lemma QueryUnitsSound()
    ensures Sound(QUERY_UNITS)
  {
  }

  /** Spellings of one unit are converted alike. */
  lemma SpellingsAgree()
    ensures QUERY_UNITS["м/с"] == QUERY_UNITS["m/s"]
    ensures QUERY_UNITS["мг/дм³"] == QUERY_UNITS["мг/дм3"] == QUERY_UNITS["мг/л"] == QUERY_UNITS["mg/l"] == QUERY_UNITS["mg/dm3"]
  {
  }

  /** In round numbers: boiling water, a milligram in a litre, a megapascal, and units that are SI. */
  lemma RoundNumbers()
    ensures ToSi(100.0, QUERY_UNITS["°c"]) == 373.15 && QUERY_UNITS["°c"].siUnit == "K"
    ensures ToSi(1000.0, QUERY_UNITS["mg/l"]) == 1.0 && QUERY_UNITS["mg/l"].siUnit == "kg/m^3"
    ensures ToSi(1.0, QUERY_UNITS["мпа"]) == 1000000.0 && QUERY_UNITS["мпа"].siUnit == "Pa"
    ensures ToSi(7.0, QUERY_UNITS["m/s"]) == 7.0 && QUERY_UNITS["m/s"].siUnit == "m/s"
    ensures ToSi(7.0, QUERY_UNITS["а/м²"]) == 7.0 && QUERY_UNITS["а/м²"].siUnit == "A/m^2"
    ensures ToSi(7.0, QUERY_UNITS["%"]) == 7.0 && QUERY_UNITS["%"].siUnit == "ratio"
  {
  }

  function ToSi(x: real, u: UnitSI): real {
    Scale(x, u.factor) + u.offset
  }

  /** Conversion is a straight line, and the same one as on the extracting side wherever both sides use
      the same factor and offset. */
  lemma ToSiIsLinear(x: real, y: real, u: UnitSI, d: NumCore.UnitDef)
    ensures ToSi(0.0, u) == u.offset && ToSi(1.0, u) == u.factor + u.offset
    ensures ToSi(x, u) - ToSi(y, u) == (x - y) * u.factor
    ensures d.factor == u.factor && d.offset == u.offset ==> NumCore.Si(Some(x), d) == Some(ToSi(x, u))
  {
    assert Scale(x, u.factor) - Scale(y, u.factor) == (x - y) * u.factor;
    assert Scale(0.0, u.factor) == 0.0 && Scale(1.0, u.factor) == u.factor;
  }

  function ApplySI(c: Constraint, units: map<string, UnitSI>, lower: string -> string): Constraint {
    if lower(c.unit) !in units then c
    else
      var u := units[lower(c.unit)];
      var named := c.(siUnit := u.siUnit);
      match c.op
      case "range" => named.(vminSi := ToSi(c.vmin, u), vmaxSi := ToSi(c.vmax, u))
      case "eq" => named.(vminSi := ToSi(c.vmin, u), vmaxSi := ToSi(c.vmax, u))
      case "lte" => named.(vmaxSi := ToSi(c.vmax, u))
      case "gte" => named.(vminSi := ToSi(c.vmin, u))
      case _ => named
  }

  function Bare(parameter: string, op: string, vmin: real, vmax: real, unit: string): Constraint {
    Constraint(parameter, op, vmin, vmax, unit, 0.0, 0.0, "")
  }

  // ----- constraints from the question --------------------------------------

  function ParseConstraint(clause: Clause, parameter: string, units: map<string, UnitSI>, lower: string -> string): Option<Constraint> {
    var n := clause.numbers;
    if n == [] then None
    else
      Some(ApplySI(
        if clause.isRange && |n| >= 2 then Bare(parameter, "range", n[0], n[1], clause.unit)
        else if clause.hasUpper then Bare(parameter, "lte", 0.0, n[|n| - 1], clause.unit)
        else if clause.hasLower then Bare(parameter, "gte", n[0], 0.0, clause.unit)
        else if |n| >= 2 then Bare(parameter, "range", n[0], n[1], clause.unit)
        else Bare(parameter, "eq", n[0], n[0], clause.unit), units, lower))
  }

  ghost predicate UniqueKeys(s: seq<Constraint>) {
    forall i, j :: 0 <= i < j < |s| ==> s[i].parameter != s[j].parameter
  }

  /** A constraint of the plan was produced with its SI fields filled in by the conversion. */
  ghost predicate Converted(c: Constraint, units: map<string, UnitSI>, lower: string -> string) {
    c == ApplySI(Bare(c.parameter, c.op, c.vmin, c.vmax, c.unit), units, lower)
  }

  lemma ParseConverts(clause: Clause, parameter: string, units: map<string, UnitSI>, lower: string -> string)
    requires ParseConstraint(clause, parameter, units, lower).Some?
    ensures Converted(ParseConstraint(clause, parameter, units, lower).value, units, lower)
    ensures ParseConstraint(clause, parameter, units, lower).value.parameter == parameter
  {
  }

  function Parameters(s: seq<Constraint>): set<string> {
    set c | c in s :: c.parameter
  }

  /** The first clause that parses. */
  function FirstParsed(clauses: seq<Clause>, parameter: string, units: map<string, UnitSI>, lower: string -> string): Option<Constraint> {
    if clauses == [] then None
    else
      var c := ParseConstraint(clauses[0], parameter, units, lower);
      if c.Some? then c else FirstParsed(clauses[1..], parameter, units, lower)
  }

  /** The constraints of the first rules, given as the parameter of each with the clauses that
      mention it: the first clause that parses, unless an earlier rule supplied the parameter. */
  function Extracted(rules: seq<Rule>, units: map<string, UnitSI>, lower: string -> string): seq<Constraint> {
    if rules == [] then []
    else
      var earlier, rule := Extracted(rules[..|rules| - 1], units, lower), rules[|rules| - 1];
      var c := FirstParsed(rule.clauses, rule.parameter, units, lower);
      if c.None? || rule.parameter in Parameters(earlier) then earlier else earlier + [c.value]
  }

  datatype Rule = Rule(parameter: string, clauses: seq<Clause>)

  method ExtractConstraints(rules: seq<Rule>, units: map<string, UnitSI>, lower: string -> string)
    returns (constraints: seq<Constraint>)
    ensures constraints == Extracted(rules, units, lower)
  {
    constraints := [];
    var seen: set<string> := {};
    for r := 0 to |rules|
      invariant constraints == Extracted(rules[..r], units, lower) && seen == Parameters(constraints)
    {
      assert rules[..r + 1][..r] == rules[..r];
      var found := FirstOf(rules[r], seen, units, lower);
      if found.Some? {
        ParametersAppend(constraints, found.value);
        seen := seen + {rules[r].parameter};
        constraints := constraints + [found.value];
      }
    }
    assert rules[..|rules|] == rules;
  }

  /** The inner loop: passes over clauses until one parses for a parameter not seen yet. */
  method FirstOf(rule: Rule, seen: set<string>, units: map<string, UnitSI>, lower: string -> string)
    returns (found: Option<Constraint>)
    ensures found == if rule.parameter in seen then None else FirstParsed(rule.clauses, rule.parameter, units, lower)
    ensures found.Some? ==> found.value.parameter == rule.parameter
  {
    var k := 0;
    while k < |rule.clauses|
      invariant k <= |rule.clauses|
      invariant rule.parameter !in seen ==>
                  FirstParsed(rule.clauses, rule.parameter, units, lower) == FirstParsed(rule.clauses[k..], rule.parameter, units, lower)
    {
      assert rule.clauses[k..][1..] == rule.clauses[k + 1..];
      var constraint := ParseConstraint(rule.clauses[k], rule.parameter, units, lower);
      if constraint.None? || rule.parameter in seen {
        k := k + 1;
        continue;
      }
      ParseConverts(rule.clauses[k], rule.parameter, units, lower);
      return constraint;
    }
    return None;
  }

  lemma ParametersAppend(s: seq<Constraint>, c: Constraint)
    ensures Parameters(s + [c]) == Parameters(s) + {c.parameter}
  {
    assert forall x :: x in s + [c] <==> x in s || x == c;
  }

  /** Which clause is taken: the first that holds a number. */
  lemma {:induction false} FirstParsedIsFirst(clauses: seq<Clause>, parameter: string, units: map<string, UnitSI>,
                                              lower: string -> string, k: nat)
    requires k < |clauses| && clauses[k].numbers != [] && forall j :: 0 <= j < k ==> clauses[j].numbers == []
    ensures FirstParsed(clauses, parameter, units, lower) == ParseConstraint(clauses[k], parameter, units, lower)
  {
    if k > 0 {
      assert clauses[0].numbers == [];
      FirstParsedIsFirst(clauses[1..], parameter, units, lower, k - 1);
    }
  }

  /** And which rule: the first one for the parameter that has such a clause. */
  lemma {:induction false} FirstRuleSupplies(rules: seq<Rule>, units: map<string, UnitSI>, lower: string -> string, r: nat, k: nat)
    requires r < |rules| && k < |rules[r].clauses| && rules[r].clauses[k].numbers != []
    requires forall j :: 0 <= j < k ==> rules[r].clauses[j].numbers == []
    requires forall q :: 0 <= q < r && rules[q].parameter == rules[r].parameter ==>
               forall j :: 0 <= j < |rules[q].clauses| ==> rules[q].clauses[j].numbers == []
    ensures ParseConstraint(rules[r].clauses[k], rules[r].parameter, units, lower).Some?
    ensures ParseConstraint(rules[r].clauses[k], rules[r].parameter, units, lower).value in Extracted(rules, units, lower)
  {
    var init, last := rules[..|rules| - 1], |rules| - 1;
    if r < last {
      FirstRuleSupplies(init, units, lower, r, k);
    } else {
      FirstParsedIsFirst(rules[r].clauses, rules[r].parameter, units, lower, k);
      ExtractedIs(init, units, lower);
      assert !HasNumbers(init, rules[r].parameter);
    }
  }

  lemma {:induction false} FirstParsedIs(clauses: seq<Clause>, parameter: string, units: map<string, UnitSI>, lower: string -> string)
    ensures
      var c := FirstParsed(clauses, parameter, units, lower);
      && (c.None? <==> forall k :: 0 <= k < |clauses| ==> clauses[k].numbers == [])
      && (c.Some? ==> c.value.parameter == parameter && Converted(c.value, units, lower))
  {
    if clauses != [] {
      if clauses[0].numbers == [] {
        FirstParsedIs(clauses[1..], parameter, units, lower);
      } else {
        ParseConverts(clauses[0], parameter, units, lower);
      }
    }
  }

  /** The question yields one constraint for every parameter that some clause gives a number for,
      and none for any other; each has its SI fields filled in. */
  lemma {:induction false} ExtractedIs(rules: seq<Rule>, units: map<string, UnitSI>, lower: string -> string)
    ensures UniqueKeys(Extracted(rules, units, lower))
    ensures forall c :: c in Extracted(rules, units, lower) ==> Converted(c, units, lower)
    ensures forall p :: p in Parameters(Extracted(rules, units, lower)) <==> HasNumbers(rules, p)
  {
    if rules != [] {
      var init, rule := rules[..|rules| - 1], rules[|rules| - 1];
      ExtractedIs(init, units, lower);
      FirstParsedIs(rule.clauses, rule.parameter, units, lower);
      var earlier, c := Extracted(init, units, lower), FirstParsed(rule.clauses, rule.parameter, units, lower);
      forall p ensures HasNumbers(rules, p) <==> HasNumbers(init, p) || (p == rule.parameter && c.Some?) {
        assert forall r :: r in rules <==> r in init || r == rule;
      }
      if c.Some? && rule.parameter !in Parameters(earlier) {
        ParametersAppend(earlier, c.value);
        forall i | 0 <= i < |earlier| ensures earlier[i].parameter != c.value.parameter {
          assert earlier[i] in earlier;
        }
      }
    }
  }

  /** Some clause that mentions a rule for the parameter holds a number. */
  ghost predicate HasNumbers(rules: seq<Rule>, p: string) {
    exists r :: r in rules && r.parameter == p && exists k :: 0 <= k < |r.clauses| && r.clauses[k].numbers != []
  }

  // ----- constraints from filters -------------------------------------------

  function TextOr(field: Option<string>, fallback: string): string {
    if field.None? || field.value == "" then fallback else field.value
  }

  function Or(a: Option<real>, b: Option<real>): Option<real> {
    if a.Some? then a else b
  }

  function ConstraintFromFilter(item: Option<FilterItem>, units: map<string, UnitSI>, lower: string -> string): Option<Constraint> {
    if item.None? || TextOr(item.value.parameter, "") == "" then None
    else
      var f := item.value;
      var parameter, op, unit := f.parameter.value, TextOr(f.op, "eq"), TextOr(f.unit, "");
      var lo, hi := Or(f.vmin, f.value), Or(f.vmax, f.value);
      if op == "range" || op == "pm" then
        if lo.None? || hi.None? then None else Some(ApplySI(Bare(parameter, "range", lo.value, hi.value, unit), units, lower))
      else if op == "lte" || op == "lt" || op == "to" then
        if hi.None? then None else Some(ApplySI(Bare(parameter, op, 0.0, hi.value, unit), units, lower))
      else if op == "gte" || op == "gt" || op == "from" then
        if lo.None? then None else Some(ApplySI(Bare(parameter, op, lo.value, 0.0, unit), units, lower))
      else
        if lo.None? then None else Some(ApplySI(Bare(parameter, op, lo.value, lo.value, unit), units, lower))
  }

  lemma FilterConverts(item: Option<FilterItem>, units: map<string, UnitSI>, lower: string -> string)
    requires ConstraintFromFilter(item, units, lower).Some?
    ensures Converted(ConstraintFromFilter(item, units, lower).value, units, lower)
  {
  }

  /** The last position that carries a parameter, or -1. */
  function Position(s: seq<Constraint>, p: string): (i: int)
    ensures -1 <= i < |s|
    ensures i >= 0 ==> s[i].parameter == p
    ensures forall j :: i < j < |s| ==> s[j].parameter != p
  {
    if s == [] then -1
    else if s[|s| - 1].parameter == p then |s| - 1
    else Position(s[..|s| - 1], p)
  }

  function Lookup(s: seq<Constraint>, p: string): Option<Constraint> {
    if Position(s, p) < 0 then None else Some(s[Position(s, p)])
  }

  /** The last usable filter for a parameter, if any. */
  function LastFilter(items: seq<Option<FilterItem>>, p: string, units: map<string, UnitSI>, lower: string -> string): Option<Constraint> {
    if items == [] then None
    else
      var c := ConstraintFromFilter(items[|items| - 1], units, lower);
      if c.Some? && c.value.parameter == p then c else LastFilter(items[..|items| - 1], p, units, lower)
  }

  /** The filter found is a usable one for the parameter, and no later one is; none is found exactly when
      there is none. */
  lemma {:induction false} LastFilterIs(items: seq<Option<FilterItem>>, p: string, units: map<string, UnitSI>,
                                        lower: string -> string, k: nat)
    requires k < |items| && Supplies(items[k], p, units, lower)
    requires forall j :: k < j < |items| ==> !Supplies(items[j], p, units, lower)
    ensures LastFilter(items, p, units, lower) == ConstraintFromFilter(items[k], units, lower)
  {
    var init := items[..|items| - 1];
    if k < |init| {
      assert !Supplies(items[|init|], p, units, lower);
      assert forall j :: k < j < |init| ==> init[j] == items[j];
      LastFilterIs(init, p, units, lower, k);
    }
  }

  lemma {:induction false} NoFilterFound(items: seq<Option<FilterItem>>, p: string, units: map<string, UnitSI>, lower: string -> string)
    requires forall j :: 0 <= j < |items| ==> !Supplies(items[j], p, units, lower)
    ensures LastFilter(items, p, units, lower).None?
  {
    if items != [] {
      assert !Supplies(items[|items| - 1], p, units, lower);
      NoFilterFound(items[..|items| - 1], p, units, lower);
    }
  }

  /** The entry is usable and names the parameter. */
  ghost predicate Supplies(item: Option<FilterItem>, p: string, units: map<string, UnitSI>, lower: string -> string) {
    item.Some? && ConstraintFromFilter(item, units, lower).Some? && item.value.parameter == Some(p)
  }

  function Put(s: seq<Constraint>, c: Constraint): seq<Constraint> {
    var i := Position(s, c.parameter);
    if i >= 0 then s[i := c] else s + [c]
  }

  lemma PutLookup(s: seq<Constraint>, c: Constraint, p: string)
    ensures Lookup(Put(s, c), p) == if p == c.parameter then Some(c) else Lookup(s, p)
    ensures Position(Put(s, c), p) == if Position(s, p) >= 0 || p != c.parameter then Position(s, p) else |s|
  {
    var i, t := Position(s, c.parameter), Put(s, c);
    var j := if Position(s, p) >= 0 || p != c.parameter then Position(s, p) else |s|;
    assert forall k :: 0 <= k < |s| ==> t[k].parameter == s[k].parameter;
    assert j >= 0 ==> t[j].parameter == p;
    assert forall k :: j < k < |t| ==> t[k].parameter != p;
    PositionIs(t, p, j);
  }

  lemma PutUnique(s: seq<Constraint>, c: Constraint)
    requires UniqueKeys(s)
    ensures UniqueKeys(Put(s, c))
  {
  }

  lemma PutMembers(s: seq<Constraint>, c: Constraint)
    ensures forall x :: x in Put(s, c) ==> x == c || x in s
    ensures |s| <= |Put(s, c)| && forall i :: 0 <= i < |s| ==> Put(s, c)[i].parameter == s[i].parameter
  {
  }

  lemma PositionIs(s: seq<Constraint>, p: string, i: int)
    requires -1 <= i < |s| && (i >= 0 ==> s[i].parameter == p)
    requires forall j :: i < j < |s| ==> s[j].parameter != p
    ensures Position(s, p) == i
  {
  }

  /** The list after the first filters have been put in, one after the other. */
  function Overridden(given: seq<Constraint>, items: seq<Option<FilterItem>>, units: map<string, UnitSI>, lower: string -> string): seq<Constraint> {
    if items == [] then given
    else
      var earlier := Overridden(given, items[..|items| - 1], units, lower);
      var c := ConstraintFromFilter(items[|items| - 1], units, lower);
      if c.None? then earlier else Put(earlier, c.value)
  }

  /** Overriding works like a map keyed by parameter: the result holds the last usable filter for a
      parameter, or else what was there before. */
  lemma {:induction false} OverriddenLookup(given: seq<Constraint>, items: seq<Option<FilterItem>>,
                                            units: map<string, UnitSI>, lower: string -> string, p: string)
    ensures Lookup(Overridden(given, items, units, lower), p) ==
              var f := LastFilter(items, p, units, lower); if f.Some? then f else Lookup(given, p)
  {
    if items != [] {
      var init := items[..|items| - 1];
      OverriddenLookup(given, init, units, lower, p);
      var c := ConstraintFromFilter(items[|items| - 1], units, lower);
      if c.Some? {
        PutLookup(Overridden(given, init, units, lower), c.value, p);
      }
    }
  }

  /** Keys stay unique, the constraints that were there keep their places, and every constraint has
      its SI fields filled in. */
  lemma {:induction false} OverriddenShape(given: seq<Constraint>, items: seq<Option<FilterItem>>,
                                           units: map<string, UnitSI>, lower: string -> string)
    ensures
      var r := Overridden(given, items, units, lower);
      && (UniqueKeys(given) ==> UniqueKeys(r))
      && |given| <= |r| && (forall i :: 0 <= i < |given| ==> r[i].parameter == given[i].parameter)
      && ((forall c :: c in given ==> Converted(c, units, lower)) ==> forall c :: c in r ==> Converted(c, units, lower))
  {
    hide Put, ConstraintFromFilter, ApplySI;
    if items != [] {
      var init := items[..|items| - 1];
      OverriddenShape(given, init, units, lower);
      var earlier, c := Overridden(given, init, units, lower), ConstraintFromFilter(items[|items| - 1], units, lower);
      if c.Some? {
        FilterConverts(items[|items| - 1], units, lower);
        PutMembers(earlier, c.value);
        if UniqueKeys(earlier) {
          PutUnique(earlier, c.value);
        }
      }
    }
  }

  /** The index map of the loop: the last position of every parameter present. */
  ghost predicate Indexes(index: map<string, nat>, s: seq<Constraint>) {
    forall p :: (p in index <==> Position(s, p) >= 0) && (p in index ==> index[p] == Position(s, p))
  }

  lemma IndexPut(index: map<string, nat>, s: seq<Constraint>, c: Constraint)
    requires Indexes(index, s)
    ensures Indexes(if c.parameter in index then index else index[c.parameter := |s|], Put(s, c))
  {
    forall p ensures Position(Put(s, c), p) == if Position(s, p) >= 0 || p != c.parameter then Position(s, p) else |s| {
      PutLookup(s, c, p);
    }
  }

  method ApplyParams(given: seq<Constraint>, items: seq<Option<FilterItem>>, units: map<string, UnitSI>, lower: string -> string)
    returns (constraints: seq<Constraint>)
    ensures constraints == Overridden(given, items, units, lower)
  {
    constraints := given;
    var index: map<string, nat> := map[];
    for position := 0 to |given|
      invariant Indexes(index, given[..position])
    {
      assert given[..position + 1][..position] == given[..position];
      index := index[given[position].parameter := position];
    }
    assert given[..|given|] == given;
    for n := 0 to |items|
      invariant Indexes(index, constraints)
      invariant constraints == Overridden(given, items[..n], units, lower)
    {
      assert items[..n + 1][..n] == items[..n];
      var constraint := ConstraintFromFilter(items[n], units, lower);
      if constraint.None? {
        continue;
      }
      IndexPut(index, constraints, constraint.value);
      if constraint.value.parameter in index {
        constraints := constraints[index[constraint.value.parameter] := constraint.value];
      } else {
        index := index[constraint.value.parameter := |constraints|];
        constraints := constraints + [constraint.value];
      }
    }
    assert items[..|items|] == items;
  }

  method ApplyFilters(plan: Plan, filters: Option<Filters>, units: map<string, UnitSI>, lower: string -> string) returns (r: Plan)
    ensures filters.None? ==> r == plan
    ensures filters.Some? ==>
              && r.geography == TextOr(filters.value.geography, plan.geography)
              && r.constraints == Overridden(plan.constraints, filters.value.params, units, lower)
              && r.years == if filters.value.yearFrom.None? && filters.value.yearTo.None? then plan.years
                            else Some(Years(filters.value.yearFrom, filters.value.yearTo))
  {
    r := plan;
    if filters.None? {
      return;
    }
    var f := filters.value;
    if f.geography.Some? && f.geography.value != "" {
      r := r.(geography := f.geography.value);
    }
    var constraints := ApplyParams(plan.constraints, f.params, units, lower);
    r := r.(constraints := constraints);
    if f.yearFrom.Some? || f.yearTo.Some? {
      r := r.(years := Some(Years(f.yearFrom, f.yearTo)));
    }
  }

  // ----- the fact filter ----------------------------------------------------

  const UNBOUNDED: real := 1000000000000000000.0

  datatype Range = Range(slug: string, lo: real, hi: real)

  datatype FactFilter = FactFilter(geography: string, slugs: seq<string>, los: seq<real>, his: seq<real>)

  predicate Directional(op: string) {
    op == "range" || op == "eq" || op == "lte" || op == "gte"
  }

  predicate IsFiltering(c: Constraint) {
    c.siUnit != "" && Directional(c.op)
  }

  function BoundsOf(c: Constraint): Range {
    Range(c.parameter,
          if c.op == "lte" then -UNBOUNDED else c.vminSi,
          if c.op == "gte" then UNBOUNDED else c.vmaxSi)
  }

  /** The constraints that filter, in order. */
  function Filtering(s: seq<Constraint>): seq<Constraint> {
    if s == [] then []
    else
      var earlier := Filtering(s[..|s| - 1]);
      if IsFiltering(s[|s| - 1]) then earlier + [s[|s| - 1]] else earlier
  }

  lemma {:induction false} FilteringMembers(s: seq<Constraint>)
    ensures forall c :: c in Filtering(s) <==> c in s && IsFiltering(c)
  {
    if s != [] {
      FilteringMembers(s[..|s| - 1]);
      assert s == s[..|s| - 1] + [s[|s| - 1]];
    }
  }

  /** The three parallel slices list the ranges of the filtering constraints. */
  ghost predicate Lists(f: FactFilter, s: seq<Constraint>) {
    && |f.slugs| == |f.los| == |f.his| == |s|
    && forall i :: 0 <= i < |s| ==> Range(f.slugs[i], f.los[i], f.his[i]) == BoundsOf(s[i])
  }

  method BuildFactFilter(plan: Plan) returns (filter: FactFilter)
    ensures filter.geography == if plan.geography == "ru" || plan.geography == "foreign" then plan.geography else ""
    ensures Lists(filter, Filtering(plan.constraints))
  {
    filter := FactFilter("", [], [], []);
    if plan.geography == "ru" || plan.geography == "foreign" {
      filter := filter.(geography := plan.geography);
    }
    for i := 0 to |plan.constraints|
      invariant filter.geography == if plan.geography == "ru" || plan.geography == "foreign" then plan.geography else ""
      invariant Lists(filter, Filtering(plan.constraints[..i]))
    {
      assert plan.constraints[..i + 1][..i] == plan.constraints[..i];
      var c := plan.constraints[i];
      ghost var before := Filtering(plan.constraints[..i]);
      assert Filtering(plan.constraints[..i + 1]) == if IsFiltering(c) then before + [c] else before;
      if c.siUnit == "" {
        continue;
      }
      var lo, hi := -UNBOUNDED, UNBOUNDED;
      if c.op == "range" || c.op == "eq" {
        lo, hi := c.vminSi, c.vmaxSi;
      } else if c.op == "lte" {
        hi := c.vmaxSi;
      } else if c.op == "gte" {
        lo := c.vminSi;
      } else {
        continue;
      }
      assert BoundsOf(c) == Range(c.parameter, lo, hi);
      filter := filter.(slugs := filter.slugs + [c.parameter], los := filter.los + [lo], his := filter.his + [hi]);
    }
    assert plan.constraints[..|plan.constraints|] == plan.constraints;
  }

  // ----- the fact query -----------------------------------------------------

  /** A stored fact: its parameter, its geography, and its interval in SI; an absent end is open. */
  datatype FactRow = FactRow(parameter: string, geography: string, lo: Option<real>, hi: Option<real>)

  predicate Overlaps(lo: Option<real>, hi: Option<real>, from: real, to: real) {
    (hi.None? || hi.value >= from) && (lo.None? || lo.value <= to)
  }

  /** Building a range whose ends are reversed is an error of the database, and fails the query. */
  ghost predicate Evaluates(f: FactFilter)
    requires |f.slugs| == |f.los| == |f.his|
  {
    forall i :: 0 <= i < |f.slugs| ==> f.los[i] <= f.his[i]
  }

  /** The condition of the fact query. */
  ghost predicate Passes(fact: FactRow, f: FactFilter)
    requires |f.slugs| == |f.los| == |f.his|
  {
    && (f.geography == "" || fact.geography == f.geography)
    && (f.slugs == [] || fact.parameter !in f.slugs
        || exists i :: 0 <= i < |f.slugs| && f.slugs[i] == fact.parameter && Overlaps(fact.lo, fact.hi, f.los[i], f.his[i]))
  }

  // ----- meaning ------------------------------------------------------------

  /** What a constraint asks of an interval given in the constraint's own unit. */
  predicate Meets(c: Constraint, lo: Option<real>, hi: Option<real>) {
    match c.op
    case "range" => Overlaps(lo, hi, c.vmin, c.vmax)
    case "eq" => Overlaps(lo, hi, c.vmin, c.vmax)
    case "lte" => lo.None? || lo.value <= c.vmax
    case "gte" => hi.None? || hi.value >= c.vmin
    case _ => true
  }

  function SiEnd(x: Option<real>, u: UnitSI): Option<real> {
    if x.None? then None else Some(ToSi(x.value, u))
  }

  lemma ScaleMonotone(x: real, y: real, u: UnitSI)
    requires u.factor > 0.0
    ensures ToSi(x, u) <= ToSi(y, u) <==> x <= y
  {
    if x < y {
      ScaleStrict(x, y, u.factor);
    } else if y < x {
      ScaleStrict(y, x, u.factor);
    }
  }

  lemma ScaleStrict(x: real, y: real, factor: real)
    requires factor > 0.0 && x < y
    ensures Scale(x, factor) < Scale(y, factor)
  {
    PositiveProduct(y - x, factor);
    assert (y - x) * factor == y * factor - x * factor;
  }

  lemma OverlapsInSi(lo: Option<real>, hi: Option<real>, from: real, to: real, u: UnitSI)
    requires u.factor > 0.0
    ensures Overlaps(SiEnd(lo, u), SiEnd(hi, u), ToSi(from, u), ToSi(to, u)) <==> Overlaps(lo, hi, from, to)
  {
    if lo.Some? {
      ScaleMonotone(lo.value, to, u);
    }
    if hi.Some? {
      ScaleMonotone(from, hi.value, u);
    }
  }

  /** A fact's SI interval overlaps the filter range of a converted constraint exactly when its
      interval in the constraint's unit meets the constraint, and, for a one-sided constraint, its
      far end does not lie beyond the stand-in for infinity. */
  lemma FilterKeepsMeaning(c: Constraint, units: map<string, UnitSI>, lower: string -> string,
                           lo: Option<real>, hi: Option<real>)
    requires Sound(units) && Converted(c, units, lower) && IsFiltering(c)
    ensures lower(c.unit) in units
    ensures
      var u, b := units[lower(c.unit)], BoundsOf(c);
      Overlaps(SiEnd(lo, u), SiEnd(hi, u), b.lo, b.hi) <==>
        && Meets(c, lo, hi)
        && (c.op == "lte" && hi.Some? ==> ToSi(hi.value, u) >= -1000000000000000000.0)
        && (c.op == "gte" && lo.Some? ==> ToSi(lo.value, u) <= 1000000000000000000.0)
  {
    var u := units[lower(c.unit)];
    if c.op == "lte" || c.op == "gte" {
      if lo.Some? {
        ScaleMonotone(lo.value, c.vmax, u);
      }
      if hi.Some? {
        ScaleMonotone(c.vmin, hi.value, u);
      }
    } else {
      OverlapsInSi(lo, hi, c.vmin, c.vmax, u);
    }
  }

  /** A value within an interval whose absent ends are open. */
  predicate Inside(x: real, lo: Option<real>, hi: Option<real>) {
    (lo.Some? ==> lo.value <= x) && (hi.Some? ==> x <= hi.value)
  }

  /** What a constraint asks of a single value in its own unit. */
  predicate Satisfies(c: Constraint, x: real) {
    match c.op
    case "range" => c.vmin <= x <= c.vmax
    case "eq" => c.vmin <= x <= c.vmax
    case "lte" => x <= c.vmax
    case "gte" => x >= c.vmin
    case _ => true
  }

  /** The bounds of the constraint and of the interval are not reversed. */
  predicate InOrder(c: Constraint, lo: Option<real>, hi: Option<real>) {
    && (lo.Some? && hi.Some? ==> lo.value <= hi.value)
    && (c.op == "range" || c.op == "eq" ==> c.vmin <= c.vmax)
  }

  /** An interval meets a constraint exactly when some value inside it satisfies the constraint. */
  lemma MeetsIff(c: Constraint, lo: Option<real>, hi: Option<real>)
    requires InOrder(c, lo, hi)
    ensures Meets(c, lo, hi) <==> exists x :: Inside(x, lo, hi) && Satisfies(c, x)
  {
    if Meets(c, lo, hi) {
      var x := Witness(c, lo, hi);
      assert Inside(x, lo, hi) && Satisfies(c, x);
    }
  }

  /** A value that the interval and the constraint have in common. */
  function Witness(c: Constraint, lo: Option<real>, hi: Option<real>): real {
    if c.op == "range" || c.op == "eq" then if lo.Some? && lo.value > c.vmin then lo.value else c.vmin
    else if lo.Some? && (c.op == "lte" || hi.None?) then if c.op == "gte" && lo.value < c.vmin then c.vmin else lo.value
    else if hi.Some? then if c.op == "lte" && c.vmax < hi.value then c.vmax else hi.value
    else if c.op == "lte" then c.vmax
    else c.vmin
  }

  /** What a filter entry means: its operator between a value and the bounds given, with `value`
      standing in for a missing bound. How near `approx` is, is left open; an operator that is none of
      the program's means its bound. */
  predicate Means(f: FilterItem, near: (real, real) -> bool, x: real) {
    var op, lo, hi := TextOr(f.op, "eq"), Or(f.vmin, f.value), Or(f.vmax, f.value);
    if op == "range" || op == "pm" then Inside(x, lo, hi)
    else if op == "lte" || op == "to" then Inside(x, None, hi)
    else if op == "gte" || op == "from" then Inside(x, lo, None)
    else if op == "lt" then hi.Some? ==> x < hi.value
    else if op == "gt" then lo.Some? ==> lo.value < x
    else if op == "approx" then lo.Some? ==> near(lo.value, x)
    else Inside(x, lo, lo)
  }

  /** The bounds an operator cannot do without. */
  predicate Complete(f: FilterItem) {
    var op, lo, hi := TextOr(f.op, "eq"), Or(f.vmin, f.value), Or(f.vmax, f.value);
    if op == "range" || op == "pm" then lo.Some? && hi.Some?
    else if op == "lte" || op == "lt" || op == "to" then hi.Some?
    else lo.Some?
  }

  /** The operators that the conversion and the fact filter know. With any other a bound is required
      and then forgotten. */
  predicate Honoured(op: string) {
    op == "range" || op == "pm" || op == "lte" || op == "gte" || op == "eq"
  }

  /** A filter entry is dropped exactly when it names no parameter or lacks a bound. */
  lemma FilterUsableIff(f: FilterItem, units: map<string, UnitSI>, lower: string -> string)
    ensures
      var c := ConstraintFromFilter(Some(f), units, lower);
      && (c.Some? <==> f.parameter.Some? && f.parameter.value != "" && Complete(f))
      && (c.Some? ==> c.value.parameter == f.parameter.value)
  {
  }

  /** A bound given wins, and `value` stands in for one that is not. */
  predicate IsBound(bound: Option<real>, value: Option<real>, x: real) {
    bound == Some(x) || (bound.None? && value == Some(x))
  }

  /** Which bounds a usable entry carries on: both for a two-sided operator, the upper or the lower one
      for a one-sided operator, and the lower one twice for any other. */
  lemma FilterCarriesBounds(f: FilterItem, units: map<string, UnitSI>, lower: string -> string)
    requires ConstraintFromFilter(Some(f), units, lower).Some?
    ensures
      var c, op := ConstraintFromFilter(Some(f), units, lower).value, if f.op.None? || f.op == Some("") then "eq" else f.op.value;
      if op == "range" || op == "pm" then IsBound(f.vmin, f.value, c.vmin) && IsBound(f.vmax, f.value, c.vmax)
      else if op == "lte" || op == "lt" || op == "to" then IsBound(f.vmax, f.value, c.vmax)
      else if op == "gte" || op == "gt" || op == "from" then IsBound(f.vmin, f.value, c.vmin)
      else IsBound(f.vmin, f.value, c.vmin) && c.vmax == c.vmin
  {
    hide ToSi;
  }

  /** Parameter and unit go on as they are. */
  lemma FilterCarriesNames(f: FilterItem, units: map<string, UnitSI>, lower: string -> string)
    requires ConstraintFromFilter(Some(f), units, lower).Some?
    ensures
      var c := ConstraintFromFilter(Some(f), units, lower).value;
      Some(c.parameter) == f.parameter && c.unit == (if f.unit.Some? then f.unit.value else "")
  {
    hide ToSi;
  }

  /** So does the operator, except that plus-minus becomes a range and none at all means equality. */
  lemma FilterCarriesOperator(f: FilterItem, units: map<string, UnitSI>, lower: string -> string)
    requires ConstraintFromFilter(Some(f), units, lower).Some?
    ensures
      var c, op := ConstraintFromFilter(Some(f), units, lower).value, if f.op.None? || f.op == Some("") then "eq" else f.op.value;
      c.op == if op == "pm" then "range" else op
  {
    hide ToSi;
  }

  /** Some value is not near `v`. */
  ghost predicate Excludes(near: (real, real) -> bool, v: real) {
    exists x :: !near(v, x)
  }

  /** A usable entry asks what it means exactly when its operator is honoured; with any other it asks
      nothing, although every operator excludes some value. */
  lemma FilterAsksIff(f: FilterItem, near: (real, real) -> bool, units: map<string, UnitSI>, lower: string -> string)
    requires ConstraintFromFilter(Some(f), units, lower).Some?
    requires forall v :: Excludes(near, v)
    ensures
      var c := ConstraintFromFilter(Some(f), units, lower).value;
      && ((forall x :: Satisfies(c, x) <==> Means(f, near, x)) <==> Honoured(TextOr(f.op, "eq")))
      && (!Honoured(TextOr(f.op, "eq")) ==> forall x :: Satisfies(c, x))
  {
    var c := ConstraintFromFilter(Some(f), units, lower).value;
    if Honoured(TextOr(f.op, "eq")) {
      HonouredAsks(f, near, units, lower);
    } else {
      assert c.op == TextOr(f.op, "eq");
      var x := ForgottenExcludes(f, near);
      assert Satisfies(c, x) && !Means(f, near, x);
    }
  }

  lemma HonouredAsks(f: FilterItem, near: (real, real) -> bool, units: map<string, UnitSI>, lower: string -> string)
    requires ConstraintFromFilter(Some(f), units, lower).Some? && Honoured(TextOr(f.op, "eq"))
    ensures forall x :: Satisfies(ConstraintFromFilter(Some(f), units, lower).value, x) <==> Means(f, near, x)
  {
  }

  lemma ForgottenExcludes(f: FilterItem, near: (real, real) -> bool) returns (x: real)
    requires !Honoured(TextOr(f.op, "eq")) && Complete(f) && forall v :: Excludes(near, v)
    ensures !Means(f, near, x)
  {
    var op, lo, hi := TextOr(f.op, "eq"), Or(f.vmin, f.value), Or(f.vmax, f.value);
    if op == "approx" {
      assert Excludes(near, lo.value);
      x :| !near(lo.value, x);
    } else if op == "lt" || op == "to" {
      x := hi.value + 1.0;
    } else {
      x := lo.value - 1.0;
    }
  }

  /** A usable entry takes part in the query at all exactly when its operator is honoured and its unit
      is in the table. */
  lemma FilterCountsIff(f: FilterItem, units: map<string, UnitSI>, lower: string -> string)
    requires Sound(units) && ConstraintFromFilter(Some(f), units, lower).Some?
    ensures IsFiltering(ConstraintFromFilter(Some(f), units, lower).value) <==>
              Honoured(TextOr(f.op, "eq")) && lower(TextOr(f.unit, "")) in units
  {
  }

  /** What a clause of the question asks: two numbers bound from both sides, unless the clause only
      has words for one side; one number is meant exactly. */
  predicate Says(clause: Clause, x: real)
    requires clause.numbers != []
  {
    var first, last := clause.numbers[0], clause.numbers[|clause.numbers| - 1];
    var two := |clause.numbers| >= 2;
    if two && (clause.isRange || (!clause.hasUpper && !clause.hasLower)) then first <= x <= clause.numbers[1]
    else if clause.hasUpper then x <= last
    else if clause.hasLower then x >= first
    else x == first
  }

  lemma ClauseAsks(clause: Clause, parameter: string, units: map<string, UnitSI>, lower: string -> string)
    requires clause.numbers != []
    ensures
      var c := ParseConstraint(clause, parameter, units, lower);
      && c.Some? && c.value.parameter == parameter && c.value.unit == clause.unit
      && forall x :: Satisfies(c.value, x) <==> Says(clause, x)
  {
  }

  /** And it takes part in the query exactly when its unit is in the table. */
  lemma ClauseCountsIff(clause: Clause, parameter: string, units: map<string, UnitSI>, lower: string -> string)
    requires Sound(units) && clause.numbers != []
    ensures IsFiltering(ParseConstraint(clause, parameter, units, lower).value) <==> lower(clause.unit) in units
  {
  }

  /** A fact whose SI interval is the conversion of [lo, hi]. */
  ghost predicate Converts(fact: FactRow, u: UnitSI, lo: Option<real>, hi: Option<real>) {
    fact.lo == SiEnd(lo, u) && fact.hi == SiEnd(hi, u)
  }

  /** Nothing in the interval or the constraint lies beyond the stand-ins for infinity. */
  ghost predicate Bounded(fact: FactRow) {
    && (fact.lo.Some? ==> -UNBOUNDED <= fact.lo.value <= UNBOUNDED)
    && (fact.hi.Some? ==> -UNBOUNDED <= fact.hi.value <= UNBOUNDED)
  }

  /** Every range of the query can be built exactly when no two-sided constraint is reversed and
      every one-sided one stays within the stand-ins for infinity. A question that names its bounds
      in falling order breaks this, and the query fails on the first fact of that parameter. */
  lemma EvaluatesIff(plan: Plan, f: FactFilter, units: map<string, UnitSI>, lower: string -> string)
    requires Sound(units) && Lists(f, Filtering(plan.constraints))
    requires forall c :: c in plan.constraints ==> Converted(c, units, lower)
    ensures Evaluates(f) <==>
              forall c :: c in plan.constraints && IsFiltering(c) ==>
                if c.op == "lte" then c.vmaxSi >= -UNBOUNDED
                else if c.op == "gte" then c.vminSi <= UNBOUNDED
                else c.vmin <= c.vmax
  {
    var s := Filtering(plan.constraints);
    FilteringMembers(plan.constraints);
    forall c | c in plan.constraints && IsFiltering(c)
      ensures BoundsOf(c).lo <= BoundsOf(c).hi <==>
                if c.op == "lte" then c.vmaxSi >= -UNBOUNDED
                else if c.op == "gte" then c.vminSi <= UNBOUNDED
                else c.vmin <= c.vmax
    {
      if c.op == "range" || c.op == "eq" {
        ScaleMonotone(c.vmin, c.vmax, units[lower(c.unit)]);
      }
    }
    assert forall i :: 0 <= i < |s| ==> s[i] in s && (f.los[i] <= f.his[i] <==> BoundsOf(s[i]).lo <= BoundsOf(s[i]).hi);
    if Evaluates(f) {
      forall c | c in plan.constraints && IsFiltering(c) ensures BoundsOf(c).lo <= BoundsOf(c).hi {
        var i :| 0 <= i < |s| && s[i] == c;
        assert f.los[i] <= f.his[i];
      }
    }
  }

  /** The failing question: "80 to 60" in a known unit gives a range that cannot be built. */
  lemma FallingBoundsFail(unit: string, parameter: string, units: map<string, UnitSI>, lower: string -> string, f: FactFilter)
    requires Sound(units) && lower(unit) in units
    requires
      var c := ParseConstraint(Clause([80.0, 60.0], unit, true, false, false), parameter, units, lower);
      c.Some? && Lists(f, Filtering([c.value]))
    ensures !Evaluates(f)
  {
    var c := ParseConstraint(Clause([80.0, 60.0], unit, true, false, false), parameter, units, lower).value;
    ScaleStrict(60.0, 80.0, units[lower(unit)].factor);
    assert [c][..0] == [];
    assert Filtering([c]) == [c];
    assert f.los[0] > f.his[0];
  }

  /** End to end: with one constraint per parameter, a fact gets through the query exactly when its
      geography fits and it overlaps the range of every filtering constraint on its parameter.
      Constraints with other operators or unknown units never exclude a fact. */
  lemma PassesIff(plan: Plan, f: FactFilter, fact: FactRow)
    requires UniqueKeys(plan.constraints) && Lists(f, Filtering(plan.constraints))
    requires f.geography == if plan.geography == "ru" || plan.geography == "foreign" then plan.geography else ""
    ensures Passes(fact, f) <==>
              && ((plan.geography == "ru" || plan.geography == "foreign") ==> fact.geography == plan.geography)
              && forall c :: c in plan.constraints && IsFiltering(c) && c.parameter == fact.parameter ==>
                   Overlaps(fact.lo, fact.hi, BoundsOf(c).lo, BoundsOf(c).hi)
  {
    var s := Filtering(plan.constraints);
    FilteringMembers(plan.constraints);
    assert forall i :: 0 <= i < |s| ==> s[i] in s && f.slugs[i] == s[i].parameter;
    forall c, d | c in s && d in s && c.parameter == d.parameter ensures c == d {
      var i :| 0 <= i < |plan.constraints| && plan.constraints[i] == c;
      var j :| 0 <= j < |plan.constraints| && plan.constraints[j] == d;
    }
    if fact.parameter in f.slugs {
      var i :| 0 <= i < |s| && f.slugs[i] == fact.parameter;
      assert s[i] in s && s[i].parameter == fact.parameter;
      assert Overlaps(fact.lo, fact.hi, f.los[i], f.his[i]) <==>
             Overlaps(fact.lo, fact.hi, BoundsOf(s[i]).lo, BoundsOf(s[i]).hi);
    } else {
      forall c | c in s ensures c.parameter != fact.parameter {
        var i :| 0 <= i < |s| && s[i] == c;
        assert f.slugs[i] in f.slugs;
      }
    }
  }

  /** The transformation preserves meaning: a fact gets through the query exactly when its geography
      fits and, for a constraint on its parameter, some value of its interval, in the unit of the
      constraint, satisfies what was asked. */
  lemma QueryKeepsMeaning(plan: Plan, f: FactFilter, fact: FactRow, c: Constraint, units: map<string, UnitSI>,
                          lower: string -> string, lo: Option<real>, hi: Option<real>)
    requires Sound(units) && Converted(c, units, lower) && IsFiltering(c) && InOrder(c, lo, hi)
    requires UniqueKeys(plan.constraints) && Lists(f, Filtering(plan.constraints))
    requires f.geography == if plan.geography == "ru" || plan.geography == "foreign" then plan.geography else ""
    requires c in plan.constraints && c.parameter == fact.parameter
    requires Bounded(fact) && lower(c.unit) in units && Converts(fact, units[lower(c.unit)], lo, hi)
    ensures Passes(fact, f) <==>
              && ((plan.geography == "ru" || plan.geography == "foreign") ==> fact.geography == plan.geography)
              && exists x :: Inside(x, lo, hi) && Satisfies(c, x)
  {
    PassesIff(plan, f, fact);
    OnlyConstraint(plan.constraints, c);
    FilterKeepsMeaning(c, units, lower, lo, hi);
    MeetsIff(c, lo, hi);
  }

  lemma OnlyConstraint(s: seq<Constraint>, c: Constraint)
    requires UniqueKeys(s) && c in s
    ensures forall d :: d in s && d.parameter == c.parameter ==> d == c
  {
    var i :| 0 <= i < |s| && s[i] == c;
    forall d | d in s && d.parameter == c.parameter ensures d == c {
      var j :| 0 <= j < |s| && s[j] == d;
    }
  }
}
