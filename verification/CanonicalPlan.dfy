/** The cache key of a query plan: a printer that sorts what has no order and joins everything with
    separators. Two plans share a key exactly when they agree up to reordering, as long as their
    fields avoid the separators. */
module CanonicalPlan {
  import opened Basics
  import opened Permutations
  import opened Text

  /** A floating-point number, known by its bit pattern. */
  datatype Float = Float(bits: nat)

  datatype Constraint = Constraint(parameter: string, op: string, vmin: Float, vmax: Float, unit: string)

  datatype Years = Years(first: Float, last: Float)

  /** The fields of a plan that the key depends on. `slugs` are the non-empty slugs of the entity
      groups; `years` is absent when the plan has no time range. */
  datatype Plan = Plan(
    intent: string, geography: string, slugs: seq<string>, constraints: seq<Constraint>,
    years: Option<Years>)

  const UNIT_SEPARATOR: char := '\U{001F}'

  // ----- byte order ---------------------------------------------------------

  /** Lexicographic order of strings. */
  predicate LexLe(a: string, b: string) {
    if a == "" then true
    else if b == "" then false
    else if a[0] == b[0] then LexLe(a[1..], b[1..])
    else a[0] < b[0]
  }

  function Lex(): (string, string) -> bool { (a: string, b: string) => LexLe(a, b) }

  lemma {:induction false} LexTotal(a: string, b: string)
    ensures LexLe(a, b) || LexLe(b, a)
    ensures LexLe(a, b) && LexLe(b, a) ==> a == b
  {
    if a != "" && b != "" && a[0] == b[0] {
      LexTotal(a[1..], b[1..]);
      assert a == [a[0]] + a[1..] && b == [b[0]] + b[1..];
    }
  }

  lemma {:induction false} LexTransitive(a: string, b: string, c: string)
    requires LexLe(a, b) && LexLe(b, c)
    ensures LexLe(a, c)
  {
    if a != "" && b != "" && c != "" && a[0] == b[0] == c[0] {
      LexTransitive(a[1..], b[1..], c[1..]);
    }
  }

  lemma LexIsOrder()
    ensures TotalPreorder(Lex())
    ensures forall a, b :: Lex()(a, b) && Lex()(b, a) ==> a == b
  {
    forall a, b ensures (Lex()(a, b) || Lex()(b, a)) && (Lex()(a, b) && Lex()(b, a) ==> a == b) {
      LexTotal(a, b);
    }
    forall a, b, c | Lex()(a, b) && Lex()(b, c) ensures Lex()(a, c) {
      LexTransitive(a, b, c);
    }
  }

  // ----- joining ------------------------------------------------------------

  predicate Avoids(s: string, c: char) {
    c !in s
  }

  /** The first separator ends the first part. */
  lemma SplitFirst(a: string, b: string, s: string, t: string, c: char)
    requires Avoids(a, c) && Avoids(b, c)
    ensures a + [c] + s == b + [c] + t ==> a == b && s == t
    ensures a + [c] + s != b
  {
    var left, right := a + [c] + s, b + [c] + t;
    assert left[|a|] == c && right[|b|] == c;
    assert forall i :: 0 <= i < |a| ==> left[i] == a[i] && a[i] in a;
    assert forall i :: 0 <= i < |b| ==> right[i] == b[i] && b[i] in b;
    assert a == left[..|a|] && b == right[..|b|];
    assert s == left[|a| + 1..] && t == right[|b| + 1..];
    assert c in left;
  }

  /** Parts that are non-empty and avoid the separator can be read back from their join. */
  lemma {:induction false} JoinInjective(s: seq<string>, t: seq<string>, c: char)
    requires forall x :: x in s || x in t ==> x != "" && Avoids(x, c)
    requires Join(s, c) == Join(t, c)
    ensures s == t
  {
    if s == [] || t == [] {
      JoinEmpty(s, c);
      JoinEmpty(t, c);
    } else {
      assert s[0] in s && t[0] in t;
      SplitFirst(s[0], t[0], Join(s[1..], c), Join(t[1..], c), c);
      SplitFirst(t[0], s[0], Join(t[1..], c), Join(s[1..], c), c);
      if |s| > 1 && |t| > 1 {
        assert forall x :: x in s[1..] || x in t[1..] ==> x in s || x in t;
        JoinInjective(s[1..], t[1..], c);
      }
      assert s == [s[0]] + s[1..] && t == [t[0]] + t[1..];
    }
  }

  lemma JoinEmpty(s: seq<string>, c: char)
    requires forall x :: x in s ==> x != ""
    ensures Join(s, c) == "" <==> s == []
  {
    if s != [] {
      assert s[0] in s;
    }
  }

  lemma {:induction false} JoinAvoids(s: seq<string>, c: char, other: char)
    requires c != other && forall x :: x in s ==> Avoids(x, other)
    ensures Avoids(Join(s, c), other)
  {
    if |s| == 1 {
      assert s[0] in s;
    } else if |s| > 1 {
      assert s[0] in s;
      JoinAvoids(s[1..], c, other);
    }
  }

  // ----- printing -----------------------------------------------------------

  /** What the shortest decimal printer of numbers guarantees: distinct numbers print differently,
      never with a separator; a minus sign is either the first character or follows an `e`, and the
      text does not end with an `e`. */
  ghost predicate NumberFormat(g: Float -> string) {
    && (forall x, y :: g(x) == g(y) ==> x == y)
    && (forall x :: Avoids(g(x), '|') && Avoids(g(x), ';') && Avoids(g(x), UNIT_SEPARATOR))
    && (forall x :: IsNumberText(g(x)))
  }

  predicate IsNumberText(s: string) {
    && s != "" && s[|s| - 1] != 'e'
    && forall i :: 0 < i < |s| && s[i] == '-' ==> s[i - 1] == 'e'
  }

  function PrintConstraint(c: Constraint, g: Float -> string): string {
    c.parameter + ['|'] + (c.op + ['|'] + (g(c.vmin) + ['|'] + (g(c.vmax) + ['|'] + c.unit)))
  }

  function PrintYears(years: Option<Years>, g: Float -> string): string {
    if years.None? then "" else g(years.value.first) + ['-'] + g(years.value.last)
  }

  function Printer(g: Float -> string): Constraint -> string {
    (c: Constraint) => PrintConstraint(c, g)
  }

  function Printed(constraints: seq<Constraint>, g: Float -> string): seq<string> {
    Map(constraints, Printer(g))
  }

  function Canonical(plan: Plan, g: Float -> string): string {
    Join([plan.intent, plan.geography,
          Join(Sort(plan.slugs, Lex()), ','),
          Join(Sort(Printed(plan.constraints, g), Lex()), ';'),
          PrintYears(plan.years, g)], UNIT_SEPARATOR)
  }

  /** A copy of the strings, sorted in place. */
  method SortedStrings(given: seq<string>) returns (sorted: seq<string>)
    ensures sorted == Sort(given, Lex())
  {
    LexIsOrder();
    var copy := new string[|given|](i requires 0 <= i < |given| => given[i]);
    assert copy[..] == given;
    SortSlice(copy, Lex());
    SortSorts(given, Lex());
    SortedUnique(copy[..], Sort(given, Lex()), Lex());
    sorted := copy[..];
  }

  /** The printer: it sorts two slices in place, by a sort that may arrange equal elements as it
      likes, and joins. */
  method CanonicalKey(plan: Plan, g: Float -> string) returns (key: string)
    ensures key == Canonical(plan, g)
  {
    var slugs := SortedStrings(plan.slugs);
    var constraints := SortedStrings(Printed(plan.constraints, g));
    key := Join([plan.intent, plan.geography, Join(slugs, ','), Join(constraints, ';'),
                 PrintYears(plan.years, g)], UNIT_SEPARATOR);
  }

  // ----- agreement ----------------------------------------------------------

  /** The plans say the same thing: equal fields, with slugs and constraints in any order. */
  ghost predicate Agree(p: Plan, q: Plan) {
    && p.intent == q.intent && p.geography == q.geography && p.years == q.years
    && multiset(p.slugs) == multiset(q.slugs)
    && multiset(p.constraints) == multiset(q.constraints)
  }

  /** The fields that come from outside keep clear of the separators. Slugs are non-empty by the
      way they are collected. */
  predicate Clean(p: Plan) {
    && Avoids(p.intent, UNIT_SEPARATOR) && Avoids(p.geography, UNIT_SEPARATOR)
    && (forall s :: s in p.slugs ==> s != "" && Avoids(s, ',') && Avoids(s, UNIT_SEPARATOR))
    && (forall c :: c in p.constraints ==> CleanConstraint(c))
  }

  predicate CleanConstraint(c: Constraint) {
    && Avoids(c.parameter, '|') && Avoids(c.op, '|')
    && Avoids(c.parameter, ';') && Avoids(c.op, ';') && Avoids(c.unit, ';')
    && Avoids(c.parameter, UNIT_SEPARATOR) && Avoids(c.op, UNIT_SEPARATOR) && Avoids(c.unit, UNIT_SEPARATOR)
  }

  /** Reordering slugs or constraints never changes the key. No condition is needed. */
  lemma AgreeingPlansShareKey(p: Plan, q: Plan, g: Float -> string)
    requires Agree(p, q)
    ensures Canonical(p, g) == Canonical(q, g)
  {
    SortedAlike(p.slugs, q.slugs);
    MapPermutation(p.constraints, q.constraints, Printer(g));
    SortedAlike(Printed(p.constraints, g), Printed(q.constraints, g));
  }

  lemma SortedAlike(s: seq<string>, t: seq<string>)
    ensures multiset(s) == multiset(t) <==> Sort(s, Lex()) == Sort(t, Lex())
  {
    LexIsOrder();
    SortSorts(s, Lex());
    SortSorts(t, Lex());
    if multiset(s) == multiset(t) {
      SortedUnique(Sort(s, Lex()), Sort(t, Lex()), Lex());
    }
  }

  lemma ConstraintInjective(c: Constraint, d: Constraint, g: Float -> string)
    requires NumberFormat(g) && CleanConstraint(c) && CleanConstraint(d)
    requires PrintConstraint(c, g) == PrintConstraint(d, g)
    ensures c == d
  {
    var c3, d3 := g(c.vmax) + ['|'] + c.unit, g(d.vmax) + ['|'] + d.unit;
    var c2, d2 := g(c.vmin) + ['|'] + c3, g(d.vmin) + ['|'] + d3;
    var c1, d1 := c.op + ['|'] + c2, d.op + ['|'] + d2;
    SplitFirst(c.parameter, d.parameter, c1, d1, '|');
    SplitFirst(c.op, d.op, c2, d2, '|');
    SplitFirst(g(c.vmin), g(d.vmin), c3, d3, '|');
    SplitFirst(g(c.vmax), g(d.vmax), c.unit, d.unit, '|');
  }

  /** Two numbers joined by a minus sign can be told apart, although a number may itself contain
      minus signs. */
  lemma YearsInjective(y: Option<Years>, z: Option<Years>, g: Float -> string)
    requires NumberFormat(g) && PrintYears(y, g) == PrintYears(z, g)
    ensures y == z
  {
    if y.Some? && z.Some? {
      var a, b := g(y.value.first), g(z.value.first);
      var s, t := g(y.value.last), g(z.value.last);
      assert IsNumberText(a) && IsNumberText(b);
      MinusSplits(a, b, s, t);
      MinusSplits(b, a, t, s);
      assert a == (a + ['-'] + s)[..|a|] && b == (b + ['-'] + t)[..|b|];
      assert s == (a + ['-'] + s)[|a| + 1..] && t == (b + ['-'] + t)[|b| + 1..];
    }
  }

  lemma MinusSplits(a: string, b: string, s: string, t: string)
    requires IsNumberText(a) && IsNumberText(b) && a + ['-'] + s == b + ['-'] + t
    ensures |a| >= |b|
  {
    var left, right := a + ['-'] + s, b + ['-'] + t;
    assert left[|a|] == '-' && left[|a| - 1] == a[|a| - 1];
    forall i | 0 < i < |b| && right[i] == '-' ensures right[i - 1] == 'e' {
      assert right[i] == b[i] && right[i - 1] == b[i - 1];
    }
  }

  lemma PrintedInjective(s: seq<Constraint>, t: seq<Constraint>, g: Float -> string)
    requires NumberFormat(g)
    requires forall c :: c in s || c in t ==> CleanConstraint(c)
    requires multiset(Printed(s, g)) == multiset(Printed(t, g))
    ensures multiset(s) == multiset(t)
  {
    var a, b := multiset(s), multiset(t);
    forall c: Constraint ensures a[c] == b[c] {
      if CleanConstraint(c) {
        PrintedCount(s, c, g);
        PrintedCount(t, c, g);
      } else {
        assert c !in s && c !in t;
      }
    }
  }

  lemma PrintedCount(s: seq<Constraint>, c: Constraint, g: Float -> string)
    requires NumberFormat(g) && CleanConstraint(c) && forall d :: d in s ==> CleanConstraint(d)
    ensures multiset(Printed(s, g))[Printer(g)(c)] == multiset(s)[c]
  {
    forall d | d in s && Printer(g)(d) == Printer(g)(c) ensures d == c {
      ConstraintInjective(d, c, g);
    }
    MapCount(s, Printer(g), c);
  }

  /** The parts of a key, before they are joined. */
  function Parts(p: Plan, g: Float -> string): seq<string> {
    [p.intent, p.geography, Join(Sort(p.slugs, Lex()), ','), Join(Sort(Printed(p.constraints, g), Lex()), ';'),
     PrintYears(p.years, g)]
  }

  /** Five parts joined by a separator that none of the first four contains. */
  lemma FivePartsInjective(s: seq<string>, t: seq<string>, c: char)
    requires |s| == |t| == 5 && Join(s, c) == Join(t, c)
    requires forall i :: 0 <= i < 4 ==> Avoids(s[i], c) && Avoids(t[i], c)
    ensures s == t
  {
    JoinStep(s, t, c);
    JoinStep(s[1..], t[1..], c);
    JoinStep(s[2..], t[2..], c);
    JoinStep(s[3..], t[3..], c);
    assert Join(s[4..], c) == s[4] && Join(t[4..], c) == t[4];
  }

  lemma JoinStep(s: seq<string>, t: seq<string>, c: char)
    requires |s| == |t| > 1 && Avoids(s[0], c) && Avoids(t[0], c) && Join(s, c) == Join(t, c)
    ensures s[0] == t[0] && Join(s[1..], c) == Join(t[1..], c)
  {
    SplitFirst(s[0], t[0], Join(s[1..], c), Join(t[1..], c), c);
  }

  lemma {:induction false} ConstraintPrintsClean(c: Constraint, g: Float -> string)
    requires NumberFormat(g) && CleanConstraint(c)
    ensures PrintConstraint(c, g) != ""
    ensures Avoids(PrintConstraint(c, g), ';') && Avoids(PrintConstraint(c, g), UNIT_SEPARATOR)
  {
    assert Avoids(g(c.vmin), ';') && Avoids(g(c.vmax), ';');
    assert Avoids(g(c.vmin), UNIT_SEPARATOR) && Avoids(g(c.vmax), UNIT_SEPARATOR);
  }

  lemma SortedSlugsAvoid(p: Plan)
    requires Clean(p)
    ensures forall s :: s in Sort(p.slugs, Lex()) ==> s != "" && Avoids(s, ',') && Avoids(s, UNIT_SEPARATOR)
  {
    LexIsOrder();
    SortSorts(p.slugs, Lex());
    PermutationMembers(Sort(p.slugs, Lex()), p.slugs);
  }

  lemma SortedConstraintsAvoid(p: Plan, g: Float -> string)
    requires NumberFormat(g) && Clean(p)
    ensures forall s :: s in Sort(Printed(p.constraints, g), Lex()) ==> s != "" && Avoids(s, ';') && Avoids(s, UNIT_SEPARATOR)
  {
    LexIsOrder();
    SortSorts(Printed(p.constraints, g), Lex());
    PermutationMembers(Sort(Printed(p.constraints, g), Lex()), Printed(p.constraints, g));
    forall s | s in Printed(p.constraints, g) ensures s != "" && Avoids(s, ';') && Avoids(s, UNIT_SEPARATOR) {
      var i :| 0 <= i < |p.constraints| && Printed(p.constraints, g)[i] == s;
      assert p.constraints[i] in p.constraints && s == PrintConstraint(p.constraints[i], g);
      ConstraintPrintsClean(p.constraints[i], g);
    }
  }

  lemma PartsAvoid(p: Plan, g: Float -> string)
    requires NumberFormat(g) && Clean(p)
    ensures forall i :: 0 <= i < 4 ==> Avoids(Parts(p, g)[i], UNIT_SEPARATOR)
  {
    SortedSlugsAvoid(p);
    SortedConstraintsAvoid(p, g);
    JoinAvoids(Sort(p.slugs, Lex()), ',', UNIT_SEPARATOR);
    JoinAvoids(Sort(Printed(p.constraints, g), Lex()), ';', UNIT_SEPARATOR);
  }

  /** The main result: clean plans share a key exactly when they agree. */
  lemma KeysEqualIff(p: Plan, q: Plan, g: Float -> string)
    requires NumberFormat(g) && Clean(p) && Clean(q)
    ensures Canonical(p, g) == Canonical(q, g) <==> Agree(p, q)
  {
    if Agree(p, q) {
      AgreeingPlansShareKey(p, q, g);
    }
    if Canonical(p, g) == Canonical(q, g) {
      PartsAvoid(p, g);
      PartsAvoid(q, g);
      FivePartsInjective(Parts(p, g), Parts(q, g), UNIT_SEPARATOR);
      EqualPartsAgree(p, q, g);
    }
  }

  lemma EqualPartsAgree(p: Plan, q: Plan, g: Float -> string)
    requires NumberFormat(g) && Clean(p) && Clean(q) && Parts(p, g) == Parts(q, g)
    ensures Agree(p, q)
  {
    SortedSlugsAvoid(p);
    SortedSlugsAvoid(q);
    SortedConstraintsAvoid(p, g);
    SortedConstraintsAvoid(q, g);
    var a, b := Parts(p, g), Parts(q, g);
    assert a[0] == b[0] && a[1] == b[1] && a[2] == b[2] && a[3] == b[3] && a[4] == b[4];
    JoinInjective(Sort(p.slugs, Lex()), Sort(q.slugs, Lex()), ',');
    SortedAlike(p.slugs, q.slugs);
    JoinInjective(Sort(Printed(p.constraints, g), Lex()), Sort(Printed(q.constraints, g), Lex()), ';');
    SortedAlike(Printed(p.constraints, g), Printed(q.constraints, g));
    PrintedInjective(p.constraints, q.constraints, g);
    YearsInjective(p.years, q.years, g);
  }

  /** The condition is needed: a constraint whose unit contains a separator can share its key with
      two constraints. */
  lemma SeparatorsCollide(g: Float -> string)
    ensures exists p, q :: !Agree(p, q) && Canonical(p, g) == Canonical(q, g)
  {
    var z := g(Float(0));
    var first := Constraint("a", "", Float(0), Float(0), "");
    var second := Constraint("b", "", Float(0), Float(0), "");
    var both := Constraint("a", "", Float(0), Float(0), ";" + PrintConstraint(second, g));
    var p := Plan("", "", [], [first, second], None);
    var q := Plan("", "", [], [both], None);
    var x, y := PrintConstraint(first, g), PrintConstraint(second, g);
    assert PrintConstraint(both, g) == x + [';'] + y;
    assert Printed(p.constraints, g) == [x, y];
    assert Printed(q.constraints, g) == [x + [';'] + y];
    assert x[0] == 'a' && y[0] == 'b' && LexLe(x, y);
    SortOne(y);
    assert [x, y][1..] == [y];
    assert Sort([x, y], Lex()) == [x, y];
    SortOne(x + [';'] + y);
    assert Join([x, y], ';') == x + [';'] + y;
    assert |multiset(p.constraints)| == 2 && |multiset(q.constraints)| == 1;
    assert !Agree(p, q);
    assert Sort(p.slugs, Lex()) == Sort(q.slugs, Lex());
    assert Parts(p, g) == Parts(q, g);
    assert Canonical(p, g) == Join(Parts(p, g), UNIT_SEPARATOR);
    assert Canonical(q, g) == Join(Parts(q, g), UNIT_SEPARATOR);
  }

  lemma SortOne(x: string)
    ensures Sort([x], Lex()) == [x]
  {
    var s: seq<string> := [x];
    assert s[1..] == [];
  }

  // ----- the digest ---------------------------------------------------------

  const NUL: char := '\0'

  function CacheKey(plan: Plan, access: string, g: Float -> string, hash: string -> string): string {
    hash(Canonical(plan, g) + [NUL] + access)
  }

  /** Different access levels never share a cached answer, whatever the plans contain. */
  lemma AccessSeparates(p: Plan, q: Plan, a: string, b: string, g: Float -> string, hash: string -> string)
    requires forall s, t :: hash(s) == hash(t) ==> s == t
    requires Avoids(a, NUL) && Avoids(b, NUL)
    ensures CacheKey(p, a, g, hash) == CacheKey(q, b, g, hash) <==> Canonical(p, g) == Canonical(q, g) && a == b
  {
    if CacheKey(p, a, g, hash) == CacheKey(q, b, g, hash) {
      LastSeparator(Canonical(p, g), Canonical(q, g), a, b, NUL);
      LastSeparator(Canonical(q, g), Canonical(p, g), b, a, NUL);
      var s := Canonical(p, g) + [NUL] + a;
      var t := Canonical(q, g) + [NUL] + b;
      assert Canonical(p, g) == s[..|s| - |a| - 1] && Canonical(q, g) == t[..|t| - |b| - 1];
      assert a == s[|s| - |a|..] && b == t[|t| - |b|..];
    }
  }

  lemma LastSeparator(s: string, t: string, a: string, b: string, c: char)
    requires Avoids(b, c) && s + [c] + a == t + [c] + b
    ensures |s| <= |t|
  {
    var left, right := s + [c] + a, t + [c] + b;
    assert left[|s|] == c;
    forall i | |t| < i < |right| ensures right[i] != c {
      assert right[i] == b[i - |t| - 1];
    }
  }
}
