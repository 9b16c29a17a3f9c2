/** Answering a question: an event stream of plan, evidence, text deltas and the final answer,
    guarded against unsupported numbers, degraded to an extractive answer when needed, and cached
    only when it is neither. Planning, search and synthesis are parameters of each call. */
module AnswerService {

  import opened Basics
  import opened Text

  // ----- deltas -------------------------------------------------------------

  /** White space of the word pattern. */
  predicate IsSpace(c: char) {
    c in {'\t', '\n', '\U{000C}', '\r', ' '}
  }

  function SkipSpace(s: string): string {
    StripLeft(s, IsSpace)
  }

  /** Length of the leading run of characters that are space, or that are not. */
  function Run(s: string, space: bool): (n: nat)
    ensures n <= |s|
  {
    if s != "" && IsSpace(s[0]) == space then 1 + Run(s[1..], space) else 0
  }

  /** Length of the first word with the space that follows it. */
  function WordLength(s: string): (n: nat)
    requires s != "" && !IsSpace(s[0])
    ensures 0 < n <= |s|
  {
    Run(s, false) + Run(s[Run(s, false)..], true)
  }

  /** All matches of "word and following space", from left to right. */
  function Words(s: string): seq<string>
    decreases |s|
  {
    SkipShorter(s);
    var t := SkipSpace(s);
    if t == "" then [] else [t[..WordLength(t)]] + Words(t[WordLength(t)..])
  }

  lemma {:induction false} SkipShorter(s: string)
    ensures |SkipSpace(s)| <= |s|
    ensures SkipSpace(s) == "" || !IsSpace(SkipSpace(s)[0])
    ensures SkipSpace(s) == s <==> s == "" || !IsSpace(s[0])
  {
    if s != "" && IsSpace(s[0]) {
      SkipShorter(s[1..]);
    }
  }

  function Concat(parts: seq<string>): string {
    if parts == [] then "" else parts[0] + Concat(parts[1..])
  }

  lemma {:induction false} ConcatAppend(a: seq<string>, b: seq<string>)
    ensures Concat(a + b) == Concat(a) + Concat(b)
  {
    if a == [] {
      assert a + b == b;
    } else {
      assert (a + b)[1..] == a[1..] + b;
      ConcatAppend(a[1..], b);
    }
  }

  lemma {:induction false} RunStops(s: string, space: bool)
    ensures Run(s, space) < |s| ==> IsSpace(s[Run(s, space)]) != space
  {
    if s != "" && IsSpace(s[0]) == space {
      RunStops(s[1..], space);
    }
  }

  /** The words lose nothing but leading white space. */
  lemma {:induction false} WordsCover(s: string)
    ensures Concat(Words(s)) == SkipSpace(s)
    decreases |s|
  {
    SkipShorter(s);
    var t := SkipSpace(s);
    if t != "" {
      var rest := t[WordLength(t)..];
      WordsCover(rest);
      RunStops(t[Run(t, false)..], true);
      SkipShorter(rest);
      assert rest != "" ==> !IsSpace(rest[0]);
      assert ([t[..WordLength(t)]] + Words(rest))[1..] == Words(rest);
      assert t[..WordLength(t)] + rest == t;
    }
  }

  /** A run of characters that are not space, then a run of space. */
  ghost predicate IsWord(w: string) {
    exists k :: IsWordWith(w, k)
  }

  ghost predicate IsWordWith(w: string, k: int) {
    && 0 < k <= |w|
    && (forall i :: 0 <= i < k ==> !IsSpace(w[i])) && (forall i :: k <= i < |w| ==> IsSpace(w[i]))
  }

  lemma {:induction false} RunIs(s: string, space: bool)
    ensures forall i :: 0 <= i < Run(s, space) ==> IsSpace(s[i]) == space
  {
    if s != "" && IsSpace(s[0]) == space {
      RunIs(s[1..], space);
      assert forall i :: 1 <= i < Run(s, space) ==> s[i] == s[1..][i - 1];
    }
  }

  lemma FirstWordIs(t: string)
    requires t != "" && !IsSpace(t[0])
    ensures
      var w, rest := t[..WordLength(t)], t[WordLength(t)..];
      && IsWord(w) && (rest != "" ==> !IsSpace(rest[0]) && IsSpace(w[|w| - 1]))
  {
    var k := Run(t, false);
    var later := t[k..];
    RunIs(t, false);
    RunStops(t, false);
    RunIs(later, true);
    RunStops(later, true);
    var w, rest := t[..WordLength(t)], t[WordLength(t)..];
    assert forall i :: k <= i < |w| ==> w[i] == later[i - k];
    assert IsWordWith(w, k);
    if rest != "" {
      assert rest[0] == later[Run(later, true)];
      assert later != "" && later[0] == t[k] && IsSpace(later[0]);
    }
  }

  /** The words are maximal: each is one run of text with the space after it, and only the last one may
      lack that space. With `WordsCover` this leaves one way to cut the text. */
  lemma {:induction false} WordsAreMaximal(s: string)
    ensures forall i :: 0 <= i < |Words(s)| ==> IsWord(Words(s)[i])
    ensures forall i :: 0 <= i < |Words(s)| - 1 ==> EndsInSpace(Words(s)[i])
    decreases |s|
  {
    SkipShorter(s);
    var t := SkipSpace(s);
    if t != "" {
      var rest := t[WordLength(t)..];
      FirstWordIs(t);
      SkipShorter(rest);
      WordsAreMaximal(rest);
      assert Words(s) == [t[..WordLength(t)]] + Words(rest);
      assert rest == "" ==> Words(rest) == [];
    }
  }

  predicate EndsInSpace(w: string) {
    w != "" && IsSpace(w[|w| - 1])
  }

  /** A letter and a blank in front of a text make one more word. */
  lemma LetterInFront(c: char, rest: string)
    requires !IsSpace(c) && rest != "" && !IsSpace(rest[0])
    ensures Words([c] + " " + rest) == [[c] + " "] + Words(rest)
  {
    var s := [c] + " " + rest;
    var later := s[1..];
    assert s[0] == c && later[0] == ' ' && later[1..] == rest;
    assert Run(rest, true) == 0 && Run(later, true) == 1;
    assert Run(later, false) == 0 && Run(s, false) == 1;
    assert SkipSpace(s) == s && s[..2] == [c] + " " && s[2..] == rest;
  }

  /** The words in groups of `n`, each group joined. */
  function Groups(words: seq<string>, n: nat): seq<string>
    requires n > 0
    decreases |words|
  {
    if words == [] then []
    else if |words| <= n then [Concat(words)]
    else [Concat(words[..n])] + Groups(words[n..], n)
  }

  lemma {:induction false} GroupsCover(words: seq<string>, n: nat)
    requires n > 0
    ensures Concat(Groups(words, n)) == Concat(words)
    decreases |words|
  {
    if words != [] && |words| <= n {
      assert Concat([Concat(words)]) == Concat(words) + Concat([]);
    } else if words != [] {
      GroupsCover(words[n..], n);
      assert ([Concat(words[..n])] + Groups(words[n..], n))[1..] == Groups(words[n..], n);
      ConcatAppend(words[..n], words[n..]);
      assert words[..n] + words[n..] == words;
    }
  }

  function Flat(cut: seq<seq<string>>): seq<string> {
    if cut == [] then [] else cut[0] + Flat(cut[1..])
  }

  /** The words are cut into runs of `n`, of which only the last may be shorter; each run is a group. */
  lemma {:induction false} GroupsHold(words: seq<string>, n: nat) returns (cut: seq<seq<string>>)
    requires n > 0
    ensures Flat(cut) == words && |cut| == |Groups(words, n)|
    ensures forall i :: 0 <= i < |cut| ==> Groups(words, n)[i] == Concat(cut[i]) && 0 < |cut[i]| <= n
    ensures forall i :: 0 <= i < |cut| - 1 ==> |cut[i]| == n
    decreases |words|
  {
    if words == [] {
      cut := [];
    } else if |words| <= n {
      cut := [words];
      assert Flat([]) == [] && words + [] == words;
    } else {
      var rest := GroupsHold(words[n..], n);
      cut := [words[..n]] + rest;
      assert cut[1..] == rest && words[..n] + words[n..] == words;
    }
  }

  function Deltas(summary: string, n: nat): seq<string>
    requires n > 0
  {
    if Words(summary) == [] then [summary] else Groups(Words(summary), n)
  }

  method ChunkDeltas(summary: string, wordsPerChunk: nat) returns (chunks: seq<string>)
    requires wordsPerChunk > 0
    ensures chunks == Deltas(summary, wordsPerChunk)
  {
    var words := Words(summary);
    if |words| == 0 {
      return [summary];
    }
    chunks := [];
    var start := 0;
    while start < |words|
      invariant start >= |words| ==> chunks == Groups(words, wordsPerChunk)
      invariant start < |words| ==> chunks + Groups(words[start..], wordsPerChunk) == Groups(words, wordsPerChunk)
    {
      var end := if start + wordsPerChunk < |words| then start + wordsPerChunk else |words|;
      ghost var rest := words[start..];
      if end < |words| {
        assert rest[..wordsPerChunk] == words[start..end] && rest[wordsPerChunk..] == words[end..];
      } else {
        assert rest == words[start..end];
      }
      chunks := chunks + [Concat(words[start..end])];
      start := start + wordsPerChunk;
    }
  }

  predicate AllSpace(s: string) {
    forall i :: 0 <= i < |s| ==> IsSpace(s[i])
  }

  lemma {:induction false} SkipsAllIff(s: string)
    ensures SkipSpace(s) == "" <==> AllSpace(s)
  {
    if s != "" && IsSpace(s[0]) {
      SkipsAllIff(s[1..]);
      assert forall i :: 1 <= i < |s| ==> s[i] == s[1..][i - 1];
    }
  }

  /** The client reassembles the summary exactly when it does not start with white space, or is
      nothing but white space; otherwise it gets the summary without its leading white space. */
  lemma DeltasReassemble(summary: string, n: nat)
    requires n > 0
    ensures Concat(Deltas(summary, n)) == if AllSpace(summary) then summary else SkipSpace(summary)
    ensures Concat(Deltas(summary, n)) == summary <==>
              AllSpace(summary) || (summary != "" && !IsSpace(summary[0]))
  {
    WordsCover(summary);
    SkipsAllIff(summary);
    SkipShorter(summary);
    if Words(summary) == [] {
      assert Concat([summary]) == summary + Concat([]);
    } else {
      GroupsCover(Words(summary), n);
      SomeWord(summary);
    }
  }

  lemma SomeWord(s: string)
    ensures Words(s) == [] <==> SkipSpace(s) == ""
  {
  }

  // ----- the guard ----------------------------------------------------------

  predicate ApproxEqual(a: real, b: real) {
    Abs(a - b) <= if 0.01 * Abs(b) < 0.000000001 then 0.000000001 else 0.01 * Abs(b)
  }

  /** Close means within one percent of the evidence, whatever its sign and scale; near zero, within a
      billionth. */
  lemma ApproxEqualMeans(a: real, b: real)
    ensures ApproxEqual(b, b)
    ensures ApproxEqual(-a, -b) <==> ApproxEqual(a, b)
    ensures b >= 0.0000001 ==> (ApproxEqual(a, b) <==> 0.99 * b <= a <= 1.01 * b)
    ensures 0.0 <= b < 0.0000001 ==> (ApproxEqual(a, b) <==> b - 0.000000001 <= a <= b + 0.000000001)
  {
  }

  predicate IsYear(value: real) {
    value == value.Floor as real && 1900.0 <= value <= 2100.0
  }

  /** Of the whole numbers those from 1900 to 2100 pass for years, and no other number does. */
  lemma YearsAre(n: int, part: real)
    ensures IsYear(n as real) <==> 1900 <= n <= 2100
    ensures 0.0 < part < 1.0 ==> !IsYear(n as real + part)
  {
  }

  ghost predicate Backed(value: real, allowed: seq<real>) {
    exists i :: 0 <= i < |allowed| && ApproxEqual(value, allowed[i])
  }

  /** Every number that is not a year is close to a number of the evidence. */
  ghost predicate AllBacked(numbers: seq<real>, allowed: seq<real>) {
    forall i :: 0 <= i < |numbers| && !IsYear(numbers[i]) ==> Backed(numbers[i], allowed)
  }

  datatype Guard = Guard(numbersChecked: nat, violations: nat)

  method ContainsApprox(values: seq<real>, target: real) returns (found: bool)
    ensures found <==> Backed(target, values)
  {
    for i := 0 to |values|
      invariant forall j :: 0 <= j < i ==> !ApproxEqual(target, values[j])
    {
      if ApproxEqual(target, values[i]) {
        return true;
      }
    }
    return false;
  }

  function GuardOf(numbers: seq<real>, allowed: seq<real>): Guard {
    if numbers == [] then Guard(0, 0)
    else
      var earlier, last := GuardOf(numbers[..|numbers| - 1], allowed), numbers[|numbers| - 1];
      if IsYear(last) then earlier
      else Guard(earlier.numbersChecked + 1,
                 earlier.violations + if exists i :: 0 <= i < |allowed| && ApproxEqual(last, allowed[i]) then 0 else 1)
  }

  method RunGuard(numbers: seq<real>, allowed: seq<real>) returns (g: Guard)
    ensures g == GuardOf(numbers, allowed)
  {
    g := Guard(0, 0);
    for i := 0 to |numbers|
      invariant g == GuardOf(numbers[..i], allowed)
    {
      assert numbers[..i + 1][..i] == numbers[..i];
      if IsYear(numbers[i]) {
        continue;
      }
      g := g.(numbersChecked := g.numbersChecked + 1);
      var found := ContainsApprox(allowed, numbers[i]);
      if !found {
        g := g.(violations := g.violations + 1);
      }
    }
    assert numbers[..|numbers|] == numbers;
  }

  /** No violations means that every number is backed by the evidence, and conversely. */
  lemma {:induction false} NoViolationsIff(numbers: seq<real>, allowed: seq<real>)
    ensures GuardOf(numbers, allowed).violations == 0 <==> AllBacked(numbers, allowed)
    ensures GuardOf(numbers, allowed).violations <= GuardOf(numbers, allowed).numbersChecked <= |numbers|
  {
    if numbers != [] {
      var init, last := numbers[..|numbers| - 1], numbers[|numbers| - 1];
      NoViolationsIff(init, allowed);
      if AllBacked(init, allowed) && (IsYear(last) || Backed(last, allowed)) {
        forall i | 0 <= i < |numbers| && !IsYear(numbers[i]) ensures Backed(numbers[i], allowed) {
          if i < |init| {
            assert init[i] == numbers[i];
          }
        }
      }
      if AllBacked(numbers, allowed) {
        assert forall i :: 0 <= i < |init| ==> init[i] == numbers[i];
      }
    }
  }

  /** The places of the numbers that are not years. */
  ghost function Checked(numbers: seq<real>): set<nat> {
    set i: nat | i < |numbers| && !IsYear(numbers[i])
  }

  /** The places of those among them that nothing backs. */
  ghost function Unbacked(numbers: seq<real>, allowed: seq<real>): set<nat> {
    set i: nat | i < |numbers| && !IsYear(numbers[i]) && !Backed(numbers[i], allowed)
  }

  /** The guard counts the numbers that are not years, and among them those that nothing backs. */
  lemma {:induction false} GuardCounts(numbers: seq<real>, allowed: seq<real>)
    ensures GuardOf(numbers, allowed) == Guard(|Checked(numbers)|, |Unbacked(numbers, allowed)|)
  {
    hide Checked, Unbacked, Backed, IsYear;
    if numbers == [] {
      NothingChecked(allowed);
    } else {
      var init, last := numbers[..|numbers| - 1], numbers[|numbers| - 1];
      assert init + [last] == numbers;
      GuardCounts(init, allowed);
      OneMoreNumber(init, last, allowed);
      assert (exists i :: 0 <= i < |allowed| && ApproxEqual(last, allowed[i])) <==> Backed(last, allowed) by {
        BackedIs(last, allowed);
      }
    }
  }

  lemma BackedIs(value: real, allowed: seq<real>)
    ensures Backed(value, allowed) <==> exists i :: 0 <= i < |allowed| && ApproxEqual(value, allowed[i])
  {
  }

  lemma NothingChecked(allowed: seq<real>)
    ensures Checked([]) == {} && Unbacked([], allowed) == {}
  {
  }

  lemma OneMoreNumber(init: seq<real>, last: real, allowed: seq<real>)
    ensures |Checked(init + [last])| == |Checked(init)| + if IsYear(last) then 0 else 1
    ensures |Unbacked(init + [last], allowed)| ==
              |Unbacked(init, allowed)| + if IsYear(last) || Backed(last, allowed) then 0 else 1
  {
    var one := if IsYear(last) then {} else {|init|};
    var bad := if IsYear(last) || Backed(last, allowed) then {} else {|init|};
    assert Checked(init + [last]) == Checked(init) + one;
    assert Unbacked(init + [last], allowed) == Unbacked(init, allowed) + bad;
    assert |init| !in Checked(init) && |init| !in Unbacked(init, allowed);
  }

  // ----- the service --------------------------------------------------------

  datatype Plan = Plan(content: string)

  /** Evidence; `numbers` are the numbers the guard accepts because of it. */
  datatype Pack = Pack(content: string, numbers: seq<real>)

  datatype Synthesis = Synthesis(summary: string, methods: string, confidence: real)

  datatype Answer = Answer(summary: string, methods: string, confidence: real, guard: Guard, degraded: bool)

  datatype Event = PlanEvent(plan: Plan) | Evidence(pack: Pack) | Delta(text: string) | Done(answer: Answer)

  /** What one complete answer consists of; also what the cache stores. */
  datatype Story = Story(plan: Plan, pack: Pack, answer: Answer)

  /** What the search call brings back. */
  datatype Found = SearchError | NoEvidence | SomeEvidence(pack: Pack)

  const DELTA_WORDS: nat := 8

  const EMPTY_PACK := Pack("", [])

  function DeltaEvents(texts: seq<string>): (r: seq<Event>)
    ensures |r| == |texts|
  {
    seq(|texts|, i requires 0 <= i < |texts| => Delta(texts[i]))
  }

  /** The complete event sequence of an answer. */
  function Trace(story: Story): seq<Event> {
    [PlanEvent(story.plan), Evidence(story.pack)] + DeltaEvents(Deltas(story.answer.summary, DELTA_WORDS)) +
    [Done(story.answer)]
  }

  /** Which events the client can no longer take, and before which deltas the request is cancelled. */
  datatype Faults = Faults(emitFails: nat -> bool, cancelled: nat -> bool)

  predicate DeltaGoes(faults: Faults, i: nat) {
    !faults.cancelled(i) && !faults.emitFails(i + 2)
  }

  /** Event number `i` of the story gets through. */
  predicate EventGoes(story: Story, faults: Faults, i: nat) {
    var n := |Deltas(story.answer.summary, DELTA_WORDS)|;
    if 2 <= i < n + 2 then DeltaGoes(faults, i - 2) else !faults.emitFails(i)
  }

  /** The whole trace gets through. */
  ghost predicate Delivers(story: Story, faults: Faults) {
    forall i :: 0 <= i < |Trace(story)| ==> EventGoes(story, faults, i)
  }

  /** An event gets through unless the client cannot take it or, for a delta, the request was cancelled
      before; so everything is delivered exactly when neither happens anywhere. */
  lemma DeliversIff(story: Story, faults: Faults)
    ensures
      var n := |Deltas(story.answer.summary, 8)|;
      && |Trace(story)| == n + 3
      && (forall i :: 0 <= i < n + 3 ==>
            (EventGoes(story, faults, i) <==> !faults.emitFails(i) && (2 <= i < n + 2 ==> !faults.cancelled(i - 2))))
      && (Delivers(story, faults) <==>
            (forall i :: 0 <= i < n + 3 ==> !faults.emitFails(i)) && (forall i :: 0 <= i < n ==> !faults.cancelled(i)))
  {
    var n := |Deltas(story.answer.summary, DELTA_WORDS)|;
    if Delivers(story, faults) {
      forall i | 0 <= i < n ensures !faults.cancelled(i) {
        assert EventGoes(story, faults, i + 2);
      }
      forall i | 0 <= i < n + 3 ensures !faults.emitFails(i) {
        assert EventGoes(story, faults, i);
      }
    }
  }

  /** The trace is a prefix of the story's, complete exactly when the call succeeds, which it does
      exactly when everything is delivered and nothing else went wrong. When nothing else goes
      wrong the trace ends where the first event fails. */
  ghost predicate Tells(story: Story, faults: Faults, good: bool, ok: bool, trace: seq<Event>) {
    && trace <= Trace(story)
    && (ok <==> trace == Trace(story))
    && (ok <==> Delivers(story, faults) && good)
    && (forall i :: 0 <= i < |trace| ==> EventGoes(story, faults, i))
    && (good && !ok ==> !EventGoes(story, faults, |trace|))
  }

  /** So far every event got through; or the next one did not, and the call ends. */
  ghost predicate Sending(story: Story, faults: Faults, ok: bool, trace: seq<Event>) {
    && trace <= Trace(story)
    && (forall i :: 0 <= i < |trace| ==> EventGoes(story, faults, i))
    && (!ok ==> |trace| < |Trace(story)| && !EventGoes(story, faults, |trace|))
  }

  lemma TraceEvents(story: Story)
    ensures
      var n, trace := |Deltas(story.answer.summary, DELTA_WORDS)|, Trace(story);
      && |trace| == n + 3
      && trace[0] == PlanEvent(story.plan) && trace[1] == Evidence(story.pack) && trace[n + 2] == Done(story.answer)
      && forall i :: 0 <= i < n ==> trace[i + 2] == Delta(Deltas(story.answer.summary, DELTA_WORDS)[i])
  {
  }

  /** A call that ends early, by a failed event or for another reason. */
  lemma EndsEarly(story: Story, faults: Faults, good: bool, trace: seq<Event>)
    requires Sending(story, faults, false, trace) || (!good && Sending(story, faults, true, trace) && |trace| < |Trace(story)|)
    ensures Tells(story, faults, good, false, trace)
  {
  }

  lemma EndsWell(story: Story, faults: Faults, trace: seq<Event>)
    requires Sending(story, faults, true, trace) && |trace| == |Trace(story)|
    ensures Tells(story, faults, true, true, trace)
  {
  }

  /** Emits the next event of a story. */
  method Emit(trace: seq<Event>, e: Event, faults: Faults, ghost story: Story) returns (ok: bool, more: seq<Event>)
    requires Sending(story, faults, true, trace) && |trace| < |Trace(story)| && Trace(story)[|trace|] == e
    requires EventGoes(story, faults, |trace|) <==> !faults.emitFails(|trace|)
    ensures ok <==> !faults.emitFails(|trace|)
    ensures Sending(story, faults, ok, more) && more == if ok then trace + [e] else trace
  {
    PrefixOneMore(trace, Trace(story));
    ok := !faults.emitFails(|trace|);
    more := if ok then trace + [e] else trace;
  }

  /** Emits the deltas after plan and evidence. */
  method EmitDeltas(summary: string, opening: seq<Event>, faults: Faults, ghost story: Story) returns (ok: bool, trace: seq<Event>)
    requires story.answer.summary == summary && |opening| == 2 && Sending(story, faults, true, opening)
    ensures Sending(story, faults, ok, trace)
    ensures ok ==> |trace| == |Deltas(summary, DELTA_WORDS)| + 2
  {
    trace := opening;
    TraceEvents(story);
    var deltas := ChunkDeltas(summary, DELTA_WORDS);
    for i := 0 to |deltas|
      invariant |trace| == i + 2 && Sending(story, faults, true, trace)
    {
      assert EventGoes(story, faults, i + 2) <==> DeltaGoes(faults, i);
      if faults.cancelled(i) {
        return false, trace;
      }
      ok, trace := Emit(trace, Delta(deltas[i]), faults, story);
      if !ok {
        return;
      }
    }
    ok := true;
  }

  class Service {
    const extractive: Pack -> Synthesis
    /** The numbers a summary states, citations and quoted names stripped. */
    const literals: string -> seq<real>
    const keyOf: (Plan, string) -> string
    const hasCache: bool
    var cache: map<string, Story>

    /** Every cached answer is undegraded and all its numbers are backed by the evidence stored
        with it. */
    ghost predicate Valid()
      reads this
    {
      forall k :: k in cache ==>
        && !cache[k].answer.degraded && cache[k].answer.guard.violations == 0
        && AllBacked(literals(cache[k].answer.summary), cache[k].pack.numbers)
    }

    constructor (extractive: Pack -> Synthesis, literals: string -> seq<real>, keyOf: (Plan, string) -> string, hasCache: bool)
      ensures Valid() && cache == map[] && this.hasCache == hasCache && this.keyOf == keyOf
      ensures this.extractive == extractive && this.literals == literals
    {
      this.extractive := extractive;
      this.literals := literals;
      this.keyOf := keyOf;
      this.hasCache := hasCache;
      cache := map[];
    }

    /** The answer for some evidence, given what the synthesizer returned. */
    ghost function AnswerFor(pack: Pack, synth: Option<Synthesis>): Answer {
      var first := if synth.None? then extractive(pack) else synth.value;
      var firstGuard := GuardOf(literals(first.summary), pack.numbers);
      if firstGuard.violations > 0 then
        var s := extractive(pack);
        Answer(s.summary, s.methods, s.confidence, GuardOf(literals(s.summary), pack.numbers), true)
      else
        Answer(first.summary, first.methods, first.confidence, firstGuard, synth.None?)
    }

    /** An answer with violations is always marked degraded; an answer that is not degraded is the
        synthesizer's own, and all its numbers are backed by the evidence. */
    lemma DegradedOrBacked(pack: Pack, synth: Option<Synthesis>)
      ensures
        var answer := AnswerFor(pack, synth);
        && (answer.guard.violations > 0 ==> answer.degraded)
        && (!answer.degraded <==> synth.Some? && AllBacked(literals(synth.value.summary), pack.numbers))
        && (!answer.degraded ==> AllBacked(literals(answer.summary), pack.numbers))
        && Synthesis(answer.summary, answer.methods, answer.confidence) ==
             (if answer.degraded then extractive(pack) else synth.value)
        && answer.guard == GuardOf(literals(answer.summary), pack.numbers)
    {
      if synth.Some? {
        NoViolationsIff(literals(synth.value.summary), pack.numbers);
      }
    }

    method Synthesise(pack: Pack, synth: Option<Synthesis>) returns (answer: Answer)
      ensures answer == AnswerFor(pack, synth)
    {
      var result := extractive(pack);
      var degraded := synth.None?;
      if synth.Some? {
        result := synth.value;
      }
      var guard := RunGuard(literals(result.summary), pack.numbers);
      if guard.violations > 0 {
        result := extractive(pack);
        guard := RunGuard(literals(result.summary), pack.numbers);
        degraded := true;
      }
      answer := Answer(result.summary, result.methods, result.confidence, guard, degraded);
    }

    /** The story a call tells if nothing goes wrong: the cached one on a hit. */
    ghost function StoryOf(plan: Plan, access: string, cacheReads: bool, pack: Pack, synth: Option<Synthesis>): Story
      reads this
    {
      if Hit(plan, access, cacheReads) then cache[keyOf(plan, access)] else Story(plan, pack, AnswerFor(pack, synth))
    }

    predicate Hit(plan: Plan, access: string, cacheReads: bool)
      reads this
    {
      hasCache && cacheReads && keyOf(plan, access) in cache
    }

    /** Whether a story may be cached. */
    ghost predicate Cacheable(story: Story) {
      !story.answer.degraded && story.answer.guard.violations == 0
    }

    /** One request. `planned`, `found`, `synth` and `encodes` are what planner, search, synthesizer
        and encoder return; `cacheReads` and `cacheWrites` say whether the cache calls succeed. */
    method Ask(question: string, planned: Option<Plan>, access: string, found: Found, augment: Pack -> Pack,
               synth: Option<Synthesis>, encodes: bool, cacheReads: bool, cacheWrites: bool, faults: Faults)
      returns (ok: bool, trace: seq<Event>)
      requires Valid()
      modifies this
      ensures Valid()
      ensures question == "" || planned.None? ==> !ok && trace == [] && cache == old(cache)
      ensures question != "" && planned.Some? ==>
                var pack := augment(if found.SomeEvidence? then found.pack else EMPTY_PACK);
                var story := old(StoryOf(planned.value, access, cacheReads, pack, synth));
                var hit := old(Hit(planned.value, access, cacheReads));
                && Tells(story, faults, hit || (!found.SearchError? && encodes), ok, trace)
                && (!hit && found.SearchError? ==> |trace| <= 1)
                && (hit ==> cache == old(cache))
                && (cache == old(cache) || cache == old(cache)[keyOf(planned.value, access) := story])
                && (ok && !hit && hasCache && cacheWrites && Cacheable(story) ==>
                      cache == old(cache)[keyOf(planned.value, access) := story])
    {
      if question == "" || planned.None? {
        return false, [];
      }
      var plan := planned.value;
      var key := keyOf(plan, access);
      if hasCache && cacheReads && key in cache {
        ok, trace := Replay(cache[key], faults);
        return;
      }
      ok, trace := AskFresh(plan, key, found, augment, synth, encodes, cacheWrites, faults);
    }

    /** The part of `Ask` that follows a cache miss. */
    method AskFresh(plan: Plan, key: string, found: Found, augment: Pack -> Pack, synth: Option<Synthesis>,
                    encodes: bool, cacheWrites: bool, faults: Faults)
      returns (ok: bool, trace: seq<Event>)
      requires Valid()
      modifies this
      ensures Valid()
      ensures
        var pack := augment(if found.SomeEvidence? then found.pack else EMPTY_PACK);
        var story := Story(plan, pack, AnswerFor(pack, synth));
        && Tells(story, faults, !found.SearchError? && encodes, ok, trace)
        && (found.SearchError? ==> |trace| <= 1)
        && (cache == old(cache) || cache == old(cache)[key := story])
        && (ok && hasCache && cacheWrites && Cacheable(story) ==> cache == old(cache)[key := story])
    {
      ghost var evidence := augment(if found.SomeEvidence? then found.pack else EMPTY_PACK);
      ghost var story := Story(plan, evidence, AnswerFor(evidence, synth));
      ghost var good := !found.SearchError? && encodes;
      TraceEvents(story);
      ok, trace := Emit([], PlanEvent(plan), faults, story);
      if !ok {
        EndsEarly(story, faults, good, trace);
        return;
      }
      if found.SearchError? {
        EndsEarly(story, faults, good, trace);
        return false, trace;
      }
      var pack := augment(if found.SomeEvidence? then found.pack else EMPTY_PACK);
      ok, trace := Emit(trace, Evidence(pack), faults, story);
      if !ok {
        EndsEarly(story, faults, good, trace);
        return;
      }
      ok, trace := Compose(plan, key, pack, synth, encodes, cacheWrites, faults, trace);
    }

    /** The part that follows the evidence: text, answer, cache, last event. */
    method Compose(plan: Plan, key: string, pack: Pack, synth: Option<Synthesis>, encodes: bool, cacheWrites: bool,
                   faults: Faults, opening: seq<Event>)
      returns (ok: bool, trace: seq<Event>)
      requires Valid() && |opening| == 2 && Sending(Story(plan, pack, AnswerFor(pack, synth)), faults, true, opening)
      modifies this
      ensures Valid()
      ensures
        var story := Story(plan, pack, AnswerFor(pack, synth));
        && Tells(story, faults, encodes, ok, trace)
        && (cache == old(cache) || cache == old(cache)[key := story])
        && (ok && hasCache && cacheWrites && Cacheable(story) ==> cache == old(cache)[key := story])
    {
      ghost var story := Story(plan, pack, AnswerFor(pack, synth));
      TraceEvents(story);
      var answer := Synthesise(pack, synth);
      ok, trace := EmitDeltas(answer.summary, opening, faults, story);
      if !ok {
        EndsEarly(story, faults, encodes, trace);
        return;
      }
      if !encodes {
        EndsEarly(story, faults, encodes, trace);
        return false, trace;
      }
      if hasCache && answer.guard.violations == 0 && !answer.degraded && cacheWrites {
        NoViolationsIff(literals(answer.summary), pack.numbers);
        cache := cache[key := Story(plan, pack, answer)];
      }
      ok, trace := Emit(trace, Done(answer), faults, story);
      if ok {
        EndsWell(story, faults, trace);
      } else {
        EndsEarly(story, faults, encodes, trace);
      }
    }

    /** Replays a stored answer event by event. */
    method Replay(story: Story, faults: Faults) returns (ok: bool, trace: seq<Event>)
      ensures Tells(story, faults, true, ok, trace)
    {
      TraceEvents(story);
      ok, trace := Emit([], PlanEvent(story.plan), faults, story);
      if ok {
        ok, trace := Emit(trace, Evidence(story.pack), faults, story);
      }
      if ok {
        ok, trace := EmitDeltas(story.answer.summary, trace, faults, story);
      }
      if ok {
        ok, trace := Emit(trace, Done(story.answer), faults, story);
      }
      if ok {
        EndsWell(story, faults, trace);
      } else {
        EndsEarly(story, faults, true, trace);
      }
    }

    /** A question answered once without degradation is answered again from the cache: the second
        trace repeats the first event by event, whatever search and synthesis would now say. */
    method AskAgain(question: string, plan: Plan, access: string, found: Found, augment: Pack -> Pack,
                    synth: Option<Synthesis>, later: Found, laterSynth: Option<Synthesis>, faults: Faults, laterFaults: Faults)
      returns (first: seq<Event>, second: seq<Event>)
      requires Valid() && question != "" && hasCache
      modifies this
      ensures Valid()
      ensures
        var pack := augment(if found.SomeEvidence? then found.pack else EMPTY_PACK);
        var story := old(StoryOf(plan, access, true, pack, synth));
        && first <= Trace(story)
        && (first == Trace(story) && Cacheable(story) ==>
              second <= first && (Delivers(story, laterFaults) ==> second == first))
    {
      ghost var pack := augment(if found.SomeEvidence? then found.pack else EMPTY_PACK);
      ghost var story := StoryOf(plan, access, true, pack, synth);
      var ok;
      ok, first := Ask(question, Some(plan), access, found, augment, synth, true, true, true, faults);
      var again;
      again, second := Ask(question, Some(plan), access, later, augment, laterSynth, true, true, true, laterFaults);
    }
  }
}
