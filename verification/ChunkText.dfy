/** The overlapping chunker: a window of at most 4000 characters is cut back to its last paragraph,
    sentence or line boundary, and the next window starts 500 characters before the cut. */
module ChunkText {
  import opened Basics
  import opened Text

  const TARGET := 4000
  const OVERLAP := 500
  const MIN := 400

  datatype Chunk = Chunk(ordinal: nat, text: string, charFrom: nat, charTo: nat)

  /** One turn of the loop: the range it looked at, emitted or not. */
  datatype Range = Range(start: nat, end: nat)

  // ----- boundaries ---------------------------------------------------------

  predicate MatchAt(s: string, pattern: string, i: int) {
    0 <= i && i + |pattern| <= |s| && s[i..i + |pattern|] == pattern
  }

  /** Index of the last occurrence, or -1. */
  function RFind(s: string, pattern: string): int {
    RFindUpTo(s, pattern, |s|)
  }

  function RFindUpTo(s: string, pattern: string, n: nat): int {
    if MatchAt(s, pattern, n) then n
    else if n == 0 then -1
    else RFindUpTo(s, pattern, n - 1)
  }

  lemma {:induction false} RFindIs(s: string, pattern: string, n: nat)
    ensures var r := RFindUpTo(s, pattern, n);
      && (r == -1 || MatchAt(s, pattern, r)) && -1 <= r
      && forall i :: r < i <= n ==> !MatchAt(s, pattern, i)
  {
    if !MatchAt(s, pattern, n) && n > 0 {
      RFindIs(s, pattern, n - 1);
    }
  }

  function LastBoundary(window: string): int {
    Max(Max(RFind(window, "\n\n"), RFind(window, ". ")), RFind(window, "\n"))
  }

  lemma LastBoundaryIs(window: string)
    ensures var b := LastBoundary(window);
      && -1 <= b < |window| + 1
      && (b >= 0 ==> IsBoundary(window, b) && b < |window|)
      && forall i :: b < i ==> !IsBoundary(window, i)
  {
    RFindIs(window, "\n\n", |window|);
    RFindIs(window, ". ", |window|);
    RFindIs(window, "\n", |window|);
  }

  predicate IsBoundary(window: string, i: int) {
    MatchAt(window, "\n\n", i) || MatchAt(window, ". ", i) || MatchAt(window, "\n", i)
  }

  /** A boundary is a line break, or a full stop with a blank after it. */
  lemma BoundaryMeans(window: string, i: int)
    ensures IsBoundary(window, i) <==>
              0 <= i < |window| && (window[i] == '\n' || (window[i] == '.' && i + 1 < |window| && window[i + 1] == ' '))
  {
    if 0 <= i < |window| {
      assert window[i..i + 1] == [window[i]];
      if i + 1 < |window| {
        assert window[i..i + 2] == [window[i], window[i + 1]];
      }
    }
  }

  /** Where the window that starts at `start` ends. */
  function WindowEnd(text: string, start: nat): (end: nat)
    requires start < |text|
    ensures start < end <= |text| && end - start <= TARGET
    ensures end < |text| ==> end - start > MIN
  {
    var end := Min(start + TARGET, |text|);
    if end < |text| then
      var boundary := LastBoundary(text[start..end]);
      LastBoundaryIs(text[start..end]);
      if boundary > MIN then start + boundary + 1 else end
    else end
  }

  /** A full window is cut just after the start of its last boundary, unless no boundary lies far
      enough in; then it is used whole. */
  lemma CutAtLastBoundary(text: string, start: nat)
    requires start + TARGET < |text|
    ensures
      var window, length := text[start..start + TARGET], WindowEnd(text, start) - start;
      || (length - 1 > MIN && IsBoundary(window, length - 1) && forall i :: length - 1 < i ==> !IsBoundary(window, i))
      || (length == TARGET && forall i :: MIN < i ==> !IsBoundary(window, i))
  {
    LastBoundaryIs(text[start..start + TARGET]);
  }

  lemma MatchInWindow(text: string, from: nat, to: nat, pattern: string, i: int)
    requires from <= to <= |text| && 0 <= i
    ensures MatchAt(text[from..to], pattern, i) <==> from + i + |pattern| <= to && MatchAt(text, pattern, from + i)
  {
    if from + i + |pattern| <= to {
      SliceOfSlice(text, from, to, i, i + |pattern|);
    }
  }

  lemma SliceOfSlice(s: string, a: nat, b: nat, i: nat, j: nat)
    requires a <= b <= |s| && i <= j <= b - a
    ensures s[a..b][i..j] == s[a + i..a + j]
  {
    var left, right := s[a..b][i..j], s[a + i..a + j];
    assert |left| == |right|;
    forall k | 0 <= k < |left| ensures left[k] == right[k] {
      assert s[a..b][i + k] == s[a + i + k];
    }
  }

  /** A boundary of one window is a boundary of any other window that contains it whole. */
  lemma SharedBoundary(text: string, a: nat, b: nat, c: nat, d: nat, at: int)
    requires a <= b <= |text| && c <= d <= |text| && a <= at && c <= at
    requires IsBoundary(text[a..b], at - a) && (b <= d || at + 2 <= d)
    ensures IsBoundary(text[c..d], at - c)
  {
    MatchInWindow(text, a, b, "\n\n", at - a);
    MatchInWindow(text, a, b, ". ", at - a);
    MatchInWindow(text, a, b, "\n", at - a);
    MatchInWindow(text, c, d, "\n\n", at - c);
    MatchInWindow(text, c, d, ". ", at - c);
    MatchInWindow(text, c, d, "\n", at - c);
  }

  /** Cutting at the last boundary never moves the end backwards: a boundary that ended one window
      is still visible in the next, and a window with none has none to offer the next one either. */
  lemma EndNeverRetreats(text: string, start: nat, next: nat)
    requires start < next < |text| && WindowEnd(text, start) < |text|
    requires next == Max(WindowEnd(text, start) - OVERLAP, start + 1)
    ensures WindowEnd(text, start) <= WindowEnd(text, next)
  {
    var end, to := WindowEnd(text, start), Min(next + TARGET, |text|);
    assert start + TARGET < |text|;
    var boundary, later := LastBoundary(text[start..start + TARGET]), LastBoundary(text[next..to]);
    LastBoundaryIs(text[start..start + TARGET]);
    LastBoundaryIs(text[next..to]);
    if boundary > MIN {
      SharedBoundary(text, start, start + TARGET, next, to, start + boundary);
      assert later >= start + boundary - next;
    } else if later > MIN && next + later + 1 < end {
      SharedBoundary(text, next, to, start, start + TARGET, next + later);
      assert false;
    }
  }

  // ----- the loop -----------------------------------------------------------

  /** `next` is where the loop goes on after a range. */
  function NextStart(r: Range): int {
    Max(r.end - OVERLAP, r.start + 1)
  }

  /** The ranges start at 0, end where their windows are cut, and follow one another. */
  ghost predicate Walk(text: string, ranges: seq<Range>) {
    && (ranges != [] ==> ranges[0].start == 0)
    && (forall i :: 0 <= i < |ranges| ==>
          ranges[i].start < |text| && ranges[i].end == WindowEnd(text, ranges[i].start))
    && (forall i :: 0 <= i < |ranges| - 1 ==>
          ranges[i].end < |text| && ranges[i + 1].start == NextStart(ranges[i]))
  }

  /** The ranges advance, never retreat, leave no gap, overlap by at most OVERLAP and never exceed
      TARGET. */
  ghost predicate Chain(ranges: seq<Range>) {
    && (ranges != [] ==> ranges[0].start == 0)
    && (forall i :: 0 <= i < |ranges| ==> ranges[i].start < ranges[i].end <= ranges[i].start + TARGET)
    && (forall i :: 0 <= i < |ranges| - 1 ==>
          && ranges[i].start < ranges[i + 1].start <= ranges[i].end
          && ranges[i].end <= ranges[i + 1].end
          && ranges[i].end - ranges[i + 1].start <= OVERLAP)
  }

  lemma WalkIsChain(text: string, ranges: seq<Range>)
    requires Walk(text, ranges)
    ensures Chain(ranges) && Within(text, ranges)
  {
    forall i | 0 <= i < |ranges| - 1 ensures ranges[i].end <= ranges[i + 1].end {
      EndNeverRetreats(text, ranges[i].start, ranges[i + 1].start);
    }
  }

  function Body(text: string, r: Range, ws: char -> bool): string
    requires r.start <= r.end <= |text|
  {
    Strip(text[r.start..r.end], ws)
  }

  /** Which ranges are emitted, and as what. */
  function Emitted(text: string, ranges: seq<Range>, ws: char -> bool): (r: seq<Chunk>)
    requires Within(text, ranges)
  {
    if ranges == [] then []
    else
      var last := ranges[|ranges| - 1];
      var earlier := Emitted(text, ranges[..|ranges| - 1], ws);
      if Body(text, last, ws) == "" then earlier
      else earlier + [Chunk(|earlier|, Body(text, last, ws), last.start, last.end)]
  }

  lemma EmittedStep(text: string, ranges: seq<Range>, r: Range, ws: char -> bool)
    requires Within(text, ranges) && r.start <= r.end <= |text|
    ensures Within(text, ranges + [r])
    ensures
      var earlier := Emitted(text, ranges, ws);
      Emitted(text, ranges + [r], ws) ==
        if Body(text, r, ws) == "" then earlier
        else earlier + [Chunk(|earlier|, Body(text, r, ws), r.start, r.end)]
  {
    assert (ranges + [r])[..|ranges|] == ranges;
  }

  predicate Within(text: string, ranges: seq<Range>) {
    forall i :: 0 <= i < |ranges| ==> ranges[i].start <= ranges[i].end <= |text|
  }

  /** The loop has looked at `ranges` and is about to look at a window from `start`. */
  ghost predicate Looked(text: string, ranges: seq<Range>, start: nat) {
    && Walk(text, ranges) && Within(text, ranges) && start < |text|
    && (if ranges == [] then start == 0
        else ranges[|ranges| - 1].end < |text| && start == NextStart(ranges[|ranges| - 1]))
  }

  lemma LookedStep(text: string, ranges: seq<Range>, start: nat)
    requires Looked(text, ranges, start)
    ensures
      var r := Range(start, WindowEnd(text, start));
      && Walk(text, ranges + [r]) && Within(text, ranges + [r])
      && (r.end < |text| ==> Looked(text, ranges + [r], NextStart(r)))
  {
  }

  /** The ranges from a start on. */
  function RangesFrom(text: string, start: nat): seq<Range>
    requires start < |text|
    decreases |text| - start
  {
    var r := Range(start, WindowEnd(text, start));
    [r] + if r.end < |text| then RangesFrom(text, NextStart(r)) else []
  }

  function AllRanges(text: string): seq<Range> {
    if text == "" then [] else RangesFrom(text, 0)
  }

  lemma {:induction false} WalkGoesOn(text: string, ranges: seq<Range>, start: nat)
    requires Looked(text, ranges, start)
    ensures
      var all := ranges + RangesFrom(text, start);
      Walk(text, all) && all[|all| - 1].end == |text|
    decreases |text| - start
  {
    LookedStep(text, ranges, start);
    var r := Range(start, WindowEnd(text, start));
    if r.end < |text| {
      WalkGoesOn(text, ranges + [r], NextStart(r));
      Associative(ranges, [r], RangesFrom(text, NextStart(r)));
    } else {
      assert [r] + [] == [r];
    }
  }

  lemma RangesWalk(text: string)
    requires text != ""
    ensures var ranges := RangesFrom(text, 0); Walk(text, ranges) && ranges[|ranges| - 1].end == |text|
  {
    WalkGoesOn(text, [], 0);
    assert [] + RangesFrom(text, 0) == RangesFrom(text, 0);
  }

  /** The loop walks the text to its end: no gap, bounded overlap, bounded length, ends in order. */
  lemma RangesAreChain(text: string)
    ensures Chain(AllRanges(text)) && Within(text, AllRanges(text))
    ensures text == "" <==> AllRanges(text) == []
    ensures text != "" ==> AllRanges(text)[|AllRanges(text)| - 1].end == |text|
    ensures forall r :: r in AllRanges(text) ==> r.end - r.start <= 4000 && (r.end < |text| ==> r.end - r.start > 400)
    ensures forall i :: 0 <= i < |AllRanges(text)| - 1 ==> AllRanges(text)[i].end - AllRanges(text)[i + 1].start <= 500
  {
    if text != "" {
      RangesWalk(text);
      WalkIsChain(text, RangesFrom(text, 0));
    }
  }

  /** Chunks of the stripped text. */
  method ChunkText(given: string, ws: char -> bool) returns (chunks: seq<Chunk>)
    ensures Within(Strip(given, ws), AllRanges(Strip(given, ws)))
    ensures chunks == Emitted(Strip(given, ws), AllRanges(Strip(given, ws)), ws)
  {
    var text := Strip(given, ws);
    RangesAreChain(text);
    if |text| == 0 {
      return [];
    }
    chunks := Chunks(text, ws);
  }

  /** The loop has looked at the first of all ranges and the rest lie ahead. */
  ghost predicate Ahead(text: string, ranges: seq<Range>, start: nat) {
    Looked(text, ranges, start) && ranges + RangesFrom(text, start) == AllRanges(text)
  }

  lemma AheadStep(text: string, ranges: seq<Range>, start: nat)
    requires Ahead(text, ranges, start)
    ensures
      var r := Range(start, WindowEnd(text, start));
      && Within(text, ranges + [r])
      && if r.end < |text| then Ahead(text, ranges + [r], NextStart(r)) else ranges + [r] == AllRanges(text)
  {
    LookedStep(text, ranges, start);
    var r := Range(start, WindowEnd(text, start));
    if r.end < |text| {
      Associative(ranges, [r], RangesFrom(text, NextStart(r)));
    } else {
      assert [r] + [] == [r];
    }
  }

  method Chunks(text: string, ws: char -> bool) returns (chunks: seq<Chunk>)
    requires text != ""
    ensures Within(text, AllRanges(text)) && chunks == Emitted(text, AllRanges(text), ws)
  {
    chunks := [];
    ghost var ranges: seq<Range> := [];
    var start := 0;
    var ordinal := 0;
    assert [] + RangesFrom(text, 0) == AllRanges(text);
    while start < |text|
      invariant Ahead(text, ranges, start) && ordinal == |chunks|
      invariant chunks == Emitted(text, ranges, ws)
      decreases |text| - start
    {
      var end := WindowEnd(text, start);
      var body := Strip(text[start..end], ws);
      AheadStep(text, ranges, start);
      EmittedStep(text, ranges, Range(start, end), ws);
      ranges := ranges + [Range(start, end)];
      if body != "" {
        chunks := chunks + [Chunk(ordinal, body, start, end)];
        ordinal := ordinal + 1;
      }
      if end >= |text| {
        return;
      }
      start := Max(end - OVERLAP, start + 1);
    }
    assert false;
  }

  // ----- offsets ------------------------------------------------------------

  /** Chunk positions count from the first character that is not white space. */
  lemma OffsetsShift(given: string, ws: char -> bool, from: nat, to: nat)
    requires from <= to <= |Strip(given, ws)|
    ensures Leading(given, ws) + to <= |given|
    ensures given[Leading(given, ws) + from..Leading(given, ws) + to] == Strip(given, ws)[from..to]
  {
    StripIs(given, ws);
  }

  /** They are positions in the full text exactly when it does not start with white space, or is blank. */
  lemma OffsetsAgreeIff(given: string, ws: char -> bool)
    ensures |Strip(given, ws)| <= |given|
    ensures (forall i :: 0 <= i < |Strip(given, ws)| ==> Strip(given, ws)[i] == given[i]) <==>
              Strip(given, ws) == "" || !ws(given[0])
  {
    StripIs(given, ws);
    StripLeftIs(given, ws);
  }

  // ----- what the chain guarantees ------------------------------------------

  ghost predicate IsEmission(text: string, ranges: seq<Range>, ws: char -> bool, c: Chunk) {
    && c.charFrom <= c.charTo <= |text| && c.text != ""
    && Range(c.charFrom, c.charTo) in ranges
    && exists from, to :: IsTrimmed(text, c, ws, from, to)
  }

  /** The text of the chunk is the part of its range from its first to its last character that is not
      white space. */
  ghost predicate IsTrimmed(text: string, c: Chunk, ws: char -> bool, from: nat, to: nat) {
    && c.charFrom <= from < to <= c.charTo <= |text| && c.text == text[from..to]
    && !ws(text[from]) && !ws(text[to - 1])
    && (forall i :: c.charFrom <= i < from ==> ws(text[i])) && (forall i :: to <= i < c.charTo ==> ws(text[i]))
  }

  lemma BodyIsTrimmed(text: string, ws: char -> bool, c: Chunk)
    requires c.charFrom <= c.charTo <= |text| && c.text == Body(text, Range(c.charFrom, c.charTo), ws) && c.text != ""
    ensures exists from, to :: IsTrimmed(text, c, ws, from, to)
  {
    hide Strip, Leading;
    var window := text[c.charFrom..c.charTo];
    StripIs(window, ws);
    var from := c.charFrom + Leading(window, ws);
    assert forall i :: c.charFrom <= i < c.charTo ==> text[i] == window[i - c.charFrom];
    assert text[from..from + |c.text|] == c.text;
    assert IsTrimmed(text, c, ws, from, from + |c.text|);
  }

  /** Ordinals count the chunks, and each chunk is the stripped text of one of the ranges. */
  lemma {:induction false} EmittedChunks(text: string, ranges: seq<Range>, ws: char -> bool)
    requires Within(text, ranges)
    ensures forall k :: 0 <= k < |Emitted(text, ranges, ws)| ==>
              Emitted(text, ranges, ws)[k].ordinal == k && IsEmission(text, ranges, ws, Emitted(text, ranges, ws)[k])
  {
    if ranges != [] {
      var init, last := ranges[..|ranges| - 1], ranges[|ranges| - 1];
      assert ranges == init + [last];
      EmittedStep(text, init, last, ws);
      EmittedChunks(text, init, ws);
      var earlier, all := Emitted(text, init, ws), Emitted(text, ranges, ws);
      forall k | 0 <= k < |all| ensures all[k].ordinal == k && IsEmission(text, ranges, ws, all[k]) {
        if k < |earlier| {
          assert all[k] == earlier[k] && IsEmission(text, init, ws, earlier[k]);
        } else {
          BodyIsTrimmed(text, ws, all[k]);
        }
      }
    }
  }

  function RangeOf(c: Chunk): Range {
    Range(c.charFrom, c.charTo)
  }

  /** `sources` tells for every chunk, in order, the index of the range it was emitted from. */
  ghost predicate AreSources(chunks: seq<Chunk>, ranges: seq<Range>, sources: seq<nat>) {
    && |sources| == |chunks|
    && (forall k :: 0 <= k < |chunks| ==> sources[k] < |ranges| && ranges[sources[k]] == RangeOf(chunks[k]))
    && (forall j, k :: 0 <= j < k < |sources| ==> sources[j] < sources[k])
  }

  lemma {:induction false} EmittedSources(text: string, ranges: seq<Range>, ws: char -> bool) returns (sources: seq<nat>)
    requires Within(text, ranges)
    ensures AreSources(Emitted(text, ranges, ws), ranges, sources)
  {
    hide Body;
    if ranges == [] {
      sources := [];
    } else {
      var init, last := ranges[..|ranges| - 1], ranges[|ranges| - 1];
      sources := EmittedSources(text, init, ws);
      if Body(text, last, ws) != "" {
        sources := sources + [|init|];
      }
    }
  }

  /** The chunks keep the order of the ranges. */
  lemma EmittedOrdered(text: string, ranges: seq<Range>, ws: char -> bool, j: nat, k: nat)
    requires Within(text, ranges) && Chain(ranges) && j < k < |Emitted(text, ranges, ws)|
    ensures Emitted(text, ranges, ws)[j].charFrom < Emitted(text, ranges, ws)[k].charFrom
    ensures Emitted(text, ranges, ws)[j].charTo <= Emitted(text, ranges, ws)[k].charTo
  {
    var sources := EmittedSources(text, ranges, ws);
    ChainGrows(ranges, sources[j], sources[k]);
  }

  lemma {:induction false} ChainGrows(ranges: seq<Range>, i: nat, j: nat)
    requires Chain(ranges) && i < j < |ranges|
    ensures ranges[i].start < ranges[j].start && ranges[i].end <= ranges[j].end
    decreases j
  {
    if i < j - 1 {
      ChainGrows(ranges, i, j - 1);
    }
    assert ranges[j - 1].start < ranges[(j - 1) + 1].start;
  }

  /** No character that is not white space is lost: it lies inside the range of some chunk. */
  lemma EveryCharacterCovered(text: string, ranges: seq<Range>, ws: char -> bool, at: nat)
    requires Within(text, ranges) && Chain(ranges)
    requires ranges != [] && ranges[|ranges| - 1].end == |text|
    requires at < |text| && !ws(text[at])
    ensures exists k :: 0 <= k < |Emitted(text, ranges, ws)|
                        && Emitted(text, ranges, ws)[k].charFrom <= at < Emitted(text, ranges, ws)[k].charTo
  {
    var i := RangeAround(ranges, at);
    var r := ranges[i];
    StripEmptyIff(text[r.start..r.end], ws);
    assert text[r.start..r.end][at - r.start] == text[at];
    EmittedKeeps(text, ranges, ws, i);
  }

  lemma {:induction false} RangeAround(ranges: seq<Range>, at: nat) returns (i: nat)
    requires Chain(ranges) && ranges != [] && at < ranges[|ranges| - 1].end
    ensures i < |ranges| && ranges[i].start <= at < ranges[i].end
  {
    i := |ranges| - 1;
    if at < ranges[i].start {
      assert ranges[i - 1].start < ranges[(i - 1) + 1].start <= ranges[i - 1].end;
      i := RangeAround(ranges[..i], at);
    }
  }

  lemma {:induction false} EmittedKeeps(text: string, ranges: seq<Range>, ws: char -> bool, i: nat)
    requires Within(text, ranges) && i < |ranges|
    requires Body(text, ranges[i], ws) != ""
    ensures exists k :: 0 <= k < |Emitted(text, ranges, ws)|
                        && Emitted(text, ranges, ws)[k].charFrom == ranges[i].start
                        && Emitted(text, ranges, ws)[k].charTo == ranges[i].end
  {
    var init := ranges[..|ranges| - 1];
    var earlier, all := Emitted(text, init, ws), Emitted(text, ranges, ws);
    assert ranges == init + [ranges[|ranges| - 1]];
    EmittedStep(text, init, ranges[|ranges| - 1], ws);
    if i < |init| {
      EmittedKeeps(text, init, ws, i);
      var k :| 0 <= k < |earlier| && earlier[k].charFrom == ranges[i].start && earlier[k].charTo == ranges[i].end;
      assert all[k] == earlier[k];
    } else {
      assert all[|earlier|].charFrom == ranges[i].start;
    }
  }
}
