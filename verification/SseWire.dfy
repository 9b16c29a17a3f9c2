/** The event stream between gateway and browser: the writer that frames each event, and the
    incremental parser that cuts frames out of whatever pieces the network delivers. JSON decoding
    is a parameter; text is taken after UTF-8 decoding. */
module SseWire {

  import opened Basics
  import opened Text

  // ----- framing ------------------------------------------------------------

  predicate BreakAt(s: string, i: int) {
    0 <= i && i + 1 < |s| && s[i] == '\n' && s[i + 1] == '\n'
  }

  /** Index of the first blank-line boundary at or after `from`, or -1. */
  function BoundaryFrom(s: string, from: nat): (b: int)
    requires from <= |s|
    ensures b == -1 || (from <= b && BreakAt(s, b))
    decreases |s| - from
  {
    if from + 1 >= |s| then -1
    else if BreakAt(s, from) then from
    else BoundaryFrom(s, from + 1)
  }

  function Boundary(s: string): (b: int)
    ensures b == -1 || BreakAt(s, b)
  {
    BoundaryFrom(s, 0)
  }

  lemma {:induction false} FirstBreak(s: string, from: nat)
    requires from <= |s|
    ensures forall i :: from <= i && (BoundaryFrom(s, from) == -1 || i < BoundaryFrom(s, from)) ==> !BreakAt(s, i)
    decreases |s| - from
  {
    if from + 1 < |s| && !BreakAt(s, from) {
      FirstBreak(s, from + 1);
    }
  }

  lemma BoundaryIs(s: string, b: int)
    requires BreakAt(s, b) && forall i :: 0 <= i < b ==> !BreakAt(s, i)
    ensures Boundary(s) == b
  {
    FirstBreak(s, 0);
  }

  /** The boundary is a blank line, and none comes before it. */
  lemma BoundaryIsFirst(s: string, i: nat)
    ensures Boundary(s) >= 0 ==> Boundary(s) + 2 <= |s| && s[Boundary(s)..Boundary(s) + 2] == "\n\n"
    ensures i + 2 <= |s| && s[i..i + 2] == "\n\n" ==> 0 <= Boundary(s) <= i
  {
    FirstBreak(s, 0);
    if i + 2 <= |s| {
      assert s[i..i + 2] == [s[i], s[i + 1]];
      assert s[i..i + 2] == "\n\n" ==> BreakAt(s, i);
    }
  }

  /** The complete frames of a text, and the incomplete text after the last of them. */
  function Frames(s: string): seq<string>
    decreases |s|
  {
    var b := Boundary(s);
    if b == -1 then [] else [s[..b]] + Frames(s[b + 2..])
  }

  function Rest(s: string): string
    decreases |s|
  {
    var b := Boundary(s);
    if b == -1 then s else Rest(s[b + 2..])
  }

  /** Frames can be cut out piecemeal: what is left of the first piece is carried over. */
  lemma {:induction false} FramesAppend(a: string, b: string)
    ensures Frames(a + b) == Frames(a) + Frames(Rest(a) + b)
    ensures Rest(a + b) == Rest(Rest(a) + b)
    decreases |a|
  {
    if Boundary(a) == -1 {
      assert Frames(a) == [] && Rest(a) == a;
    } else {
      BoundaryStays(a, b);
      var later := a[Boundary(a) + 2..];
      FramesAppend(later, b);
      Associative([a[..Boundary(a)]], Frames(later), Frames(Rest(later) + b));
    }
  }

  lemma BoundaryStays(a: string, b: string)
    requires Boundary(a) != -1
    ensures Boundary(a + b) == Boundary(a)
    ensures (a + b)[..Boundary(a)] == a[..Boundary(a)] && (a + b)[Boundary(a) + 2..] == a[Boundary(a) + 2..] + b
  {
    var c := Boundary(a);
    FirstBreak(a, 0);
    forall i | 0 <= i < c ensures !BreakAt(a + b, i) {
      assert !BreakAt(a, i);
    }
    BoundaryIs(a + b, c);
  }

  // ----- lines and fields ---------------------------------------------------

  /** White space as the browser's trimming functions see it. */
  predicate IsSpace(c: char) {
    || c in {'\t', '\n', '\U{000B}', '\U{000C}', '\r', ' ', '\U{00A0}', '\U{1680}'}
    || '\U{2000}' <= c <= '\U{200A}'
    || c in {'\U{2028}', '\U{2029}', '\U{202F}', '\U{205F}', '\U{3000}', '\U{FEFF}'}
  }

  function TrimStart(s: string): string {
    StripLeft(s, IsSpace)
  }

  function Trim(s: string): string {
    Strip(s, IsSpace)
  }

  predicate NewlineFree(s: string) {
    '\n' !in s
  }

  function Lines(s: string): seq<string> {
    SplitLines(s, "")
  }

  function SplitLines(s: string, line: string): seq<string>
    decreases |s|
  {
    if s == "" then [line]
    else if s[0] == '\n' then [line] + SplitLines(s[1..], "")
    else SplitLines(s[1..], line + [s[0]])
  }

  const EVENT_FIELD := "event:"
  const DATA_FIELD := "data:"

  /** The value of the last event field. */
  function EventName(lines: seq<string>): string {
    if lines == [] then ""
    else
      var last := lines[|lines| - 1];
      if EVENT_FIELD <= last then Trim(last[6..]) else EventName(lines[..|lines| - 1])
  }

  /** The values of all data fields that are not event fields. */
  function DataLines(lines: seq<string>): seq<string> {
    if lines == [] then []
    else
      var last := lines[|lines| - 1];
      var earlier := DataLines(lines[..|lines| - 1]);
      if !(EVENT_FIELD <= last) && DATA_FIELD <= last then earlier + [TrimStart(last[5..])] else earlier
  }

  // ----- events -------------------------------------------------------------

  datatype AskEvent<J> = Received(kind: string, data: J) | IdleTimeout

  const KINDS := {"plan", "evidence", "answer.delta", "answer.done", "error"}

  function Decode<J>(kind: string, text: string, json: string -> Option<J>): Option<AskEvent<J>> {
    if kind == "" || json(text).None? || kind !in KINDS then None
    else Some(Received(kind, json(text).value))
  }

  /** What a frame means. */
  function FrameEvent<J>(frame: string, json: string -> Option<J>): Option<AskEvent<J>> {
    var lines := Lines(frame);
    if DataLines(lines) == [] then None else Decode(EventName(lines), Join(DataLines(lines), '\n'), json)
  }

  method ParseFrame<J>(frame: string, json: string -> Option<J>) returns (r: Option<AskEvent<J>>)
    ensures r == FrameEvent(frame, json)
  {
    var event := "";
    var dataLines: seq<string> := [];
    var lines := Lines(frame);
    for i := 0 to |lines|
      invariant event == EventName(lines[..i]) && dataLines == DataLines(lines[..i])
    {
      assert lines[..i + 1][..i] == lines[..i];
      var line := lines[i];
      if EVENT_FIELD <= line {
        event := Trim(line[6..]);
      } else if DATA_FIELD <= line {
        dataLines := dataLines + [TrimStart(line[5..])];
      }
    }
    assert lines[..|lines|] == lines;
    if event == "" || |dataLines| == 0 {
      return None;
    }
    var data := json(Join(dataLines, '\n'));
    if data.None? {
      return None;
    }
    if event !in KINDS {
      return None;
    }
    return Some(Received(event, data.value));
  }

  function Present<J>(r: Option<AskEvent<J>>): seq<AskEvent<J>> {
    if r.Some? then [r.value] else []
  }

  function FrameEvents<J>(frames: seq<string>, json: string -> Option<J>): seq<AskEvent<J>> {
    if frames == [] then []
    else Present(FrameEvent(frames[0], json)) + FrameEvents(frames[1..], json)
  }

  /** The events of a whole text. */
  function Events<J>(s: string, json: string -> Option<J>): seq<AskEvent<J>> {
    FrameEvents(Frames(s), json)
  }

  lemma {:induction false} FrameEventsAppend<J>(a: seq<string>, b: seq<string>, json: string -> Option<J>)
    ensures FrameEvents(a + b, json) == FrameEvents(a, json) + FrameEvents(b, json)
  {
    hide FrameEvent;
    if a == [] {
      assert a + b == b;
    } else {
      var first, later := Present(FrameEvent(a[0], json)), FrameEvents(b, json);
      assert (a + b)[0] == a[0] && (a + b)[1..] == a[1..] + b;
      FrameEventsAppend(a[1..], b, json);
      assert first + (FrameEvents(a[1..], json) + later) == first + FrameEvents(a[1..], json) + later;
    }
  }

  /** One read from the network. */
  datatype Read = Chunk(text: string) | Done | TimedOut | Aborted

  /** The text received before the first read that is not a chunk. */
  function TextOf(pieces: seq<Read>): string {
    if pieces == [] || !pieces[0].Chunk? then "" else pieces[0].text + TextOf(pieces[1..])
  }

  function Ending(pieces: seq<Read>): Read {
    if pieces == [] then Done else if pieces[0].Chunk? then Ending(pieces[1..]) else pieces[0]
  }

  /** The inner loop: yields the events of the complete frames and keeps the rest in the buffer. */
  method CutFrames<J>(text: string, json: string -> Option<J>) returns (events: seq<AskEvent<J>>, buffer: string)
    ensures events == Events(text, json) && buffer == Rest(text)
  {
    events, buffer := [], text;
    var boundary := Boundary(buffer);
    while boundary != -1
      invariant boundary == Boundary(buffer)
      invariant events + Events(buffer, json) == Events(text, json)
      invariant Rest(buffer) == Rest(text)
      decreases |buffer|
    {
      FirstEvent(buffer, json);
      var frame := buffer[..boundary];
      buffer := buffer[boundary + 2..];
      var event := ParseFrame(frame, json);
      Associative(events, Present(event), Events(buffer, json));
      if event.Some? {
        events := events + [event.value];
      } else {
        assert events + Present(event) == events;
      }
      boundary := Boundary(buffer);
    }
  }

  lemma FirstEvent<J>(text: string, json: string -> Option<J>)
    requires Boundary(text) != -1
    ensures var b := Boundary(text);
            && Events(text, json) == Present(FrameEvent(text[..b], json)) + Events(text[b + 2..], json)
            && Rest(text) == Rest(text[b + 2..])
  {
    var b := Boundary(text);
    var later := Frames(text[b + 2..]);
    assert ([text[..b]] + later)[1..] == later;
  }

  /** The incremental parser. The events are those of the text received, however it was cut into
      chunks; a timeout adds one error event, and an abort is reported to the caller. */
  method ParseSSE<J>(pieces: seq<Read>, json: string -> Option<J>) returns (events: seq<AskEvent<J>>, aborted: bool)
    ensures events == Events(TextOf(pieces), json) + if Ending(pieces).TimedOut? then [IdleTimeout] else []
    ensures aborted <==> Ending(pieces).Aborted?
  {
    events := [];
    var buffer := "";
    ghost var received := "";
    var n := 0;
    aborted := false;
    while n < |pieces| && pieces[n].Chunk?
      invariant n <= |pieces|
      invariant events == Events(received, json) && buffer == Rest(received)
      invariant received + TextOf(pieces[n..]) == TextOf(pieces) && Ending(pieces[n..]) == Ending(pieces)
    {
      assert pieces[n..][1..] == pieces[n + 1..];
      FramesAppend(received, pieces[n].text);
      Associative(received, pieces[n].text, TextOf(pieces[n + 1..]));
      FrameEventsAppend(Frames(received), Frames(buffer + pieces[n].text), json);
      received := received + pieces[n].text;
      buffer := buffer + pieces[n].text;
      n := n + 1;
      var more;
      more, buffer := CutFrames(buffer, json);
      events := events + more;
    }
    assert TextOf(pieces[n..]) == "" && received + "" == received;
    if n < |pieces| && pieces[n].TimedOut? {
      events := events + [IdleTimeout];
    }
    aborted := n < |pieces| && pieces[n].Aborted?;
  }

  // ----- the writer and the round trip --------------------------------------

  /** The two lines of a frame. */
  function FrameText(kind: string, payload: string): string {
    "event: " + kind + "\n" + "data: " + payload
  }

  function Written(kind: string, payload: string): string {
    FrameText(kind, payload) + "\n\n"
  }

  datatype Message = Message(kind: string, payload: string)

  /** The kinds of message the gateway forwards. */
  const FORWARDED := {"plan", "evidence", "answer.delta", "answer.done"}

  function Stream(messages: seq<Message>): string {
    if messages == [] then ""
    else
      var last := messages[|messages| - 1];
      Stream(messages[..|messages| - 1]) + if last.kind in FORWARDED then Written(last.kind, last.payload) else ""
  }

  /** The gateway's loop over the answer stream; a failure is written as an error event. */
  method WriteStream(messages: seq<Message>, failure: Option<string>) returns (out: string)
    ensures out == Response(messages, failure)
  {
    out := "";
    for i := 0 to |messages|
      invariant out == Stream(messages[..i])
    {
      assert messages[..i + 1][..i] == messages[..i];
      match messages[i].kind
      case "plan" => out := out + Written("plan", messages[i].payload);
      case "evidence" => out := out + Written("evidence", messages[i].payload);
      case "answer.delta" => out := out + Written("answer.delta", messages[i].payload);
      case "answer.done" => out := out + Written("answer.done", messages[i].payload);
      case _ =>
    }
    assert messages[..|messages|] == messages;
    if failure.Some? {
      out := out + Written("error", failure.value);
    }
  }

  /** The events a list of messages stands for. */
  function Meant<J>(messages: seq<Message>, json: string -> Option<J>): seq<AskEvent<J>> {
    if messages == [] then []
    else
      var last := messages[|messages| - 1];
      Meant(messages[..|messages| - 1], json) +
        if last.kind in FORWARDED then Present(Decode(last.kind, TrimStart(last.payload), json)) else []
  }

  lemma {:induction false} SplitLine(line: string, rest: string, prefix: string)
    requires NewlineFree(line)
    ensures SplitLines(line + "\n" + rest, prefix) == [prefix + line] + SplitLines(rest, "")
    ensures SplitLines(line, prefix) == [prefix + line]
    decreases |line|
  {
    var s := line + "\n" + rest;
    if line == "" {
      assert s[0] == '\n' && s[1..] == rest && prefix + line == prefix;
    } else {
      assert s[0] == line[0] && s[1..] == line[1..] + "\n" + rest;
      SplitLine(line[1..], rest, prefix + [line[0]]);
      assert prefix + [line[0]] + line[1..] == prefix + line;
    }
  }

  lemma FrameLines(kind: string, payload: string)
    requires NewlineFree(kind) && NewlineFree(payload)
    ensures Lines(FrameText(kind, payload)) == ["event: " + kind, "data: " + payload]
  {
    var first, second := "event: " + kind, "data: " + payload;
    assert FrameText(kind, payload) == first + "\n" + second;
    SplitLine(first, second, "");
    SplitLine(second, "", "");
    assert "" + first == first && "" + second == second;
  }

  lemma FieldsOf(first: string, second: string)
    requires EVENT_FIELD <= first && DATA_FIELD <= second && second[0] == 'd'
    ensures EventName([first, second]) == Trim(first[6..])
    ensures DataLines([first, second]) == [TrimStart(second[5..])]
  {
    var lines := [first, second];
    assert lines[..1] == [first] && [first][..0] == [];
    assert DataLines([first]) == [];
    assert !(EVENT_FIELD <= second);
  }

  lemma SkipSpace(text: string)
    ensures TrimStart(" " + text) == TrimStart(text)
  {
    assert (" " + text)[1..] == text;
  }

  /** What the parser makes of one written frame. */
  lemma WrittenFrame<J>(kind: string, payload: string, json: string -> Option<J>)
    requires NewlineFree(kind) && NewlineFree(payload)
    ensures FrameEvent(FrameText(kind, payload), json) == Decode(Trim(kind), TrimStart(payload), json)
  {
    FrameLines(kind, payload);
    var first, second := "event: " + kind, "data: " + payload;
    FieldsOf(first, second);
    assert first[6..] == " " + kind && second[5..] == " " + payload;
    SkipSpace(kind);
    SkipSpace(payload);
  }

  lemma OneNewline(kind: string, payload: string)
    requires NewlineFree(kind) && NewlineFree(payload)
    ensures forall i :: 0 <= i < |FrameText(kind, payload)| && FrameText(kind, payload)[i] == '\n' ==>
              i + 1 < |FrameText(kind, payload)| && FrameText(kind, payload)[i + 1] == 'd'
  {
    var first, second, frame := "event: " + kind, "data: " + payload, FrameText(kind, payload);
    assert NewlineFree(first) && NewlineFree(second) && frame == first + "\n" + second;
    forall i | 0 <= i < |frame| && i != |first| ensures frame[i] != '\n' {
      if i < |first| {
        assert frame[i] == first[i];
      } else {
        assert frame[i] == second[i - |first| - 1];
      }
    }
    assert frame[|first| + 1] == second[0];
  }

  /** A written event is cut out as one frame, whatever follows it. */
  lemma WrittenFirst(kind: string, payload: string, rest: string)
    requires NewlineFree(kind) && NewlineFree(payload)
    ensures Frames(Written(kind, payload) + rest) == [FrameText(kind, payload)] + Frames(rest)
    ensures Rest(Written(kind, payload) + rest) == Rest(rest)
  {
    var frame := FrameText(kind, payload);
    var s := Written(kind, payload) + rest;
    OneNewline(kind, payload);
    forall i | 0 <= i < |frame| ensures !BreakAt(s, i) {
      assert s[i] == frame[i];
      if frame[i] == '\n' {
        assert s[i + 1] == frame[i + 1];
      }
    }
    BoundaryIs(s, |frame|);
    assert s[..|frame|] == frame && s[|frame| + 2..] == rest;
  }

  /** The round trip: reading what was written gives exactly the events meant, in order, and
      nothing stays in the buffer. */
  lemma {:induction false} StreamRoundTrip<J>(messages: seq<Message>, json: string -> Option<J>)
    requires forall m :: m in messages ==> NewlineFree(m.payload)
    ensures Events(Stream(messages), json) == Meant(messages, json)
    ensures Rest(Stream(messages)) == ""
  {
    if messages != [] {
      var init, last := messages[..|messages| - 1], messages[|messages| - 1];
      StreamRoundTrip(init, json);
      assert last in messages;
      if last.kind in FORWARDED {
        TrimForwarded(last.kind);
        OneMore(Stream(init), last.kind, last.payload, json);
        assert Stream(messages) == Stream(init) + Written(last.kind, last.payload);
      } else {
        assert Stream(messages) == Stream(init) && Meant(messages, json) == Meant(init, json);
      }
    }
  }

  lemma OneMore<J>(sofar: string, kind: string, payload: string, json: string -> Option<J>)
    requires NewlineFree(kind) && NewlineFree(payload) && Rest(sofar) == ""
    ensures Events(sofar + Written(kind, payload), json) ==
              Events(sofar, json) + Present(Decode(Trim(kind), TrimStart(payload), json))
    ensures Rest(sofar + Written(kind, payload)) == ""
  {
    var frame, more := FrameText(kind, payload), Written(kind, payload);
    WrittenFirst(kind, payload, "");
    assert more + "" == more && "" + more == more;
    WrittenFrame(kind, payload, json);
    OneFrame(sofar, more, frame, json);
  }

  lemma OneFrame<J>(sofar: string, more: string, frame: string, json: string -> Option<J>)
    requires Rest(sofar) == "" && Frames(more) == [frame] + Frames("") && Rest(more) == Rest("")
    ensures Events(sofar + more, json) == Events(sofar, json) + Present(FrameEvent(frame, json))
    ensures Rest(sofar + more) == ""
  {
    FramesAppend(sofar, more);
    assert "" + more == more && Frames("") == [] && [frame] + [] == [frame];
    FrameEventsAppend(Frames(sofar), [frame], json);
    assert [frame][1..] == [];
    assert Present(FrameEvent(frame, json)) + [] == Present(FrameEvent(frame, json));
  }

  lemma TrimForwarded(kind: string)
    requires kind in FORWARDED || kind == "error"
    ensures Trim(kind) == kind && NewlineFree(kind)
  {
  }

  /** A payload that decodes and starts with its first token. */
  ghost predicate Readable<J>(payload: string, json: string -> Option<J>) {
    (payload == "" || !IsSpace(payload[0])) && json(payload).Some?
  }

  /** A message of one of the four kinds that the client waits for, with a readable payload. */
  ghost predicate Intact<J>(m: Message, json: string -> Option<J>) {
    && (m.kind == "plan" || m.kind == "evidence" || m.kind == "answer.delta" || m.kind == "answer.done")
    && Readable(m.payload, json)
  }

  function Whole<J>(m: Message, json: string -> Option<J>): AskEvent<J>
    requires Intact(m, json)
  {
    Received(m.kind, json(m.payload).value)
  }

  /** When every message is intact nothing is lost at all. */
  lemma {:induction false} NothingLost<J>(messages: seq<Message>, json: string -> Option<J>)
    requires forall i :: 0 <= i < |messages| ==> Intact(messages[i], json)
    ensures |Meant(messages, json)| == |messages|
    ensures forall i :: 0 <= i < |messages| ==> Meant(messages, json)[i] == Whole(messages[i], json)
  {
    if messages != [] {
      var init, last := messages[..|messages| - 1], messages[|messages| - 1];
      NothingLost(init, json);
      DecodesWhole(last, json);
    }
  }

  lemma DecodesWhole<J>(m: Message, json: string -> Option<J>)
    requires Intact(m, json)
    ensures Present(Decode(m.kind, TrimStart(m.payload), json)) == [Whole(m, json)]
  {
    TrimForwarded(m.kind);
    assert m.kind in KINDS;
  }

  /** A failure reaches the client: after the events of the messages it sees exactly one error event with
      the payload that was sent. */
  lemma FailureArrives<J>(messages: seq<Message>, payload: string, json: string -> Option<J>)
    requires forall m :: m in messages ==> NewlineFree(m.payload)
    requires NewlineFree(payload) && Readable(payload, json)
    ensures Events(Response(messages, Some(payload)), json) ==
              Events(Response(messages, None), json) + [Received("error", json(payload).value)]
    ensures Rest(Response(messages, Some(payload))) == ""
  {
    StreamRoundTrip(messages, json);
    TrimForwarded("error");
    OneMore(Stream(messages), "error", payload, json);
    assert Response(messages, None) == Stream(messages);
    assert TrimStart(payload) == payload;
  }

  /** The whole story of a request whose payloads are readable: the client sees every message as one
      event, in order, and then the failure, if there is one. */
  lemma EverythingArrives<J>(messages: seq<Message>, failure: Option<string>, json: string -> Option<J>)
    requires forall i :: 0 <= i < |messages| ==> Intact(messages[i], json) && NewlineFree(messages[i].payload)
    requires failure.Some? ==> NewlineFree(failure.value) && Readable(failure.value, json)
    ensures
      var events := Events(Response(messages, failure), json);
      && |events| == |messages| + (if failure.Some? then 1 else 0)
      && (forall i :: 0 <= i < |messages| ==>
            json(messages[i].payload).Some? && events[i] == Received(messages[i].kind, json(messages[i].payload).value))
      && (failure.Some? ==> events[|messages|] == Received("error", json(failure.value).value))
  {
    NothingLost(messages, json);
    StreamRoundTrip(messages, json);
    assert Response(messages, None) == Stream(messages);
    if failure.Some? {
      FailureArrives(messages, failure.value, json);
    }
  }

  /** Messages of other kinds are not sent at all. */
  lemma OtherKindsSkipped(messages: seq<Message>, m: Message)
    requires m.kind !in {"plan", "evidence", "answer.delta", "answer.done"}
    ensures Stream(messages + [m]) == Stream(messages)
  {
    assert (messages + [m])[..|messages|] == messages;
  }

  /** The client never sees an event of another kind than these five. */
  lemma OnlyKnownKinds<J>(frame: string, json: string -> Option<J>)
    ensures FrameEvent(frame, json).Some? ==>
              var e := FrameEvent(frame, json).value;
              && e.Received?
              && (e.kind == "plan" || e.kind == "evidence" || e.kind == "answer.delta" || e.kind == "answer.done"
                  || e.kind == "error")
  {
  }

  /** A frame may spread its payload over several data lines, which are read as lines of one text. */
  lemma DataLinesJoin<J>(kind: string, first: string, second: string, json: string -> Option<J>)
    requires kind in KINDS && NewlineFree(first) && NewlineFree(second)
    requires (first == "" || !IsSpace(first[0])) && (second == "" || !IsSpace(second[0]))
    requires json(first + "\n" + second).Some?
    ensures FrameEvent(FrameText(kind, first) + "\n" + "data: " + second, json) ==
              Some(Received(kind, json(first + "\n" + second).value))
  {
    hide Trim, TrimStart, Decode, Lines, EventName, DataLines;
    var a, b, c := "event: " + kind, "data: " + first, "data: " + second;
    assert FrameText(kind, first) + "\n" + "data: " + second == a + "\n" + (b + "\n" + c);
    FieldLines(kind, first, second);
    ThreeLines(a, b, c);
    FieldsOfThree(a, b, c);
    TrimForwarded(kind);
    DecodeKnown(kind, first + "\n" + second, json);
    assert Join([first, second], '\n') == first + "\n" + second;
  }

  lemma DecodeKnown<J>(kind: string, text: string, json: string -> Option<J>)
    requires kind in KINDS && json(text).Some?
    ensures Decode(kind, text, json) == Some(Received(kind, json(text).value))
  {
  }

  /** The lines of the frame and what their fields hold. */
  lemma FieldLines(kind: string, first: string, second: string)
    requires kind in KINDS && NewlineFree(first) && NewlineFree(second)
    requires (first == "" || !IsSpace(first[0])) && (second == "" || !IsSpace(second[0]))
    ensures
      var a, b, c := "event: " + kind, "data: " + first, "data: " + second;
      && NewlineFree(a) && NewlineFree(b) && NewlineFree(c)
      && Trim(a[6..]) == kind && TrimStart(b[5..]) == first && TrimStart(c[5..]) == second
  {
    var a, b, c := "event: " + kind, "data: " + first, "data: " + second;
    TrimForwarded(kind);
    assert a[6..] == " " + kind && b[5..] == " " + first && c[5..] == " " + second;
    SkipSpace(kind);
    SkipSpace(first);
    SkipSpace(second);
  }

  lemma ThreeLines(a: string, b: string, c: string)
    requires NewlineFree(a) && NewlineFree(b) && NewlineFree(c)
    ensures Lines(a + "\n" + (b + "\n" + c)) == [a, b, c]
  {
    SplitLine(a, b + "\n" + c, "");
    SplitLine(b, c, "");
    SplitLine(c, "", "");
    assert "" + a == a && "" + b == b && "" + c == c;
    assert [a] + ([b] + [c]) == [a, b, c];
  }

  lemma FieldsOfThree(a: string, b: string, c: string)
    requires EVENT_FIELD <= a && DATA_FIELD <= b && b[0] == 'd' && DATA_FIELD <= c && c[0] == 'd'
    ensures EventName([a, b, c]) == Trim(a[6..])
    ensures DataLines([a, b, c]) == [TrimStart(b[5..]), TrimStart(c[5..])]
  {
    FieldsOf(a, b);
    assert [a, b, c][..2] == [a, b];
    assert !(EVENT_FIELD <= c);
  }

  /** A connection cut at any point yields a prefix of the events. */
  lemma CutYieldsPrefix<J>(whole: string, cut: nat, json: string -> Option<J>)
    requires cut <= |whole|
    ensures Events(whole[..cut], json) <= Events(whole, json)
  {
    var a, b := whole[..cut], whole[cut..];
    assert whole == a + b;
    FramesAppend(a, b);
    FrameEventsAppend(Frames(a), Frames(Rest(a) + b), json);
  }

  /** Everything one request writes: the forwarded messages, then the failure if there is one. */
  function Response(messages: seq<Message>, failure: Option<string>): string {
    Stream(messages) + if failure.Some? then Written("error", failure.value) else ""
  }

  function MeantAll<J>(messages: seq<Message>, failure: Option<string>, json: string -> Option<J>): seq<AskEvent<J>> {
    Meant(messages, json) + if failure.Some? then Present(Decode("error", TrimStart(failure.value), json)) else []
  }

  /** End to end: however the network cuts the response into chunks, the client sees exactly the
      events that were meant, and a prefix of them when the connection breaks early. */
  lemma EndToEnd<J>(messages: seq<Message>, failure: Option<string>, pieces: seq<Read>, json: string -> Option<J>)
    requires forall m :: m in messages ==> NewlineFree(m.payload)
    requires failure.Some? ==> NewlineFree(failure.value)
    requires TextOf(pieces) <= Response(messages, failure)
    ensures Events(TextOf(pieces), json) <= MeantAll(messages, failure, json)
    ensures TextOf(pieces) == Response(messages, failure) ==>
              Events(TextOf(pieces), json) == MeantAll(messages, failure, json)
  {
    var whole := Response(messages, failure);
    StreamRoundTrip(messages, json);
    if failure.Some? {
      TrimForwarded("error");
      OneMore(Stream(messages), "error", failure.value, json);
    } else {
      assert whole == Stream(messages);
    }
    assert Events(whole, json) == MeantAll(messages, failure, json);
    assert whole[..|TextOf(pieces)|] == TextOf(pieces);
    CutYieldsPrefix(whole, |TextOf(pieces)|, json);
  }
}
