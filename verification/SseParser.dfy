/**
 The incremental server-sent-event parser of backend/app/providers/transport.py.

 `FeedStep` and `FinishError` below are the specification on values; the class at the end is the
 parser itself, whose methods are proved to do exactly what the specification says.
 */
module SseParser {
  import opened Wrappers
  import opened PyText
  import opened Utf8

  /** `json.loads` (None is JSONDecodeError) and the value of the literal {"done": True}. */
  datatype JsonModel<!J> = JsonModel(loads: string -> Option<J>, done: J)

  datatype Event<J> = Event(name: string, data: J)

  datatype StreamError =
    | InvalidUtf8           // "invalid UTF-8 stream"
    | FrameWithoutData      // "SSE frame has no data"
    | DataNotJson           // "SSE data is not JSON"
    | TruncatedCodepoint    // "stream ended inside UTF-8 codepoint"
    | TruncatedFrame        // "stream ended before an SSE frame boundary"
  {
    function Code(): string {
      if TruncatedCodepoint? || TruncatedFrame? then "TRUNCATED_STREAM" else "MALFORMED_STREAM"
    }
  }

  // ---------------------------------------------------------------- one frame

  const EVENT := "event:"
  const DATA := "data:"

  /** The event name after the given lines: the last `event:` line wins. */
  function EventName(lines: seq<string>): string {
    if lines == [] then "message"
    else
      var line := lines[|lines| - 1];
      if EVENT <= line then Strip(RemovePrefix(line, EVENT)) else EventName(lines[..|lines| - 1])
  }

  function DataLines(lines: seq<string>): seq<string> {
    if lines == [] then []
    else
      var line := lines[|lines| - 1];
      DataLines(lines[..|lines| - 1])
      + if !(EVENT <= line) && DATA <= line then [LStrip(RemovePrefix(line, DATA))] else []
  }

  datatype FrameOutcome<J> = Skipped | Malformed(error: StreamError) | Emitted(event: Event<J>)

  function ParseFrame<J>(json: JsonModel<J>, raw: string): FrameOutcome<J> {
    var frame := RStripCr(raw);
    if Strip(frame) == "" || ":" <= frame then Skipped
    else
      var data := DataLines(SplitLines(frame));
      if data == [] then Malformed(FrameWithoutData)
      else
        var name, text := EventName(SplitLines(frame)), Join("\n", data);
        if Strip(text) == "[DONE]" then Emitted(Event(name, json.done))
        else
          match json.loads(text)
          case None => Malformed(DataNotJson)
          case Some(j) => Emitted(Event(name, j))
  }

  // ---------------------------------------------------------------- the text buffer

  /** `s.replace("\r\n", "\n")` */
  function Normalize(s: string): string
    decreases |s|
  {
    if s == "" then ""
    else if |s| >= 2 && s[0] == '\r' && s[1] == '\n' then "\n" + Normalize(s[2..])
    else [s[0]] + Normalize(s[1..])
  }

  /** Whether "\n\n" stands at position i. */
  predicate BlankLineAt(s: string, i: nat) {
    i + 1 < |s| && s[i] == '\n' && s[i + 1] == '\n'
  }

  /** Where the first "\n\n" starts, or |s| when there is none. */
  function Boundary(s: string): (i: nat)
    ensures i <= |s|
    ensures i < |s| ==> BlankLineAt(s, i)
  {
    if |s| < 2 then |s|
    else if s[0] == '\n' && s[1] == '\n' then 0
    else 1 + Boundary(s[1..])
  }

  /** No blank line starts before the boundary. */
  lemma {:induction false} BoundaryIsFirst(s: string, j: nat)
    requires BlankLineAt(s, j)
    ensures Boundary(s) <= j
    decreases |s|
  {
    if j > 0 {
      assert BlankLineAt(s[1..], j - 1);
      BoundaryIsFirst(s[1..], j - 1);
    }
  }

  /** What cutting every complete frame off a buffer yields. */
  datatype Cut<J> = CutOk(events: seq<Event<J>>, rest: string) | CutErr(error: StreamError, rest: string)

  function Prepend<J>(events: seq<Event<J>>, cut: Cut<J>): Cut<J> {
    match cut
    case CutOk(more, rest) => CutOk(events + more, rest)
    case CutErr(_, _) => cut
  }

  /** One round of the frame loop: `more` is what the rounds after it yield. */
  function AfterFrame<J>(outcome: FrameOutcome<J>, rest: string, more: Cut<J>): Cut<J> {
    match outcome
    case Skipped => more
    case Malformed(error) => CutErr(error, rest)
    case Emitted(event) => Prepend([event], more)
  }

  /** How this parser reads a frame, as a function value. */
  function FrameReader<J>(json: JsonModel<J>): string -> FrameOutcome<J> {
    raw => ParseFrame(json, raw)
  }

  function CutFrames<J>(parse: string -> FrameOutcome<J>, b: string): Cut<J>
    decreases |b|
  {
    var i := Boundary(b);
    if i == |b| then CutOk([], b)
    else
      var rest := b[i + 2..];
      AfterFrame(parse(b[..i]), rest, CutFrames(parse, rest))
  }

  // ---------------------------------------------------------------- the parser on values

  datatype State = State(pending: seq<byte>, buffer: string)

  const Initial := State([], "")

  /** `Rejected` carries the state the raised exception leaves behind. */
  datatype Fed<J> = Accepted(state: State, events: seq<Event<J>>) | Rejected(state: State, error: StreamError)

  function FeedStep<J>(json: JsonModel<J>, state: State, chunk: seq<byte>): Fed<J> {
    match Decode(state.pending + chunk)
    case None => Rejected(state, InvalidUtf8)
    case Some(d) =>
      AfterCut(CutFrames(FrameReader(json), Normalize(state.buffer + d.text)), d.rest)
  }

  function AfterCut<J>(cut: Cut<J>, pending: seq<byte>): Fed<J> {
    match cut
    case CutOk(events, rest) => Accepted(State(pending, rest), events)
    case CutErr(error, rest) => Rejected(State(pending, rest), error)
  }

  function FinishError(state: State): Option<StreamError> {
    if state.pending != [] then Some(TruncatedCodepoint)
    else if Strip(state.buffer) != "" then Some(TruncatedFrame)
    else None
  }

  /** Feeding chunk after chunk until one is rejected. */
  function FeedAll<J>(json: JsonModel<J>, chunks: seq<seq<byte>>): Fed<J> {
    if chunks == [] then Accepted(Initial, [])
    else
      match FeedAll(json, chunks[..|chunks| - 1])
      case Rejected(state, error) => Rejected(state, error)
      case Accepted(state, events) =>
        match FeedStep(json, state, chunks[|chunks| - 1])
        case Rejected(next, error) => Rejected(next, error)
        case Accepted(next, more) => Accepted(next, events + more)
  }

  // ---------------------------------------------------------------- the parser itself

  class IncrementalSseParser<!J> {
    const json: JsonModel<J>
    var pending: seq<byte>
    var buffer: string

    ghost function Value(): State
      reads this
    {
      State(pending, buffer)
    }

    constructor (json: JsonModel<J>)
      ensures this.json == json && Value() == Initial
    {
      this.json := json;
      pending := [];
      buffer := "";
    }

    /** Reads the fields of one frame, as the loop over `frame.splitlines()` does. */
    method ReadFields(frame: string) returns (name: string, data: seq<string>)
      ensures name == EventName(SplitLines(frame))
      ensures data == DataLines(SplitLines(frame))
    {
      name, data := "message", [];
      var lines := SplitLines(frame);
      for k := 0 to |lines|
        invariant name == EventName(lines[..k])
        invariant data == DataLines(lines[..k])
      {
        assert lines[..k + 1][..k] == lines[..k];
        if EVENT <= lines[k] {
          name := Strip(RemovePrefix(lines[k], EVENT));
        } else if DATA <= lines[k] {
          data := data + [LStrip(RemovePrefix(lines[k], DATA))];
        }
      }
      assert lines[..|lines|] == lines;
    }

    /** The body of the frame loop: lines 125 to 145 of the source for one frame. */
    method ReadFrame(raw: string) returns (outcome: FrameOutcome<J>)
      ensures outcome == ParseFrame(json, raw)
    {
      var frame := RStripCr(raw);
      if Strip(frame) == "" || ":" <= frame {
        return Skipped;
      }
      var name, data := ReadFields(frame);
      if data == [] {
        return Malformed(FrameWithoutData);
      }
      var text := Join("\n", data);
      if Strip(text) == "[DONE]" {
        return Emitted(Event(name, json.done));
      }
      var payload := json.loads(text);
      if payload.None? {
        return Malformed(DataNotJson);
      }
      return Emitted(Event(name, payload.value));
    }

    method Feed(chunk: seq<byte>) returns (r: Result<seq<Event<J>>, StreamError>)
      modifies this
      ensures match FeedStep(json, old(Value()), chunk)
              case Accepted(state, events) => Value() == state && r == Ok(events)
              case Rejected(state, error) => Value() == state && r == Err(error)
    {
      var decoded := Decode(pending + chunk);
      if decoded.None? {
        return Err(InvalidUtf8);
      }
      pending := decoded.value.rest;
      buffer := buffer + decoded.value.text;
      buffer := Normalize(buffer);
      r := CutBuffer();
    }

    /** The frame loop: cuts complete frames off the front of the buffer. */
    method CutBuffer() returns (r: Result<seq<Event<J>>, StreamError>)
      modifies this`buffer
      ensures match CutFrames(FrameReader(json), old(buffer))
              case CutOk(events, rest) => buffer == rest && r == Ok(events)
              case CutErr(error, rest) => buffer == rest && r == Err(error)
    {
      ghost var whole := CutFrames(FrameReader(json), buffer);
      var events: seq<Event<J>> := [];
      PrependNone(whole);
      while Boundary(buffer) < |buffer|
        invariant whole == Prepend(events, CutFrames(FrameReader(json), buffer))
        decreases |buffer|
      {
        var i := Boundary(buffer);
        var frame := buffer[..i];
        ghost var round := CutFrames(FrameReader(json), buffer);
        buffer := buffer[i + 2..];
        var outcome := ReadFrame(frame);
        assert round == AfterFrame(outcome, buffer, CutFrames(FrameReader(json), buffer));
        match outcome
        case Skipped =>
        case Malformed(error) =>
          return Err(error);
        case Emitted(event) =>
          PrependOne(events, event, CutFrames(FrameReader(json), buffer));
          events := events + [event];
      }
      assert CutFrames(FrameReader(json), buffer) == CutOk([], buffer);
      assert events + [] == events;
      return Ok(events);
    }

    method Finish() returns (r: Option<StreamError>)
      ensures r == FinishError(Value())
    {
      if pending != [] {
        return Some(TruncatedCodepoint);
      }
      if Strip(buffer) != "" {
        return Some(TruncatedFrame);
      }
      return None;
    }
  }

  lemma PrependNone<J>(cut: Cut<J>)
    ensures Prepend([], cut) == cut
  {
    if cut.CutOk? { assert [] + cut.events == cut.events; }
  }

  lemma PrependOne<J>(events: seq<Event<J>>, event: Event<J>, cut: Cut<J>)
    ensures Prepend(events, Prepend([event], cut)) == Prepend(events + [event], cut)
  {
    if cut.CutOk? { assert events + ([event] + cut.events) == events + [event] + cut.events; }
  }
}
