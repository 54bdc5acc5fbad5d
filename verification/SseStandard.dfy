/**
 The parser's reading of a frame against section 9.2.6 of the WHATWG HTML standard: exactly
 when the two agree, and an input for each way in which they do not. Both readings are
 compared before the text is parsed as JSON.
 */
module SseStandard {
  import opened Wrappers
  import opened PyText
  import opened SseParser
  import opened SseRoundTrip

  /** No event, an error for want of data, or an event with its name and data text. */
  datatype Reading = Nothing | Refused | Message(name: string, text: string)

  // ---------------------------------------------------------------- the parser

  function ParserReading(raw: string): Reading {
    var frame := RStripCr(raw);
    if Strip(frame) == "" || ":" <= frame then Nothing
    else
      var data := DataLines(SplitLines(frame));
      if data == [] then Refused else Message(EventName(SplitLines(frame)), Join("\n", data))
  }

  function Interpret<J>(json: JsonModel<J>, reading: Reading): FrameOutcome<J> {
    match reading
    case Nothing => Skipped
    case Refused => Malformed(FrameWithoutData)
    case Message(name, text) =>
      if Strip(text) == "[DONE]" then Emitted(Event(name, json.done))
      else
        match json.loads(text)
        case None => Malformed(DataNotJson)
        case Some(j) => Emitted(Event(name, j))
  }

  /** The outcome of a frame is its reading with the text parsed. */
  lemma ParseFrameReads<J>(json: JsonModel<J>, raw: string)
    ensures ParseFrame(json, raw) == Interpret(json, ParserReading(raw))
  {
  }

  // ---------------------------------------------------------------- the standard: lines

  predicate IsCrLf(c: char) {
    c == '\n' || c == '\r'
  }

  /** How many leading characters precede the first CR or LF. */
  function StandardLength(s: string): (k: nat)
    ensures k <= |s|
  {
    if s == "" || IsCrLf(s[0]) then 0 else 1 + StandardLength(s[1..])
  }

  /** The lines of the standard: each ends at CR LF, LF or CR, or at the end of the text. */
  function StandardLines(s: string): seq<string>
    decreases |s|
  {
    if s == "" then []
    else
      var k := StandardLength(s);
      if k == |s| then [s] else [s[..k]] + StandardLines(s[k + BreakWidth(s, k)..])
  }

  /** No character but CR and LF that `splitlines` would end a line at. */
  predicate OnlyCrLf(s: string) {
    forall i :: 0 <= i < |s| && IsLineBreak(s[i]) ==> IsCrLf(s[i])
  }

  lemma {:induction false} LengthOfPlain(s: string)
    ensures LineLength(s) <= StandardLength(s)
    ensures LineLength(s) < |s| ==> IsLineBreak(s[LineLength(s)])
    ensures forall i :: 0 <= i < LineLength(s) ==> !IsLineBreak(s[i])
    ensures StandardLength(s) == LineLength(s) <==> LineLength(s) == |s| || IsCrLf(s[LineLength(s)])
  {
    if s != "" && !IsLineBreak(s[0]) {
      LengthOfPlain(s[1..]);
      forall i | 0 <= i < LineLength(s) ensures !IsLineBreak(s[i]) {
        if i > 0 { assert s[i] == s[1..][i - 1]; }
      }
    }
  }

  lemma SplitLast(s: string)
    requires s != "" && LineLength(s) == |s|
    ensures SplitLines(s) == [s]
  {
  }

  lemma SplitFirst(s: string, k: nat, rest: string)
    requires k == LineLength(s) < |s| && rest == s[k + BreakWidth(s, k)..]
    ensures SplitLines(s) == [s[..k]] + SplitLines(rest)
  {
  }

  lemma StandardLast(s: string)
    requires s != "" && StandardLength(s) == |s|
    ensures StandardLines(s) == [s]
  {
  }

  lemma StandardFirst(s: string, k: nat, rest: string)
    requires k == StandardLength(s) < |s| && rest == s[k + BreakWidth(s, k)..]
    ensures StandardLines(s) == [s[..k]] + StandardLines(rest)
  {
  }

  lemma OnlyCrLfBehind(s: string, k: nat, m: nat)
    requires k <= m <= |s|
    requires forall i :: 0 <= i < k ==> !IsLineBreak(s[i])
    requires forall i :: k <= i < m ==> IsCrLf(s[i])
    ensures OnlyCrLf(s) <==> OnlyCrLf(s[m..])
  {
    if OnlyCrLf(s[m..]) {
      forall i | 0 <= i < |s| && IsLineBreak(s[i]) ensures IsCrLf(s[i]) {
        if i >= m { assert s[i] == s[m..][i - m]; }
      }
    }
  }

  /** The parser splits a text where the standard does, if and only if it has no other line break. */
  lemma {:induction false} SameLinesIff(s: string)
    ensures StandardLines(s) == SplitLines(s) <==> OnlyCrLf(s)
    decreases |s|
  {
    if s != "" {
      var k := LineLength(s);
      LengthOfPlain(s);
      if k == |s| {
        StandardLast(s);
        SplitLast(s);
      } else if IsCrLf(s[k]) {
        var m := k + BreakWidth(s, k);
        OnlyCrLfBehind(s, k, m);
        SameLinesIff(s[m..]);
        SameFirstLine(s, k, m);
      } else {
        FirstLineDiffers(s);
      }
    }
  }

  lemma SameFirstLine(s: string, k: nat, m: nat)
    requires k < |s| && LineLength(s) == StandardLength(s) == k && m == k + BreakWidth(s, k)
    ensures StandardLines(s) == SplitLines(s) <==> StandardLines(s[m..]) == SplitLines(s[m..])
  {
    var head, tail := s[..k], s[m..];
    StandardFirst(s, k, tail);
    SplitFirst(s, k, tail);
    SameTail(head, StandardLines(tail), SplitLines(tail));
  }

  lemma SameTail<T>(x: T, a: seq<T>, b: seq<T>)
    ensures [x] + a == [x] + b <==> a == b
  {
    assert ([x] + a)[1..] == a && ([x] + b)[1..] == b;
  }

  lemma FirstLineDiffers(s: string)
    requires s != "" && LineLength(s) < StandardLength(s)
    ensures StandardLines(s) != SplitLines(s)
  {
    var k := LineLength(s);
    SplitFirst(s, k, s[k + BreakWidth(s, k)..]);
    FirstStandardLine(s);
    assert |SplitLines(s)[0]| == k;
  }

  lemma FirstStandardLine(s: string)
    requires s != ""
    ensures StandardLines(s) != [] && |StandardLines(s)[0]| == StandardLength(s)
  {
    var k := StandardLength(s);
    if k == |s| { StandardLast(s); } else { StandardFirst(s, k, s[k + BreakWidth(s, k)..]); }
  }

  // ---------------------------------------------------------------- the standard: fields

  datatype Line = Comment | Field(name: string, value: string)

  /** A value without the one space that may follow the colon. */
  function DropSpace(value: string): string {
    if value != "" && value[0] == ' ' then value[1..] else value
  }

  /** How the standard takes a line apart. */
  function FieldOf(line: string): Line {
    if ":" <= line then Comment
    else
      var i := IndexOf(line, ':');
      if i == |line| then Field(line, "") else Field(line[..i], DropSpace(line[i + 1..]))
  }

  /** The values appended to the data buffer. */
  function StandardData(lines: seq<string>): seq<string> {
    if lines == [] then []
    else
      var field := FieldOf(lines[|lines| - 1]);
      StandardData(lines[..|lines| - 1]) + if field.Field? && field.name == "data" then [field.value] else []
  }

  /** The event type buffer after the given lines. */
  function StandardType(lines: seq<string>): string {
    if lines == [] then ""
    else
      var field := FieldOf(lines[|lines| - 1]);
      if field.Field? && field.name == "event" then field.value else StandardType(lines[..|lines| - 1])
  }

  /** What is dispatched at the blank line behind the given lines, none of them blank. */
  function StandardReading(lines: seq<string>): Reading {
    if StandardData(lines) == [] then Nothing
    else Message(if StandardType(lines) == "" then "message" else StandardType(lines), Join("\n", StandardData(lines)))
  }

  function FirstEmpty(lines: seq<string>): (k: nat)
    ensures k <= |lines| && (k < |lines| ==> lines[k] == "")
  {
    if lines == [] || lines[0] == "" then 0 else 1 + FirstEmpty(lines[1..])
  }

  function Dispatched(reading: Reading): seq<Reading> {
    if reading == Nothing then [] else [reading]
  }

  /** All that is dispatched for the lines of a frame: once at every blank line, and at the one behind it. */
  function StandardEvents(lines: seq<string>): seq<Reading>
    decreases |lines|
  {
    var k := FirstEmpty(lines);
    Dispatched(StandardReading(lines[..k])) + if k == |lines| then [] else StandardEvents(lines[k + 1..])
  }

  /** What the standard makes of a frame; CRs at its end belong to the line ends behind it. */
  function StandardOf(raw: string): seq<Reading> {
    StandardEvents(StandardLines(RStripCr(raw)))
  }

  /** The parser emits exactly the messages of the standard. */
  predicate Agrees(reading: Reading, events: seq<Reading>) {
    reading != Refused && events == Dispatched(reading)
  }

  // ---------------------------------------------------------------- the condition

  predicate IsData(line: string) {
    DATA <= line || line == "data"
  }

  predicate NoData(lines: seq<string>) {
    forall i :: 0 <= i < |lines| ==> !IsData(lines[i])
  }

  ghost predicate HasDataValue(lines: seq<string>) {
    exists i :: 0 <= i < |lines| && DATA <= lines[i]
  }

  /** A data line has its colon, and no blank behind it but one space. */
  predicate PlainData(line: string) {
    && line != "data"
    && (DATA <= line ==>
          var value := DropSpace(RemovePrefix(line, DATA));
          value == "" || !IsSpace(value[0]))
  }

  ghost predicate AllPlainData(lines: seq<string>) {
    forall i :: 0 <= i < |lines| ==> PlainData(lines[i])
  }

  /** The lines up to the first blank one, or behind it, that carry the first data. */
  function DataSection(lines: seq<string>): seq<string>
    decreases |lines|
  {
    var k := FirstEmpty(lines);
    if k < |lines| && NoData(lines[..k]) then DataSection(lines[k + 1..]) else lines[..k]
  }

  /** No blank line stands between two data lines. */
  predicate OneSection(lines: seq<string>)
    decreases |lines|
  {
    var k := FirstEmpty(lines);
    k == |lines| || if NoData(lines[..k]) then OneSection(lines[k + 1..]) else NoData(lines[k + 1..])
  }

  /** The last line with an event field, with or without a colon. */
  function LastType(lines: seq<string>): Option<string> {
    if lines == [] then None
    else
      var line := lines[|lines| - 1];
      if EVENT <= line || line == "event" then Some(line) else LastType(lines[..|lines| - 1])
  }

  /** The last line that starts with `event:`. */
  function LastNamed(lines: seq<string>): Option<string> {
    if lines == [] then None
    else
      var line := lines[|lines| - 1];
      if EVENT <= line then Some(line) else LastNamed(lines[..|lines| - 1])
  }

  /**
   The last `event:` line of the frame, stripped, names what the last event field in the
   section with the data means: its value without one space, or the default where that is
   empty or missing. In a frame of one section both are mostly the same line, which then
   has a value without outer blanks.
   */
  predicate PlainName(lines: seq<string>, section: seq<string>) {
    var named, last := LastNamed(lines), LastType(section);
    named.Some? ==> Strip(RemovePrefix(named.value, EVENT)) == MeantName(last)
  }

  function MeantName(last: Option<string>): string {
    if last.Some? && EVENT <= last.value && DropSpace(RemovePrefix(last.value, EVENT)) != ""
    then DropSpace(RemovePrefix(last.value, EVENT)) else "message"
  }

  // ---------------------------------------------------------------- lines

  lemma FieldOfNamed(line: string, name: string)
    requires name != "" && (forall i :: 0 <= i < |name| ==> name[i] != ':')
    ensures name + ":" <= line ==> FieldOf(line) == Field(name, DropSpace(line[|name| + 1..]))
    ensures line == name ==> FieldOf(line) == Field(name, "")
    ensures !(name + ":" <= line) && line != name ==> !(FieldOf(line).Field? && FieldOf(line).name == name)
  {
    if FieldOf(line).Field? && FieldOf(line).name == name {
      var i := IndexOf(line, ':');
      assert i < |line| ==> line[..i + 1] == name + ":";
    }
    if name + ":" <= line {
      assert line == name + [':'] + line[|name| + 1..];
      IndexOfAfter(name, ':', line[|name| + 1..]);
      assert line[0] == name[0];
    }
    if line == name { IndexOfMissing(name, ':'); }
  }

  lemma DataLine(line: string)
    ensures DATA <= line ==> FieldOf(line) == Field("data", DropSpace(RemovePrefix(line, DATA)))
    ensures line == "data" ==> FieldOf(line) == Field("data", "")
    ensures !IsData(line) ==> !(FieldOf(line).Field? && FieldOf(line).name == "data")
  {
    FieldOfNamed(line, "data");
    assert "data" + ":" == DATA;
  }

  lemma TypeLine(line: string)
    ensures EVENT <= line ==> FieldOf(line) == Field("event", DropSpace(RemovePrefix(line, EVENT)))
    ensures line == "event" ==> FieldOf(line) == Field("event", "")
    ensures !(EVENT <= line) && line != "event" ==> !(FieldOf(line).Field? && FieldOf(line).name == "event")
  {
    FieldOfNamed(line, "event");
    assert "event" + ":" == EVENT;
  }

  /** A data line names no event. */
  lemma DataIsNoEvent(line: string)
    requires DATA <= line
    ensures !(EVENT <= line)
  {
    assert line[0] == 'd';
  }

  // ---------------------------------------------------------------- data

  lemma {:induction false} NoStandardData(lines: seq<string>)
    ensures StandardData(lines) == [] <==> NoData(lines)
  {
    if lines != [] {
      var n := |lines| - 1;
      NoStandardData(lines[..n]);
      DataLine(lines[n]);
      assert NoData(lines) <==> NoData(lines[..n]) && !IsData(lines[n]) by {
        if NoData(lines) { assert forall i :: 0 <= i < n ==> lines[..n][i] == lines[i]; }
        if NoData(lines[..n]) { assert forall i :: 0 <= i < n ==> lines[i] == lines[..n][i]; }
      }
    }
  }

  lemma {:induction false} NoParserData(lines: seq<string>)
    ensures DataLines(lines) != [] <==> HasDataValue(lines)
  {
    if lines != [] {
      var n := |lines| - 1;
      NoParserData(lines[..n]);
      if DATA <= lines[n] { DataIsNoEvent(lines[n]); }
      if HasDataValue(lines[..n]) {
        var i :| 0 <= i < n && DATA <= lines[..n][i];
        assert DATA <= lines[i];
      }
      if HasDataValue(lines) {
        var i :| 0 <= i < |lines| && DATA <= lines[i];
        assert i < n ==> DATA <= lines[..n][i];
      }
    }
  }

  /** Dropping one space is stripping exactly when no further blank follows. */
  lemma DropIsStrip(value: string)
    ensures LStrip(value) == DropSpace(value) <==> DropSpace(value) == "" || !IsSpace(DropSpace(value)[0])
  {
    var rest := DropSpace(value);
    assert LStrip(value) == LStrip(rest);
    LStripShortens(rest);
  }

  lemma {:induction false} LStripShortens(s: string)
    ensures |LStrip(s)| <= |s|
    ensures s != "" && IsSpace(s[0]) ==> |LStrip(s)| < |s|
  {
    if s != "" && IsSpace(s[0]) { LStripShortens(s[1..]); }
  }

  /** The two data lists are the same exactly when every data line is plain. */
  lemma {:induction false} SameData(lines: seq<string>)
    ensures |DataLines(lines)| <= |StandardData(lines)|
    ensures DataLines(lines) == StandardData(lines) <==> AllPlainData(lines)
  {
    if lines != [] {
      var n := |lines| - 1;
      var line := lines[n];
      SameData(lines[..n]);
      AllPlainSnoc(lines);
      DataLine(line);
      if DATA <= line {
        DataIsNoEvent(line);
        DropIsStrip(RemovePrefix(line, DATA));
        assert PlainData(line) <==> LStrip(RemovePrefix(line, DATA)) == DropSpace(RemovePrefix(line, DATA));
        SameSnoc(DataLines(lines[..n]), LStrip(RemovePrefix(line, DATA)),
                 StandardData(lines[..n]), DropSpace(RemovePrefix(line, DATA)));
      } else {
        assert DataLines(lines) == DataLines(lines[..n]);
        assert line != "data" ==> StandardData(lines) == StandardData(lines[..n]);
      }
    }
  }

  lemma AllPlainSnoc(lines: seq<string>)
    requires lines != []
    ensures AllPlainData(lines) <==> AllPlainData(lines[..|lines| - 1]) && PlainData(lines[|lines| - 1])
  {
    var init := lines[..|lines| - 1];
    if AllPlainData(lines) {
      forall i | 0 <= i < |init| ensures PlainData(init[i]) { assert init[i] == lines[i]; }
    }
    if AllPlainData(init) && PlainData(lines[|init|]) {
      forall i | 0 <= i < |lines| ensures PlainData(lines[i]) { assert i < |init| ==> lines[i] == init[i]; }
    }
  }

  lemma SameSnoc<T>(xs: seq<T>, x: T, ys: seq<T>, y: T)
    ensures xs + [x] == ys + [y] <==> xs == ys && x == y
  {
    if xs + [x] == ys + [y] {
      assert |xs| == |ys|;
      assert xs == (xs + [x])[..|xs|] && ys == (ys + [y])[..|ys|];
      assert x == (xs + [x])[|xs|] && y == (ys + [y])[|ys|];
    }
  }

  // ---------------------------------------------------------------- joining

  ghost predicate OneLineEach(parts: seq<string>) {
    forall i :: 0 <= i < |parts| ==> NoLineBreak(parts[i])
  }

  lemma FirstBreak(parts: seq<string>)
    requires parts != [] && OneLineEach(parts)
    ensures IndexOf(Join("\n", parts), '\n') == |parts[0]|
    ensures |Join("\n", parts)| == |parts[0]| <==> |parts| == 1
    ensures |parts| > 1 ==> Join("\n", parts)[|parts[0]| + 1..] == Join("\n", parts[1..])
    ensures Join("\n", parts)[..|parts[0]|] == parts[0]
  {
    assert NoLineBreak(parts[0]);
    if |parts| == 1 {
      IndexOfMissing(parts[0], '\n');
    } else {
      assert Join("\n", parts) == parts[0] + ['\n'] + Join("\n", parts[1..]);
      IndexOfAfter(parts[0], '\n', Join("\n", parts[1..]));
    }
  }

  lemma {:induction false} JoinInjective(a: seq<string>, b: seq<string>)
    requires a != [] && b != [] && OneLineEach(a) && OneLineEach(b)
    ensures Join("\n", a) == Join("\n", b) <==> a == b
    decreases |a|
  {
    if Join("\n", a) == Join("\n", b) {
      FirstBreak(a);
      FirstBreak(b);
      assert a == [a[0]] + a[1..] && b == [b[0]] + b[1..];
      if |a| > 1 { JoinInjective(a[1..], b[1..]); }
    }
  }

  lemma {:induction false} SplitLinesPlain(s: string)
    ensures OneLineEach(SplitLines(s))
    decreases |s|
  {
    if s != "" {
      var k := LineLength(s);
      LineHasNoBreak(s);
      assert s[..|s|] == s;
      if k < |s| {
        SplitLinesPlain(s[k + BreakWidth(s, k)..]);
      }
    }
  }

  lemma {:induction false} LineHasNoBreak(s: string)
    ensures NoLineBreak(s[..LineLength(s)])
  {
    if s != "" && !IsLineBreak(s[0]) {
      LineHasNoBreak(s[1..]);
      assert s[..LineLength(s)] == [s[0]] + s[1..][..LineLength(s[1..])];
    }
  }

  lemma {:induction false} StandardDataPlain(lines: seq<string>)
    requires OneLineEach(lines)
    ensures OneLineEach(StandardData(lines))
  {
    if lines != [] {
      StandardDataPlain(lines[..|lines| - 1]);
      DataLine(lines[|lines| - 1]);
    }
  }

  lemma {:induction false} ParserDataPlain(lines: seq<string>)
    requires OneLineEach(lines)
    ensures OneLineEach(DataLines(lines))
  {
    if lines != [] {
      ParserDataPlain(lines[..|lines| - 1]);
      LStripPlain(RemovePrefix(lines[|lines| - 1], DATA));
    }
  }

  lemma {:induction false} LStripPlain(s: string)
    requires NoLineBreak(s)
    ensures NoLineBreak(LStrip(s))
  {
    if s != "" && IsSpace(s[0]) { LStripPlain(s[1..]); }
  }

  // ---------------------------------------------------------------- sections

  lemma {:induction false} StandardDataAppend(a: seq<string>, b: seq<string>)
    ensures StandardData(a + b) == StandardData(a) + StandardData(b)
  {
    if b == [] {
      assert a + b == a;
    } else {
      var init, last := b[..|b| - 1], b[|b| - 1];
      StandardDataAppend(a, init);
      assert (a + b)[..|a + b| - 1] == a + init;
      var field := FieldOf(last);
      Regroup(StandardData(a), StandardData(init),
              if field.Field? && field.name == "data" then [field.value] else []);
    }
  }

  /** A blank line carries no data. */
  lemma StandardDataSplit(lines: seq<string>, k: nat)
    requires k < |lines| && lines[k] == ""
    ensures StandardData(lines) == StandardData(lines[..k]) + StandardData(lines[k + 1..])
  {
    var before, blank, behind := lines[..k], lines[k..k + 1], lines[k + 1..];
    CutOut(lines, k);
    StandardDataAppend(before + blank, behind);
    StandardDataAppend(before, blank);
    BlankLineHasNoData();
    assert StandardData(before) + [] == StandardData(before);
  }

  lemma CutOut<T>(xs: seq<T>, k: nat)
    requires k < |xs|
    ensures xs == (xs[..k] + xs[k..k + 1]) + xs[k + 1..] && xs[k..k + 1] == [xs[k]]
  {
  }

  lemma BlankLineHasNoData()
    ensures StandardData([""]) == []
  {
    var none: seq<string> := [];
    assert [""][..0] == none;
    DataLine("");
  }

  lemma NoDataSplit(lines: seq<string>, k: nat)
    requires k < |lines| && lines[k] == ""
    ensures NoData(lines) <==> NoData(lines[..k]) && NoData(lines[k + 1..])
  {
    NoStandardData(lines);
    NoStandardData(lines[..k]);
    NoStandardData(lines[k + 1..]);
    StandardDataSplit(lines, k);
  }

  lemma FirstEmptyAtEnd(lines: seq<string>)
    requires FirstEmpty(lines) == |lines|
    ensures lines[..FirstEmpty(lines)] == lines
  {
  }

  lemma NothingDispatched(section: seq<string>)
    ensures Dispatched(StandardReading(section)) == [] <==> NoData(section)
    ensures |Dispatched(StandardReading(section))| <= 1
  {
    NoStandardData(section);
  }

  lemma {:induction false} NoEventsIff(lines: seq<string>)
    ensures StandardEvents(lines) == [] <==> NoData(lines)
    decreases |lines|
  {
    var k := FirstEmpty(lines);
    NothingDispatched(lines[..k]);
    if k == |lines| {
      FirstEmptyAtEnd(lines);
      EventsAtEnd(lines);
    } else {
      NoEventsIff(lines[k + 1..]);
      NoDataSplit(lines, k);
      EventsUnfold(lines, k);
    }
  }

  /** Exactly one message is dispatched when the data stand in one section. */
  lemma {:induction false} OneEventIff(lines: seq<string>)
    ensures |StandardEvents(lines)| == 1 <==> !NoData(lines) && OneSection(lines)
    decreases |lines|
  {
    var k := FirstEmpty(lines);
    NothingDispatched(lines[..k]);
    if k == |lines| {
      FirstEmptyAtEnd(lines);
      EventsAtEnd(lines);
    } else {
      OneEventIff(lines[k + 1..]);
      NoEventsIff(lines[k + 1..]);
      NoDataSplit(lines, k);
      EventsUnfold(lines, k);
    }
  }

  /** That message is the reading of its section, which holds all the data of the frame. */
  lemma {:induction false} OneEventIs(lines: seq<string>)
    requires !NoData(lines) && OneSection(lines)
    ensures StandardEvents(lines) == [StandardReading(DataSection(lines))]
    ensures StandardData(DataSection(lines)) == StandardData(lines)
    decreases |lines|
  {
    var k := FirstEmpty(lines);
    if k == |lines| {
      FirstEmptyAtEnd(lines);
      EventsAtEnd(lines);
      NothingDispatched(lines);
    } else {
      EventsUnfold(lines, k);
      NoDataSplit(lines, k);
      StandardDataSplit(lines, k);
      NothingDispatched(lines[..k]);
      OneEventStep(lines, k, lines[k + 1..]);
    }
  }

  lemma {:induction false} OneEventStep(lines: seq<string>, k: nat, rest: seq<string>)
    requires k == FirstEmpty(lines) < |lines| && rest == lines[k + 1..]
    requires !NoData(lines) && OneSection(lines)
    requires NoData(lines) <==> NoData(lines[..k]) && NoData(rest)
    requires StandardData(lines) == StandardData(lines[..k]) + StandardData(rest)
    requires StandardEvents(lines) == Dispatched(StandardReading(lines[..k])) + StandardEvents(rest)
    requires Dispatched(StandardReading(lines[..k])) == [] <==> NoData(lines[..k])
    ensures StandardEvents(lines) == [StandardReading(DataSection(lines))]
    ensures StandardData(DataSection(lines)) == StandardData(lines)
    decreases |lines|, 0
  {
    if NoData(lines[..k]) {
      NoStandardData(lines[..k]);
      OneEventIs(rest);
    } else {
      NoEventsIff(rest);
      NoStandardData(rest);
    }
  }

  lemma EventsAtEnd(lines: seq<string>)
    requires FirstEmpty(lines) == |lines|
    ensures StandardEvents(lines) == Dispatched(StandardReading(lines))
  {
    FirstEmptyAtEnd(lines);
    assert Dispatched(StandardReading(lines)) + [] == Dispatched(StandardReading(lines));
  }

  lemma EventsUnfold(lines: seq<string>, k: nat)
    requires k == FirstEmpty(lines) < |lines|
    ensures StandardEvents(lines) == Dispatched(StandardReading(lines[..k])) + StandardEvents(lines[k + 1..])
  {
  }

  /** Lines without a blank one among them are one section. */
  lemma EventsOfOne(lines: seq<string>)
    requires forall i :: 0 <= i < |lines| ==> lines[i] != ""
    ensures StandardEvents(lines) == Dispatched(StandardReading(lines))
  {
    NoEmptyLine(lines);
    EventsAtEnd(lines);
  }

  lemma {:induction false} NoEmptyLine(lines: seq<string>)
    requires forall i :: 0 <= i < |lines| ==> lines[i] != ""
    ensures FirstEmpty(lines) == |lines|
  {
    if lines != [] { NoEmptyLine(lines[1..]); }
  }

  // ---------------------------------------------------------------- names

  lemma {:induction false} NameOfLastNamed(lines: seq<string>)
    ensures var last := LastNamed(lines);
            EventName(lines) == if last.Some? then Strip(RemovePrefix(last.value, EVENT)) else "message"
  {
    if lines != [] { NameOfLastNamed(lines[..|lines| - 1]); }
  }

  lemma {:induction false} TypeOfLastType(lines: seq<string>)
    ensures (if StandardType(lines) == "" then "message" else StandardType(lines)) == MeantName(LastType(lines))
  {
    if lines != [] {
      TypeOfLastType(lines[..|lines| - 1]);
      TypeLine(lines[|lines| - 1]);
    }
  }

  lemma {:induction false} NoneNamed(lines: seq<string>)
    requires LastNamed(lines).None?
    ensures forall i :: 0 <= i < |lines| ==> !(EVENT <= lines[i])
  {
    if lines != [] { NoneNamed(lines[..|lines| - 1]); }
  }

  lemma {:induction false} LastTypeIsALine(lines: seq<string>)
    ensures LastType(lines).Some? ==> LastType(lines).value in lines
  {
    if lines != [] { LastTypeIsALine(lines[..|lines| - 1]); }
  }

  lemma {:induction false} SectionIsPart(lines: seq<string>, line: string)
    requires line in DataSection(lines)
    ensures line in lines
    decreases |lines|
  {
    var k := FirstEmpty(lines);
    if k < |lines| && NoData(lines[..k]) { SectionIsPart(lines[k + 1..], line); }
  }

  lemma SameNameIff(lines: seq<string>)
    ensures var section := DataSection(lines);
            EventName(lines) == (if StandardType(section) == "" then "message" else StandardType(section))
            <==> PlainName(lines, section)
  {
    var section := DataSection(lines);
    NameOfLastNamed(lines);
    TypeOfLastType(section);
    if LastNamed(lines).None? {
      NoneNamed(lines);
      LastTypeIsALine(section);
      var last := LastType(section);
      if last.Some? { SectionIsPart(lines, last.value); }
    }
  }

  // ---------------------------------------------------------------- agreement

  /**
   For every frame without other line breaks: the parser emits what the standard dispatches
   if and only if, where it skips the frame, no line carries data; and where it does not,
   some data line has its colon, all data lines are plain, no blank line stands between
   them, and the line that names the event is plain.
   */
  lemma AgreesWithStandardIff(raw: string)
    requires OnlyCrLf(RStripCr(raw))
    ensures var frame := RStripCr(raw);
            var lines := StandardLines(frame);
            Agrees(ParserReading(raw), StandardOf(raw)) <==>
              if Blank(frame) || ":" <= frame then NoData(lines)
              else
                && HasDataValue(lines) && AllPlainData(lines)
                && OneSection(lines) && PlainName(lines, DataSection(lines))
  {
    var frame := RStripCr(raw);
    var lines := StandardLines(frame);
    SameLinesIff(frame);
    StripBlank(frame);
    SplitLinesPlain(frame);
    NoEventsIff(lines);
    if !Blank(frame) && !(":" <= frame) { SameMessageIff(lines); }
  }

  /** The parser's reading of the lines of a frame that it does not skip. */
  function LinesReading(lines: seq<string>): Reading {
    if DataLines(lines) == [] then Refused else Message(EventName(lines), Join("\n", DataLines(lines)))
  }

  lemma SameMessageIff(lines: seq<string>)
    requires OneLineEach(lines)
    ensures Agrees(LinesReading(lines), StandardEvents(lines)) <==>
            HasDataValue(lines) && AllPlainData(lines) && OneSection(lines) && PlainName(lines, DataSection(lines))
  {
    NoParserData(lines);
    OneEventIff(lines);
    if HasDataValue(lines) { DataValueIsData(lines); }
    if HasDataValue(lines) && OneSection(lines) {
      OneEventIs(lines);
      NoStandardData(lines);
      SameInSection(lines);
      OneElement(StandardEvents(lines), StandardReading(DataSection(lines)), LinesReading(lines));
    } else {
      SomeEvents(lines);
    }
  }

  lemma OneElement(events: seq<Reading>, event: Reading, reading: Reading)
    requires events == [event] && reading.Message?
    ensures Agrees(reading, events) <==> reading == event
  {
    assert events == [reading] ==> events[0] == reading;
  }

  /** Without data in exactly one section the parser does not agree. */
  lemma SomeEvents(lines: seq<string>)
    requires !(HasDataValue(lines) && OneSection(lines))
    requires DataLines(lines) != [] <==> HasDataValue(lines)
    requires HasDataValue(lines) ==> |StandardEvents(lines)| != 1
    ensures !Agrees(LinesReading(lines), StandardEvents(lines))
  {
  }

  lemma DataValueIsData(lines: seq<string>)
    requires HasDataValue(lines)
    ensures !NoData(lines)
  {
    var i :| 0 <= i < |lines| && DATA <= lines[i];
    assert IsData(lines[i]);
  }

  lemma SameInSection(lines: seq<string>)
    requires OneLineEach(lines) && DataLines(lines) != []
    requires StandardData(DataSection(lines)) == StandardData(lines) != []
    ensures LinesReading(lines) == StandardReading(DataSection(lines)) <==>
            AllPlainData(lines) && PlainName(lines, DataSection(lines))
  {
    SameData(lines);
    SameNameIff(lines);
    ParserDataPlain(lines);
    StandardDataPlain(lines);
    JoinInjective(DataLines(lines), StandardData(lines));
  }

  /** A frame with data is dropped exactly when it starts with a colon. */
  lemma DataHiddenIff<J>(json: JsonModel<J>, raw: string)
    requires DataLines(SplitLines(RStripCr(raw))) != []
    ensures ParseFrame(json, raw).Skipped? <==> ":" <= RStripCr(raw)
  {
    var frame := RStripCr(raw);
    ParseFrameReads(json, raw);
    StripBlank(frame);
    NoParserData(SplitLines(frame));
    if Blank(frame) { BlankHasNoData(frame); }
  }

  lemma BlankHasNoData(s: string)
    requires Blank(s)
    ensures !HasDataValue(SplitLines(s))
  {
    BlankLines(s);
    forall i | 0 <= i < |SplitLines(s)| ensures !(DATA <= SplitLines(s)[i]) {
      var line := SplitLines(s)[i];
      assert Blank(line);
      assert line != "" ==> line[0] != 'd';
    }
  }

  lemma {:induction false} BlankLines(s: string)
    requires Blank(s)
    ensures forall i :: 0 <= i < |SplitLines(s)| ==> Blank(SplitLines(s)[i])
    decreases |s|
  {
    if s != "" {
      var k := LineLength(s);
      if k < |s| {
        BlankLines(s[k + BreakWidth(s, k)..]);
      }
    }
  }

  // ---------------------------------------------------------------- inputs that are read differently

  /** A frame of non-blank lines, joined by LF: what both sides split it into. */
  lemma JoinedLines(lines: seq<string>)
    requires lines != [] && forall i :: 0 <= i < |lines| ==> lines[i] != "" && NoLineBreak(lines[i])
    ensures var raw := Join("\n", lines);
            RStripCr(raw) == raw && SplitLines(raw) == lines && StandardOf(raw) == Dispatched(StandardReading(lines))
  {
    var raw := Join("\n", lines);
    LinesArePlainToo(lines);
    JoinEndsPlain(lines);
    assert RStripCr(raw) == raw;
    SplitLinesJoin(lines);
    OnlyLf(lines);
    SameLinesIff(raw);
    EventsOfOne(lines);
  }

  lemma LinesArePlainToo(lines: seq<string>)
    requires forall i :: 0 <= i < |lines| ==> lines[i] != "" && NoLineBreak(lines[i])
    ensures forall i :: 0 <= i < |lines| ==> PlainLine(lines[i])
  {
  }

  lemma {:induction false} OnlyLf(lines: seq<string>)
    requires forall i :: 0 <= i < |lines| ==> NoLineBreak(lines[i])
    ensures OnlyCrLf(Join("\n", lines))
  {
    if |lines| > 1 {
      OnlyLf(lines[1..]);
      OnlyCrLfAppend(lines[0], "\n");
      OnlyCrLfAppend(lines[0] + "\n", Join("\n", lines[1..]));
    }
  }

  lemma OnlyCrLfAppend(a: string, b: string)
    requires OnlyCrLf(a) && OnlyCrLf(b)
    ensures OnlyCrLf(a + b)
  {
  }

  /** The parser's reading of a frame it does not skip, from its lines. */
  lemma ReadsAs(raw: string, lines: seq<string>)
    requires RStripCr(raw) == raw != "" && SplitLines(raw) == lines && !IsSpace(raw[0]) && raw[0] != ':'
    ensures ParserReading(raw) == LinesReading(lines)
  {
    RStripKeepsFirst(raw);
  }

  /** A frame of one line, which is no comment. */
  lemma OneLineFrame(line: string)
    requires line != "" && NoLineBreak(line) && !IsSpace(line[0]) && line[0] != ':'
    ensures ParserReading(line) == LinesReading([line])
    ensures StandardOf(line) == Dispatched(StandardReading([line]))
  {
    var lines := [line];
    JoinedLines(lines);
    assert Join("\n", lines) == line;
    ReadsAs(line, lines);
  }

  /** A comment line first: the standard skips the line, the parser the whole frame. */
  lemma LeadingCommentHidesData(comment: string, line: string)
    requires NoLineBreak(comment) && PrintableData(line)
    ensures var raw := Join("\n", [":" + comment, "data: " + line]);
            ParserReading(raw) == Nothing && StandardOf(raw) == [Message("message", line)]
  {
    var head, field := ":" + comment, "data: " + line;
    FieldIsPlain(":", comment);
    FieldIsPlain("data: ", line);
    assert head[..1] == ":";
    CommentFirst(head, field, line);
  }

  lemma CommentFirst(head: string, field: string, line: string)
    requires ":" <= head && NoLineBreak(head) && field == "data: " + line && NoLineBreak(field)
    ensures var raw := Join("\n", [head, field]);
            ParserReading(raw) == Nothing && StandardOf(raw) == [Message("message", line)]
  {
    var lines := [head, field];
    var raw := Join("\n", lines);
    JoinedLines(lines);
    assert lines[1..] == [field];
    assert raw == head + "\n" + field;
    assert ":" <= raw;
    OneMessage([head], field, line);
    assert [head] + [field] == lines;
  }

  lemma OneMessage(before: seq<string>, field: string, line: string)
    requires |before| <= 1 && (before != [] ==> FieldOf(before[0]).Comment?)
    requires field == "data: " + line
    ensures StandardReading(before + [field]) == Message("message", line)
  {
    var lines := before + [field];
    assert lines[..|before|] == before;
    assert before != [] ==> before[..0] == [];
    assert field[..5] == DATA && field[5..] == " " + line && field[0] == 'd';
    assert (" " + line)[1..] == line;
    assert EVENT[0] == 'e' && "event"[0] == 'e';
    DataLine(field);
    TypeLine(field);
    assert StandardData(before) == [] && StandardType(before) == "";
    assert StandardData(lines) == [line];
  }

  lemma LinesOfOne(line: string)
    ensures DataLines([line]) ==
            if !(EVENT <= line) && DATA <= line then [LStrip(RemovePrefix(line, DATA))] else []
    ensures EventName([line]) == if EVENT <= line then Strip(RemovePrefix(line, EVENT)) else "message"
  {
    var none: seq<string> := [];
    assert [line][..0] == none;
  }

  /** A frame that only names its event: the standard dispatches nothing, the parser raises. */
  lemma NoDataIsRefused(name: string)
    requires PrintableName(name)
    ensures ParserReading("event: " + name) == Refused && StandardOf("event: " + name) == []
  {
    var line := "event: " + name;
    assert line[..6] == EVENT;
    FieldIsPlain("event: ", name);
    EventAlone(line);
  }

  lemma EventAlone(line: string)
    requires EVENT <= line && NoLineBreak(line)
    ensures ParserReading(line) == Refused && StandardOf(line) == []
  {
    assert line[0] == EVENT[0] == 'e';
    OneLineFrame(line);
    LinesOfOne(line);
    NotData(line);
    NothingDispatched([line]);
  }

  lemma NotData(line: string)
    requires line != "" && line[0] != 'd'
    ensures !IsData(line)
  {
    assert DATA[0] == 'd' && "data"[0] == 'd';
  }

  /** Two spaces behind the colon: the standard drops one, the parser both. */
  lemma LeadingBlanksAreStripped(line: string)
    requires PrintableData(line)
    ensures ParserReading("data:  " + line) == Message("message", line)
    ensures StandardOf("data:  " + line) == [Message("message", " " + line)]
  {
    var field := "data:  " + line;
    TwoSpaces(field, line);
    FieldIsPlain("data:  ", line);
    OneLineFrame(field);
    LinesOfOne(field);
    assert Join("\n", [line]) == line;
    OneDataLine(field, " " + line);
  }

  lemma OneDataLine(field: string, line: string)
    requires field == "data: " + line
    ensures StandardReading([field]) == Message("message", line)
  {
    var none: seq<string> := [];
    assert none + [field] == [field];
    OneMessage(none, field, line);
  }

  lemma TwoSpaces(field: string, line: string)
    requires field == "data:  " + line && (line == "" || !IsSpace(line[0]))
    ensures DATA <= field && field[0] == 'd' && !(EVENT <= field)
    ensures LStrip(RemovePrefix(field, DATA)) == line && field == "data: " + (" " + line)
  {
    assert field[..5] == DATA && field[5..] == " " + (" " + line);
    assert EVENT[0] == 'e';
    assert (" " + (" " + line))[1..] == " " + line;
    LStripPadded(line);
  }

  /** NEL ends a line for `splitlines` but not for the standard, which sees one line without a field it knows. */
  lemma NextLineMakesData(line: string)
    requires PrintableData(line)
    ensures var raw := "x\U{85}" + ("data: " + line);
            ParserReading(raw) == Message("message", line) && StandardOf(raw) == []
  {
    var field := "data: " + line;
    var raw := "x\U{85}" + field;
    FieldIsPlain("data: ", line);
    assert raw[0] == 'x' && raw[|raw| - 1] == field[|field| - 1] != '\r';
    assert RStripCr(raw) == raw;
    SplitAtNextLine(field);
    ReadsAs(raw, ["x", field]);
    DataBehindX(field, line);
    forall i | 0 <= i < |raw| ensures !IsCrLf(raw[i]) { assert i >= 2 ==> raw[i] == field[i - 2]; }
    NothingInOneLine(raw);
  }

  lemma NothingInOneLine(line: string)
    requires line != "" && line[0] != 'd' && RStripCr(line) == line && forall i :: 0 <= i < |line| ==> !IsCrLf(line[i])
    ensures StandardOf(line) == []
  {
    NoCrLfIsOneLine(line);
    NotData(line);
    NoEventsIff([line]);
  }

  lemma {:induction false} NoCrLfIsOneLine(s: string)
    requires s != "" && forall i :: 0 <= i < |s| ==> !IsCrLf(s[i])
    ensures StandardLength(s) == |s| && StandardLines(s) == [s]
  {
    if |s| > 1 { NoCrLfIsOneLine(s[1..]); }
  }

  lemma SplitAtNextLine(field: string)
    requires field != "" && NoLineBreak(field)
    ensures SplitLines("x\U{85}" + field) == ["x", field]
  {
    var raw := "x\U{85}" + field;
    assert raw == "x" + ("\U{85}" + field);
    LineLengthAt("x", "\U{85}" + field);
    assert raw[..1] == "x" && raw[1] == '\U{85}' && raw[2..] == field;
    SplitFirst(raw, 1, field);
    SplitLinesJoin([field]);
  }

  lemma DataBehindX(field: string, line: string)
    requires PrintableData(line) && field == "data: " + line
    ensures LinesReading(["x", field]) == Message("message", line)
  {
    DataFieldReads(line);
    FieldsSnoc(["x"], field);
    LinesOfOne("x");
    NotEvent("x");
    NotData("x");
    assert ["x"] + [field] == ["x", field];
  }

  lemma NotEvent(line: string)
    requires line != "" && line[0] != 'e'
    ensures !(EVENT <= line)
  {
    assert EVENT[0] == 'e';
  }

  /** CR CR is a blank line for the standard, which dispatches twice; the parser sees one event. */
  lemma CrCrIsNoBoundary(a: string, b: string)
    requires PrintableData(a) && PrintableData(b)
    ensures var raw := ("data: " + a) + "\r" + ("\r" + ("data: " + b));
            && ParserReading(raw) == Message("message", a + "\n" + b)
            && StandardOf(raw) == [Message("message", a), Message("message", b)]
  {
    var first, second := "data: " + a, "data: " + b;
    var raw := first + "\r" + ("\r" + second);
    FieldIsPlain("data: ", a);
    FieldIsPlain("data: ", b);
    assert raw[0] == 'd' && raw[|raw| - 1] == second[|second| - 1] != '\r';
    assert RStripCr(raw) == raw;
    SplitAtCrCr(first, second);
    ReadsAs(raw, [first, "", second]);
    TwoDataLines(first, second, a, b);
    OnlyCrLfAppend(first, "\r");
    OnlyCrLfAppend("\r", second);
    OnlyCrLfAppend(first + "\r", "\r" + second);
    SameLinesIff(raw);
    TwoSections(first, second, a, b);
  }

  lemma SplitAtCrCr(first: string, second: string)
    requires NoLineBreak(first) && NoLineBreak(second) && second != ""
    ensures SplitLines(first + "\r" + ("\r" + second)) == [first, "", second]
  {
    var rest := "\r" + second;
    SplitAtCr(first, rest);
    assert "" + "\r" + second == rest;
    assert !IsLineBreak(second[0]);
    SplitAtCr("", second);
    SplitLinesJoin([second]);
    assert [first] + ([""] + [second]) == [first, "", second];
  }

  lemma SplitAtCr(line: string, rest: string)
    requires NoLineBreak(line) && (rest != "" ==> rest[0] != '\n')
    ensures SplitLines(line + "\r" + rest) == [line] + SplitLines(rest)
  {
    var raw := line + "\r" + rest;
    assert raw == line + ("\r" + rest);
    LineLengthAt(line, "\r" + rest);
    assert raw[..|line|] == line && raw[|line|] == '\r' && raw[|line| + 1..] == rest;
    assert rest != "" ==> raw[|line| + 1] == rest[0];
    SplitFirst(raw, |line|, rest);
  }

  lemma TwoDataLines(first: string, second: string, a: string, b: string)
    requires PrintableData(a) && PrintableData(b) && first == "data: " + a && second == "data: " + b
    ensures LinesReading([first, "", second]) == Message("message", a + "\n" + b)
  {
    DataFieldReads(a);
    DataFieldReads(b);
    LinesOfOne(first);
    var two := [first, ""];
    assert two[..1] == [first];
    assert DataLines(two) == [a] && EventName(two) == "message";
    FieldsSnoc(two, second);
    assert two + [second] == [first, "", second];
    assert Join("\n", [a, b]) == a + "\n" + b by { assert [a, b][1..] == [b]; }
  }

  lemma TwoSections(first: string, second: string, a: string, b: string)
    requires PrintableData(a) && PrintableData(b) && first == "data: " + a && second == "data: " + b
    ensures StandardEvents([first, "", second]) == [Message("message", a), Message("message", b)]
  {
    var lines := [first, "", second];
    assert first[0] == 'd' && lines[1..] == ["", second];
    assert FirstEmpty(lines[1..]) == 0;
    assert FirstEmpty(lines) == 1;
    EventsUnfold(lines, 1);
    assert lines[..1] == [first] && lines[2..] == [second];
    assert second != "";
    EventsOfOne([second]);
    OneDataLine(first, a);
    OneDataLine(second, b);
  }
}
