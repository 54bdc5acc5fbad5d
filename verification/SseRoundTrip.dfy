/**
 Printing and parsing: event streams printed as SSE frames come back as the events they
 were printed from, however the bytes are cut into chunks; and a stream cut inside a frame
 is always reported as truncated.
 */
module SseRoundTrip {
  import opened Wrappers
  import opened PyText
  import opened Utf8
  import opened SseParser
  import opened SseChunking

  datatype Eol = Lf | CrLf {
    function Text(): string {
      if Lf? then "\n" else "\r\n"
    }
  }

  /**
   One printed frame. An event names its type or leaves the default "message"; a comment
   is any frame whose first line starts with a colon.
   */
  datatype Block =
    | EventBlock(name: Option<string>, data: seq<string>, eol: Eol)
    | CommentBlock(lines: seq<string>, eol: Eol)

  predicate PlainLine(line: string) {
    line != "" && forall i :: 0 <= i < |line| ==> line[i] != '\n' && line[i] != '\r'
  }

  predicate PrintableName(name: string) {
    Strip(name) == name && NoLineBreak(name)
  }

  predicate PrintableData(line: string) {
    (line == "" || !IsSpace(line[0])) && NoLineBreak(line)
  }

  predicate Printable(block: Block) {
    match block
    case EventBlock(name, data, _) =>
      && (name.Some? ==> PrintableName(name.value))
      && data != []
      && forall i :: 0 <= i < |data| ==> PrintableData(data[i])
    case CommentBlock(lines, _) =>
      && lines != [] && ":" <= lines[0]
      && forall i :: 0 <= i < |lines| ==> PlainLine(lines[i])
  }

  function DataFields(data: seq<string>): (fields: seq<string>)
    ensures |fields| == |data|
    ensures forall i :: 0 <= i < |data| ==> fields[i] == "data: " + data[i]
  {
    seq(|data|, i requires 0 <= i < |data| => "data: " + data[i])
  }

  function Lines(block: Block): seq<string> {
    match block
    case EventBlock(name, data, _) =>
      (if name.Some? then ["event: " + name.value] else []) + DataFields(data)
    case CommentBlock(lines, _) => lines
  }

  function PrintLines(lines: seq<string>, eol: string): string {
    if lines == [] then "" else lines[0] + eol + PrintLines(lines[1..], eol)
  }

  function PrintBlock(block: Block): string {
    PrintLines(Lines(block), block.eol.Text()) + block.eol.Text()
  }

  function PrintStream(blocks: seq<Block>): string {
    if blocks == [] then "" else PrintBlock(blocks[0]) + PrintStream(blocks[1..])
  }

  function BlockName(name: Option<string>): string {
    if name.Some? then name.value else "message"
  }

  /** The events one block stands for: one for an event with readable data, none for a comment. */
  function BlockEvents<J>(json: JsonModel<J>, block: Block): seq<Event<J>> {
    match block
    case CommentBlock(_, _) => []
    case EventBlock(name, data, _) =>
      var text := Join("\n", data);
      if Strip(text) == "[DONE]" then [Event(BlockName(name), json.done)]
      else
        match json.loads(text)
        case None => []
        case Some(j) => [Event(BlockName(name), j)]
  }

  function Events<J>(json: JsonModel<J>, blocks: seq<Block>): seq<Event<J>> {
    FlatMap(EventReader(json), blocks)
  }

  function EventReader<J>(json: JsonModel<J>): Block -> seq<Event<J>> {
    block => BlockEvents(json, block)
  }

  /** The data text of an event is the done marker or JSON. */
  predicate Readable<J>(json: JsonModel<J>, block: Block) {
    block.EventBlock? ==> Strip(Join("\n", block.data)) == "[DONE]" || json.loads(Join("\n", block.data)).Some?
  }

  // ---------------------------------------------------------------- the printed text

  lemma FieldIsPlain(field: string, value: string)
    requires field != "" && NoLineBreak(field) && NoLineBreak(value)
    ensures PlainLine(field + value) && NoLineBreak(field + value)
  {
  }

  lemma LinesArePlain(block: Block)
    requires Printable(block)
    ensures Lines(block) != []
    ensures forall i :: 0 <= i < |Lines(block)| ==> PlainLine(Lines(block)[i])
    ensures block.EventBlock? ==> forall i :: 0 <= i < |Lines(block)| ==> NoLineBreak(Lines(block)[i])
  {
    if block.EventBlock? {
      DataFieldsArePlain(block.data);
      if block.name.Some? { FieldIsPlain("event: ", block.name.value); }
    }
  }

  lemma DataFieldsArePlain(data: seq<string>)
    requires forall i :: 0 <= i < |data| ==> PrintableData(data[i])
    ensures forall i :: 0 <= i < |data| ==> PlainLine(DataFields(data)[i]) && NoLineBreak(DataFields(data)[i])
  {
    forall i | 0 <= i < |data|
      ensures PlainLine(DataFields(data)[i]) && NoLineBreak(DataFields(data)[i])
    {
      FieldIsPlain("data: ", data[i]);
    }
  }

  /** Every CR is followed by LF. */
  ghost predicate CrPaired(s: string) {
    forall i :: 0 <= i < |s| && s[i] == '\r' ==> i + 1 < |s| && s[i + 1] == '\n'
  }

  lemma CrPairedAppend(a: string, b: string)
    requires CrPaired(a) && CrPaired(b)
    ensures CrPaired(a + b)
  {
    var s := a + b;
    forall i | 0 <= i < |s| && s[i] == '\r' ensures i + 1 < |s| && s[i + 1] == '\n' {
      if i < |a| { assert a[i] == '\r'; } else { assert b[i - |a|] == '\r'; }
    }
  }

  lemma CrPairedSettled(s: string)
    requires CrPaired(s)
    ensures Settled(s) && !EndsCr(s)
  {
  }

  lemma {:induction false} PrintLinesPaired(lines: seq<string>, eol: Eol)
    requires forall i :: 0 <= i < |lines| ==> PlainLine(lines[i])
    ensures CrPaired(PrintLines(lines, eol.Text()))
  {
    if lines != [] {
      PrintLinesPaired(lines[1..], eol);
      assert CrPaired(lines[0]) && CrPaired(eol.Text());
      CrPairedAppend(lines[0], eol.Text());
      CrPairedAppend(lines[0] + eol.Text(), PrintLines(lines[1..], eol.Text()));
    }
  }

  lemma {:induction false} PrintStreamPaired(blocks: seq<Block>)
    requires forall i :: 0 <= i < |blocks| ==> Printable(blocks[i])
    ensures CrPaired(PrintStream(blocks))
  {
    if blocks != [] {
      PrintBlockPaired(blocks[0]);
      PrintStreamPaired(blocks[1..]);
      CrPairedAppend(PrintBlock(blocks[0]), PrintStream(blocks[1..]));
    }
  }

  lemma PrintBlockPaired(block: Block)
    requires Printable(block)
    ensures CrPaired(PrintBlock(block))
  {
    LinesArePlain(block);
    PrintLinesPaired(Lines(block), block.eol);
    CrPairedAppend(PrintLines(Lines(block), block.eol.Text()), block.eol.Text());
  }

  lemma NormalizePlain(line: string)
    requires PlainLine(line)
    ensures Normalize(line) == line
  {
    NormalizeNoCrLf(line);
  }

  lemma {:induction false} NormalizeLines(lines: seq<string>, eol: Eol)
    requires forall i :: 0 <= i < |lines| ==> PlainLine(lines[i])
    ensures Normalize(PrintLines(lines, eol.Text())) == PrintLines(lines, "\n")
  {
    if lines != [] {
      var line, rest, e := lines[0], PrintLines(lines[1..], eol.Text()), eol.Text();
      NormalizeLines(lines[1..], eol);
      NormalizePlain(line);
      NormalizeEol(eol);
      NormalizeAppend(e, rest);
      assert line + e + rest == line + (e + rest);
      NormalizeAppend(line, e + rest);
      assert line + ("\n" + PrintLines(lines[1..], "\n")) == line + "\n" + PrintLines(lines[1..], "\n");
    }
  }

  lemma NormalizeEol(eol: Eol)
    ensures Normalize(eol.Text()) == "\n" && !EndsCr(eol.Text())
  {
    if eol.CrLf? { assert "\r\n"[2..] == ""; }
  }

  lemma {:induction false} PrintLinesJoin(lines: seq<string>)
    requires lines != []
    ensures PrintLines(lines, "\n") == Join("\n", lines) + "\n"
  {
    if |lines| == 1 {
      assert PrintLines(lines[1..], "\n") == "";
    } else {
      PrintLinesJoin(lines[1..]);
      assert lines[0] + "\n" + (Join("\n", lines[1..]) + "\n") == lines[0] + "\n" + Join("\n", lines[1..]) + "\n";
    }
  }

  /** After normalising, a printed frame is its lines joined by LF, and a blank line. */
  lemma NormalizeBlock(block: Block, more: string)
    requires Printable(block)
    ensures Normalize(PrintBlock(block) + more) == Join("\n", Lines(block)) + "\n\n" + Normalize(more)
  {
    LinesArePlain(block);
    PrintBlockPaired(block);
    CrPairedSettled(PrintBlock(block));
    NormalizeAppend(PrintBlock(block), more);
    var text, e := PrintLines(Lines(block), block.eol.Text()), block.eol.Text();
    PrintLinesPaired(Lines(block), block.eol);
    CrPairedSettled(text);
    NormalizeAppend(text, e);
    NormalizeEol(block.eol);
    NormalizeLines(Lines(block), block.eol);
    PrintLinesJoin(Lines(block));
    assert Join("\n", Lines(block)) + "\n" + "\n" == Join("\n", Lines(block)) + "\n\n";
  }

  // ---------------------------------------------------------------- parsing what was printed

  lemma BoundaryAfterPlain(line: string, rest: string)
    requires PlainLine(line)
    requires rest == "" || !BlankLineAt(rest, 0) || |line| > 0
    ensures Boundary(line + rest) == |line| + Boundary(rest)
    decreases |line|
  {
    var s := line + rest;
    assert s[0] == line[0];
    if |line| == 1 {
      assert s[1..] == rest;
    } else {
      assert s[1..] == line[1..] + rest;
      BoundaryAfterPlain(line[1..], rest);
    }
  }

  lemma {:induction false} BoundaryAtEnd(lines: seq<string>, z: string)
    requires lines != []
    requires forall i :: 0 <= i < |lines| ==> PlainLine(lines[i])
    ensures Boundary(Join("\n", lines) + "\n\n" + z) == |Join("\n", lines)|
  {
    if |lines| == 1 {
      assert Join("\n", lines) + "\n\n" + z == lines[0] + ("\n\n" + z);
      BoundaryAfterPlain(lines[0], "\n\n" + z);
    } else {
      var rest := Join("\n", lines[1..]) + "\n\n" + z;
      BoundaryAtEnd(lines[1..], z);
      assert Join("\n", lines) + "\n\n" + z == lines[0] + ("\n" + rest);
      assert ("\n" + rest)[1..] == rest;
      JoinStartsPlain(lines[1..]);
      assert rest[0] != '\n';
      BoundaryAfterPlain(lines[0], "\n" + rest);
    }
  }

  lemma JoinStartsPlain(lines: seq<string>)
    requires lines != [] && PlainLine(lines[0])
    ensures Join("\n", lines) != "" && Join("\n", lines)[0] == lines[0][0]
  {
  }

  lemma {:induction false} JoinEndsPlain(lines: seq<string>)
    requires lines != []
    requires forall i :: 0 <= i < |lines| ==> PlainLine(lines[i])
    ensures Join("\n", lines) != "" && Join("\n", lines)[|Join("\n", lines)| - 1] != '\r'
  {
    if |lines| > 1 {
      JoinEndsPlain(lines[1..]);
    }
  }

  lemma {:induction false} DataLinesOfFields(prefix: seq<string>, data: seq<string>)
    requires DataLines(prefix) == []
    requires forall i :: 0 <= i < |data| ==> PrintableData(data[i])
    ensures DataLines(prefix + DataFields(data)) == data
    ensures EventName(prefix + DataFields(data)) == EventName(prefix)
    decreases |data|
  {
    if data == [] {
      assert prefix + DataFields(data) == prefix;
    } else {
      var n := |data| - 1;
      DataFieldsSnoc(prefix, data);
      DataLinesOfFields(prefix, data[..n]);
      DataFieldReads(data[n]);
      FieldsSnoc(prefix + DataFields(data[..n]), "data: " + data[n]);
    }
  }

  lemma DataFieldsSnoc(prefix: seq<string>, data: seq<string>)
    requires data != []
    ensures data == data[..|data| - 1] + [data[|data| - 1]]
    ensures prefix + DataFields(data)
         == prefix + DataFields(data[..|data| - 1]) + ["data: " + data[|data| - 1]]
  {
    assert DataFields(data) == DataFields(data[..|data| - 1]) + ["data: " + data[|data| - 1]];
  }

  /** What one more data line adds. */
  lemma FieldsSnoc(lines: seq<string>, line: string)
    requires !(EVENT <= line) && DATA <= line
    ensures DataLines(lines + [line]) == DataLines(lines) + [LStrip(RemovePrefix(line, DATA))]
    ensures EventName(lines + [line]) == EventName(lines)
  {
    assert (lines + [line])[..|lines|] == lines;
  }

  lemma DataFieldReads(line: string)
    requires PrintableData(line)
    ensures !(EVENT <= "data: " + line) && DATA <= "data: " + line
    ensures LStrip(RemovePrefix("data: " + line, DATA)) == line
  {
    var field := "data: " + line;
    assert field[0] == 'd';
    assert field[..5] == DATA;
    assert field[5..] == " " + line;
    LStripPadded(line);
  }

  lemma EventFieldReads(name: string)
    requires PrintableName(name)
    ensures EVENT <= "event: " + name
    ensures EventName(["event: " + name]) == name
    ensures DataLines(["event: " + name]) == []
  {
    var field := "event: " + name;
    assert field[..6] == EVENT;
    assert field[6..] == " " + name;
    StripPadded(name);
    assert [field][..0] == [];
  }

  /** A printed event reads back as itself, a frame that starts with a colon as nothing. */
  lemma ParseBlock<J>(json: JsonModel<J>, block: Block)
    requires Printable(block) && Readable(json, block)
    ensures ParseFrame(json, Join("\n", Lines(block))) ==
            if block.CommentBlock? then Skipped else Emitted(BlockEvents(json, block)[0])
    ensures |BlockEvents(json, block)| == if block.CommentBlock? then 0 else 1
  {
    if block.CommentBlock? {
      var frame := Join("\n", block.lines);
      JoinEndsPlain(block.lines);
      JoinStartsPlain(block.lines);
      assert block.lines[0][..1] == ":";
      ParseColon(json, frame);
    } else {
      ParseEvent(json, block);
    }
  }

  lemma ParseColon<J>(json: JsonModel<J>, frame: string)
    requires frame != "" && frame[0] == ':' && frame[|frame| - 1] != '\r'
    ensures ParseFrame(json, frame).Skipped?
  {
    assert RStripCr(frame) == frame;
    assert frame[..1] == ":";
  }

  lemma ParseEvent<J>(json: JsonModel<J>, block: Block)
    requires Printable(block) && Readable(json, block) && block.EventBlock?
    ensures |BlockEvents(json, block)| == 1
    ensures ParseFrame(json, Join("\n", Lines(block))) == Emitted(BlockEvents(json, block)[0])
  {
    PrintedOutcome(json, block);
  }

  /**
   The outcome of any printed event: the done marker where the data text says so, whatever
   `json.loads` makes of it; otherwise the value of the text, or an error.
   */
  lemma PrintedOutcome<J>(json: JsonModel<J>, block: Block)
    requires Printable(block) && block.EventBlock?
    ensures var text := Join("\n", block.data);
            ParseFrame(json, Join("\n", Lines(block))) ==
            if Strip(text) == "[DONE]" then Emitted(Event(BlockName(block.name), json.done))
            else if json.loads(text).Some? then Emitted(Event(BlockName(block.name), json.loads(text).value))
            else Malformed(DataNotJson)
  {
    EventFieldsRead(block);
    ParseFields(json, Join("\n", Lines(block)), Lines(block), Join("\n", block.data));
  }

  lemma ParseFields<J>(json: JsonModel<J>, frame: string, lines: seq<string>, text: string)
    requires frame != "" && (frame[0] == 'e' || frame[0] == 'd') && frame[|frame| - 1] != '\r'
    requires SplitLines(frame) == lines && DataLines(lines) != [] && text == Join("\n", DataLines(lines))
    ensures ParseFrame(json, frame) ==
            if Strip(text) == "[DONE]" then Emitted(Event(EventName(lines), json.done))
            else if json.loads(text).Some? then Emitted(Event(EventName(lines), json.loads(text).value))
            else Malformed(DataNotJson)
  {
    assert RStripCr(frame) == frame;
    assert Strip(frame) == RStrip(frame) != "" by { RStripKeepsFirst(frame); }
    assert !(":" <= frame);
  }

  lemma EventFieldsRead(block: Block)
    requires Printable(block) && block.EventBlock?
    ensures var frame := Join("\n", Lines(block));
            && frame != "" && (frame[0] == 'e' || frame[0] == 'd') && frame[|frame| - 1] != '\r'
            && SplitLines(frame) == Lines(block)
    ensures DataLines(Lines(block)) == block.data
    ensures EventName(Lines(block)) == if block.name.Some? then block.name.value else "message"
  {
    EventFrameText(block);
    var prefix := if block.name.Some? then ["event: " + block.name.value] else [];
    if block.name.Some? { EventFieldReads(block.name.value); }
    DataLinesOfFields(prefix, block.data);
  }

  lemma EventFrameText(block: Block)
    requires Printable(block) && block.EventBlock?
    ensures var frame := Join("\n", Lines(block));
            && frame != "" && (frame[0] == 'e' || frame[0] == 'd') && frame[|frame| - 1] != '\r'
            && SplitLines(frame) == Lines(block)
  {
    LinesArePlain(block);
    JoinEndsPlain(Lines(block));
    JoinStartsPlain(Lines(block));
    assert Lines(block)[0][0] == 'e' || Lines(block)[0][0] == 'd';
    SplitLinesJoin(Lines(block));
  }

  lemma {:induction false} CutPrinted<J>(json: JsonModel<J>, blocks: seq<Block>)
    requires forall i :: 0 <= i < |blocks| ==> Printable(blocks[i]) && Readable(json, blocks[i])
    ensures CutFrames(FrameReader(json), Normalize(PrintStream(blocks))) == CutOk(Events(json, blocks), "")
  {
    if blocks != [] {
      var block, rest := blocks[0], blocks[1..];
      var frame, tail := Join("\n", Lines(block)), Normalize(PrintStream(rest));
      CutPrinted(json, rest);
      NormalizeBlock(block, PrintStream(rest));
      LinesArePlain(block);
      BoundaryAtEnd(Lines(block), tail);
      CutOneFrame(FrameReader(json), frame, tail);
      ParseBlock(json, block);
      AfterBlock(ParseFrame(json, frame), BlockEvents(json, block), tail, Events(json, rest));
    }
  }

  lemma AfterBlock<J>(outcome: FrameOutcome<J>, events: seq<Event<J>>, tail: string, more: seq<Event<J>>)
    requires |events| <= 1 && outcome == if events == [] then Skipped else Emitted(events[0])
    ensures AfterFrame(outcome, tail, CutOk(more, "")) == CutOk(events + more, "")
  {
    assert events == [] || events == [events[0]];
    assert events == [] ==> events + more == more;
  }

  /**
   Round trip: printed as UTF-8 with LF or CR LF line ends, with comment frames in between,
   and fed in any chunks, a list of events comes back as exactly that list, and `finish`
   finds nothing left over.
   */
  lemma RoundTrip<J>(json: JsonModel<J>, blocks: seq<Block>, chunks: seq<seq<byte>>)
    requires forall i :: 0 <= i < |blocks| ==> Printable(blocks[i]) && Readable(json, blocks[i])
    requires Flatten(chunks) == Encode(PrintStream(blocks))
    ensures FeedAll(json, chunks) == Accepted(State([], ""), Events(json, blocks))
    ensures FinishError(State([], "")) == None
  {
    var text := PrintStream(blocks);
    EncodeDecode(text);
    PrintStreamPaired(blocks);
    CrPairedSettled(text);
    EncodedCrCrLf(Encode(text));
    ChunkInvariance(json, chunks);
    FeedPrinted(json, blocks);
  }

  // ---------------------------------------------------------------- truncation

  /**
   The bytes of one frame: valid UTF-8 that, line ends normalised, has its first blank
   line at its very end.
   */
  ghost predicate IsFrame(frame: seq<byte>) {
    && Decode(frame).Some? && Decode(frame).value.rest == []
    && var text := Normalize(Decode(frame).value.text);
    && 2 <= |text| && Boundary(text) == |text| - 2
  }

  /** The first k bytes are white space and the next sequence is a character that is not. */
  ghost predicate FirstNonBlank(frame: seq<byte>, k: nat) {
    && k < |frame| && Decode(frame[..k]).Some? && Decode(frame[..k]).value.rest == []
    && Blank(Decode(frame[..k]).value.text)
    && Decode(frame).Some?
    && |Decode(frame[..k]).value.text| < |Decode(frame).value.text|
    && !IsSpace(Decode(frame).value.text[|Decode(frame[..k]).value.text|])
  }

  lemma NormalizeKeepsNonBlank(s: string)
    requires !Blank(s)
    ensures !Blank(Normalize(s))
    decreases |s|
  {
    if |s| >= 2 && s[0] == '\r' && s[1] == '\n' {
      assert IsSpace(s[0]) && IsSpace(s[1]);
      assert !Blank(s[2..]) by {
        var i :| 0 <= i < |s| && !IsSpace(s[i]);
        assert s[2..][i - 2] == s[i];
      }
      NormalizeKeepsNonBlank(s[2..]);
      var n := Normalize(s[2..]);
      var j :| 0 <= j < |n| && !IsSpace(n[j]);
      assert Normalize(s)[j + 1] == n[j];
    } else if IsSpace(s[0]) {
      assert !Blank(s[1..]) by {
        var i :| 0 <= i < |s| && !IsSpace(s[i]);
        assert s[1..][i - 1] == s[i];
      }
      NormalizeKeepsNonBlank(s[1..]);
      var n := Normalize(s[1..]);
      var j :| 0 <= j < |n| && !IsSpace(n[j]);
      assert Normalize(s)[j + 1] == n[j];
    } else {
      assert Normalize(s)[0] == s[0];
    }
  }

  /** A blank line completed before the last character arrives is not the last one of the text. */
  lemma EarlyBoundary(x: string, y: string)
    requires Settled(x + y) && y != ""
    requires Boundary(Normalize(x)) < |Normalize(x)|
    ensures Boundary(Normalize(x + y)) < |Normalize(x + y)| - 2
  {
    var n := Normalize(x);
    var i := Boundary(n);
    var c, r := n[..i + 2], n[i + 2..];
    assert n == c + r;
    SettledPrefix(x, y);
    NormalizeFromRest(x, y, c, r);
    NormalizeLast(r + y);
    BoundaryIsFirst(c + Normalize(r + y), i);
  }

  /** A proper prefix of valid UTF-8 decodes, to a text that still lacks some characters. */
  lemma PrefixDecodes(frame: seq<byte>, p: nat) returns (missing: string)
    requires Decode(frame).Some? && Decode(frame).value.rest == [] && p < |frame|
    ensures Decode(frame[..p]).Some? && missing != ""
    ensures Decode(frame).value.text == Decode(frame[..p]).value.text + missing
  {
    var head, tail := frame[..p], frame[p..];
    assert head + tail == frame;
    DecodeAppend(head, tail);
    var rest := Decode(head).value.rest + tail;
    missing := Decode(rest).value.text;
    if missing == "" { HeldBackLength(rest); }
  }

  /** A proper prefix of a frame completes no frame. */
  lemma PrefixHasNoBoundary(frame: seq<byte>, p: nat)
    requires IsFrame(frame) && p < |frame| && Settled(Decode(frame).value.text)
    ensures Decode(frame[..p]).Some?
    ensures var n := Normalize(Decode(frame[..p]).value.text); Boundary(n) == |n|
  {
    var missing := PrefixDecodes(frame, p);
    var x := Decode(frame[..p]).value.text;
    if Boundary(Normalize(x)) < |Normalize(x)| { EarlyBoundary(x, missing); }
  }

  /** Bytes that decode to no text at all are exactly the bytes held back. */
  lemma HeldBackLength(b: seq<byte>)
    requires Decode(b).Some? && Decode(b).value.text == ""
    ensures Decode(b).value.rest == b
  {
    if b != [] && FirstSequence(b).Complete? { DecodeComplete(b); }
  }

  lemma DecodeWholeAppend(x: seq<byte>, y: seq<byte>)
    requires Decode(x).Some? && Decode(x).value.rest == [] && Decode(x + y).Some?
    ensures Decode(y).Some? && Decode(x + y).value.text == Decode(x).value.text + Decode(y).value.text
    ensures Decode(x + y).value.rest == Decode(y).value.rest
  {
    DecodeAppend(x, y);
    assert [] + y == y;
  }

  lemma PrefixNotBlank(frame: seq<byte>, k: nat, p: nat)
    requires FirstNonBlank(frame, k) && k < p <= |frame|
    requires Decode(frame[..p]).Some? && Decode(frame[..p]).value.rest == []
    ensures !Blank(Decode(frame[..p]).value.text)
  {
    var x, y, z := frame[..k], frame[k..p], frame[p..];
    assert frame[..p] == x + y;
    assert frame == frame[..p] + z;
    DecodeWholeAppend(x, y);
    DecodeWholeAppend(frame[..p], z);
    if Decode(y).value.text == "" { HeldBackLength(y); }
    var i := |Decode(x).value.text|;
    assert Decode(frame).value.text[i] == Decode(frame[..p]).value.text[i];
  }

  /** What one frame yields when it is fed on its own. */
  function FrameEvents<J>(json: JsonModel<J>, frame: seq<byte>): seq<Event<J>> {
    var fed := FeedStep(json, Initial, frame);
    if fed.Accepted? then fed.events else []
  }

  function StreamEvents<J>(json: JsonModel<J>, frames: seq<seq<byte>>): seq<Event<J>> {
    if frames == [] then []
    else StreamEvents(json, frames[..|frames| - 1]) + FrameEvents(json, frames[|frames| - 1])
  }

  /** A frame that the parser does not refuse. */
  ghost predicate GoodFrame<J>(json: JsonModel<J>, frame: seq<byte>) {
    IsFrame(frame) && FeedStep(json, Initial, frame).Accepted?
  }

  /** A stream of complete frames without CR CR LF. */
  ghost predicate WellFormed<J>(json: JsonModel<J>, frames: seq<seq<byte>>) {
    SettledBytes(Flatten(frames)) && forall frame :: frame in frames ==> GoodFrame(json, frame)
  }

  lemma FrameLeavesNothing<J>(json: JsonModel<J>, frame: seq<byte>)
    requires GoodFrame(json, frame)
    ensures FeedStep(json, Initial, frame) == Accepted(State([], ""), FrameEvents(json, frame))
  {
    FeedWhole(json, frame);
    LastFrame(FrameReader(json), Normalize(Decode(frame).value.text));
  }

  lemma LastFrame<J>(parse: string -> FrameOutcome<J>, text: string)
    requires 2 <= |text| && Boundary(text) == |text| - 2
    ensures CutFrames(parse, text).rest == ""
  {
    assert text[|text|..] == "";
  }

  /** A well-formed stream yields the events of its frames and leaves nothing behind. */
  lemma {:induction false} FramesLeaveNothing<J>(json: JsonModel<J>, frames: seq<seq<byte>>)
    requires WellFormed(json, frames)
    ensures FeedStep(json, Initial, Flatten(frames)) == Accepted(State([], ""), StreamEvents(json, frames))
    decreases |frames|
  {
    if frames == [] {
      FeedNothing(json);
    } else {
      var init, last := frames[..|frames| - 1], frames[|frames| - 1];
      WellFormedPrefix(json, frames, |frames| - 1);
      FramesLeaveNothing(json, init);
      assert GoodFrame(json, last);
      FrameLeavesNothing(json, last);
      FeedFromBoundary(json, Flatten(init), last, StreamEvents(json, init), State([], ""), FrameEvents(json, last));
    }
  }

  lemma WellFormedPrefix<J>(json: JsonModel<J>, frames: seq<seq<byte>>, k: nat)
    requires WellFormed(json, frames) && k <= |frames|
    ensures WellFormed(json, frames[..k])
  {
    FlattenPrefix(frames, k);
    SettledPart(Flatten(frames[..k]), Flatten(frames));
    forall frame | frame in frames[..k] ensures GoodFrame(json, frame) {
      assert frame in frames;
    }
  }

  lemma SettledPart(head: seq<byte>, whole: seq<byte>)
    requires SettledBytes(whole) && head <= whole
    ensures SettledBytes(head)
  {
    assert whole == head + whole[|head|..];
    SettledBytesPrefix(head, whole[|head|..]);
  }

  lemma {:induction false} StreamEventsPrefix<J>(json: JsonModel<J>, frames: seq<seq<byte>>, k: nat)
    requires k <= |frames|
    ensures StreamEvents(json, frames[..k]) <= StreamEvents(json, frames)
    decreases |frames|
  {
    if k == |frames| {
      assert frames[..k] == frames;
    } else {
      var init := frames[..|frames| - 1];
      StreamEventsPrefix(json, init, k);
      assert init[..k] == frames[..k];
    }
  }

  /**
   Truncation is always seen: a well-formed stream cut inside a frame, after its first
   non-blank character has begun and before the last byte of its blank line, yields exactly
   the events of the frames before it, and `finish` raises.
   */
  lemma TruncationIsSeen<J>(json: JsonModel<J>, before: seq<seq<byte>>, frame: seq<byte>, k: nat, p: nat,
                            chunks: seq<seq<byte>>)
    requires WellFormed(json, before) && SettledBytes(Flatten(before) + frame)
    requires IsFrame(frame) && FirstNonBlank(frame, k) && k < p < |frame|
    requires Flatten(chunks) == Flatten(before) + frame[..p]
    ensures FeedAll(json, chunks).Accepted? && FeedAll(json, chunks).events == StreamEvents(json, before)
    ensures FinishError(FeedAll(json, chunks).state).Some?
    ensures FinishError(FeedAll(json, chunks).state).value.Code() == "TRUNCATED_STREAM"
  {
    FramesLeaveNothing(json, before);
    CutInsideIsSeen(json, Flatten(before), frame, k, p, StreamEvents(json, before), chunks);
  }

  /** A well-formed stream cut at a frame boundary ends well, with exactly the events before the cut. */
  lemma BoundaryCutIsClean<J>(json: JsonModel<J>, frames: seq<seq<byte>>, k: nat, chunks: seq<seq<byte>>)
    requires WellFormed(json, frames) && k <= |frames|
    requires Flatten(chunks) == Flatten(frames[..k])
    ensures FeedAll(json, chunks) == Accepted(State([], ""), StreamEvents(json, frames[..k]))
    ensures StreamEvents(json, frames[..k]) <= StreamEvents(json, frames)
    ensures FinishError(FeedAll(json, chunks).state) == None
  {
    WellFormedPrefix(json, frames, k);
    StreamEventsPrefix(json, frames, k);
    FramesLeaveNothing(json, frames[..k]);
    ChunkInvariance(json, chunks);
  }

  /** The same behind any bytes that leave the parser as it started. */
  lemma CutInsideIsSeen<J>(json: JsonModel<J>, before: seq<byte>, frame: seq<byte>, k: nat, p: nat,
                           events: seq<Event<J>>, chunks: seq<seq<byte>>)
    requires SettledBytes(before + frame)
    requires FeedStep(json, Initial, before) == Accepted(State([], ""), events)
    requires IsFrame(frame) && FirstNonBlank(frame, k) && k < p < |frame|
    requires Flatten(chunks) == before + frame[..p]
    ensures FeedAll(json, chunks).Accepted? && FeedAll(json, chunks).events == events
    ensures FinishError(FeedAll(json, chunks).state).Some?
    ensures FinishError(FeedAll(json, chunks).state).value.Code() == "TRUNCATED_STREAM"
  {
    FeedCut(json, before, frame, p, events);
    ChunkInvariance(json, chunks);
    UnfinishedTail(frame, k, p);
  }

  lemma FeedCut<J>(json: JsonModel<J>, before: seq<byte>, frame: seq<byte>, p: nat, events: seq<Event<J>>)
    requires SettledBytes(before + frame)
    requires FeedStep(json, Initial, before) == Accepted(State([], ""), events)
    requires IsFrame(frame) && p < |frame|
    ensures SettledBytes(before + frame[..p]) && Decode(frame[..p]).Some?
    ensures FeedStep(json, Initial, before + frame[..p]) ==
            Accepted(State(Decode(frame[..p]).value.rest, Normalize(Decode(frame[..p]).value.text)), events)
  {
    CutSettled(before, frame, p);
    FeedWithoutFrame(json, frame[..p]);
    FeedFromBoundary(json, before, frame[..p], events,
                     State(Decode(frame[..p]).value.rest, Normalize(Decode(frame[..p]).value.text)), []);
    assert events + [] == events;
  }

  /** After a frame boundary the parser starts afresh. */
  lemma FeedFromBoundary<J>(json: JsonModel<J>, x: seq<byte>, y: seq<byte>, events: seq<Event<J>>, state: State,
                            more: seq<Event<J>>)
    requires SettledBytes(x + y)
    requires FeedStep(json, Initial, x) == Accepted(Initial, events)
    requires FeedStep(json, Initial, y) == Accepted(state, more)
    ensures FeedStep(json, Initial, x + y) == Accepted(state, events + more)
  {
    var both := FeedAfter(json, FeedStep(json, Initial, x), y);
    assert both == Accepted(state, events + more);
    SettledBytesPrefix(x, y);
    FeedAppend(json, x, y);
  }

  lemma CutSettled(before: seq<byte>, frame: seq<byte>, p: nat)
    requires SettledBytes(before + frame) && IsFrame(frame) && p < |frame|
    ensures SettledBytes(before + frame[..p]) && Decode(frame[..p]).Some?
    ensures var n := Normalize(Decode(frame[..p]).value.text); Boundary(n) == |n|
  {
    assert before + frame == (before + frame[..p]) + frame[p..];
    SettledBytesPrefix(before + frame[..p], frame[p..]);
    SettledBytesSuffix(before, frame);
    DecodedSettled(frame);
    PrefixHasNoBoundary(frame, p);
  }

  lemma UnfinishedTail(frame: seq<byte>, k: nat, p: nat)
    requires FirstNonBlank(frame, k) && k < p <= |frame| && Decode(frame[..p]).Some?
    ensures var d := Decode(frame[..p]).value;
            var error := FinishError(State(d.rest, Normalize(d.text)));
            error.Some? && error.value.Code() == "TRUNCATED_STREAM"
  {
    var d := Decode(frame[..p]).value;
    if d.rest == [] {
      PrefixNotBlank(frame, k, p);
      NormalizeKeepsNonBlank(d.text);
      StripBlank(Normalize(d.text));
    }
  }

  lemma SettledBytesSuffix(x: seq<byte>, y: seq<byte>)
    requires SettledBytes(x + y)
    ensures SettledBytes(y)
  {
    forall i: nat ensures !CrCrLfBytesAt(y, i) { assert !CrCrLfBytesAt(x + y, i + |x|); }
  }

  /** The same for printed streams: a cut anywhere inside block number |before| is reported. */
  lemma PrintedTruncation<J>(json: JsonModel<J>, before: seq<Block>, block: Block, p: nat, chunks: seq<seq<byte>>)
    requires forall i :: 0 <= i < |before| ==> Printable(before[i]) && Readable(json, before[i])
    requires Printable(block) && 0 < p < |Encode(PrintBlock(block))|
    requires Flatten(chunks) == Encode(PrintStream(before)) + Encode(PrintBlock(block))[..p]
    ensures FeedAll(json, chunks).Accepted? && FeedAll(json, chunks).events == Events(json, before)
    ensures FinishError(FeedAll(json, chunks).state).Some?
  {
    var x, frame := Encode(PrintStream(before)), Encode(PrintBlock(block));
    PrintedIsFrame(block);
    PrintedSettled(before, block);
    FeedPrinted(json, before);
    CutInsideIsSeen(json, x, frame, 0, p, Events(json, before), chunks);
  }

  lemma PrintedSettled(before: seq<Block>, block: Block)
    requires forall i :: 0 <= i < |before| ==> Printable(before[i])
    requires Printable(block)
    ensures SettledBytes(Encode(PrintStream(before)) + Encode(PrintBlock(block)))
  {
    var a, b := PrintStream(before), PrintBlock(block);
    PrintStreamPaired(before);
    PrintBlockPaired(block);
    CrPairedAppend(a, b);
    CrPairedSettled(a + b);
    EncodeAppend(a, b);
    EncodeDecode(a + b);
    EncodedCrCrLf(Encode(a + b));
  }

  /** Fed as one chunk, a printed stream yields its events and leaves nothing behind. */
  lemma FeedPrinted<J>(json: JsonModel<J>, blocks: seq<Block>)
    requires forall i :: 0 <= i < |blocks| ==> Printable(blocks[i]) && Readable(json, blocks[i])
    ensures FeedStep(json, Initial, Encode(PrintStream(blocks))) == Accepted(State([], ""), Events(json, blocks))
  {
    EncodeDecode(PrintStream(blocks));
    CutPrinted(json, blocks);
    FeedWhole(json, Encode(PrintStream(blocks)));
  }

  lemma PrintedIsFrame(block: Block)
    requires Printable(block)
    ensures IsFrame(Encode(PrintBlock(block))) && FirstNonBlank(Encode(PrintBlock(block)), 0)
  {
    var text := PrintBlock(block);
    EncodeDecode(text);
    PrintedShape(block);
    assert Encode(text)[..0] == [];
  }

  /** Line ends normalised, a printed frame has its first blank line at its end, and it starts non-blank. */
  lemma PrintedShape(block: Block)
    requires Printable(block)
    ensures var n := Normalize(PrintBlock(block)); 2 <= |n| && Boundary(n) == |n| - 2
    ensures PrintBlock(block) != "" && !IsSpace(PrintBlock(block)[0])
  {
    var lines := Lines(block);
    LinesArePlain(block);
    NormalizeBlock(block, "");
    assert PrintBlock(block) + "" == PrintBlock(block);
    var frame := Join("\n", lines);
    assert frame + "\n\n" + "" == frame + "\n\n";
    BoundaryAtEnd(lines, "");
    FirstCharacter(block);
  }

  lemma FirstCharacter(block: Block)
    requires Printable(block)
    ensures PrintBlock(block) != "" && !IsSpace(PrintBlock(block)[0])
  {
    var first := Lines(block)[0];
    LinesArePlain(block);
    assert PrintBlock(block)[0] == first[0];
    if block.CommentBlock? {
      assert first[..1] == ":";
    } else {
      assert first[0] == 'e' || first[0] == 'd';
    }
  }
}
