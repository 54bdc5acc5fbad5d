/**
 Delta extraction for streamed translations, backend/app/providers/qwen_mt.py: frames hold
 either only the new text or the whole text so far, and the mode is guessed from the first
 frame that differs from what has been accumulated.
 */
module QwenStream {
  import opened Wrappers
  import opened PyText
  import opened Utf8
  import opened SseParser
  import opened SseChunking
  import SseRoundTrip

  /** `None` and "unknown" are one mode: the code treats them alike. */
  datatype Mode = Unknown | Cumulative | Incremental

  datatype Delta = Delta(text: string, mode: Mode)

  /** `_stream_delta`; None is the "stream text regressed" error. */
  function StreamDelta(accumulated: string, content: string, mode: Mode): Option<Delta> {
    match mode
    case Unknown =>
      if accumulated == "" then Some(Delta(content, Unknown))
      else if content == accumulated then Some(Delta("", Unknown))
      else if accumulated <= content then Some(Delta(content[|accumulated|..], Cumulative))
      else Some(Delta(content, Incremental))
    case Cumulative =>
      if content == accumulated then Some(Delta("", Cumulative))
      else if !(accumulated <= content) then None
      else Some(Delta(content[|accumulated|..], Cumulative))
    case Incremental =>
      if content == accumulated then Some(Delta("", Incremental)) else Some(Delta(content, Incremental))
  }

  /** The accumulated text and the mode, or that the stream regressed. */
  datatype Run = Going(accumulated: string, mode: Mode) | Regressed

  function Next(run: Run, content: string): Run {
    if run.Regressed? then Regressed
    else
      match StreamDelta(run.accumulated, content, run.mode)
      case None => Regressed
      case Some(delta) => Going(run.accumulated + delta.text, delta.mode)
  }

  /** The loop of `stream_translate` over the contents of non-empty frames. */
  function RunFrames(frames: seq<string>): Run {
    if frames == [] then Going("", Unknown)
    else Next(RunFrames(frames[..|frames| - 1]), frames[|frames| - 1])
  }

  /** Frames that hold text, each extending the one before. */
  predicate PrefixChain(frames: seq<string>) {
    forall i :: 0 < i < |frames| ==> frames[i - 1] <= frames[i]
  }

  predicate NonEmpty(frames: seq<string>) {
    forall i :: 0 <= i < |frames| ==> frames[i] != ""
  }

  /** A stream of growing totals is reproduced: the deltas add up to the last frame. */
  lemma {:induction false} PrefixChainIsReproduced(frames: seq<string>)
    requires NonEmpty(frames) && PrefixChain(frames)
    ensures RunFrames(frames).Going? && !RunFrames(frames).mode.Incremental?
    ensures RunFrames(frames).accumulated == if frames == [] then "" else frames[|frames| - 1]
  {
    if frames != [] {
      var n := |frames| - 1;
      PrefixChainIsReproduced(frames[..n]);
      if n > 0 {
        assert frames[n - 1] <= frames[n];
        TakeDrop(frames[n], |frames[n - 1]|);
      }
    }
  }

  /**
   Once the mode is cumulative, the run finishes exactly when the remaining frames form a
   prefix chain that starts from the accumulated text, and then it ends with the last frame.
   */
  lemma {:induction false} CumulativeFinishesIffChain(frames: seq<string>, k: nat)
    requires k <= |frames|
    requires RunFrames(frames[..k]).Going? && RunFrames(frames[..k]).mode == Cumulative
    ensures var rest := [RunFrames(frames[..k]).accumulated] + frames[k..];
            && (RunFrames(frames).Going? <==> PrefixChain(rest))
            && (RunFrames(frames).Going? ==>
                  RunFrames(frames) == Going(rest[|rest| - 1], Cumulative))
  {
    var start := RunFrames(frames[..k]).accumulated;
    var rest := [start] + frames[k..];
    var n := |frames|;
    if k == n {
      assert frames[..k] == frames;
      assert rest == [start];
    } else {
      var init := frames[..n - 1];
      assert init[..k] == frames[..k];
      CumulativeFinishesIffChain(init, k);
      var before := [start] + init[k..];
      assert rest == before + [frames[n - 1]];
      ChainSnoc(before, frames[n - 1]);
      var last := before[|before| - 1];
      if RunFrames(init).Going? && last <= frames[n - 1] {
        TakeDrop(frames[n - 1], |last|);
      }
    }
  }

  lemma ChainSnoc(frames: seq<string>, last: string)
    requires frames != []
    ensures PrefixChain(frames + [last]) <==> PrefixChain(frames) && frames[|frames| - 1] <= last
  {
    var all := frames + [last];
    if PrefixChain(all) {
      forall i | 0 < i < |frames| ensures frames[i - 1] <= frames[i] { assert all[i - 1] <= all[i]; }
      assert all[|frames| - 1] <= all[|frames|];
    }
  }

  /** The text gathered when every frame is new text, but one that repeats all so far is dropped. */
  function Gathered(start: string, frames: seq<string>): string {
    if frames == [] then start
    else
      var before, last := Gathered(start, frames[..|frames| - 1]), frames[|frames| - 1];
      if last == before then before else before + last
  }

  /** Once the mode is incremental, the run never regresses and gathers the remaining frames. */
  lemma {:induction false} IncrementalGathers(frames: seq<string>, k: nat)
    requires k <= |frames|
    requires RunFrames(frames[..k]).Going? && RunFrames(frames[..k]).mode == Incremental
    ensures RunFrames(frames) == Going(Gathered(RunFrames(frames[..k]).accumulated, frames[k..]), Incremental)
  {
    var n := |frames|;
    if k == n {
      assert frames[..k] == frames;
    } else {
      var init := frames[..n - 1];
      assert init[..k] == frames[..k];
      IncrementalGathers(init, k);
      assert frames[k..] == init[k..] + [frames[n - 1]];
      GatherOne(RunFrames(frames[..k]).accumulated, init[k..], frames[n - 1]);
    }
  }

  lemma GatherOne(start: string, frames: seq<string>, last: string)
    ensures Next(Going(Gathered(start, frames), Incremental), last)
         == Going(Gathered(start, frames + [last]), Incremental)
  {
    var before := Gathered(start, frames);
    assert (frames + [last])[..|frames|] == frames;
    assert before + "" == before;
  }

  lemma {:induction false} RepeatsChangeNothing(first: string, n: nat)
    requires first != "" && n > 0
    ensures RunFrames(seq(n, _ => first)) == Going(first, Unknown)
  {
    var frames := seq(n, _ => first);
    if n == 1 {
      OneFrame(frames);
    } else {
      RepeatsChangeNothing(first, n - 1);
      assert frames[..n - 1] == seq(n - 1, _ => first);
      assert first + "" == first;
    }
  }

  /**
   What becomes of every stream: frames that repeat the first one leave the mode open; the
   first other frame settles it for good. If that extends the first, the stream is one of
   totals, which finishes exactly when each total extends the one before; otherwise all
   frames are new text.
   */
  lemma SecondFrameDecides(first: string, n: nat, second: string, rest: seq<string>)
    requires first != "" && n > 0 && second != first && second != ""
    ensures var run := RunFrames(seq(n, _ => first) + [second] + rest);
            if first <= second then
              && (run.Going? <==> PrefixChain([second] + rest))
              && (run.Going? ==> run == Going(([second] + rest)[|rest|], Cumulative))
            else
              run == Going(Gathered(first + second, rest), Incremental)
  {
    var frames := seq(n, _ => first) + [second] + rest;
    var start := frames[..n + 1];
    assert start[..n] == seq(n, _ => first);
    RepeatsChangeNothing(first, n);
    TwoFrames(first, second);
    assert RunFrames(start) == Next(Going(first, Unknown), second);
    assert frames[n + 1..] == rest;
    if first <= second {
      CumulativeFinishesIffChain(frames, n + 1);
    } else {
      IncrementalGathers(frames, n + 1);
    }
  }

  /** The second frame does not extend the first, and no frame repeats all the text before it. */
  predicate LooksIncremental(frames: seq<string>) {
    && (|frames| >= 2 ==> !(frames[0] <= frames[1]))
    && forall i {:trigger frames[i]} :: 0 < i < |frames| ==> frames[i] != Flatten(frames[..i])
  }

  /**
   Exactly when concatenating the deltas gives back the concatenation of all frames: the
   guard the code uses to guess the mode must not fire, on the second frame or later.
   */
  lemma {:induction false} ConcatenationIff(frames: seq<string>)
    requires NonEmpty(frames)
    ensures RunFrames(frames).Going? ==> |RunFrames(frames).accumulated| <= |Flatten(frames)|
    ensures RunFrames(frames).Going? && RunFrames(frames).accumulated == Flatten(frames) <==> LooksIncremental(frames)
    ensures LooksIncremental(frames) && |frames| >= 2 ==> RunFrames(frames).mode == Incremental
  {
    if frames != [] {
      var n := |frames| - 1;
      var init, last := frames[..n], frames[n];
      LooksSnoc(frames);
      if n == 0 {
        OneFrame(frames);
      } else if n == 1 {
        OneFrame(init);
        TwoFrames(frames[0], last);
        assert Flatten(frames) == frames[0] + last;
      } else {
        ConcatenationIff(init);
        NextConcatenates(RunFrames(init), Flatten(init), last);
      }
    }
  }

  /** An incremental stream that says the same word twice: the second one is taken for a repeated total. */
  lemma RepeatedWordIsLost(word: string)
    requires word != ""
    ensures RunFrames([word, word]) == Going(word, Unknown) && !LooksIncremental([word, word])
  {
    var frames := [word, word];
    var once := frames[..1];
    assert once == [word];
    OneFrame(once);
    assert word + "" == word;
  }

  /** After the mode is settled, or the text has already fallen short, one more frame. */
  lemma NextConcatenates(run: Run, total: string, last: string)
    requires run.Going? ==> |run.accumulated| <= |total|
    requires run.Going? && run.accumulated == total ==> run.mode == Incremental
    requires last != ""
    ensures Next(run, last).Going? ==> |Next(run, last).accumulated| <= |total + last|
    ensures Next(run, last).Going? && Next(run, last).accumulated == total + last
       <==> run.Going? && run.accumulated == total && last != total
    ensures Next(run, last).Going? && Next(run, last).accumulated == total + last ==>
        Next(run, last).mode == Incremental
  {
    if run.Going? { SameSuffix(run.accumulated, total, last); }
  }

  lemma SameSuffix(a: string, b: string, c: string)
    ensures a + c == b + c ==> a == b
  {
    if a + c == b + c {
      assert |a| == |b|;
      TakeAppend(a, c, |a|);
      TakeAppend(b, c, |a|);
      assert a[..|a|] == a && b[..|b|] == b;
    }
  }

  lemma TwoFrames(first: string, second: string)
    requires first != "" && second != ""
    ensures Next(Going(first, Unknown), second).Going?
    ensures var run := Next(Going(first, Unknown), second);
            if first <= second then run.accumulated == second && |run.accumulated| < |first + second|
            else run == Going(first + second, Incremental)
  {
    if first <= second {
      TakeDrop(second, |first|);
      assert first + "" == first;
    }
  }

  lemma OneFrame(frames: seq<string>)
    requires |frames| == 1
    ensures RunFrames(frames) == Going(frames[0], Unknown) && Flatten(frames) == frames[0]
  {
    assert frames[..0] == [];
    assert "" + frames[0] == frames[0];
  }

  lemma LooksSnoc(frames: seq<string>)
    requires frames != []
    ensures var n := |frames| - 1;
            LooksIncremental(frames) <==>
            LooksIncremental(frames[..n])
            && (n == 1 ==> !(frames[0] <= frames[1]))
            && (n > 0 ==> frames[n] != Flatten(frames[..n]))
  {
    var n := |frames| - 1;
    var init := frames[..n];
    forall i | 0 <= i < n ensures init[i] == frames[i] && init[..i] == frames[..i] {}
    if LooksIncremental(frames) {
      forall i | 0 < i < |init| ensures init[i] != Flatten(init[..i]) {
        assert frames[i] != Flatten(frames[..i]);
      }
    }
    if LooksIncremental(init) && (n == 1 ==> !(frames[0] <= frames[1])) && (n > 0 ==> frames[n] != Flatten(init)) {
      forall i | 0 < i < |frames| ensures frames[i] != Flatten(frames[..i]) {
        if i < n { assert init[i] != Flatten(init[..i]); }
      }
    }
  }

  // ---------------------------------------------------------------- the whole stream

  /** Token counts of a usage record that passed `_non_negative_usage`. */
  datatype Usage = Usage(inputTokens: nat, outputTokens: nat)

  /**
   What the loop body takes from one event: nothing (not an object, or the done marker);
   an exception (a usage count that is negative or no integer, choices that cannot be
   indexed); or a usage record, if any, and the content of the first choice, "" when there
   is none.
   */
  datatype Reading = Ignored | Raises | Content(usage: Option<Usage>, text: string)

  datatype TranslateError = Stream(error: StreamError) | EventInvalid | TextRegressed

  datatype Progress = Progress(accumulated: string, mode: Mode, usage: Option<Usage>, yielded: seq<string>)

  const Start := Progress("", Unknown, None, [])

  function TakeEvent(p: Progress, reading: Reading): Result<Progress, TranslateError> {
    match reading
    case Ignored => Ok(p)
    case Raises => Err(EventInvalid)
    case Content(usage, text) =>
      var q := if usage.Some? then p.(usage := usage) else p;
      if text == "" then Ok(q)
      else
        match StreamDelta(q.accumulated, text, q.mode)
        case None => Err(TextRegressed)
        case Some(delta) =>
          Ok(q.(accumulated := q.accumulated + delta.text, mode := delta.mode,
                yielded := if delta.text == "" then q.yielded else q.yielded + [delta.text]))
  }

  function TakeEvents<J>(read: J -> Reading, p: Progress, events: seq<Event<J>>): Result<Progress, TranslateError>
    decreases |events|
  {
    if events == [] then Ok(p)
    else
      match TakeEvent(p, read(events[0].data))
      case Err(e) => Err(e)
      case Ok(q) => TakeEvents(read, q, events[1..])
  }

  datatype Running = Running(parser: State, progress: Progress)

  /** The two nested loops over the chunks and their events. */
  function TakeChunks<J>(json: JsonModel<J>, read: J -> Reading, chunks: seq<seq<byte>>)
    : Result<Running, TranslateError>
  {
    if chunks == [] then Ok(Running(Initial, Start))
    else
      match TakeChunks(json, read, chunks[..|chunks| - 1])
      case Err(e) => Err(e)
      case Ok(r) => TakeChunk(json, read, r, chunks[|chunks| - 1])
  }

  function TakeChunk<J>(json: JsonModel<J>, read: J -> Reading, r: Running, chunk: seq<byte>)
    : Result<Running, TranslateError>
  {
    match FeedStep(json, r.parser, chunk)
    case Rejected(_, error) => Err(Stream(error))
    case Accepted(state, events) =>
      match TakeEvents(read, r.progress, events)
      case Err(e) => Err(e)
      case Ok(progress) => Ok(Running(state, progress))
  }

  /** `stream_translate` after the guards: the loops, then `parser.finish()`. */
  function Translate<J>(json: JsonModel<J>, read: J -> Reading, chunks: seq<seq<byte>>)
    : Result<Progress, TranslateError>
  {
    match TakeChunks(json, read, chunks)
    case Err(e) => Err(e)
    case Ok(r) =>
      match FinishError(r.parser)
      case Some(error) => Err(Stream(error))
      case None => Ok(r.progress)
  }

  lemma {:induction false} TakeEventsAppend<J>(read: J -> Reading, p: Progress, a: seq<Event<J>>, b: seq<Event<J>>)
    ensures TakeEvents(read, p, a + b) ==
            (var first := TakeEvents(read, p, a);
             if first.Err? then first else TakeEvents(read, first.value, b))
    decreases |a|
  {
    if a == [] {
      assert a + b == b;
    } else {
      DropAppend(a, b, 1);
      var step := TakeEvent(p, read(a[0].data));
      if step.Ok? { TakeEventsAppend(read, step.value, a[1..], b); }
    }
  }

  /** The interleaved loops do what parsing everything first and then reading the events does. */
  lemma {:induction false} LoopsAreParseThenRead<J>(json: JsonModel<J>, read: J -> Reading, chunks: seq<seq<byte>>)
    ensures var fed, taken := FeedAll(json, chunks), TakeChunks(json, read, chunks);
            if fed.Rejected? then taken.Err?
            else
              var progress := TakeEvents(read, Start, fed.events);
              if progress.Err? then taken.Err? else taken == Ok(Running(fed.state, progress.value))
  {
    if chunks != [] {
      var init, last := chunks[..|chunks| - 1], chunks[|chunks| - 1];
      LoopsAreParseThenRead(json, read, init);
      assert init + [last] == chunks;
      FeedAllSnoc(json, init, last);
      var fed := FeedAll(json, init);
      if fed.Accepted? && FeedStep(json, fed.state, last).Accepted? {
        TakeEventsAppend(read, Start, fed.events, FeedStep(json, fed.state, last).events);
      }
    }
  }

  /**
   However the network cuts a response without CR CR LF, the translation succeeds for one
   way of cutting exactly when it does for another, and then yields the same deltas, text
   and usage.
   */
  lemma TranslationIgnoresChunking<J>(json: JsonModel<J>, read: J -> Reading, a: seq<seq<byte>>, b: seq<seq<byte>>)
    requires Flatten(a) == Flatten(b) && SettledBytes(Flatten(a))
    ensures Translate(json, read, a).Ok? <==> Translate(json, read, b).Ok?
    ensures Translate(json, read, a).Ok? ==> Translate(json, read, a) == Translate(json, read, b)
  {
    AnyTwoChunkings(json, a, b);
    LoopsAreParseThenRead(json, read, a);
    LoopsAreParseThenRead(json, read, b);
  }

  /** The contents the loop hands to `_stream_delta`. */
  function Contents<J>(read: J -> Reading, events: seq<Event<J>>): seq<string> {
    if events == [] then []
    else
      var reading := read(events[|events| - 1].data);
      Contents(read, events[..|events| - 1]) + if reading.Content? && reading.text != "" then [reading.text] else []
  }

  predicate NothingRaises<J>(read: J -> Reading, events: seq<Event<J>>) {
    forall i :: 0 <= i < |events| ==> !read(events[i].data).Raises?
  }

  /** The progress of the loop is what `RunFrames` says, and all that was accumulated has been yielded. */
  predicate Follows(taken: Result<Progress, TranslateError>, run: Run) {
    if run.Regressed? then taken == Err(TextRegressed)
    else
      && taken.Ok? && taken.value.accumulated == run.accumulated && taken.value.mode == run.mode
      && Flatten(taken.value.yielded) == run.accumulated
  }

  /** What is yielded is exactly what is accumulated, and both follow `RunFrames`. */
  lemma {:induction false} YieldedIsAccumulated<J>(read: J -> Reading, events: seq<Event<J>>)
    requires NothingRaises(read, events)
    ensures Follows(TakeEvents(read, Start, events), RunFrames(Contents(read, events)))
    decreases |events|
  {
    if events != [] {
      var n := |events| - 1;
      var init, last := events[..n], events[n];
      forall i | 0 <= i < |init| ensures !read(init[i].data).Raises? { assert init[i] == events[i]; }
      YieldedIsAccumulated(read, init);
      assert init + [last] == events;
      TakeEventsSnoc(read, Start, init, last);
      ContentsSnoc(read, init, last);
      OneReading(TakeEvents(read, Start, init), RunFrames(Contents(read, init)), read(last.data));
    }
  }

  /** The usage record reported after the events: the last one among them. */
  function LastUsage<J>(read: J -> Reading, events: seq<Event<J>>): Option<Usage> {
    if events == [] then None
    else
      var reading := read(events[|events| - 1].data);
      if reading.Content? && reading.usage.Some? then reading.usage else LastUsage(read, events[..|events| - 1])
  }

  lemma {:induction false} LastUsageWins<J>(read: J -> Reading, events: seq<Event<J>>)
    ensures var taken := TakeEvents(read, Start, events);
            taken.Ok? ==> taken.value.usage == LastUsage(read, events)
    decreases |events|
  {
    if events != [] {
      var n := |events| - 1;
      var init, last := events[..n], events[n];
      LastUsageWins(read, init);
      assert init + [last] == events;
      TakeEventsSnoc(read, Start, init, last);
    }
  }

  /** A reading that raises is an error, whatever came before and whatever follows. */
  lemma {:induction false} RaisingFails<J>(read: J -> Reading, p: Progress, events: seq<Event<J>>)
    requires !NothingRaises(read, events)
    ensures TakeEvents(read, p, events).Err?
    decreases |events|
  {
    var first := TakeEvent(p, read(events[0].data));
    if first.Ok? {
      var i :| 0 <= i < |events| && read(events[i].data).Raises?;
      assert i > 0 && events[1..][i - 1] == events[i];
      RaisingFails(read, first.value, events[1..]);
    }
  }

  /** When the readings of all events are taken, and what has been gathered then. */
  lemma TakeEventsOkIff<J>(read: J -> Reading, events: seq<Event<J>>)
    ensures var taken, run := TakeEvents(read, Start, events), RunFrames(Contents(read, events));
            && (taken.Ok? <==> NothingRaises(read, events) && run.Going?)
            && (taken.Ok? ==> taken.value.accumulated == run.accumulated == Flatten(taken.value.yielded)
                              && taken.value.usage == LastUsage(read, events))
  {
    LastUsageWins(read, events);
    if NothingRaises(read, events) {
      YieldedIsAccumulated(read, events);
    } else {
      RaisingFails(read, Start, events);
    }
  }

  /**
   Exactly when a translation succeeds: the stream is accepted and ends at a frame boundary,
   inside no code point and with nothing but white space behind the last frame; no event
   raises; and the text never regresses. It has then yielded the text the contents amount to,
   and reports the last usage record.
   */
  lemma TranslateOkIff<J>(json: JsonModel<J>, read: J -> Reading, chunks: seq<seq<byte>>)
    ensures var fed, done := FeedAll(json, chunks), Translate(json, read, chunks);
            && (done.Ok? <==>
                && fed.Accepted? && NothingRaises(read, fed.events)
                && RunFrames(Contents(read, fed.events)).Going?
                && fed.state.pending == [] && Blank(fed.state.buffer))
            && (done.Ok? ==>
                && Flatten(done.value.yielded) == done.value.accumulated
                                               == RunFrames(Contents(read, fed.events)).accumulated
                && done.value.usage == LastUsage(read, fed.events))
  {
    var fed := FeedAll(json, chunks);
    LoopsAreParseThenRead(json, read, chunks);
    if fed.Accepted? {
      TakeEventsOkIff(read, fed.events);
      StripBlank(fed.state.buffer);
    }
  }

  /** A response that is accepted and read to its end, but ends inside a frame, is an error. */
  lemma UnfinishedIsTruncated<J>(json: JsonModel<J>, read: J -> Reading, chunks: seq<seq<byte>>)
    requires FeedAll(json, chunks).Accepted?
    requires NothingRaises(read, FeedAll(json, chunks).events)
    requires RunFrames(Contents(read, FeedAll(json, chunks).events)).Going?
    requires FeedAll(json, chunks).state.pending != [] || !Blank(FeedAll(json, chunks).state.buffer)
    ensures var done := Translate(json, read, chunks);
            done.Err? && done.error.Stream? && done.error.error.Code() == "TRUNCATED_STREAM"
  {
    LoopsAreParseThenRead(json, read, chunks);
    TakeEventsOkIff(read, FeedAll(json, chunks).events);
    StripBlank(FeedAll(json, chunks).state.buffer);
  }

  /**
   No half translation is passed off as a whole one: whatever well-formed frames come first,
   a response cut inside a frame, after its first character that is no white space, ends in
   TRUNCATED_STREAM, for every way of cutting what did arrive into chunks.
   */
  lemma TruncatedTranslation<J>(json: JsonModel<J>, read: J -> Reading, before: seq<seq<byte>>, frame: seq<byte>,
                                k: nat, p: nat, chunks: seq<seq<byte>>)
    requires SseRoundTrip.WellFormed(json, before) && SettledBytes(Flatten(before) + frame)
    requires SseRoundTrip.IsFrame(frame) && SseRoundTrip.FirstNonBlank(frame, k) && k < p < |frame|
    requires Flatten(chunks) == Flatten(before) + frame[..p]
    requires NothingRaises(read, SseRoundTrip.StreamEvents(json, before))
    requires RunFrames(Contents(read, SseRoundTrip.StreamEvents(json, before))).Going?
    ensures var done := Translate(json, read, chunks);
            done.Err? && done.error.Stream? && done.error.error.Code() == "TRUNCATED_STREAM"
  {
    SseRoundTrip.TruncationIsSeen(json, before, frame, k, p, chunks);
    StripBlank(FeedAll(json, chunks).state.buffer);
    UnfinishedIsTruncated(json, read, chunks);
  }

  /** The run after one more reading. */
  function NextReading(run: Run, reading: Reading): Run {
    if reading.Content? && reading.text != "" then Next(run, reading.text) else run
  }

  lemma OneReading(taken: Result<Progress, TranslateError>, run: Run, reading: Reading)
    requires Follows(taken, run) && !reading.Raises?
    ensures Follows(if taken.Err? then taken else TakeEvent(taken.value, reading), NextReading(run, reading))
  {
    if taken.Ok? && reading.Content? && reading.text != "" {
      var delta := StreamDelta(taken.value.accumulated, reading.text, taken.value.mode);
      if delta.Some? { FlattenSnoc(taken.value.yielded, delta.value.text); }
    }
  }

  lemma TakeEventsSnoc<J>(read: J -> Reading, p: Progress, events: seq<Event<J>>, last: Event<J>)
    ensures var first := TakeEvents(read, p, events);
            TakeEvents(read, p, events + [last]) ==
            if first.Err? then first else TakeEvent(first.value, read(last.data))
  {
    TakeEventsAppend(read, p, events, [last]);
    assert [last][1..] == [];
  }

  lemma ContentsSnoc<J>(read: J -> Reading, events: seq<Event<J>>, last: Event<J>)
    ensures RunFrames(Contents(read, events + [last]))
         == NextReading(RunFrames(Contents(read, events)), read(last.data))
  {
    var frames, reading := Contents(read, events), read(last.data);
    assert (events + [last])[..|events|] == events;
    assert frames + [] == frames;
    if reading.Content? { assert (frames + [reading.text])[..|frames|] == frames; }
  }

  // ---------------------------------------------------------------- the loop itself

  class Translator<!J> {
    const json: JsonModel<J>
    const read: J -> Reading
    var accumulated: string
    var mode: Mode
    var lastUsage: Option<Usage>
    var yielded: seq<string>

    ghost function Value(): Progress
      reads this
    {
      Progress(accumulated, mode, lastUsage, yielded)
    }

    constructor (json: JsonModel<J>, read: J -> Reading)
      ensures this.json == json && this.read == read && Value() == Start
    {
      this.json, this.read := json, read;
      accumulated, mode, lastUsage, yielded := "", Unknown, None, [];
    }

    method ReadEvents(events: seq<Event<J>>) returns (error: Option<TranslateError>)
      modifies this
      ensures match TakeEvents(read, old(Value()), events)
              case Ok(p) => error == None && Value() == p
              case Err(e) => error == Some(e)
    {
      for k := 0 to |events|
        invariant TakeEvents(read, old(Value()), events) == TakeEvents(read, Value(), events[k..])
      {
        assert events[k..][0] == events[k] && events[k..][1..] == events[k + 1..];
        var reading := read(events[k].data);
        match reading
        case Ignored =>
        case Raises => return Some(EventInvalid);
        case Content(usage, text) =>
          if usage.Some? {
            lastUsage := usage;
          }
          if text != "" {
            var delta := StreamDelta(accumulated, text, mode);
            if delta.None? {
              return Some(TextRegressed);
            }
            mode := delta.value.mode;
            assert accumulated + "" == accumulated;
            if delta.value.text != "" {
              accumulated := accumulated + delta.value.text;
              yielded := yielded + [delta.value.text];
            }
          }
      }
      return None;
    }

    method Run(chunks: seq<seq<byte>>) returns (error: Option<TranslateError>)
      requires Value() == Start
      modifies this
      ensures match Translate(json, read, chunks)
              case Ok(p) => error == None && Value() == p
              case Err(e) => error == Some(e)
    {
      var parser := new IncrementalSseParser<J>(json);
      for k := 0 to |chunks|
        invariant fresh(parser) && parser.json == json
        invariant TakeChunks(json, read, chunks[..k]) == Ok(Running(parser.Value(), Value()))
      {
        assert chunks[..k + 1][..k] == chunks[..k];
        var fed := parser.Feed(chunks[k]);
        if fed.Err? {
          PrefixError(json, read, chunks, k + 1);
          return Some(Stream(fed.error));
        }
        error := ReadEvents(fed.value);
        if error.Some? {
          PrefixError(json, read, chunks, k + 1);
          return;
        }
      }
      assert chunks[..|chunks|] == chunks;
      var left := parser.Finish();
      if left.Some? {
        return Some(Stream(left.value));
      }
      return None;
    }
  }

  /** An error is final: later chunks are never looked at. */
  lemma {:induction false} PrefixError<J>(json: JsonModel<J>, read: J -> Reading, chunks: seq<seq<byte>>, k: nat)
    requires k <= |chunks| && TakeChunks(json, read, chunks[..k]).Err?
    ensures TakeChunks(json, read, chunks) == TakeChunks(json, read, chunks[..k])
    decreases |chunks|
  {
    if k < |chunks| {
      var init := chunks[..|chunks| - 1];
      assert init[..k] == chunks[..k];
      PrefixError(json, read, init, k);
    } else {
      assert chunks[..k] == chunks;
    }
  }
}
