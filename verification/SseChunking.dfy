/**
 Chunking does not matter: how a byte stream without CR CR LF is cut into chunks changes
 neither whether the parser accepts it, nor the events, nor the state it ends in. The
 parser normalises CR LF again on every feed, which is where CR CR LF breaks the law.
 */
module SseChunking {
  import opened Wrappers
  import opened PyText
  import opened Utf8
  import opened SseParser

  predicate CrCrLfAt(s: string, i: nat) {
    i + 2 < |s| && s[i] == '\r' && s[i + 1] == '\r' && s[i + 2] == '\n'
  }

  /** The text has no CR CR LF. */
  ghost predicate Settled(s: string) {
    forall i: nat :: !CrCrLfAt(s, i)
  }

  predicate CrLfAt(s: string, i: nat) {
    i + 1 < |s| && s[i] == '\r' && s[i + 1] == '\n'
  }

  ghost predicate NoCrLf(s: string) {
    forall i: nat :: !CrLfAt(s, i)
  }

  predicate CrCrLfBytesAt(b: seq<byte>, i: nat) {
    i + 2 < |b| && b[i] == 0x0D && b[i + 1] == 0x0D && b[i + 2] == 0x0A
  }

  /** The byte stream has no CR CR LF. */
  ghost predicate SettledBytes(b: seq<byte>) {
    forall i: nat :: !CrCrLfBytesAt(b, i)
  }

  predicate EndsCr(s: string) {
    s != "" && s[|s| - 1] == '\r'
  }

  predicate StartsLf(s: string) {
    s != "" && s[0] == '\n'
  }

  // ---------------------------------------------------------------- the normaliser

  lemma {:induction false} NormalizeAppend(x: string, y: string)
    requires !(EndsCr(x) && StartsLf(y))
    ensures Normalize(x + y) == Normalize(x) + Normalize(y)
    decreases |x|
  {
    if x == "" {
      assert x + y == y;
    } else {
      var k := if CrLfAt(x, 0) then 2 else 1;
      var head := if k == 2 then "\n" else [x[0]];
      NormalizeAppend(x[k..], y);
      DropAppend(x, y, k);
      NormalizeUnfold(x);
      NormalizeUnfold(x + y);
      Regroup(head, Normalize(x[k..]), Normalize(y));
    }
  }

  lemma NormalizeUnfold(s: string)
    requires s != ""
    ensures Normalize(s) == if CrLfAt(s, 0) then "\n" + Normalize(s[2..]) else [s[0]] + Normalize(s[1..])
  {
  }

  lemma {:induction false} NormalizeNoCrLf(s: string)
    requires NoCrLf(s)
    ensures Normalize(s) == s
    decreases |s|
  {
    if s != "" {
      assert !CrLfAt(s, 0);
      forall i: nat ensures !CrLfAt(s[1..], i) { assert !CrLfAt(s, i + 1); }
      NormalizeNoCrLf(s[1..]);
    }
  }

  /** Both texts are empty, or end with the same character. */
  predicate SameEnd(a: string, b: string) {
    (a == "" <==> b == "") && (a != "" ==> a[|a| - 1] == b[|b| - 1])
  }

  lemma SameEndBehind(head: string, a: string, before: string, b: string)
    requires SameEnd(a, b) && head != "" && before != "" && head[|head| - 1] == before[|before| - 1]
    ensures SameEnd(head + a, before + b)
  {
  }

  /** The last character survives, up to CR LF becoming LF. */
  lemma {:induction false} NormalizeLast(s: string)
    ensures SameEnd(Normalize(s), s)
    ensures EndsCr(Normalize(s)) == EndsCr(s)
    decreases |s|
  {
    if |s| >= 2 && s[0] == '\r' && s[1] == '\n' {
      NormalizeLast(s[2..]);
      assert s == s[..2] + s[2..];
      SameEndBehind("\n", Normalize(s[2..]), s[..2], s[2..]);
    } else if s != "" {
      NormalizeLast(s[1..]);
      assert s == [s[0]] + s[1..];
      SameEndBehind([s[0]], Normalize(s[1..]), [s[0]], s[1..]);
    }
  }

  /** A first LF after normalising comes from LF or from CR LF. */
  lemma NormalizeFirst(s: string)
    requires s != ""
    ensures Normalize(s) != ""
    ensures Normalize(s)[0] == if CrLfAt(s, 0) then '\n' else s[0]
  {
  }

  /** Normalising leaves a CR LF behind exactly when the text had a CR CR LF. */
  lemma {:induction false} NormalizeRemovesCrLf(s: string)
    ensures NoCrLf(Normalize(s)) <==> Settled(s)
    decreases |s|
  {
    var n := Normalize(s);
    if s == "" {
    } else if CrLfAt(s, 0) {
      var t := s[2..];
      NormalizeRemovesCrLf(t);
      assert n == "\n" + Normalize(t);
      NoCrLfTail(n);
      assert n[1..] == Normalize(t);
      assert !CrCrLfAt(s, 0) && !CrCrLfAt(s, 1);
      forall i: nat | !CrCrLfAt(t, i) ensures !CrCrLfAt(s, i + 2) {}
      forall i: nat | CrCrLfAt(t, i) ensures CrCrLfAt(s, i + 2) {}
      SettledDrop(s, 2);
    } else {
      var t := s[1..];
      NormalizeRemovesCrLf(t);
      assert n == [s[0]] + Normalize(t);
      NoCrLfTail(n);
      assert n[1..] == Normalize(t);
      SettledDrop(s, 1);
      if t != "" { NormalizeFirst(t); }
      assert CrLfAt(n, 0) <==> CrCrLfAt(s, 0);
    }
  }

  lemma NoCrLfTail(n: string)
    requires n != ""
    ensures NoCrLf(n) <==> !CrLfAt(n, 0) && NoCrLf(n[1..])
  {
    if !CrLfAt(n, 0) && NoCrLf(n[1..]) {
      forall i: nat ensures !CrLfAt(n, i) {
        if i > 0 { assert !CrLfAt(n[1..], i - 1); }
      }
    }
    if NoCrLf(n) {
      forall i: nat ensures !CrLfAt(n[1..], i) { assert !CrLfAt(n, i + 1); }
    }
  }

  lemma SettledDrop(s: string, k: nat)
    requires k <= |s|
    requires forall i: nat :: i < k && i != 0 ==> !CrCrLfAt(s, i)
    ensures Settled(s) <==> (k > 0 ==> !CrCrLfAt(s, 0)) && Settled(s[k..])
  {
    if Settled(s) {
      forall i: nat ensures !CrCrLfAt(s[k..], i) { assert !CrCrLfAt(s, i + k); }
    }
    if (k > 0 ==> !CrCrLfAt(s, 0)) && Settled(s[k..]) {
      forall i: nat ensures !CrCrLfAt(s, i) {
        if i >= k { assert !CrCrLfAt(s[k..], i - k); }
      }
    }
  }

  /** Normalising is idempotent on exactly the texts without CR CR LF. */
  lemma NormalizeTwice(s: string)
    ensures Normalize(Normalize(s)) == Normalize(s) <==> Settled(s)
  {
    NormalizeRemovesCrLf(s);
    if Settled(s) {
      NormalizeNoCrLf(Normalize(s));
    } else {
      NormalizeShortens(Normalize(s));
    }
  }

  lemma {:induction false} NormalizeShortens(s: string)
    ensures |Normalize(s)| <= |s|
    ensures !NoCrLf(s) ==> |Normalize(s)| < |s|
    decreases |s|
  {
    if s == "" {
    } else if CrLfAt(s, 0) {
      NormalizeShortens(s[2..]);
    } else {
      NormalizeShortens(s[1..]);
      NoCrLfTail(s);
    }
  }

  lemma SettledPrefix(x: string, y: string)
    requires Settled(x + y)
    ensures Settled(x)
  {
    forall i: nat ensures !CrCrLfAt(x, i) { assert !CrCrLfAt(x + y, i); }
  }

  /** Normalising what has arrived so far, then more text, is normalising it all at once. */
  lemma NormalizeStep(x: string, y: string)
    requires Settled(x)
    ensures Normalize(Normalize(x) + y) == Normalize(x + y)
  {
    NormalizeLast(x);
    if EndsCr(x) && StartsLf(y) {
      var w := x[..|x| - 1];
      assert x == w + "\r";
      NormalizeAcross(w, y);
    } else {
      NormalizeAppend(x, y);
      NormalizeAppend(Normalize(x), y);
      NormalizeTwice(x);
    }
  }

  lemma NormalizeAcross(w: string, y: string)
    requires Settled(w + "\r")
    ensures Normalize(Normalize(w + "\r") + y) == Normalize(w + "\r" + y)
  {
    SettledPrefix(w, "\r");
    NormalizeAppend(w, "\r");
    assert Normalize("\r") == "\r";
    NormalizeTwice(w);
    NormalizeAppend(Normalize(w), "\r" + y);
    NormalizeAppend(w, "\r" + y);
    assert Normalize(w) + "\r" + y == Normalize(w) + ("\r" + y);
    assert w + "\r" + y == w + ("\r" + y);
  }

  /** The buffer of a parser that normalises after every piece of text. */
  function NormalizeInPieces(pieces: seq<string>): string {
    if pieces == [] then ""
    else Normalize(NormalizeInPieces(pieces[..|pieces| - 1]) + pieces[|pieces| - 1])
  }

  lemma {:induction false} PiecesOfSettled(pieces: seq<string>)
    requires Settled(Flatten(pieces))
    ensures NormalizeInPieces(pieces) == Normalize(Flatten(pieces))
  {
    if pieces != [] {
      var init, last := pieces[..|pieces| - 1], pieces[|pieces| - 1];
      SettledPrefix(Flatten(init), last);
      PiecesOfSettled(init);
      NormalizeStep(Flatten(init), last);
    }
  }

  /**
   The exact condition for line-end normalisation to be independent of the cuts: every way
   of cutting a text gives the same buffer if and only if the text has no CR CR LF.
   */
  lemma NormalizeCutsIff(text: string)
    ensures (forall pieces :: Flatten(pieces) == text ==> NormalizeInPieces(pieces) == Normalize(text))
       <==> Settled(text)
  {
    if Settled(text) {
      forall pieces | Flatten(pieces) == text ensures NormalizeInPieces(pieces) == Normalize(text) {
        PiecesOfSettled(pieces);
      }
    } else {
      var once, twice := [text], [text, ""];
      assert once[..0] == [] && twice[..1] == once;
      assert "" + text == text;
      assert Flatten(once) == text;
      assert Flatten(twice) == text;
      assert NormalizeInPieces(once) == Normalize(text);
      assert Normalize(text) + "" == Normalize(text);
      assert NormalizeInPieces(twice) == Normalize(Normalize(text));
      NormalizeTwice(text);
    }
  }

  // ---------------------------------------------------------------- from bytes to text

  /** A CR CR LF in the decoded text is a CR CR LF in the bytes. */
  lemma {:induction false} DecodedSettled(b: seq<byte>)
    requires SettledBytes(b) && Decode(b).Some?
    ensures Settled(Decode(b).value.text)
    decreases |b|
  {
    var text := Decode(b).value.text;
    if text != "" {
      var width := FirstSequence(b).width;
      var tail := b[width..];
      forall i: nat ensures !CrCrLfBytesAt(tail, i) { assert !CrCrLfBytesAt(b, i + width); }
      DecodedSettled(tail);
      DecodeComplete(b);
      assert text[1..] == Decode(tail).value.text;
      if CrCrLfAt(text, 0) {
        AsciiFirst(b);
        AsciiFirst(b[1..]);
        AsciiFirst(b[1..][1..]);
        assert CrCrLfBytesAt(b, 0);
      }
      SettledDrop(text, 1);
    }
  }

  /** A CR CR LF in the bytes is one in the decoded text. */
  lemma {:induction false} CrCrLfShows(b: seq<byte>, i: nat) returns (j: nat)
    requires CrCrLfBytesAt(b, i) && Decode(b).Some?
    ensures CrCrLfAt(Decode(b).value.text, j)
    decreases |b|
  {
    var step := FirstSequence(b);
    if step.Complete? && step.width <= i {
      var tail := b[step.width..];
      DecodeComplete(b);
      j := CrCrLfShows(tail, i - step.width);
      assert Decode(b).value.text[1..] == Decode(tail).value.text;
      j := j + 1;
    } else {
      NoCrInside(b, i);
      DecodeCr(b);
      DecodeCr(b[1..]);
      assert b[1..][1..][0] == 0x0A;
      DecodeComplete(b[1..][1..]);
      j := 0;
    }
  }

  lemma EncodedCrCrLf(b: seq<byte>)
    requires Decode(b).Some? && Settled(Decode(b).value.text)
    ensures SettledBytes(b)
  {
    forall i: nat ensures !CrCrLfBytesAt(b, i) {
      if CrCrLfBytesAt(b, i) { var j := CrCrLfShows(b, i); }
    }
  }

  lemma DecodeCr(b: seq<byte>)
    requires b != [] && b[0] == 0x0D && Decode(b).Some?
    ensures Decode(b[1..]).Some?
    ensures Decode(b).value.text == "\r" + Decode(b[1..]).value.text
  {
  }

  /** CR is never a later byte of a sequence, so where it occurs in the first one it is the whole of it. */
  lemma NoCrInside(b: seq<byte>, i: nat)
    requires i < |b| && b[i] == 0x0D && !FirstSequence(b).Invalid?
    requires FirstSequence(b).Complete? ==> i < FirstSequence(b).width
    ensures i == 0 && FirstSequence(b) == Complete('\r', 1)
  {
  }

  // ---------------------------------------------------------------- the frame splitter

  /** The part of a buffer that cutting frames consumes. */
  function Consumed<J>(parse: string -> FrameOutcome<J>, b: string): string
    decreases |b|
  {
    var i := Boundary(b);
    if i == |b| then ""
    else b[..i + 2] + if parse(b[..i]).Malformed? then "" else Consumed(parse, b[i + 2..])
  }

  /** The consumed part, which ends right after a blank line, and the rest make up the buffer. */
  lemma {:induction false} ConsumedSplits<J>(parse: string -> FrameOutcome<J>, b: string)
    ensures Consumed(parse, b) + CutFrames(parse, b).rest == b
    ensures Consumed(parse, b) == "" || Consumed(parse, b)[|Consumed(parse, b)| - 1] == '\n'
    decreases |b|
  {
    var i := Boundary(b);
    if i < |b| {
      var head, rest := b[..i + 2], b[i + 2..];
      TakeDrop(b, i + 2);
      assert head[i + 1] == '\n';
      if parse(b[..i]).Malformed? {
        assert head + "" == head;
      } else {
        ConsumedSplits(parse, rest);
        Regroup(head, Consumed(parse, rest), CutFrames(parse, rest).rest);
      }
    }
  }

  lemma BoundaryOfPrefix(s: string, z: string, i: nat)
    requires i + 2 <= |s| && Boundary(s) == i
    ensures Boundary(s[..i + 2] + z) == i
  {
    var t := s[..i + 2] + z;
    assert BlankLineAt(s, i) && BlankLineAt(t, i);
    BoundaryIsFirst(t, i);
    var k := Boundary(t);
    assert BlankLineAt(t, k) && BlankLineAt(s, k);
    BoundaryIsFirst(s, k);
  }

  /** The outcome of a cut whose unconsumed rest is replaced by z. */
  function Resume<J>(parse: string -> FrameOutcome<J>, first: Cut<J>, z: string): Cut<J> {
    match first
    case CutOk(events, _) => Prepend(events, CutFrames(parse, z))
    case CutErr(error, _) => CutErr(error, z)
  }

  lemma ResumeAfterFrame<J>(parse: string -> FrameOutcome<J>, outcome: FrameOutcome<J>, rest: string, inner: Cut<J>,
                            z: string)
    requires !outcome.Malformed?
    ensures forall tail :: AfterFrame(outcome, tail, Resume(parse, inner, z))
                        == Resume(parse, AfterFrame(outcome, rest, inner), z)
  {
    if outcome.Emitted? && inner.CutOk? {
      PrependPrepend([outcome.event], inner.events, CutFrames(parse, z));
    }
  }

  lemma HeadSlices(b: string, tail: string, i: nat)
    requires i + 2 <= |b|
    ensures (b[..i + 2] + tail)[..i] == b[..i]
    ensures (b[..i + 2] + tail)[i + 2..] == tail
  {
  }

  /** Cutting the first frame of b leaves whatever stands behind it. */
  lemma CutHead<J>(parse: string -> FrameOutcome<J>, b: string, tail: string)
    requires Boundary(b) < |b|
    ensures CutFrames(parse, b[..Boundary(b) + 2] + tail) ==
            AfterFrame(parse(b[..Boundary(b)]), tail, CutFrames(parse, tail))
  {
    var i := Boundary(b);
    BoundaryOfPrefix(b, tail, i);
    HeadSlices(b, tail, i);
  }

  lemma CutOneFrame<J>(parse: string -> FrameOutcome<J>, frame: string, tail: string)
    requires Boundary(frame + "\n\n" + tail) == |frame|
    ensures CutFrames(parse, frame + "\n\n" + tail) ==
            AfterFrame(parse(frame), tail, CutFrames(parse, tail))
  {
    var b := frame + "\n\n" + tail;
    assert b[..|frame|] == frame && b[|frame| + 2..] == tail;
  }

  /** What frame cutting does to the consumed part does not depend on what follows it. */
  lemma {:induction false} CutThenAnything<J>(parse: string -> FrameOutcome<J>, b: string, z: string)
    ensures CutFrames(parse, Consumed(parse, b) + z) == Resume(parse, CutFrames(parse, b), z)
    decreases |b|
  {
    var i := Boundary(b);
    if i == |b| {
      assert "" + z == z;
      PrependNone(CutFrames(parse, z));
    } else if parse(b[..i]).Malformed? {
      assert b[..i + 2] + "" == b[..i + 2];
      CutHead(parse, b, z);
    } else {
      var head, rest := b[..i + 2], b[i + 2..];
      var d := Consumed(parse, rest);
      assert head + d + z == head + (d + z);
      CutHead(parse, b, d + z);
      CutThenAnything(parse, rest, z);
      ResumeAfterFrame(parse, parse(b[..i]), rest, CutFrames(parse, rest), z);
    }
  }

  /** Cutting never lengthens the buffer. */
  lemma CutShortens<J>(parse: string -> FrameOutcome<J>, b: string)
    ensures |CutFrames(parse, b).rest| <= |b|
  {
    ConsumedSplits(parse, b);
    assert |b| == |Consumed(parse, b) + CutFrames(parse, b).rest|;
  }

  lemma PrependPrepend<J>(a: seq<Event<J>>, b: seq<Event<J>>, cut: Cut<J>)
    ensures Prepend(a, Prepend(b, cut)) == Prepend(a + b, cut)
  {
    if cut.CutOk? { assert a + (b + cut.events) == (a + b) + cut.events; }
  }

  // ---------------------------------------------------------------- one feed after another

  /** Feeding x and then y, seen from the state after x. */
  function FeedAfter<J>(json: JsonModel<J>, first: Fed<J>, y: seq<byte>): Fed<J> {
    match first
    case Rejected(_, _) => first
    case Accepted(state, events) =>
      match FeedStep(json, state, y)
      case Rejected(next, error) => Rejected(next, error)
      case Accepted(next, more) => Accepted(next, events + more)
  }

  /** Same acceptance, and on acceptance the same state and events. */
  ghost predicate SameFed<J>(a: Fed<J>, b: Fed<J>) {
    if a.Accepted? then a == b else b.Rejected?
  }

  lemma FeedAppend<J>(json: JsonModel<J>, x: seq<byte>, y: seq<byte>)
    requires SettledBytes(x)
    ensures SameFed(FeedAfter(json, FeedStep(json, Initial, x), y), FeedStep(json, Initial, x + y))
  {
    FeedWhole(json, x);
    FeedWhole(json, x + y);
    DecodeAppend(x, y);
    if Decode(x).Some? && Decode(Decode(x).value.rest + y).Some? {
      var dx := Decode(x).value;
      var dy := Decode(dx.rest + y).value;
      DecodedSettled(x);
      CutAppend(FrameReader(json), dx.text, dy.text);
    }
  }

  lemma FeedWhole<J>(json: JsonModel<J>, b: seq<byte>)
    ensures FeedStep(json, Initial, b) ==
            if Decode(b).None? then Rejected(Initial, InvalidUtf8)
            else AfterCut(CutFrames(FrameReader(json), Normalize(Decode(b).value.text)), Decode(b).value.rest)
  {
    assert [] + b == b;
    assert Decode(b).Some? ==> "" + Decode(b).value.text == Decode(b).value.text;
  }

  /** Cutting the frames of two texts in a row, and of the two at once. */
  lemma CutAppend<J>(parse: string -> FrameOutcome<J>, x: string, y: string)
    requires Settled(x)
    ensures var first := CutFrames(parse, Normalize(x));
            CutFrames(parse, Normalize(x + y)) == Resume(parse, first, Normalize(first.rest + y))
  {
    var b := Normalize(x);
    var c, r := Consumed(parse, b), CutFrames(parse, b).rest;
    ConsumedSplits(parse, b);
    NormalizeFromRest(x, y, c, r);
    CutThenAnything(parse, b, Normalize(r + y));
  }

  /** The buffer kept after cutting stands in for everything that came before it. */
  lemma NormalizeFromRest(x: string, y: string, c: string, r: string)
    requires Settled(x) && Normalize(x) == c + r
    requires c == "" || c[|c| - 1] == '\n'
    ensures Normalize(x + y) == c + Normalize(r + y)
  {
    NormalizeStep(x, y);
    Regroup(c, r, y);
    NormalizeAppend(c, r + y);
    NormalizeRemovesCrLf(x);
    NoCrLfPrefix(c, r);
    NormalizeNoCrLf(c);
  }

  lemma NoCrLfPrefix(c: string, r: string)
    requires NoCrLf(c + r)
    ensures NoCrLf(c)
  {
    forall i: nat ensures !CrLfAt(c, i) { assert !CrLfAt(c + r, i); }
  }

  lemma SettledBytesPrefix(x: seq<byte>, y: seq<byte>)
    requires SettledBytes(x + y)
    ensures SettledBytes(x)
  {
    forall i: nat ensures !CrCrLfBytesAt(x, i) { assert !CrCrLfBytesAt(x + y, i); }
  }

  /** More text leaves the part of a normalised text alone that ends in LF. */
  lemma ConsumedStays(x: string, y: string, c: string, r: string) returns (z: string)
    requires Normalize(x) == c + r && (c == "" || c[|c| - 1] == '\n')
    ensures Normalize(x + y) == c + z
  {
    if EndsCr(x) && StartsLf(y) {
      var w := x[..|x| - 1];
      assert x == w + "\r" && x + y == w + ("\r" + y);
      NormalizeAppend(w, "\r");
      NormalizeAppend(w, "\r" + y);
      assert Normalize("\r") == "\r";
      z := TakeLast(Normalize(w), c, r, Normalize("\r" + y));
    } else {
      NormalizeAppend(x, y);
      Regroup(c, r, Normalize(y));
      z := r + Normalize(y);
    }
  }

  lemma TakeLast(n: string, c: string, r: string, more: string) returns (z: string)
    requires n + "\r" == c + r && (c == "" || c[|c| - 1] == '\n')
    ensures n + more == c + z
  {
    assert (c + r)[|n|] == '\r';
    assert c != "" ==> (c + r)[|c| - 1] == '\n';
    assert |c| <= |n|;
    assert n == (c + r)[..|n|] == c + r[..|n| - |c|];
    Regroup(c, r[..|n| - |c|], more);
    z := r[..|n| - |c|] + more;
  }

  /** A stream that is rejected stays rejected, whatever follows. */
  lemma RejectedStays<J>(json: JsonModel<J>, x: seq<byte>, y: seq<byte>)
    requires FeedStep(json, Initial, x).Rejected?
    ensures FeedStep(json, Initial, x + y).Rejected?
  {
    FeedWhole(json, x);
    FeedWhole(json, x + y);
    DecodeAppend(x, y);
    if Decode(x + y).Some? {
      CutErrStays(FrameReader(json), Decode(x).value.text, Decode(Decode(x).value.rest + y).value.text);
    }
  }

  lemma CutErrStays<J>(parse: string -> FrameOutcome<J>, x: string, y: string)
    requires CutFrames(parse, Normalize(x)).CutErr?
    ensures CutFrames(parse, Normalize(x + y)).CutErr?
  {
    var b := Normalize(x);
    ConsumedSplits(parse, b);
    var z := ConsumedStays(x, y, Consumed(parse, b), CutFrames(parse, b).rest);
    CutThenAnything(parse, b, z);
  }

  /** As far as the stream is accepted, it has no CR CR LF. */
  ghost predicate SettledWhileAccepted<J>(json: JsonModel<J>, b: seq<byte>) {
    forall n: nat :: n <= |b| && FeedStep(json, Initial, b[..n]).Accepted? ==> SettledBytes(b[..n])
  }

  lemma SettledWhileAcceptedPrefix<J>(json: JsonModel<J>, x: seq<byte>, y: seq<byte>)
    requires SettledWhileAccepted(json, x + y)
    ensures SettledWhileAccepted(json, x)
    ensures FeedStep(json, Initial, x).Accepted? ==> SettledBytes(x)
  {
    forall n: nat | n <= |x| && FeedStep(json, Initial, x[..n]).Accepted? ensures SettledBytes(x[..n]) {
      assert (x + y)[..n] == x[..n];
    }
    assert x[..|x|] == x;
  }

  /** The law on every stream that has no CR CR LF as far as it is accepted. */
  lemma {:induction false} ChunksAgree<J>(json: JsonModel<J>, chunks: seq<seq<byte>>)
    requires SettledWhileAccepted(json, Flatten(chunks))
    ensures SameFed(FeedAll(json, chunks), FeedStep(json, Initial, Flatten(chunks)))
    decreases |chunks|
  {
    if chunks == [] {
      FeedNothing(json);
    } else {
      var init, last := chunks[..|chunks| - 1], chunks[|chunks| - 1];
      SettledWhileAcceptedPrefix(json, Flatten(init), last);
      ChunksAgree(json, init);
      FeedAllSnoc(json, init, last);
      assert init + [last] == chunks;
      if FeedStep(json, Initial, Flatten(init)).Accepted? {
        FeedAppend(json, Flatten(init), last);
      } else {
        RejectedStays(json, Flatten(init), last);
      }
    }
  }

  /**
   Chunk invariance: for every byte stream without CR CR LF and every way of cutting it
   into chunks, the chunks are accepted exactly when the whole stream is, and then the
   events, the text buffer and the decoder state are the same.
   */
  lemma ChunkInvariance<J>(json: JsonModel<J>, chunks: seq<seq<byte>>)
    requires SettledBytes(Flatten(chunks))
    ensures SameFed(FeedAll(json, chunks), FeedStep(json, Initial, Flatten(chunks)))
  {
    var b := Flatten(chunks);
    forall n: nat | n <= |b| ensures SettledBytes(b[..n]) {
      assert b == b[..n] + b[n..];
      SettledBytesPrefix(b[..n], b[n..]);
    }
    ChunksAgree(json, chunks);
  }

  lemma FeedNothing<J>(json: JsonModel<J>)
    ensures FeedStep(json, Initial, []) == Accepted(Initial, [])
  {
    var none: seq<byte> := [];
    assert none + none == none;
    assert "" + "" == "";
    assert Normalize("") == "";
  }

  lemma FeedAllSnoc<J>(json: JsonModel<J>, chunks: seq<seq<byte>>, last: seq<byte>)
    ensures FeedAll(json, chunks + [last]) == FeedAfter(json, FeedAll(json, chunks), last)
  {
    assert (chunks + [last])[..|chunks|] == chunks;
  }

  /** Two ways of cutting the same stream agree. */
  lemma AnyTwoChunkings<J>(json: JsonModel<J>, a: seq<seq<byte>>, b: seq<seq<byte>>)
    requires Flatten(a) == Flatten(b) && SettledBytes(Flatten(a))
    ensures SameFed(FeedAll(json, a), FeedAll(json, b))
  {
    ChunkInvariance(json, a);
    ChunkInvariance(json, b);
  }

  // ---------------------------------------------------------------- where the law ends

  /** The bytes a decoder holds back decode to no text, and are held back again. */
  lemma {:induction false} HeldBack(b: seq<byte>)
    requires Decode(b).Some?
    ensures Decode(Decode(b).value.rest) == Some(Decoded("", Decode(b).value.rest))
    decreases |b|
  {
    if b != [] && FirstSequence(b).Complete? {
      HeldBack(b[FirstSequence(b).width..]);
    }
  }

  /** However the stream is cut, the outcome is that of feeding it whole. */
  ghost predicate CutsAgree<J>(json: JsonModel<J>, b: seq<byte>) {
    forall chunks: seq<seq<byte>> :: Flatten(chunks) == b ==> SameFed(FeedAll(json, chunks), FeedStep(json, Initial, b))
  }

  /** Feeding b and then nothing. */
  lemma FeedThenNothing<J>(json: JsonModel<J>, b: seq<byte>, chunks: seq<seq<byte>>)
    requires |chunks| == 2 && chunks[0] == b && chunks[1] == []
    ensures Flatten(chunks) == b
    ensures FeedAll(json, chunks) == FeedAfter(json, FeedStep(json, Initial, b), [])
  {
    var once := chunks[..1];
    assert once == [b];
    FeedOne(json, b);
    FlattenSnoc(once, []);
    FeedAllSnoc(json, once, []);
    assert chunks == once + [[]];
    assert b + [] == b;
    var first := FeedStep(json, Initial, b);
    if first.Accepted? { assert [] + first.events == first.events; }
  }

  /** If an accepted stream leaves a CR LF in the buffer, one more empty chunk changes the buffer. */
  lemma UnsettledTailBreaks<J>(json: JsonModel<J>, b: seq<byte>)
    requires FeedStep(json, Initial, b).Accepted?
    requires !NoCrLf(FeedStep(json, Initial, b).state.buffer)
    ensures !CutsAgree(json, b)
  {
    var chunks: seq<seq<byte>> := [b, []];
    FeedThenNothing(json, b, chunks);
    EmptyFeedShortens(json, b);
    assert !SameFed(FeedAll(json, chunks), FeedStep(json, Initial, b));
  }

  lemma EmptyFeedShortens<J>(json: JsonModel<J>, b: seq<byte>)
    requires FeedStep(json, Initial, b).Accepted?
    requires !NoCrLf(FeedStep(json, Initial, b).state.buffer)
    ensures var st := FeedStep(json, Initial, b).state;
            FeedStep(json, st, []).Accepted? ==> |FeedStep(json, st, []).state.buffer| < |st.buffer|
  {
    var st := FeedStep(json, Initial, b).state;
    assert [] + b == b;
    HeldBack(b);
    assert st.pending + [] == st.pending;
    assert st.buffer + "" == st.buffer;
    NormalizeShortens(st.buffer);
    CutShortens(FrameReader(json), Normalize(st.buffer));
  }

  lemma FeedWithoutFrame<J>(json: JsonModel<J>, b: seq<byte>)
    requires Decode(b).Some?
    requires Boundary(Normalize(Decode(b).value.text)) == |Normalize(Decode(b).value.text)|
    ensures FeedStep(json, Initial, b)
         == Accepted(State(Decode(b).value.rest, Normalize(Decode(b).value.text)), [])
  {
    FeedWhole(json, b);
  }

  // ---------------------------------------------------------------- the exact condition

  /** However the stream is cut, the parser is in the same state at every point of it. */
  ghost predicate AgreesThroughout<J>(json: JsonModel<J>, b: seq<byte>) {
    forall n: nat :: n <= |b| ==> CutsAgree(json, b[..n])
  }

  predicate EndsBlank(s: string) {
    |s| >= 2 && s[|s| - 1] == '\n' && s[|s| - 2] == '\n'
  }

  lemma EndsBlankAppend(a: string, b: string)
    requires EndsBlank(a) && (b == "" || EndsBlank(b))
    ensures EndsBlank(a + b)
  {
  }

  /** The consumed part of a buffer is empty or ends in a blank line. */
  lemma {:induction false} ConsumedEndsBlank<J>(parse: string -> FrameOutcome<J>, b: string)
    ensures Consumed(parse, b) == "" || EndsBlank(Consumed(parse, b))
    decreases |b|
  {
    var i := Boundary(b);
    if i < |b| {
      var head, rest := b[..i + 2], b[i + 2..];
      assert EndsBlank(head);
      ConsumedEndsBlank(parse, rest);
      EndsBlankAppend(head, if parse(b[..i]).Malformed? then "" else Consumed(parse, rest));
    }
  }

  /** Bytes held back can only be completed by bytes that are not CR. */
  lemma NothingHeldBeforeCr(q: seq<byte>, more: seq<byte>)
    requires Decode(q).Some? && more != [] && more[0] == 0x0D
    ensures Decode(q + more).Some? ==> Decode(q).value.rest == []
  {
    var rest := Decode(q).value.rest;
    HeldBack(q);
    DecodeAppend(q, more);
    if rest != [] { CrBreaksSequence(rest, more); }
  }

  lemma CrBreaksSequence(rest: seq<byte>, more: seq<byte>)
    requires rest != [] && FirstSequence(rest).Incomplete? && more != [] && more[0] == 0x0D
    ensures FirstSequence(rest + more).Invalid?
  {
    var s := rest + more;
    assert s[0] == rest[0] && s[|rest|] == 0x0D;
    assert |rest| > 1 ==> s[1] == rest[1];
    assert |rest| > 2 ==> s[2] == rest[2];
  }

  lemma DecodeCrCrLf()
    ensures var lines: seq<byte> := [0x0D, 0x0D, 0x0A]; Decode(lines) == Some(Decoded("\r\r\n", []))
  {
    var text := "\r\r\n";
    assert text[1..] == "\r\n" && text[2..] == "\n" && text[3..] == "";
    assert Encode(text[2..]) == [0x0A];
    assert Encode(text[1..]) == [0x0D, 0x0A];
    assert Encode(text) == [0x0D, 0x0D, 0x0A];
    EncodeDecode(text);
  }

  /** A prefix that ends in CR CR LF decodes to a text that does, with nothing held back. */
  lemma DecodedTail(q: seq<byte>, more: seq<byte>) returns (text: string)
    requires more == [0x0D, 0x0D, 0x0A] && Decode(q + more).Some?
    ensures Decode(q + more) == Some(Decoded(text + "\r\r\n", []))
  {
    DecodeAppend(q, more);
    NothingHeldBeforeCr(q, more);
    DecodeCrCrLf();
    assert [] + more == more;
    text := Decode(q).value.text;
  }

  lemma NormalizedTail(text: string)
    ensures Normalize(text + "\r\r\n") == Normalize(text) + "\r\n"
  {
    NormalizeAppend(text, "\r\r\n");
    assert "\r\r\n"[1..] == "\r\n" && "\r\n"[2..] == "";
  }

  /** A buffer that ends in CR LF still does after cutting: no frame ends there. */
  lemma CutKeepsCrLf<J>(parse: string -> FrameOutcome<J>, text: string)
    ensures !NoCrLf(CutFrames(parse, text + "\r\n").rest)
  {
    var b := text + "\r\n";
    ConsumedSplits(parse, b);
    ConsumedEndsBlank(parse, b);
    CrLfBehind(text, b, Consumed(parse, b), CutFrames(parse, b).rest);
  }

  lemma CrLfBehind(text: string, b: string, c: string, r: string)
    requires b == text + "\r\n" == c + r && (c == "" || EndsBlank(c))
    ensures !NoCrLf(r)
  {
    var n := |text|;
    assert b[n] == '\r' && b[n + 1] == '\n';
    assert c != "" ==> b[|c| - 1] == '\n' && b[|c| - 2] == '\n';
    assert |c| <= n;
    assert r[n - |c|] == b[n] && r[n - |c| + 1] == b[n + 1];
    assert CrLfAt(r, n - |c|);
  }

  /** What was cut off a prefix without an error is cut off the same way from the whole. */
  lemma PrefixCutsOk<J>(parse: string -> FrameOutcome<J>, b: string, more: string)
    requires CutFrames(parse, b + more).CutOk?
    ensures CutFrames(parse, b).CutOk?
  {
    var c, r := Consumed(parse, b), CutFrames(parse, b).rest;
    ConsumedSplits(parse, b);
    Regroup(c, r, more);
    CutThenAnything(parse, b, r + more);
  }

  /** Where the whole text is cut without an error, the part up to a CR CR LF leaves a CR LF behind. */
  lemma CrLfStays<J>(parse: string -> FrameOutcome<J>, text: string, rest: string)
    requires CutFrames(parse, Normalize(text + "\r\r\n" + rest)).CutOk?
    ensures CutFrames(parse, Normalize(text + "\r\r\n")).CutOk?
    ensures !NoCrLf(CutFrames(parse, Normalize(text + "\r\r\n")).rest)
  {
    NormalizeAppend(text + "\r\r\n", rest);
    PrefixCutsOk(parse, Normalize(text + "\r\r\n"), Normalize(rest));
    NormalizedTail(text);
    CutKeepsCrLf(parse, Normalize(text));
  }

  lemma CrCrLfBreaks<J>(json: JsonModel<J>, b: seq<byte>, i: nat)
    requires FeedStep(json, Initial, b).Accepted? && CrCrLfBytesAt(b, i)
    ensures !CutsAgree(json, b[..i + 3])
  {
    var lines: seq<byte> := [0x0D, 0x0D, 0x0A];
    assert b[..i + 3] == b[..i] + lines;
    assert b == (b[..i] + lines) + b[i + 3..];
    SplitBreaks(json, b[..i], lines, b[i + 3..]);
  }

  lemma SplitBreaks<J>(json: JsonModel<J>, q: seq<byte>, lines: seq<byte>, tail: seq<byte>)
    requires lines == [0x0D, 0x0D, 0x0A]
    requires FeedStep(json, Initial, (q + lines) + tail).Accepted?
    ensures !CutsAgree(json, q + lines)
  {
    var p := q + lines;
    FeedWhole(json, p + tail);
    FeedWhole(json, p);
    DecodeAppend(p, tail);
    var text := DecodedTail(q, lines);
    assert [] + tail == tail;
    CrLfStays(FrameReader(json), text, Decode(tail).value.text);
    UnsettledTailBreaks(json, p);
  }

  /**
   The exact condition, for every stream: the parser's events and state are independent of
   the cuts at every point if and only if the stream has no CR CR LF as far as it is
   accepted. For a stream that is accepted this means no CR CR LF at all.
   */
  lemma AgreesThroughoutIff<J>(json: JsonModel<J>, b: seq<byte>)
    ensures AgreesThroughout(json, b) <==> SettledWhileAccepted(json, b)
    ensures FeedStep(json, Initial, b).Accepted? ==> (AgreesThroughout(json, b) <==> SettledBytes(b))
  {
    if SettledWhileAccepted(json, b) {
      SettledAgrees(json, b);
    } else {
      UnsettledDisagrees(json, b);
    }
    AcceptedIsSettled(json, b);
  }

  lemma UnsettledDisagrees<J>(json: JsonModel<J>, b: seq<byte>)
    requires !SettledWhileAccepted(json, b)
    ensures !AgreesThroughout(json, b)
  {
    var n: nat :| n <= |b| && FeedStep(json, Initial, b[..n]).Accepted? && !SettledBytes(b[..n]);
    var i: nat :| CrCrLfBytesAt(b[..n], i);
    CrCrLfBreaks(json, b[..n], i);
    assert b[..n][..i + 3] == b[..i + 3];
  }

  lemma SettledAgrees<J>(json: JsonModel<J>, b: seq<byte>)
    requires SettledWhileAccepted(json, b)
    ensures AgreesThroughout(json, b)
  {
    forall n: nat | n <= |b| ensures CutsAgree(json, b[..n]) {
      assert b == b[..n] + b[n..];
      SettledWhileAcceptedPrefix(json, b[..n], b[n..]);
      forall chunks: seq<seq<byte>> | Flatten(chunks) == b[..n]
        ensures SameFed(FeedAll(json, chunks), FeedStep(json, Initial, b[..n]))
      {
        ChunksAgree(json, chunks);
      }
    }
  }

  lemma AcceptedIsSettled<J>(json: JsonModel<J>, b: seq<byte>)
    ensures FeedStep(json, Initial, b).Accepted? ==> (SettledWhileAccepted(json, b) <==> SettledBytes(b))
  {
    assert b[..|b|] == b;
    if SettledBytes(b) {
      forall n: nat | n <= |b| ensures SettledBytes(b[..n]) {
        assert b == b[..n] + b[n..];
        SettledBytesPrefix(b[..n], b[n..]);
      }
    }
  }

  lemma FeedOne<J>(json: JsonModel<J>, b: seq<byte>)
    ensures FeedAll(json, [b]) == FeedAfter(json, Accepted(Initial, []), b)
    ensures Flatten([b]) == b
  {
    assert [b][..0] == [];
    assert [] + b == b;
  }

  /** The five bytes `x LF CR CR LF`: accepted as one chunk, rejected when an empty chunk follows. */
  lemma ChunkingMatters<J>(json: JsonModel<J>)
    ensures var b: seq<byte> := [0x78, 0x0A, 0x0D, 0x0D, 0x0A];
            && Flatten([b]) == Flatten([b, []]) == b
            && FeedAll(json, [b]).Accepted?
            && FeedAll(json, [b, []]).Rejected?
  {
    var b: seq<byte> := [0x78, 0x0A, 0x0D, 0x0D, 0x0A];
    var text := "x\n\r\r\n";
    assert Encode(text[4..]) == b[4..];
    assert Encode(text[3..]) == b[3..];
    assert Encode(text) == b;
    EncodeDecode(text);
    SampleNormalized();
    FeedWithoutFrame(json, b);
    FeedOne(json, b);
    SampleRejected(json);
    FeedThenNothing(json, b, [b, []]);
  }

  lemma SampleNormalized()
    ensures Normalize("x\n\r\r\n") == "x\n\r\n" && Boundary("x\n\r\n") == 4
    ensures Normalize("x\n\r\n") == "x\n\n" && Boundary("x\n\n") == 1
  {
    assert Normalize("\r\n") == "\n";
    assert Normalize("\r\r\n") == "\r" + Normalize("\r\n");
    assert Normalize("\n\r\r\n") == "\n" + Normalize("\r\r\n");
    assert Normalize("\n\r\n") == "\n" + Normalize("\r\n");
    assert BlankLineAt("x\n\n", 1);
  }

  lemma SampleFrame<J>(json: JsonModel<J>)
    ensures ParseFrame(json, "x") == Malformed(FrameWithoutData)
  {
    assert NoLineBreak("x");
    SplitLinesJoin(["x"]);
    assert ["x"][..0] == [];
    assert DataLines(["x"]) == [];
    assert RStripCr("x") == "x";
  }

  lemma SampleRejected<J>(json: JsonModel<J>)
    ensures FeedStep(json, State([], "x\n\r\n"), []).Rejected?
  {
    SampleNormalized();
    SampleFrame(json);
    var none: seq<byte> := [];
    assert none + none == none;
    assert "x\n\r\n" + "" == "x\n\r\n";
    assert "x\n\n"[..1] == "x";
    assert CutFrames(FrameReader(json), "x\n\n").CutErr?;
  }
}
