/**
 The deterministic audio mastering of backend/app/providers/fake.py: 16-bit mono PCM
 segments copied in 4096-frame chunks, separated by exact runs of silence.
 A frame is one sample; the two zero bytes of a silent frame are the sample 0.
 */
module Mastering {
  import opened Wrappers
  import opened Reals

  type Sample = s: int | -32768 <= s < 32768

  const SAMPLE_RATE: int := 44100
  const CHANNELS: int := 1
  const SAMPLE_WIDTH_BYTES: int := 2

  datatype Wav = Wav(frameRate: int, channels: int, sampleWidth: int, frames: seq<Sample>)

  /** A pause as the request holds it; `bool` and non-integers are refused alike. */
  datatype Pause = Millis(ms: int) | NotAnInteger

  datatype Request = Request(sampleRate: int, segments: seq<Wav>, pauses: seq<Pause>)

  datatype MasterError =
    | SampleRateUnsupported | LengthMismatch | PauseNotInteger
    | PauseNegative | PauseUnaligned | IncompatibleFormat

  predicate FormatOk(wav: Wav) {
    wav.frameRate == SAMPLE_RATE && wav.channels == CHANNELS && wav.sampleWidth == SAMPLE_WIDTH_BYTES
  }

  predicate Aligned(pause: Pause) {
    pause.Millis? && SAMPLE_RATE * pause.ms % 1000 == 0
  }

  /** The checks before any file is opened, in the order of the source. */
  function Refusal(r: Request): Option<MasterError> {
    if r.sampleRate != SAMPLE_RATE then Some(SampleRateUnsupported)
    else if |r.segments| != |r.pauses| then Some(LengthMismatch)
    else if exists i :: 0 <= i < |r.pauses| && r.pauses[i].NotAnInteger? then Some(PauseNotInteger)
    else if exists i :: 0 <= i < |r.pauses| && r.pauses[i].Millis? && r.pauses[i].ms < 0 then Some(PauseNegative)
    else if exists i :: 0 <= i < |r.pauses| && !Aligned(r.pauses[i]) then Some(PauseUnaligned)
    else None
  }

  function Silence(frames: nat): seq<Sample> {
    seq(frames, i => 0)
  }

  /** `round(SAMPLE_RATE * pause_ms / 1000)` */
  function PauseFrames(ms: int): int {
    RoundHalfEven((SAMPLE_RATE * ms) as real / 1000.0)
  }

  // ---------------------------------------------------------------- pauses

  /** The accepted pauses are exactly the non-negative multiples of 10 ms, 441 frames for each 10 ms. */
  lemma AcceptedPauses(ms: int)
    ensures Aligned(Millis(ms)) <==> ms % 10 == 0
    ensures ms % 10 == 0 ==> PauseFrames(ms) == 441 * (ms / 10)
  {
    var k, r := ms / 10, ms % 10;
    assert ms == 10 * k + r;
    assert SAMPLE_RATE * ms == 1000 * (441 * k + 44 * r) + 100 * r;
    RemainderIs(441 * k + 44 * r, 100 * r);
    if r == 0 {
      WholeQuotient(441 * k);
    }
  }

  lemma RemainderIs(q: int, r: int)
    requires 0 <= r < 1000
    ensures (1000 * q + r) % 1000 == r
  {
  }

  lemma WholeQuotient(k: int)
    ensures RoundHalfEven((1000 * k) as real / 1000.0) == k
  {
    assert (1000 * k) as real / 1000.0 == k as real;
  }

  ghost predicate PausesAccepted(pauses: seq<Pause>) {
    forall i :: 0 <= i < |pauses| ==> pauses[i].Millis? && pauses[i].ms >= 0 && pauses[i].ms % 10 == 0
  }

  lemma RefusalIff(r: Request)
    ensures Refusal(r) == None <==>
            r.sampleRate == 44100 && |r.segments| == |r.pauses| && PausesAccepted(r.pauses)
  {
    AlignedAre(r.pauses);
  }

  lemma AlignedAre(pauses: seq<Pause>)
    ensures forall i :: 0 <= i < |pauses| && pauses[i].Millis? ==> (Aligned(pauses[i]) <==> pauses[i].ms % 10 == 0)
  {
    forall i | 0 <= i < |pauses| && pauses[i].Millis? ensures Aligned(pauses[i]) <==> pauses[i].ms % 10 == 0 {
      AcceptedPauses(pauses[i].ms);
    }
  }

  ghost predicate AllIntegers(pauses: seq<Pause>) {
    forall i :: 0 <= i < |pauses| ==> pauses[i].Millis?
  }

  ghost predicate NoneNegative(pauses: seq<Pause>) {
    forall i :: 0 <= i < |pauses| && pauses[i].Millis? ==> pauses[i].ms >= 0
  }

  /** Which error a refused request gets: the first thing that is wrong with it. */
  lemma RefusedWith(r: Request)
    ensures var fits := r.sampleRate == 44100 && |r.segments| == |r.pauses|;
            && (Refusal(r) == Some(SampleRateUnsupported) <==> r.sampleRate != 44100)
            && (Refusal(r) == Some(LengthMismatch) <==> r.sampleRate == 44100 && |r.segments| != |r.pauses|)
            && (Refusal(r) == Some(PauseNotInteger) <==> fits && !AllIntegers(r.pauses))
            && (Refusal(r) == Some(PauseNegative) <==> fits && AllIntegers(r.pauses) && !NoneNegative(r.pauses))
            && (Refusal(r) == Some(PauseUnaligned) <==>
                  fits && AllIntegers(r.pauses) && NoneNegative(r.pauses) && !PausesAccepted(r.pauses))
  {
    AlignedAre(r.pauses);
  }

  // ---------------------------------------------------------------- the mastered audio

  /** The segments in order, each followed by its pause. */
  function Mastered(segments: seq<Wav>, pauses: seq<Pause>): seq<Sample>
    requires |segments| == |pauses|
  {
    if segments == [] then []
    else
      var n := |segments| - 1;
      Mastered(segments[..n], pauses[..n]) + segments[n].frames + Silence(SilenceAfter(pauses[n]))
  }

  function SilenceAfter(pause: Pause): nat {
    if pause.Millis? && PauseFrames(pause.ms) > 0 then PauseFrames(pause.ms) else 0
  }

  function SegmentFrames(segments: seq<Wav>): nat {
    if segments == [] then 0 else SegmentFrames(segments[..|segments| - 1]) + |segments[|segments| - 1].frames|
  }

  function PauseTotal(pauses: seq<Pause>): int {
    if pauses == [] then 0
    else
      PauseTotal(pauses[..|pauses| - 1]) + if pauses[|pauses| - 1].Millis? then pauses[|pauses| - 1].ms else 0
  }

  /** Conservation: the frames of the segments plus 441 for every 10 ms of pause, no more and no fewer. */
  lemma {:induction false} FramesConserved(segments: seq<Wav>, pauses: seq<Pause>)
    requires |segments| == |pauses| && PausesAccepted(pauses)
    ensures PauseTotal(pauses) >= 0 && PauseTotal(pauses) % 10 == 0
    ensures |Mastered(segments, pauses)| == SegmentFrames(segments) + 441 * (PauseTotal(pauses) / 10)
  {
    if segments != [] {
      var n := |segments| - 1;
      FramesConserved(segments[..n], pauses[..n]);
      SilenceIs(pauses[n]);
      MultiplesAdd(PauseTotal(pauses[..n]), pauses[n].ms);
    }
  }

  lemma SilenceIs(pause: Pause)
    requires pause.Millis? && pause.ms >= 0 && pause.ms % 10 == 0
    ensures SilenceAfter(pause) == 441 * (pause.ms / 10)
  {
    AcceptedPauses(pause.ms);
  }

  lemma MultiplesAdd(a: int, b: int)
    requires a >= 0 && b >= 0 && a % 10 == 0 && b % 10 == 0
    ensures (a + b) % 10 == 0 && (a + b) / 10 == a / 10 + b / 10
  {
  }

  /** Where segment k starts in the mastered audio. */
  function Offset(segments: seq<Wav>, pauses: seq<Pause>, k: nat): nat
    requires |segments| == |pauses| && k <= |segments|
  {
    |Mastered(segments[..k], pauses[..k])|
  }

  /** Every segment stands unchanged at its place, followed by nothing but silence up to the next. */
  lemma {:induction false} SegmentInPlace(segments: seq<Wav>, pauses: seq<Pause>, k: nat)
    requires |segments| == |pauses| && k < |segments|
    ensures var out, from, len := Mastered(segments, pauses), Offset(segments, pauses, k), |segments[k].frames|;
            && from + len <= Offset(segments, pauses, k + 1) <= |out|
            && out[from..from + len] == segments[k].frames
            && (forall i :: from + len <= i < Offset(segments, pauses, k + 1) ==> out[i] == 0)
    decreases |segments|
  {
    var n := |segments| - 1;
    var out := Mastered(segments, pauses);
    var head := Mastered(segments[..n], pauses[..n]);
    assert segments[..k + 1][..k] == segments[..k] && pauses[..k + 1][..k] == pauses[..k];
    if k == n {
      assert segments[..k + 1] == segments && pauses[..k + 1] == pauses;
    } else {
      SegmentInPlace(segments[..n], pauses[..n], k);
      assert segments[..n][..k] == segments[..k] && pauses[..n][..k] == pauses[..k];
      assert segments[..n][..k + 1] == segments[..k + 1] && pauses[..n][..k + 1] == pauses[..k + 1];
      var from, len := Offset(segments, pauses, k), |segments[k].frames|;
      assert out[..|head|] == head;
      assert out[from..from + len] == head[from..from + len];
    }
  }

  // ---------------------------------------------------------------- probing

  /** `round(frame_count * 1000 / SAMPLE_RATE)` */
  function DurationMs(frames: nat): int {
    RoundHalfEven(frames as real * 1000.0 / SAMPLE_RATE as real)
  }

  /** The probed duration is within half a millisecond of segments and pauses played in full. */
  lemma DurationWithinHalf(segments: seq<Wav>, pauses: seq<Pause>)
    requires |segments| == |pauses| && PausesAccepted(pauses)
    ensures var played := SegmentFrames(segments) as real * 1000.0 / 44100.0 + PauseTotal(pauses) as real;
            -0.5 <= DurationMs(|Mastered(segments, pauses)|) as real - played <= 0.5
  {
    FramesConserved(segments, pauses);
    var k := PauseTotal(pauses) / 10;
    assert PauseTotal(pauses) == 10 * k;
    var frames := |Mastered(segments, pauses)|;
    assert frames as real == SegmentFrames(segments) as real + 441.0 * k as real;
    assert frames as real * 1000.0 / 44100.0 == SegmentFrames(segments) as real * 1000.0 / 44100.0 + 10.0 * k as real;
  }

  // ---------------------------------------------------------------- the methods of the source

  const CHUNK_FRAMES: nat := 4096

  /** The chunk loop for one segment. */
  method CopyFrames(segment: Wav, written: seq<Sample>) returns (r: seq<Sample>)
    ensures r == written + segment.frames
  {
    r := written;
    var position: nat := 0;
    while true
      invariant position <= |segment.frames| && r == written + segment.frames[..position]
      decreases |segment.frames| - position
    {
      var end := if position + CHUNK_FRAMES < |segment.frames| then position + CHUNK_FRAMES else |segment.frames|;
      var chunk := segment.frames[position..end];
      if chunk == [] {
        break;
      }
      assert segment.frames[..end] == segment.frames[..position] + chunk;
      r := r + chunk;
      position := end;
    }
    assert segment.frames[..position] == segment.frames;
  }

  lemma MasteredNext(segments: seq<Wav>, pauses: seq<Pause>, k: nat)
    requires k < |segments| == |pauses| && PausesAccepted(pauses)
    ensures PauseFrames(pauses[k].ms) >= 0
    ensures Mastered(segments[..k + 1], pauses[..k + 1])
         == Mastered(segments[..k], pauses[..k]) + segments[k].frames + Silence(PauseFrames(pauses[k].ms))
  {
    assert segments[..k + 1][..k] == segments[..k] && pauses[..k + 1][..k] == pauses[..k];
    SilenceIs(pauses[k]);
    AcceptedPauses(pauses[k].ms);
  }

  /** The checks at the start of `master`. */
  method CheckRequest(request: Request) returns (error: Option<MasterError>)
    ensures error == Refusal(request)
  {
    var pauses := request.pauses;
    if request.sampleRate != SAMPLE_RATE {
      return Some(SampleRateUnsupported);
    }
    if |request.segments| != |pauses| {
      return Some(LengthMismatch);
    }
    if exists i :: 0 <= i < |pauses| && pauses[i].NotAnInteger? {
      return Some(PauseNotInteger);
    }
    if exists i :: 0 <= i < |pauses| && pauses[i].ms < 0 {
      return Some(PauseNegative);
    }
    if exists i :: 0 <= i < |pauses| && SAMPLE_RATE * pauses[i].ms % 1000 != 0 {
      return Some(PauseUnaligned);
    }
    return None;
  }

  /** 44100 Hz, one channel, two bytes a sample: all that is mastered. */
  ghost predicate AllLocked(segments: seq<Wav>) {
    forall i :: 0 <= i < |segments| ==>
      segments[i].frameRate == 44100 && segments[i].channels == 1 && segments[i].sampleWidth == 2
  }

  method Master(request: Request) returns (r: Result<Wav, MasterError>)
    ensures Refusal(request).Some? ==> r == Err(Refusal(request).value)
    ensures Refusal(request).None? ==>
              if AllLocked(request.segments)
              then r == Ok(Wav(44100, 1, 2, Mastered(request.segments, request.pauses)))
              else r == Err(IncompatibleFormat)
  {
    var refusal := CheckRequest(request);
    if refusal.Some? {
      return Err(refusal.value);
    }
    var segments, pauses := request.segments, request.pauses;
    RefusalIff(request);
    var output: seq<Sample> := [];
    for k := 0 to |segments|
      invariant forall i :: 0 <= i < k ==> FormatOk(segments[i])
      invariant output == Mastered(segments[..k], pauses[..k])
    {
      if !FormatOk(segments[k]) {
        return Err(IncompatibleFormat);
      }
      MasteredNext(segments, pauses, k);
      output := CopyFrames(segments[k], output);
      var pauseFrames := PauseFrames(pauses[k].ms);
      if pauseFrames != 0 {
        output := output + Silence(pauseFrames);
      } else {
        assert output + Silence(0) == output;
      }
    }
    assert segments[..|segments|] == segments && pauses[..|pauses|] == pauses;
    return Ok(Wav(SAMPLE_RATE, CHANNELS, SAMPLE_WIDTH_BYTES, output));
  }
}
