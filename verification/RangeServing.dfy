/**
 Serving artifacts with single byte ranges, backend/app/api/audio.py: the decision on the
 Range header, the arithmetic of the response headers, the chunked body, and what they
 mean together for a client that resumes a download.
 */
module RangeServing {
  import opened Wrappers
  import opened PyText
  import opened Utf8
  import Decimal

  datatype Decision = Full | Unsatisfiable | Partial(start: nat, end: nat)

  function LowerChar(c: char): char {
    if 'A' <= c <= 'Z' then (c as int + 32) as char else c
  }

  /** `str.lower` on ASCII letters; no other character lowers to one of "bytes" or "w/". */
  function Lower(s: string): string {
    seq(|s|, i requires 0 <= i < |s| => LowerChar(s[i]))
  }

  /** Both groups of SINGLE_RANGE_PATTERN, over the ASCII digits a header can hold. */
  datatype Groups = Groups(first: string, last: string)

  predicate DigitsOrEmpty(s: string) {
    forall i :: 0 <= i < |s| ==> Decimal.IsDigit(s[i])
  }

  function MatchSingle(spec: string): Option<Groups> {
    var i := IndexOf(spec, '-');
    if i < |spec| && DigitsOrEmpty(spec[..i]) && DigitsOrEmpty(spec[i + 1..]) then
      Some(Groups(spec[..i], spec[i + 1..]))
    else None
  }

  /** `_decide_range` */
  function DecideRange(header: Option<string>, total: nat): Decision {
    if header.None? || Strip(header.value) == "" then Full
    else
      var text := Strip(header.value);
      var i := IndexOf(text, '=');
      if i == |text| || Lower(Strip(text[..i])) != "bytes" then Unsatisfiable
      else if IndexOf(text[i + 1..], ',') < |text[i + 1..]| then Full
      else DecideSpec(Strip(text[i + 1..]), total)
  }

  function DecideSpec(spec: string, total: nat): Decision {
    match MatchSingle(spec)
    case None => Unsatisfiable
    case Some(g) =>
      if g.first == "" && g.last == "" then Unsatisfiable
      else if g.first == "" then
        var suffix := Decimal.Value(g.last);
        if suffix == 0 || total == 0 then Unsatisfiable
        else Partial(if suffix < total then total - suffix else 0, total - 1)
      else
        var start := Decimal.Value(g.first);
        if start >= total then Unsatisfiable
        else
          var end := if g.last == "" || total - 1 <= Decimal.Value(g.last) then total - 1 else Decimal.Value(g.last);
          if end < start then Unsatisfiable else Partial(start, end)
  }

  // ---------------------------------------------------------------- the response

  datatype Reply = Reply(status: int, contentRange: Option<string>, contentLength: Option<nat>, body: seq<byte>)

  /** `_etag_value`: weak marker and quotes stripped. */
  function EtagValue(validator: string): string {
    var v := Strip(validator);
    var w := if |v| >= 2 && Lower(v[..2]) == "w/" then Strip(v[2..]) else v;
    if |w| >= 2 && w[0] == '"' && w[|w| - 1] == '"' then w[1..|w| - 1] else w
  }

  /** `s.split(",")` */
  function SplitCommas(s: string): seq<string>
    decreases |s|
  {
    var i := IndexOf(s, ',');
    if i == |s| then [s] else [s[..i]] + SplitCommas(s[i + 1..])
  }

  predicate EtagMatches(ifNoneMatch: Option<string>, sha256: string) {
    && ifNoneMatch.Some?
    && exists c :: c in SplitCommas(ifNoneMatch.value) && (Strip(c) == "*" || EtagValue(Strip(c)) == sha256)
  }

  predicate IfRangeMatches(ifRange: Option<string>, sha256: string) {
    ifRange.Some? ==> EtagValue(ifRange.value) == sha256
  }

  datatype Request = Request(head: bool, range: Option<string>, ifRange: Option<string>, ifNoneMatch: Option<string>)

  /** `artifact_content` once the file has been found: status, headers and body. */
  function Respond(file: seq<byte>, sha256: string, request: Request): Reply {
    if EtagMatches(request.ifNoneMatch, sha256) then Reply(304, None, None, [])
    else
      var effective := if request.range.Some? && !IfRangeMatches(request.ifRange, sha256) then None else request.range;
      Answer(file, request.head, DecideRange(effective, |file|))
  }

  function RangeText(start: nat, end: nat, total: nat): string {
    "bytes " + Decimal.Show(start) + "-" + Decimal.Show(end) + "/" + Decimal.Show(total)
  }

  function Answer(file: seq<byte>, head: bool, decision: Decision): Reply {
    var total := |file|;
    match decision
    case Unsatisfiable => Reply(416, Some("bytes */" + Decimal.Show(total)), Some(0), [])
    case Full => Reply(200, None, Some(total), if head then [] else SliceOf(file, 0, total))
    case Partial(start, end) =>
      var length := if end + 1 >= start then end - start + 1 else 0;
      Reply(206, Some(RangeText(start, end, total)), Some(length), if head then [] else SliceOf(file, start, length))
  }

  /** A position, or the end of the file when it lies behind. */
  function Within(file: seq<byte>, position: nat): (r: nat)
    ensures r <= |file| && r <= position
  {
    if position < |file| then position else |file|
  }

  /** The bytes from `start` on, at most `length` of them. */
  function SliceOf(file: seq<byte>, start: nat, length: nat): seq<byte> {
    file[Within(file, start)..Within(file, start + length)]
  }

  const ARTIFACT_CHUNK_BYTES: nat := 1024 * 1024

  /** Chunks that are neither empty nor longer than the chunk size. */
  predicate Bounded(chunks: seq<seq<byte>>) {
    forall i :: 0 <= i < |chunks| ==> 0 < |chunks[i]| <= ARTIFACT_CHUNK_BYTES
  }

  /** `_iter_file_slice`: the chunks it yields, in order. */
  method IterFileSlice(file: seq<byte>, start: nat, length: nat) returns (chunks: seq<seq<byte>>)
    ensures Flatten(chunks) == SliceOf(file, start, length)
    ensures Bounded(chunks)
  {
    chunks := [];
    var remaining := length;
    var position := start;
    ghost var whole := SliceOf(file, start, length);
    NothingRead(whole);
    while remaining > 0
      invariant 0 <= remaining && 0 <= position
      invariant Remains(chunks, SliceOf(file, position, remaining), whole)
      decreases remaining
    {
      var wanted := if ARTIFACT_CHUNK_BYTES <= remaining then ARTIFACT_CHUNK_BYTES else remaining;
      var chunk := SliceOf(file, position, wanted);
      if chunk == [] {
        LastChunk(file, position, wanted, remaining, chunks, whole);
        return;
      }
      var left, next := remaining - |chunk|, position + |chunk|;
      NextChunk(file, position, wanted, remaining, chunks, chunk, next, left, whole);
      chunks := chunks + [chunk];
      remaining := left;
      position := next;
    }
    NothingRemains(chunks, whole);
  }

  lemma NothingRead(whole: seq<byte>)
    ensures Remains([], whole, whole)
  {
    assert [] + whole == whole;
  }

  lemma NothingRemains(chunks: seq<seq<byte>>, whole: seq<byte>)
    requires Remains(chunks, [], whole)
    ensures Flatten(chunks) == whole && Bounded(chunks)
  {
  }

  /** The chunks so far are well-sized and lack exactly `rest` of `whole`. */
  predicate Remains(chunks: seq<seq<byte>>, rest: seq<byte>, whole: seq<byte>) {
    Flatten(chunks) + rest == whole && Bounded(chunks)
  }

  lemma NextChunk(file: seq<byte>, position: nat, wanted: nat, remaining: nat,
                  chunks: seq<seq<byte>>, chunk: seq<byte>, next: int, left: int, whole: seq<byte>)
    requires Remains(chunks, SliceOf(file, position, remaining), whole)
    requires 0 < wanted <= remaining && wanted <= ARTIFACT_CHUNK_BYTES
    requires chunk == SliceOf(file, position, wanted) != []
    requires next == position + |chunk| && left == remaining - |chunk|
    ensures 0 <= left && Remains(chunks + [chunk], SliceOf(file, next, left), whole)
  {
    SliceSplits(file, position, wanted, remaining);
    ChunkSnoc(chunks, chunk, SliceOf(file, next, left), whole);
  }

  lemma LastChunk(file: seq<byte>, position: nat, wanted: nat, remaining: nat, chunks: seq<seq<byte>>, whole: seq<byte>)
    requires Remains(chunks, SliceOf(file, position, remaining), whole)
    requires 0 < wanted <= remaining && SliceOf(file, position, wanted) == []
    ensures Flatten(chunks) == whole && Bounded(chunks)
  {
    SliceSplits(file, position, wanted, remaining);
    NothingRemains(chunks, whole);
  }

  lemma ChunkSnoc(chunks: seq<seq<byte>>, chunk: seq<byte>, rest: seq<byte>, whole: seq<byte>)
    requires Remains(chunks, chunk + rest, whole) && 0 < |chunk| <= ARTIFACT_CHUNK_BYTES
    ensures Remains(chunks + [chunk], rest, whole)
  {
    FlattenSnoc(chunks, chunk);
    Regroup(Flatten(chunks), chunk, rest);
  }

  /** What is left of a slice after its first read; an empty read means that nothing was left. */
  lemma SliceSplits(file: seq<byte>, position: nat, wanted: nat, remaining: nat)
    requires 0 < wanted <= remaining
    ensures var chunk := SliceOf(file, position, wanted);
            && |chunk| <= wanted
            && SliceOf(file, position, remaining) ==
               if chunk == [] then [] else chunk + SliceOf(file, position + |chunk|, remaining - |chunk|)
  {
    if position < |file| {
      SlicesMeet(file, position, Within(file, position + wanted), Within(file, position + remaining));
    }
  }

  lemma SlicesMeet(file: seq<byte>, a: nat, b: nat, c: nat)
    requires a <= b <= c <= |file|
    ensures file[a..b] + file[b..c] == file[a..c]
  {
  }

  // ---------------------------------------------------------------- decisions are sound

  /** A partial decision always lies inside the representation. */
  lemma PartialIsInside(header: Option<string>, total: nat)
    requires DecideRange(header, total).Partial?
    ensures DecideRange(header, total).start <= DecideRange(header, total).end < total
  {
  }

  /**
   The body of a reply is as long as Content-Length says: the whole file with status 200,
   the slice that Content-Range names with status 206, nothing with 304 and 416.
   */
  lemma BodyMatchesHeaders(file: seq<byte>, sha256: string, request: Request)
    requires !request.head
    ensures BodyFits(file, Respond(file, sha256, request))
  {
    if !EtagMatches(request.ifNoneMatch, sha256) {
      var effective := if request.range.Some? && !IfRangeMatches(request.ifRange, sha256) then None else request.range;
      if DecideRange(effective, |file|).Partial? { PartialIsInside(effective, |file|); }
      AnswerFits(file, DecideRange(effective, |file|));
    }
  }

  ghost predicate BodyFits(file: seq<byte>, r: Reply) {
    if r.status == 200 then r.body == file && r.contentLength == Some(|file|) && r.contentRange == None
    else if r.status == 206 then r.contentLength == Some(|r.body|) && exists start, end :: IsSlice(file, r, start, end)
    else r == Reply(304, None, None, []) || r == Reply(416, Some("bytes */" + Decimal.Show(|file|)), Some(0), [])
  }

  predicate IsSlice(file: seq<byte>, r: Reply, start: nat, end: nat) {
    && start <= end < |file| && r.body == file[start..end + 1]
    && r.contentRange == Some(RangeText(start, end, |file|))
  }

  lemma AnswerFits(file: seq<byte>, decision: Decision)
    requires decision.Partial? ==> decision.start <= decision.end < |file|
    ensures BodyFits(file, Answer(file, false, decision))
  {
    if decision.Partial? {
      assert SliceOf(file, decision.start, decision.end - decision.start + 1) == file[decision.start..decision.end + 1];
      assert IsSlice(file, Answer(file, false, decision), decision.start, decision.end);
    }
    assert SliceOf(file, 0, |file|) == file;
  }

  /** A HEAD is answered as a GET, without the body. */
  lemma HeadIsGetWithoutBody(file: seq<byte>, sha256: string, request: Request)
    ensures Respond(file, sha256, request.(head := true))
         == Respond(file, sha256, request.(head := false)).(body := [])
  {
    if !EtagMatches(request.ifNoneMatch, sha256) {
      var effective := if request.range.Some? && !IfRangeMatches(request.ifRange, sha256) then None else request.range;
      HeadAnswer(file, DecideRange(effective, |file|));
    }
  }

  lemma HeadAnswer(file: seq<byte>, decision: Decision)
    ensures Answer(file, true, decision) == Answer(file, false, decision).(body := [])
  {
  }

  /** Without a Range, or with a blank one, a copy that is not current is replaced by the whole file. */
  lemma NoRangeIsFull(file: seq<byte>, sha256: string, request: Request)
    requires !request.head && !EtagMatches(request.ifNoneMatch, sha256)
    requires request.range.Some? ==> Blank(request.range.value)
    ensures Respond(file, sha256, request) == Reply(200, None, Some(|file|), file)
  {
    if request.range.Some? { StripBlank(request.range.value); }
    assert SliceOf(file, 0, |file|) == file;
  }

  // ---------------------------------------------------------------- headers a client prints

  /** The digest comes back out of the ETag the server prints, and out of its weak form. */
  lemma EtagRoundTrip(sha256: string)
    ensures EtagValue("\"" + sha256 + "\"") == sha256
    ensures EtagValue("W/" + ("\"" + sha256 + "\"")) == sha256
  {
    var quoted := "\"" + sha256 + "\"";
    var weak := "W/" + quoted;
    StripSolid(quoted);
    assert quoted[1..|quoted| - 1] == sha256;
    assert Lower(quoted[..2])[0] == '"';
    assert weak[0] == 'W' && weak[|weak| - 1] == '"';
    StripSolid(weak);
    assert weak[..2] == "W/" && weak[2..] == quoted;
    assert Lower("W/") == "w/";
  }

  lemma {:induction false} SplitJoined(parts: seq<string>)
    requires parts != []
    requires forall i, k :: 0 <= i < |parts| && 0 <= k < |parts[i]| ==> parts[i][k] != ','
    ensures SplitCommas(Join(",", parts)) == parts
  {
    if |parts| == 1 {
      IndexOfMissing(parts[0], ',');
    } else {
      var rest := Join(",", parts[1..]);
      var s := parts[0] + [','] + rest;
      IndexOfAfter(parts[0], ',', rest);
      assert s[..|parts[0]|] == parts[0] && s[|parts[0]| + 1..] == rest;
      SplitJoined(parts[1..]);
    }
  }

  /** The ETag of a file with that digest, strong or weak, with or without blanks around it. */
  predicate IsEtagOf(part: string, digest: string) {
    Strip(part) == "\"" + digest + "\"" || Strip(part) == "W/" + ("\"" + digest + "\"")
  }

  lemma ValueOfEtag(part: string, digest: string)
    requires IsEtagOf(part, digest)
    ensures EtagValue(part) == digest && EtagValue(Strip(part)) == digest && Strip(part) != "*"
  {
    EtagRoundTrip(digest);
    EtagIsSolid(Strip(part), digest);
    ValueOfStripped(part);
  }

  lemma EtagIsSolid(etag: string, digest: string)
    requires etag == "\"" + digest + "\"" || etag == "W/" + ("\"" + digest + "\"")
    ensures Strip(etag) == etag && etag != "*"
  {
    assert etag[|etag| - 1] == '"';
    StripSolid(etag);
  }

  lemma ValueOfStripped(part: string)
    requires Strip(Strip(part)) == Strip(part)
    ensures EtagValue(part) == EtagValue(Strip(part))
  {
  }

  /**
   If-None-Match holds a list of ETags: the client's copy is current exactly when the digest of
   the file is among theirs. If-Range holds a single one.
   */
  lemma ValidatorsDecide(parts: seq<string>, digests: seq<string>, sha256: string)
    requires |parts| == |digests| > 0
    requires forall i, k :: 0 <= i < |parts| && 0 <= k < |parts[i]| ==> parts[i][k] != ','
    requires forall i :: 0 <= i < |parts| ==> IsEtagOf(parts[i], digests[i])
    ensures EtagMatches(Some(Join(",", parts)), sha256) <==> sha256 in digests
    ensures IfRangeMatches(Some(parts[0]), sha256) <==> sha256 == digests[0]
  {
    SplitJoined(parts);
    forall i | 0 <= i < |parts| ensures EtagValue(Strip(parts[i])) == digests[i] && Strip(parts[i]) != "*" {
      ValueOfEtag(parts[i], digests[i]);
    }
    if sha256 in digests {
      var i :| 0 <= i < |digests| && digests[i] == sha256;
      assert parts[i] in parts;
    }
    ValueOfEtag(parts[0], digests[0]);
  }

  /** A client that sends back the ETag it got is answered 304, or has its range honoured. */
  lemma OwnEtagIsRecognised(file: seq<byte>, sha256: string, range: Option<string>)
    requires forall i :: 0 <= i < |sha256| ==> sha256[i] != ','
    ensures var etag := Some("\"" + sha256 + "\"");
            && Respond(file, sha256, Request(false, range, None, etag)) == Reply(304, None, None, [])
            && Respond(file, sha256, Request(false, range, etag, None))
               == Respond(file, sha256, Request(false, range, None, None))
  {
    var quoted := "\"" + sha256 + "\"";
    StripSolid(quoted);
    ValidatorsDecide([quoted], [sha256], sha256);
  }

  /** A star stands for any file. */
  lemma StarMatches(sha256: string)
    ensures EtagMatches(Some("*"), sha256)
  {
    IndexOfMissing("*", ',');
    StripSolid("*");
    assert "*" in SplitCommas("*");
  }

  /**
   The ETag of another file counts for nothing: with it in If-None-Match the request is answered
   as without that header, with it in If-Range as without a Range.
   */
  lemma StaleEtagIsIgnored(file: seq<byte>, sha256: string, other: string, etag: string, request: Request)
    requires IsEtagOf(etag, other) && other != sha256 && forall k :: 0 <= k < |etag| ==> etag[k] != ','
    ensures Respond(file, sha256, request.(ifNoneMatch := Some(etag)))
         == Respond(file, sha256, request.(ifNoneMatch := None))
    ensures Respond(file, sha256, request.(ifRange := Some(etag)))
         == Respond(file, sha256, request.(range := None))
  {
    ValidatorsDecide([etag], [other], sha256);
  }

  /** A list of ranges is answered with the whole representation. */
  lemma ListOfRangesIsFull(first: string, others: string, total: nat)
    ensures DecideRange(Some("bytes=" + (first + "," + others)), total) == Full
  {
    var header := "bytes=" + (first + "," + others);
    var comma := 6 + |first|;
    assert header[0] == 'b' && header[comma] == ',';
    RStripKeeps(header, comma);
    var text := Strip(header);
    assert text == RStrip(header) && |text| > comma;
    assert text == "bytes" + "=" + text[6..] by { assert text[..6] == header[..6] == "bytes="; }
    SeveralRanges(header, text[6..], |first|, total);
  }

  lemma SeveralRanges(header: string, spec: string, comma: nat, total: nat)
    requires Strip(header) == "bytes" + "=" + spec && comma < |spec| && spec[comma] == ','
    ensures DecideRange(Some(header), total) == Full
  {
    var text := "bytes" + ['='] + spec;
    IndexOfAfter("bytes", '=', spec);
    assert text[..5] == "bytes" && text[6..] == spec;
    StripSolid("bytes");
    assert Lower("bytes") == "bytes";
    IndexOfPresent(spec, ',', comma);
  }

  /** Stripping on the right keeps everything up to a character that is no blank. */
  lemma {:induction false} RStripKeeps(s: string, i: nat)
    requires i < |s| && !IsSpace(s[i])
    ensures i < |RStrip(s)| <= |s| && RStrip(s) == s[..|RStrip(s)|]
    decreases |s|
  {
    if IsSpace(s[|s| - 1]) {
      RStripKeeps(s[..|s| - 1], i);
    }
  }

  /** A header of the form `bytes=first-last` reaches the pattern with its two digit groups. */
  lemma PrintedSpec(first: string, last: string, total: nat)
    requires DigitsOrEmpty(first) && DigitsOrEmpty(last)
    ensures DecideRange(Some("bytes=" + (first + "-" + last)), total) == DecideSpec(first + "-" + last, total)
    ensures MatchSingle(first + "-" + last) == Some(Groups(first, last))
  {
    var spec := first + "-" + last;
    var header := "bytes=" + spec;
    SpecIsSolid(first, last);
    assert header[0] == 'b' && header[|header| - 1] == spec[|spec| - 1];
    StripSolid(header);
    StripSolid(spec);
    StripSolid("bytes");
    assert Lower("bytes") == "bytes";
    assert header == "bytes" + "=" + spec;
    SingleRange(header, "bytes", spec, total);
    MatchPrinted(first, last);
  }

  lemma MatchPrinted(first: string, last: string)
    requires DigitsOrEmpty(first) && DigitsOrEmpty(last)
    ensures MatchSingle(first + "-" + last) == Some(Groups(first, last))
  {
    var spec := first + ['-'] + last;
    IndexOfAfter(first, '-', last);
    assert spec[..|first|] == first && spec[|first| + 1..] == last;
  }

  /** Digits, a dash, and digits, where one side may be empty. */
  predicate IsSpec(spec: string) {
    |spec| > 1 && exists i :: 0 <= i < |spec| && DashAt(spec, i)
  }

  predicate DashAt(spec: string, i: nat) {
    i < |spec| && spec[i] == '-' && DigitsOrEmpty(spec[..i]) && DigitsOrEmpty(spec[i + 1..])
  }

  /** A single range of any other form is refused. */
  lemma MalformedIsRefused(header: string, spec: string, total: nat)
    requires Strip(header) == "bytes=" + spec && !IsSpec(Strip(spec))
    requires forall i :: 0 <= i < |spec| ==> spec[i] != ','
    ensures DecideRange(Some(header), total) == Unsatisfiable
  {
    assert "bytes=" + spec == "bytes" + "=" + spec;
    StripSolid("bytes");
    assert Lower("bytes") == "bytes";
    SingleRange(header, "bytes", spec, total);
    DecidedIsSpec(Strip(spec), total);
  }

  lemma DecidedIsSpec(spec: string, total: nat)
    ensures DecideSpec(spec, total) != Unsatisfiable ==> IsSpec(spec)
  {
    var i := IndexOf(spec, '-');
    if MatchSingle(spec).Some? { assert DashAt(spec, i); }
  }

  /** The unit may be written in capitals, and blanks around it and around the range do not matter. */
  lemma UnitIsCaseless(header: string, unit: string, spec: string, first: string, last: string, total: nat)
    requires Strip(header) == unit + "=" + spec && Strip(unit) in ["bytes", "Bytes", "BYTES"]
    requires forall i :: 0 <= i < |unit| ==> unit[i] != '='
    requires Strip(spec) == first + "-" + last && DigitsOrEmpty(first) && DigitsOrEmpty(last)
    requires forall i :: 0 <= i < |spec| ==> spec[i] != ','
    ensures DecideRange(Some(header), total) == DecideRange(Some("bytes=" + (first + "-" + last)), total)
  {
    assert Lower("bytes") == Lower("Bytes") == Lower("BYTES") == "bytes";
    SingleRange(header, unit, spec, total);
    PrintedSpec(first, last, total);
  }

  /** One range in bytes is decided by its text alone. */
  lemma SingleRange(header: string, unit: string, spec: string, total: nat)
    requires Strip(header) == unit + "=" + spec && Lower(Strip(unit)) == "bytes"
    requires forall i :: 0 <= i < |unit| ==> unit[i] != '='
    requires forall i :: 0 <= i < |spec| ==> spec[i] != ','
    ensures DecideRange(Some(header), total) == DecideSpec(Strip(spec), total)
  {
    var text := unit + ['='] + spec;
    IndexOfAfter(unit, '=', spec);
    assert text[..|unit|] == unit && text[|unit| + 1..] == spec;
    IndexOfMissing(spec, ',');
  }

  predicate IsSolid(spec: string) {
    spec != "" && !IsSpace(spec[0]) && !IsSpace(spec[|spec| - 1]) && forall i :: 0 <= i < |spec| ==> spec[i] != ','
  }

  lemma SpecIsSolid(first: string, last: string)
    requires DigitsOrEmpty(first) && DigitsOrEmpty(last)
    ensures IsSolid(first + "-" + last)
  {
    var spec := first + "-" + last;
    forall i | 0 <= i < |spec| ensures spec[i] != ',' && !IsSpace(spec[i]) {
      assert spec[i] == if i < |first| then first[i] else if i == |first| then '-' else last[i - |first| - 1];
    }
  }

  function WindowHeader(a: nat, b: nat): string {
    "bytes=" + (Decimal.Show(a) + "-" + Decimal.Show(b))
  }

  /** The bytes a..b of a file, as far as it has them. */
  function Clipped(a: nat, b: nat, total: nat): Decision {
    if a >= total || b < a then Unsatisfiable else Partial(a, if b < total then b else total - 1)
  }

  /** `bytes=a-b`: satisfiable exactly when a lies inside and a <= b; the end is clipped to the file. */
  lemma WindowDecision(a: nat, b: nat, total: nat)
    ensures DecideRange(Some(WindowHeader(a, b)), total) == Clipped(a, b, total)
  {
    Decimal.ShowValue(a);
    Decimal.ShowValue(b);
    PrintedSpec(Decimal.Show(a), Decimal.Show(b), total);
  }

  /** `bytes=a-`: from a to the end. */
  lemma OpenEndedDecision(a: nat, total: nat)
    ensures DecideRange(Some("bytes=" + (Decimal.Show(a) + "-" + "")), total) ==
            if a >= total then Unsatisfiable else Partial(a, total - 1)
  {
    Decimal.ShowValue(a);
    PrintedSpec(Decimal.Show(a), "", total);
  }

  /** `bytes=-n`: the last n bytes, or all when there are fewer. */
  lemma SuffixDecision(n: nat, total: nat)
    ensures DecideRange(Some("bytes=" + ("" + "-" + Decimal.Show(n))), total) ==
            if n == 0 || total == 0 then Unsatisfiable else Partial(if n < total then total - n else 0, total - 1)
  {
    Decimal.ShowValue(n);
    PrintedSpec("", Decimal.Show(n), total);
  }

  predicate UnknownUnit(header: string) {
    var text := Strip(header);
    text != "" && Lower(Strip(text[..IndexOf(text, '=')])) != "bytes"
  }

  /**
   Section 14.2 of RFC 9110 has an unknown range unit ignored. This server does so exactly
   where it does not get as far as the unit, because the client's copy is current or its
   If-Range is stale; otherwise it answers 416.
   */
  lemma UnknownUnitIsRefused(file: seq<byte>, sha256: string, request: Request)
    requires request.range.Some? && UnknownUnit(request.range.value)
    ensures Respond(file, sha256, request) == Respond(file, sha256, request.(range := None)) <==>
            EtagMatches(request.ifNoneMatch, sha256) || !IfRangeMatches(request.ifRange, sha256)
    ensures Respond(file, sha256, request) != Respond(file, sha256, request.(range := None)) ==>
            Respond(file, sha256, request).status == 416
  {
    UnknownIsUnsatisfiable(request.range.value, |file|);
    assert Respond(file, sha256, request.(range := None)).status != 416;
  }

  lemma UnknownIsUnsatisfiable(header: string, total: nat)
    requires UnknownUnit(header)
    ensures DecideRange(Some(header), total) == Unsatisfiable
  {
  }

  // ---------------------------------------------------------------- resuming a download

  /** The server as a client sees it: a Range header in, a reply out. */
  function Server(file: seq<byte>, sha256: string): string -> Reply {
    header => Respond(file, sha256, Request(false, Some(header), None, None))
  }

  function Ask(server: string -> Reply, offset: nat, size: nat): Reply
    requires size > 0
  {
    server(WindowHeader(offset, offset + size - 1))
  }

  ghost predicate ServesWindows(server: string -> Reply, file: seq<byte>) {
    forall offset: nat, size: nat :: offset <= |file| && size > 0 ==>
      IsWindow(file, offset, size, Ask(server, offset, size))
  }

  /**
   A client that has `offset` bytes and asks for windows(k) more on request number k, until
   a window is refused: all the bytes it is sent from then on.
   */
  function Download(server: string -> Reply, file: seq<byte>, windows: nat -> nat, offset: nat, k: nat): seq<byte>
    requires ServesWindows(server, file) && (forall i :: windows(i) > 0)
    requires offset <= |file|
    decreases |file| - offset
  {
    var reply := Ask(server, offset, windows(k));
    assert IsWindow(file, offset, windows(k), reply);
    if reply.status != 206 then []
    else reply.body + Download(server, file, windows, offset + |reply.body|, k + 1)
  }

  /** The next bytes from `offset` on, at most `size` of them, or 416 when there are none left. */
  predicate IsWindow(file: seq<byte>, offset: nat, size: nat, reply: Reply) {
    if offset >= |file| then reply == Reply(416, Some("bytes */" + Decimal.Show(|file|)), Some(0), [])
    else reply.status == 206 && 0 < |reply.body| <= size && offset + |reply.body| <= |file|
         && reply.body == file[offset..offset + |reply.body|]
  }

  lemma ReplyToWindow(file: seq<byte>, sha256: string, header: string, offset: nat, size: nat, last: nat)
    requires offset <= |file| && size > 0 && last + 1 == offset + size
    requires DecideRange(Some(header), |file|) == Clipped(offset, last, |file|)
    ensures IsWindow(file, offset, size, Server(file, sha256)(header))
  {
    RangeReply(file, sha256, header);
    AnsweredWindow(file, offset, size, last, Server(file, sha256)(header));
  }

  lemma AnsweredWindow(file: seq<byte>, offset: nat, size: nat, last: nat, reply: Reply)
    requires offset <= |file| && size > 0 && last + 1 == offset + size
    requires Answers(file, Clipped(offset, last, |file|), reply)
    ensures IsWindow(file, offset, size, reply)
  {
    if offset < |file| { ClippedWindow(file, offset, size, reply.body); }
  }

  lemma AskedWindow(server: string -> Reply, file: seq<byte>, offset: nat, size: nat, last: nat)
    requires size > 0 && last + 1 == offset + size
    requires IsWindow(file, offset, size, server(WindowHeader(offset, last)))
    ensures IsWindow(file, offset, size, Ask(server, offset, size))
  {
    assert offset + size - 1 == last;
  }

  lemma ClippedWindow(file: seq<byte>, offset: nat, size: nat, body: seq<byte>)
    requires offset < |file| && size > 0
    requires body == file[offset..(if offset + size - 1 < |file| then offset + size - 1 else |file| - 1) + 1]
    ensures 0 < |body| <= size && offset + |body| <= |file| && body == file[offset..offset + |body|]
  {
  }

  /** The reply that a decision leads to. */
  predicate Answers(file: seq<byte>, decision: Decision, reply: Reply) {
    match decision
    case Unsatisfiable => reply == Reply(416, Some("bytes */" + Decimal.Show(|file|)), Some(0), [])
    case Full => reply.status == 200
    case Partial(start, end) => start <= end < |file| && reply.status == 206 && reply.body == file[start..end + 1]
  }

  lemma AnswerByDecision(file: seq<byte>, decision: Decision)
    requires decision.Partial? ==> decision.start <= decision.end < |file|
    ensures Answers(file, decision, Answer(file, false, decision))
  {
  }

  /** The reply to a GET with nothing but a Range header, by its decision. */
  lemma RangeReply(file: seq<byte>, sha256: string, header: string)
    ensures Answers(file, DecideRange(Some(header), |file|), Server(file, sha256)(header))
  {
    if DecideRange(Some(header), |file|).Partial? { PartialIsInside(Some(header), |file|); }
    RespondPlain(file, sha256, header);
    AnswerByDecision(file, DecideRange(Some(header), |file|));
  }

  lemma RespondPlain(file: seq<byte>, sha256: string, header: string)
    ensures Server(file, sha256)(header) == Answer(file, false, DecideRange(Some(header), |file|))
  {
  }

  lemma {:induction false} DownloadFrom(server: string -> Reply, file: seq<byte>, windows: nat -> nat, offset: nat,
                                        k: nat)
    requires ServesWindows(server, file) && (forall i :: windows(i) > 0)
    requires offset <= |file|
    ensures Download(server, file, windows, offset, k) == file[offset..]
    decreases |file| - offset
  {
    var reply := Ask(server, offset, windows(k));
    assert IsWindow(file, offset, windows(k), reply);
    if offset < |file| {
      var n := |reply.body|;
      DownloadFrom(server, file, windows, offset + n, k + 1);
      assert file[offset..] == file[offset..offset + n] + file[offset + n..];
    }
  }

  lemma ServerServesWindows(file: seq<byte>, sha256: string)
    ensures ServesWindows(Server(file, sha256), file)
  {
    forall offset: nat, size: nat | offset <= |file| && size > 0
      ensures IsWindow(file, offset, size, Ask(Server(file, sha256), offset, size))
    {
      WindowReply(file, sha256, offset, size);
    }
  }

  lemma WindowReply(file: seq<byte>, sha256: string, offset: nat, size: nat)
    requires offset <= |file| && size > 0
    ensures IsWindow(file, offset, size, Ask(Server(file, sha256), offset, size))
  {
    var last: nat := offset + size - 1;
    WindowDecision(offset, last, |file|);
    ReplyToWindow(file, sha256, WindowHeader(offset, last), offset, size, last);
    AskedWindow(Server(file, sha256), file, offset, size, last);
  }

  /**
   Resumable download: windows of any positive sizes, requested one after another, deliver
   the whole file byte for byte, and the request at offset `total` is answered 416.
   */
  lemma ResumableDownload(file: seq<byte>, sha256: string, windows: nat -> nat, k: nat)
    requires forall i :: windows(i) > 0
    ensures ServesWindows(Server(file, sha256), file)
    ensures Download(Server(file, sha256), file, windows, 0, 0) == file
    ensures Ask(Server(file, sha256), |file|, windows(k)).status == 416
  {
    ServerServesWindows(file, sha256);
    DownloadFrom(Server(file, sha256), file, windows, 0, 0);
    assert file[0..] == file;
    assert IsWindow(file, |file|, windows(k), Ask(Server(file, sha256), |file|, windows(k)));
  }
}
