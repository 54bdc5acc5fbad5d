/**
 The paging cursors of backend/app/providers/catalog.py: an offset printed as compact JSON,
 in the URL-safe alphabet of section 5 of RFC 4648, without padding. Decoding goes through
 CPython's lenient base64 reader, which skips foreign characters.
 */
module Cursor {
  import opened Wrappers
  import opened PyText
  import opened Utf8
  import Decimal

  // ---------------------------------------------------------------- base64

  type sextet = v: int | 0 <= v < 64

  function Letter(v: sextet): char {
    if v < 26 then ('A' as int + v) as char
    else if v < 52 then ('a' as int + (v - 26)) as char
    else if v < 62 then ('0' as int + (v - 52)) as char
    else if v == 62 then '-'
    else '_'
  }

  /** The decoding table after the URL-safe translation, under which '+' and '/' still decode. */
  function Sextet(b: byte): Option<sextet> {
    if 'A' as int <= b <= 'Z' as int then Some(b - 'A' as int)
    else if 'a' as int <= b <= 'z' as int then Some(b - 'a' as int + 26)
    else if '0' as int <= b <= '9' as int then Some(b - '0' as int + 52)
    else if b == '-' as int || b == '+' as int then Some(62)
    else if b == '_' as int || b == '/' as int then Some(63)
    else None
  }

  /** `base64.urlsafe_b64encode(b).decode()` */
  function B64Encode(b: seq<byte>): string {
    if b == [] then ""
    else if |b| == 1 then [Letter(b[0] / 4), Letter(b[0] % 4 * 16), '=', '=']
    else if |b| == 2 then [Letter(b[0] / 4), Letter(b[0] % 4 * 16 + b[1] / 16), Letter(b[1] % 16 * 4), '=']
    else
      [Letter(b[0] / 4), Letter(b[0] % 4 * 16 + b[1] / 16), Letter(b[1] % 16 * 4 + b[2] / 64), Letter(b[2] % 64)]
      + B64Encode(b[3..])
  }

  function Prepend(b: byte, rest: Option<seq<byte>>): Option<seq<byte>> {
    if rest.None? then None else Some([b] + rest.value)
  }

  /**
   `binascii.a2b_base64` in its lenient mode: `quad` characters of the current group have
   been read, `left` holds the bits carried over, `pads` counts padding; None is an error.
   */
  function A2b(s: seq<byte>, quad: nat, left: nat, pads: nat): Option<seq<byte>>
    requires quad < 4 && (quad == 1 ==> left < 64) && (quad == 2 ==> left < 16) && (quad == 3 ==> left < 4)
    decreases |s|
  {
    if s == [] then if quad == 0 then Some([]) else None
    else if s[0] == '=' as int then
      if quad >= 2 && quad + pads + 1 >= 4 then Some([])
      else A2b(s[1..], quad, left, if quad >= 2 then pads + 1 else pads)
    else
      match Sextet(s[0])
      case None => A2b(s[1..], quad, left, pads)
      case Some(v) =>
        if quad == 0 then A2b(s[1..], 1, v, 0)
        else if quad == 1 then Prepend(left * 4 + v / 16, A2b(s[1..], 2, v % 16, 0))
        else if quad == 2 then Prepend(left * 16 + v / 4, A2b(s[1..], 3, v % 4, 0))
        else Prepend(left * 64 + v, A2b(s[1..], 0, 0, 0))
  }

  /** `s.rstrip("=")` */
  function RStripEq(s: string): string {
    if s != "" && s[|s| - 1] == '=' then RStripEq(s[..|s| - 1]) else s
  }

  function Equals(n: nat): (r: string)
    ensures |r| == n && forall i :: 0 <= i < n ==> r[i] == '='
  {
    if n == 0 then "" else "=" + Equals(n - 1)
  }

  /** `cursor + "=" * (-len(cursor) % 4)` */
  function Repad(cursor: string): string {
    cursor + Equals(PadCount(|cursor|))
  }

  /** `-n % 4`, which Python rounds down */
  function PadCount(n: nat): nat {
    (4 - n % 4) % 4
  }

  /** `base64.urlsafe_b64decode(padded.encode())` */
  function B64Decode(padded: string): Option<seq<byte>> {
    A2b(Encode(padded), 0, 0, 0)
  }

  // ---------------------------------------------------------------- the cursor

  /** As much of a JSON value as the decoder looks at; JSON true and false are not integers. */
  datatype Json = JInt(n: int) | JObject(fields: map<string, Json>) | JOther

  /** `json.dumps({"offset": n}, separators=(",", ":"))` */
  function OffsetText(n: nat): string {
    "{\"offset\":" + Decimal.Show(n) + "}"
  }

  const PREFIX := "{\"offset\":"

  /** A compact object with the one field "offset" and a canonical natural number. */
  predicate IsOffsetText(text: string) {
    && |PREFIX| + 2 <= |text| && PREFIX <= text && text[|text| - 1] == '}'
    && var digits := text[|PREFIX|..|text| - 1];
       Decimal.AllDigits(digits) && (|digits| > 1 ==> digits[0] != '0')
  }

  /** `json.loads`: concrete on the texts the encoder writes, `loads` on every other text. */
  function Loads(loads: string -> Option<Json>, text: string): Option<Json> {
    if IsOffsetText(text) then Some(JObject(map["offset" := JInt(Decimal.Value(text[|PREFIX|..|text| - 1]))]))
    else loads(text)
  }

  function EncodeCursor(offset: nat): string {
    RStripEq(B64Encode(Encode(OffsetText(offset))))
  }

  /** None is ValueError("CURSOR_INVALID"). */
  function DecodeCursor(loads: string -> Option<Json>, cursor: string): Option<nat> {
    match B64Decode(Repad(cursor))
    case None => None
    case Some(bytes) =>
      match Decode(bytes)
      case None => None
      case Some(d) =>
        if d.rest != [] then None
        else
          match Loads(loads, d.text)
          case None => None
          case Some(payload) =>
            if payload.JObject? && "offset" in payload.fields then
              var offset := payload.fields["offset"];
              if offset.JInt? && offset.n >= 0 then Some(offset.n) else None
            else None
  }

  // ---------------------------------------------------------------- round trip

  lemma LetterSextet(v: sextet)
    ensures Letter(v) as int < 0x80 && Letter(v) != '='
    ensures Sextet(Letter(v) as int) == Some(v)
    ensures EncodeChar(Letter(v)) == [Letter(v) as int]
  {
  }

  /** One letter, read by the decoder. */
  lemma ReadLetter(v: sextet, rest: string, quad: nat, left: nat, pads: nat)
    requires quad < 4 && (quad == 1 ==> left < 64) && (quad == 2 ==> left < 16) && (quad == 3 ==> left < 4)
    ensures A2b(Encode([Letter(v)] + rest), quad, left, pads) ==
            if quad == 0 then A2b(Encode(rest), 1, v, 0)
            else if quad == 1 then Prepend(left * 4 + v / 16, A2b(Encode(rest), 2, v % 16, 0))
            else if quad == 2 then Prepend(left * 16 + v / 4, A2b(Encode(rest), 3, v % 4, 0))
            else Prepend(left * 64 + v, A2b(Encode(rest), 0, 0, 0))
  {
    LetterSextet(v);
    var s := [Letter(v)] + rest;
    assert s[0] == Letter(v) && s[1..] == rest;
    assert Encode(s) == [Letter(v) as int] + Encode(rest);
    assert Encode(s)[1..] == Encode(rest);
  }

  lemma ReadFirstPair(a: sextet, b: sextet, rest: string)
    ensures A2b(Encode([Letter(a)] + ([Letter(b)] + rest)), 0, 0, 0) ==
            Prepend(a * 4 + b / 16, A2b(Encode(rest), 2, b % 16, 0))
  {
    ReadLetter(a, [Letter(b)] + rest, 0, 0, 0);
    ReadLetter(b, rest, 1, a, 0);
  }

  lemma ReadSecondPair(c: sextet, d: sextet, left: nat, rest: string)
    requires left < 16
    ensures A2b(Encode([Letter(c)] + ([Letter(d)] + rest)), 2, left, 0) ==
            Prepend(left * 16 + c / 4, Prepend(c % 4 * 64 + d, A2b(Encode(rest), 0, 0, 0)))
  {
    ReadLetter(c, [Letter(d)] + rest, 2, left, 0);
    ReadLetter(d, rest, 3, c % 4, 0);
  }

  function Quad(a: sextet, b: sextet, c: sextet, d: sextet): string {
    [Letter(a), Letter(b), Letter(c), Letter(d)]
  }

  lemma QuadSplits(a: sextet, b: sextet, c: sextet, d: sextet, rest: string)
    ensures Quad(a, b, c, d) + rest == [Letter(a)] + ([Letter(b)] + ([Letter(c)] + ([Letter(d)] + rest)))
  {
  }

  lemma ReadQuad(a: sextet, b: sextet, c: sextet, d: sextet, rest: string)
    ensures A2b(Encode(Quad(a, b, c, d) + rest), 0, 0, 0) ==
            Prepend(a * 4 + b / 16, Prepend(b % 16 * 16 + c / 4, Prepend(c % 4 * 64 + d, A2b(Encode(rest), 0, 0, 0))))
  {
    QuadSplits(a, b, c, d, rest);
    ReadFirstPair(a, b, [Letter(c)] + ([Letter(d)] + rest));
    ReadSecondPair(c, d, b % 16, rest);
  }

  lemma EncodeEquals(rest: string)
    ensures Encode("=" + rest) == ['=' as int] + Encode(rest)
  {
    assert ("=" + rest)[1..] == rest;
  }

  /** The sextets of up to three bytes put the bytes back together. */
  lemma Bits(x: byte, y: byte, z: byte)
    ensures x / 4 * 4 + (x % 4 * 16 + y / 16) / 16 == x && (x % 4 * 16 + y / 16) % 16 == y / 16
    ensures y / 16 * 16 + (y % 16 * 4 + z / 64) / 4 == y && (y % 16 * 4 + z / 64) % 4 == z / 64
    ensures z / 64 * 64 + z % 64 == z
    ensures (x % 4 * 16) / 16 == x % 4 && (x % 4 * 16) % 16 == 0
    ensures (y % 16 * 4) / 4 == y % 16 && (y % 16 * 4) % 4 == 0
  {
  }

  lemma ReadTail1(x: byte)
    ensures A2b(Encode(B64Encode([x])), 0, 0, 0) == Some([x])
  {
    var a, b: sextet := x / 4, x % 4 * 16;
    Bits(x, 0, 0);
    EncodeEquals("=");
    assert "=" + "=" == "==";
    var r := [Letter(b)] + "==";
    assert B64Encode([x]) == [Letter(a)] + r;
    ReadLetter(a, r, 0, 0, 0);
    ReadLetter(b, "==", 1, a, 0);
    EncodeEquals("");
    assert "=" + "" == "=";
    assert Encode("==")[1..] == Encode("=");
    assert A2b(Encode("="), 2, 0, 1) == Some([]);
    assert A2b(Encode("=="), 2, 0, 0) == Some([]);
    assert [x] + [] == [x];
  }

  lemma ReadTail2(x: byte, y: byte)
    ensures A2b(Encode(B64Encode([x, y])), 0, 0, 0) == Some([x, y])
  {
    var a, b, c: sextet := x / 4, x % 4 * 16 + y / 16, y % 16 * 4;
    Bits(x, y, 0);
    assert B64Encode([x, y]) == [Letter(a)] + ([Letter(b)] + ([Letter(c)] + "="));
    ReadFirstPair(a, b, [Letter(c)] + "=");
    ReadLetter(c, "=", 2, b % 16, 0);
    OnePad();
    assert [y] + [] == [y] && [x] + [y] == [x, y];
  }

  lemma OnePad()
    ensures A2b(Encode("="), 3, 0, 0) == Some([])
  {
    EncodeEquals("");
    assert "=" + "" == "=";
  }

  lemma ReadThree(x: byte, y: byte, z: byte, tail: string, rest: seq<byte>)
    requires B64Decode(tail) == Some(rest)
    ensures B64Decode(ThreeBytes(x, y, z) + tail) == Some([x, y, z] + rest)
  {
    Bits(x, y, z);
    ReadBytes(x / 4, x % 4 * 16 + y / 16, y % 16 * 4 + z / 64, z % 64, x, y, z, tail, rest);
  }

  lemma ReadBytes(a: sextet, b: sextet, c: sextet, d: sextet, x: byte, y: byte, z: byte, tail: string, rest: seq<byte>)
    requires a * 4 + b / 16 == x && b % 16 * 16 + c / 4 == y && c % 4 * 64 + d == z
    requires B64Decode(tail) == Some(rest)
    ensures B64Decode(Quad(a, b, c, d) + tail) == Some([x, y, z] + rest)
  {
    ReadQuad(a, b, c, d, tail);
    assert [x] + ([y] + ([z] + rest)) == [x, y, z] + rest;
  }

  function ThreeBytes(x: byte, y: byte, z: byte): string {
    Quad(x / 4, x % 4 * 16 + y / 16, y % 16 * 4 + z / 64, z % 64)
  }

  lemma EncodeThree(b: seq<byte>)
    requires |b| >= 3
    ensures B64Encode(b) == ThreeBytes(b[0], b[1], b[2]) + B64Encode(b[3..])
  {
  }

  /** The lenient decoder gives back every byte string it is handed in padded form. */
  lemma {:induction false} EncodeDecode64(b: seq<byte>)
    ensures B64Decode(B64Encode(b)) == Some(b)
  {
    if b == [] {
    } else if |b| == 1 {
      assert b == [b[0]];
      ReadTail1(b[0]);
    } else if |b| == 2 {
      assert b == [b[0], b[1]];
      ReadTail2(b[0], b[1]);
    } else {
      EncodeDecode64(b[3..]);
      EncodeThree(b);
      ReadThree(b[0], b[1], b[2], B64Encode(b[3..]), b[3..]);
      assert [b[0], b[1], b[2]] + b[3..] == b;
    }
  }

  /** Dropping one or two final padding characters, then re-padding, of a text in groups of four. */
  lemma RepadLast(body: string, pads: nat)
    requires pads <= 2 && PadCount(|body|) == pads
    requires body != "" && body[|body| - 1] != '='
    ensures RStripEq(body + Equals(pads)) == body
    ensures Repad(body) == body + Equals(pads)
  {
    if pads > 0 {
      StripOne(body, Equals(pads - 1));
      if pads > 1 { StripOne(body, Equals(pads - 2)); }
    }
    assert body + Equals(0) == body;
  }

  lemma StripOne(s: string, equals: string)
    requires forall i :: 0 <= i < |equals| ==> equals[i] == '='
    ensures RStripEq(s + ("=" + equals)) == RStripEq(s + equals)
  {
    var t := s + ("=" + equals);
    assert t[|t| - 1] == '=';
    assert t[..|t| - 1] == s + equals;
  }

  lemma PadCountGroup(n: nat)
    ensures PadCount(4 + n) == PadCount(n)
  {
  }

  /**
   The padding that `rstrip("=")` drops is exactly what re-padding by -len mod 4 restores.
   */
  lemma {:induction false} RepadStripped(b: seq<byte>)
    ensures Repad(RStripEq(B64Encode(b))) == B64Encode(b)
    ensures b != [] ==> RStripEq(B64Encode(b)) != ""
  {
    if b == [] {
      assert "" + Equals(0) == "";
    } else if |b| == 1 {
      RepadOne(b[0]);
      assert b == [b[0]];
    } else if |b| == 2 {
      RepadTwo(b[0], b[1]);
      assert b == [b[0], b[1]];
    } else {
      RepadStripped(b[3..]);
      RepadThree(b);
    }
  }

  lemma RepadOne(x: byte)
    ensures Repad(RStripEq(B64Encode([x]))) == B64Encode([x]) && RStripEq(B64Encode([x])) != ""
  {
    var body := [Letter(x / 4), Letter(x % 4 * 16)];
    LetterSextet(x % 4 * 16);
    RepadLast(body, 2);
    assert Equals(1) == "=" && Equals(2) == "==";
    assert B64Encode([x]) == body + "==";
  }

  lemma RepadTwo(x: byte, y: byte)
    ensures Repad(RStripEq(B64Encode([x, y]))) == B64Encode([x, y]) && RStripEq(B64Encode([x, y])) != ""
  {
    var body := [Letter(x / 4), Letter(x % 4 * 16 + y / 16), Letter(y % 16 * 4)];
    LetterSextet(y % 16 * 4);
    RepadLast(body, 1);
    assert Equals(1) == "=";
    assert B64Encode([x, y]) == body + "=";
  }

  lemma RepadThree(b: seq<byte>)
    requires |b| >= 3
    requires Repad(RStripEq(B64Encode(b[3..]))) == B64Encode(b[3..])
    ensures Repad(RStripEq(B64Encode(b))) == B64Encode(b) && RStripEq(B64Encode(b)) != ""
  {
    var group := ThreeBytes(b[0], b[1], b[2]);
    LetterSextet(b[2] % 64);
    RepadBehindGroup(group, B64Encode(b[3..]));
    StripBehindLetter(group, B64Encode(b[3..]));
  }

  lemma RepadBehindGroup(head: string, tail: string)
    requires |head| == 4 && head[3] != '=' && Repad(RStripEq(tail)) == tail
    ensures Repad(RStripEq(head + tail)) == head + tail
  {
    StripBehindLetter(head, tail);
    var rest := RStripEq(tail);
    PadCountGroup(|rest|);
    Regroup(head, rest, Equals(PadCount(|rest|)));
  }

  lemma {:induction false} StripBehindLetter(head: string, tail: string)
    requires head != "" && head[|head| - 1] != '='
    ensures RStripEq(head + tail) == head + RStripEq(tail)
    decreases |tail|
  {
    if tail == "" {
      assert head + tail == head;
    } else if tail[|tail| - 1] == '=' {
      var s := head + tail;
      assert s[..|s| - 1] == head + tail[..|tail| - 1];
      StripBehindLetter(head, tail[..|tail| - 1]);
    }
  }

  lemma OffsetTextLoads(loads: string -> Option<Json>, n: nat)
    ensures Loads(loads, OffsetText(n)) == Some(JObject(map["offset" := JInt(n)]))
  {
    var text := OffsetText(n);
    Decimal.ShowValue(n);
    assert text[..|PREFIX|] == PREFIX;
    assert text[|PREFIX|..|text| - 1] == Decimal.Show(n);
  }

  /** Cursor round trip: decoding the cursor of any offset gives that offset. */
  lemma CursorRoundTrip(loads: string -> Option<Json>, n: nat)
    ensures DecodeCursor(loads, EncodeCursor(n)) == Some(n)
    ensures EncodeCursor(n) != ""
  {
    var bytes := Encode(OffsetText(n));
    RepadStripped(bytes);
    EncodeDecode64(bytes);
    EncodeDecode(OffsetText(n));
    OffsetTextLoads(loads, n);
    assert bytes != [];
  }

  // ---------------------------------------------------------------- refusals and notation

  /** Any text in the notation of cursors. */
  function CursorOf(text: string): string {
    RStripEq(B64Encode(Encode(text)))
  }

  /**
   What other texts decode to, in cursor notation: an offset exactly when they are JSON objects
   whose "offset" is a natural number; any other value, a missing or negative offset, one that
   is no integer, and text that is no JSON are refused.
   */
  lemma ForeignCursorIff(loads: string -> Option<Json>, text: string, n: nat)
    requires !IsOffsetText(text)
    ensures DecodeCursor(loads, CursorOf(text)) == Some(n) <==>
            && loads(text).Some? && loads(text).value.JObject?
            && "offset" in loads(text).value.fields && loads(text).value.fields["offset"] == JInt(n)
  {
    var bytes := Encode(text);
    RepadStripped(bytes);
    EncodeDecode64(bytes);
    EncodeDecode(text);
  }

  /** Bytes that are no UTF-8 text are refused. */
  lemma BadBytesAreRefused(loads: string -> Option<Json>, bytes: seq<byte>)
    requires Decode(bytes).None? || Decode(bytes).value.rest != []
    ensures DecodeCursor(loads, RStripEq(B64Encode(bytes))) == None
  {
    RepadStripped(bytes);
    EncodeDecode64(bytes);
  }

  /** A single letter holds no byte, and is refused. */
  lemma OneLetterIsRefused(loads: string -> Option<Json>, v: sextet)
    ensures DecodeCursor(loads, [Letter(v)]) == None
  {
    var cursor := [Letter(v)];
    assert Equals(1) == "=" && Equals(2) == "==" && Equals(3) == "===";
    assert Repad(cursor) == cursor + "===";
    ReadLetter(v, "===", 0, 0, 0);
    NoLetterBehind(v);
  }

  lemma NoLetterBehind(v: sextet)
    ensures A2b(Encode("==="), 1, v, 0) == None
  {
    EncodeEquals("==");
    EncodeEquals("=");
    EncodeEquals("");
    assert "=" + "==" == "===" && "=" + "=" == "==" && "=" + "" == "=";
    assert Encode("===")[1..] == Encode("==") && Encode("==")[1..] == Encode("=") && Encode("=")[1..] == Encode("");
    assert A2b(Encode(""), 1, v, 0) == None;
    assert A2b(Encode("="), 1, v, 0) == None;
    assert A2b(Encode("=="), 1, v, 0) == None;
  }

  /** A character outside the alphabet is skipped, wherever it stands. */
  lemma ForeignIsSkipped(before: string, c: char, after: string)
    requires c as int < 0x80 && c != '=' && Sextet(c as int).None?
    ensures B64Decode(before + [c] + after) == B64Decode(before + after)
  {
    EncodeAppend(before + [c], after);
    EncodeAppend(before, [c]);
    EncodeAppend(before, after);
    assert Encode([c]) == [c as int];
    SkipByte(Encode(before), c as int, Encode(after), 0, 0, 0);
  }

  lemma {:induction false} SkipByte(x: seq<byte>, b: byte, y: seq<byte>, quad: nat, left: nat, pads: nat)
    requires quad < 4 && (quad == 1 ==> left < 64) && (quad == 2 ==> left < 16) && (quad == 3 ==> left < 4)
    requires b != '=' as int && Sextet(b).None?
    ensures A2b(x + [b] + y, quad, left, pads) == A2b(x + y, quad, left, pads)
    decreases |x|
  {
    if x == [] {
      assert x + y == y && (x + [b] + y)[0] == b && (x + [b] + y)[1..] == y;
    } else {
      assert (x + [b] + y)[0] == (x + y)[0] == x[0];
      assert (x + [b] + y)[1..] == x[1..] + [b] + y && (x + y)[1..] == x[1..] + y;
      var v := Sextet(x[0]);
      if x[0] == '=' as int {
        SkipByte(x[1..], b, y, quad, left, if quad >= 2 then pads + 1 else pads);
      } else if v.None? {
        SkipByte(x[1..], b, y, quad, left, pads);
      } else if quad == 0 {
        SkipByte(x[1..], b, y, 1, v.value, 0);
      } else if quad == 1 {
        SkipByte(x[1..], b, y, 2, v.value % 16, 0);
      } else if quad == 2 {
        SkipByte(x[1..], b, y, 3, v.value % 4, 0);
      } else {
        SkipByte(x[1..], b, y, 0, 0, 0);
      }
    }
  }

  /** The notation itself, on the test vectors of section 10 of RFC 4648. */
  lemma TestVectors()
    ensures B64Encode(['f' as int]) == "Zg=="
    ensures B64Encode(['f' as int, 'o' as int]) == "Zm8="
    ensures B64Encode(['f' as int, 'o' as int, 'o' as int]) == "Zm9v"
    ensures Letter(62) == '-' && Letter(63) == '_'
    ensures OffsetText(25) == "{\"offset\":25}"
  {
    assert Decimal.Show(2) == "2" && Decimal.Show(25) == "25";
    assert B64Encode(['f' as int, 'o' as int, 'o' as int][3..]) == "";
  }
}
