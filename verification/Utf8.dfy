/**
 UTF-8 as section 4 of RFC 3629 defines it, with the incremental decoder of CPython:
 a decoder keeps the bytes of an unfinished sequence and fails as soon as a sequence
 can no longer be completed.
 */
module Utf8 {
  import opened Wrappers
  import PyText

  type byte = b: int | 0 <= b < 256

  predicate IsTail(b: byte) {
    0x80 <= b < 0xC0
  }

  /** How many bytes a sequence with this first byte has; 0 for a byte that starts none. */
  function SequenceLength(b: byte): nat {
    if b < 0x80 then 1
    else if b < 0xC2 then 0
    else if b < 0xE0 then 2
    else if b < 0xF0 then 3
    else if b < 0xF5 then 4
    else 0
  }

  /** The bits a byte carries above its marker. */
  function Above(b: byte, marker: int): int {
    b - marker
  }

  /** Whether `b` may follow the lead byte `lead`: excludes overlong forms, surrogates and values past 10FFFF. */
  predicate SecondByteOk(lead: byte, b: byte) {
    && IsTail(b)
    && (lead == 0xE0 ==> 0xA0 <= b)
    && (lead == 0xED ==> b < 0xA0)
    && (lead == 0xF0 ==> 0x90 <= b)
    && (lead == 0xF4 ==> b < 0x90)
  }

  datatype Step = Complete(c: char, width: nat) | Incomplete | Invalid

  /** The decoder's verdict on the first sequence of a non-empty input. */
  function FirstSequence(b: seq<byte>): (r: Step)
    requires b != []
    ensures r.Complete? ==> 1 <= r.width <= |b| && r.width == SequenceLength(b[0])
    ensures r.Complete? && r.width > 1 ==> r.c as int >= 0x80
    ensures r.Incomplete? ==> |b| < SequenceLength(b[0])
  {
    var n := SequenceLength(b[0]);
    if n == 0 then Invalid
    else if n == 1 then Complete(b[0] as char, 1)
    else if |b| == 1 then Incomplete
    else if !SecondByteOk(b[0], b[1]) then Invalid
    else if n == 2 then Complete((Above(b[0], 0xC0) * 64 + Above(b[1], 0x80)) as char, 2)
    else if |b| == 2 then Incomplete
    else if !IsTail(b[2]) then Invalid
    else if n == 3 then
      Complete((Above(b[0], 0xE0) * 4096 + Above(b[1], 0x80) * 64 + Above(b[2], 0x80)) as char, 3)
    else if |b| == 3 then Incomplete
    else if !IsTail(b[3]) then Invalid
    else
      Complete((Above(b[0], 0xF0) * 262144 + Above(b[1], 0x80) * 4096
                + Above(b[2], 0x80) * 64 + Above(b[3], 0x80)) as char, 4)
  }

  /** What an incremental decode yields: the text so far and the bytes it holds back. */
  datatype Decoded = Decoded(text: string, rest: seq<byte>)

  /** `codecs.utf_8_decode(b, "strict", final=False)`; None is UnicodeDecodeError. */
  function Decode(b: seq<byte>): Option<Decoded>
    decreases |b|
  {
    if b == [] then Some(Decoded("", []))
    else
      match FirstSequence(b)
      case Invalid => None
      case Incomplete => Some(Decoded("", b))
      case Complete(c, width) =>
        match Decode(b[width..])
        case None => None
        case Some(d) => Some(Decoded([c] + d.text, d.rest))
  }

  function EncodeChar(c: char): (r: seq<byte>)
    ensures r != []
  {
    var n := c as int;
    if n < 0x80 then [n]
    else if n < 0x800 then [0xC0 + n / 64, 0x80 + n % 64]
    else if n < 0x10000 then [0xE0 + n / 4096, 0x80 + n / 64 % 64, 0x80 + n % 64]
    else [0xF0 + n / 262144, 0x80 + n / 4096 % 64, 0x80 + n / 64 % 64, 0x80 + n % 64]
  }

  /** `text.encode()` */
  function Encode(text: string): seq<byte> {
    if text == "" then [] else EncodeChar(text[0]) + Encode(text[1..])
  }

  // ---------------------------------------------------------------- decoding in pieces

  lemma FirstSequenceStable(b: seq<byte>, more: seq<byte>)
    requires b != []
    requires !FirstSequence(b).Incomplete?
    ensures FirstSequence(b + more) == FirstSequence(b)
  {
    var s := b + more;
    assert s[0] == b[0];
    assert |b| > 1 ==> s[1] == b[1];
    assert |b| > 2 ==> s[2] == b[2];
    assert |b| > 3 ==> s[3] == b[3];
  }

  /** The outcome of decoding on after `text` has already come out. */
  function After(text: string, next: Option<Decoded>): Option<Decoded> {
    match next
    case None => None
    case Some(d) => Some(Decoded(text + d.text, d.rest))
  }

  lemma DecodeComplete(b: seq<byte>)
    requires b != [] && FirstSequence(b).Complete?
    ensures Decode(b) == After([FirstSequence(b).c], Decode(b[FirstSequence(b).width..]))
  {
  }

  /** Decoding can stop anywhere and go on from the bytes it held back. */
  lemma {:induction false} DecodeAppend(x: seq<byte>, y: seq<byte>)
    ensures Decode(x + y) ==
            match Decode(x) case None => None case Some(d) => After(d.text, Decode(d.rest + y))
    decreases |x|
  {
    if x == [] {
      assert x + y == y;
      AfterNothing(Decode(y));
    } else {
      var step := FirstSequence(x);
      if step.Invalid? {
        FirstSequenceStable(x, y);
      } else if step.Incomplete? {
        AfterNothing(Decode(x + y));
      } else {
        DecodeAppendComplete(x, y);
      }
    }
  }

  lemma AfterNothing(next: Option<Decoded>)
    ensures After("", next) == next
  {
    if next.Some? { assert "" + next.value.text == next.value.text; }
  }

  lemma {:induction false} DecodeAppendComplete(x: seq<byte>, y: seq<byte>)
    requires x != [] && FirstSequence(x).Complete?
    ensures Decode(x + y) ==
            match Decode(x) case None => None case Some(d) => After(d.text, Decode(d.rest + y))
    decreases |x|, 0
  {
    var step := FirstSequence(x);
    var tail := x[step.width..];
    FirstSequenceStable(x, y);
    assert (x + y)[step.width..] == tail + y;
    DecodeComplete(x);
    DecodeComplete(x + y);
    DecodeAppend(tail, y);
    if Decode(tail).Some? {
      AfterAfter([step.c], Decode(tail).value.text, Decode(Decode(tail).value.rest + y));
    }
  }

  lemma AfterAfter(a: string, b: string, next: Option<Decoded>)
    ensures After(a, After(b, next)) == After(a + b, next)
  {
    if next.Some? { assert a + (b + next.value.text) == (a + b) + next.value.text; }
  }

  // ---------------------------------------------------------------- encode, then decode

  lemma EncodeCharDecodes(c: char)
    ensures FirstSequence(EncodeChar(c)) == Complete(c, |EncodeChar(c)|)
  {
    var n := c as int;
    if n < 0x80 {
    } else if n < 0x800 {
      TwoBytes(c);
    } else if n < 0x10000 {
      ThreeBytes(c);
    } else {
      FourBytes(c);
    }
  }

  lemma TwoBytes(c: char)
    requires 0x80 <= c as int < 0x800
    ensures FirstSequence(EncodeChar(c)) == Complete(c, 2)
  {
    var n := c as int;
    assert n == n / 64 * 64 + n % 64;
  }

  lemma ThreeBytes(c: char)
    requires 0x800 <= c as int < 0x10000
    ensures FirstSequence(EncodeChar(c)) == Complete(c, 3)
  {
    var n := c as int;
    assert n == n / 4096 * 4096 + n / 64 % 64 * 64 + n % 64;
  }

  lemma FourBytes(c: char)
    requires 0x10000 <= c as int
    ensures FirstSequence(EncodeChar(c)) == Complete(c, 4)
  {
    var n := c as int;
    assert n == n / 262144 * 262144 + n / 4096 % 64 * 4096 + n / 64 % 64 * 64 + n % 64;
  }

  lemma DecodeFirst(head: seq<byte>, tail: seq<byte>, c: char)
    requires head != [] && FirstSequence(head) == Complete(c, |head|)
    ensures Decode(head + tail) ==
            After([c], Decode(tail))
  {
    FirstSequenceStable(head, tail);
    assert (head + tail)[|head|..] == tail;
  }

  /** Every text survives `encode` followed by an incremental decode, with nothing held back. */
  lemma {:induction false} EncodeDecode(text: string)
    ensures Decode(Encode(text)) == Some(Decoded(text, []))
  {
    if text != "" {
      EncodeDecode(text[1..]);
      EncodeCharDecodes(text[0]);
      DecodeFirst(EncodeChar(text[0]), Encode(text[1..]), text[0]);
      assert Decode(Encode(text)) == After([text[0]], Some(Decoded(text[1..], [])));
      assert [text[0]] + text[1..] == text;
    }
  }

  lemma {:induction false} EncodeAppend(a: string, b: string)
    ensures Encode(a + b) == Encode(a) + Encode(b)
  {
    if a == "" {
      assert a + b == b;
    } else {
      assert (a + b)[1..] == a[1..] + b;
      EncodeAppend(a[1..], b);
    }
  }

  // ---------------------------------------------------------------- what decodes at all

  /** A beginning, but not the whole, of the encoding of some character; or nothing. */
  ghost predicate Unfinished(rest: seq<byte>) {
    rest == [] || exists c: char :: Begins(rest, c)
  }

  predicate Begins(rest: seq<byte>, c: char) {
    rest <= EncodeChar(c) && rest != EncodeChar(c)
  }

  lemma Digits64(high: int, low: int)
    requires 0 <= low < 64
    ensures (high * 64 + low) / 64 == high && (high * 64 + low) % 64 == low
  {
  }

  lemma Quotients64(n: nat)
    ensures n / 4096 == n / 64 / 64 && n / 262144 == n / 64 / 64 / 64
  {
  }

  lemma EncodesTwo(c: char, x: int, y: int)
    requires 0 <= x < 32 && 0 <= y < 64 && c as int == x * 64 + y >= 0x80
    ensures EncodeChar(c) == [0xC0 + x, 0x80 + y]
  {
    Digits64(x, y);
  }

  lemma EncodesThree(c: char, x: int, y: int, z: int)
    requires 0 <= x < 16 && 0 <= y < 64 && 0 <= z < 64 && c as int == (x * 64 + y) * 64 + z >= 0x800
    ensures EncodeChar(c) == [0xE0 + x, 0x80 + y, 0x80 + z]
  {
    Quotients64(c as int);
    Digits64(x * 64 + y, z);
    Digits64(x, y);
  }

  lemma EncodesFour(c: char, w: int, x: int, y: int, z: int)
    requires 0 <= w < 8 && 0 <= x < 64 && 0 <= y < 64 && 0 <= z < 64
    requires c as int == ((w * 64 + x) * 64 + y) * 64 + z >= 0x10000
    ensures EncodeChar(c) == [0xF0 + w, 0x80 + x, 0x80 + y, 0x80 + z]
  {
    Quotients64(c as int);
    Digits64((w * 64 + x) * 64 + y, z);
    Digits64(w * 64 + x, y);
    Digits64(w, x);
  }

  lemma CompleteEncodes(b: seq<byte>)
    requires b != [] && FirstSequence(b).Complete?
    ensures EncodeChar(FirstSequence(b).c) == b[..FirstSequence(b).width]
  {
    var n, c := SequenceLength(b[0]), FirstSequence(b).c;
    if n == 2 {
      EncodesTwo(c, b[0] as int - 0xC0, b[1] as int - 0x80);
    } else if n == 3 {
      EncodesThree(c, b[0] as int - 0xE0, b[1] as int - 0x80, b[2] as int - 0x80);
    } else if n == 4 {
      EncodesFour(c, b[0] as int - 0xF0, b[1] as int - 0x80, b[2] as int - 0x80, b[3] as int - 0x80);
    }
  }

  /** Bytes that complete a sequence with this first byte, from the second on. */
  function Completion(lead: byte): seq<byte> {
    [if lead == 0xE0 then 0xA0 else if lead == 0xF0 then 0x90 else 0x80, 0x80, 0x80]
  }

  lemma IncompleteBegins(b: seq<byte>)
    requires b != [] && FirstSequence(b).Incomplete?
    ensures Unfinished(b)
  {
    var n := SequenceLength(b[0]);
    var whole := b + Completion(b[0])[|b| - 1..n - 1];
    assert |whole| == n && FirstSequence(whole).Complete?;
    CompleteEncodes(whole);
    assert whole[..n] == whole;
    assert Begins(b, FirstSequence(whole).c);
  }

  lemma BeginsIsIncomplete(rest: seq<byte>, c: char)
    requires rest != [] && Begins(rest, c)
    ensures FirstSequence(rest).Incomplete?
  {
    var whole := EncodeChar(c);
    EncodeCharDecodes(c);
    assert whole == rest + whole[|rest|..];
    if !FirstSequence(rest).Incomplete? {
      FirstSequenceStable(rest, whole[|rest|..]);
    }
  }

  /**
   Exactly which bytes decode, and to what: the encoding of the text and the beginning of one
   more character, which is held back. So no overlong form, surrogate or value past 10FFFF gets
   through, and nothing is refused that more bytes could still complete.
   */
  lemma DecodeIff(b: seq<byte>, text: string, rest: seq<byte>)
    ensures Decode(b) == Some(Decoded(text, rest)) <==> b == Encode(text) + rest && Unfinished(rest)
  {
    if Decode(b) == Some(Decoded(text, rest)) { DecodedIsEncoded(b); }
    if b == Encode(text) + rest && Unfinished(rest) {
      DecodeAppend(Encode(text), rest);
      EncodeDecode(text);
      assert [] + rest == rest;
      if rest != [] {
        var c: char :| Begins(rest, c);
        BeginsIsIncomplete(rest, c);
      }
      assert text + "" == text;
    }
  }

  lemma {:induction false} DecodedIsEncoded(b: seq<byte>)
    requires Decode(b).Some?
    ensures b == Encode(Decode(b).value.text) + Decode(b).value.rest && Unfinished(Decode(b).value.rest)
    decreases |b|
  {
    if b != [] {
      var step := FirstSequence(b);
      if step.Incomplete? {
        IncompleteBegins(b);
        assert [] + b == b;
      } else {
        var tail := b[step.width..];
        DecodedIsEncoded(tail);
        DecodedStep(b, tail, Decode(tail).value);
      }
    }
  }

  lemma DecodedStep(b: seq<byte>, tail: seq<byte>, d: Decoded)
    requires b != [] && FirstSequence(b).Complete? && tail == b[FirstSequence(b).width..]
    requires Decode(tail) == Some(d) && tail == Encode(d.text) + d.rest
    ensures Decode(b).Some? && Decode(b).value.rest == d.rest && b == Encode(Decode(b).value.text) + d.rest
  {
    var step := FirstSequence(b);
    CompleteEncodes(b);
    DecodeComplete(b);
    PyText.TakeDrop(b, step.width);
    EncodedCons(step.c, b[..step.width], tail, d);
  }

  lemma EncodedCons(c: char, head: seq<byte>, tail: seq<byte>, d: Decoded)
    requires EncodeChar(c) == head && tail == Encode(d.text) + d.rest
    ensures head + tail == Encode([c] + d.text) + d.rest
  {
    assert ([c] + d.text)[1..] == d.text;
  }

  /** An ASCII character can only have come from the byte with its own value. */
  lemma AsciiFirst(b: seq<byte>)
    requires Decode(b).Some? && Decode(b).value.text != ""
    requires Decode(b).value.text[0] as int < 0x80
    ensures b != [] && b[0] == Decode(b).value.text[0] as int
    ensures Decode(b[1..]) == Some(Decoded(Decode(b).value.text[1..], Decode(b).value.rest))
  {
    var step := FirstSequence(b);
    assert step.Complete?;
    var d := Decode(b[step.width..]).value;
    assert ([step.c] + d.text)[1..] == d.text;
  }
}
