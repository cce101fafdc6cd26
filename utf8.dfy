/**
 * UTF-8 as .NET's `UTF8Encoding` (the default encoding of `BinaryWriter` and
 * `BinaryReader`) uses it. The encoder writes each Unicode scalar value in
 * one to four bytes. The decoder accepts the well-formed byte sequences of
 * section 3.9 of the Unicode standard (Table 3-7) and replaces each maximal
 * ill-formed subpart by U+FFFD; a well-formed but unfinished sequence at the
 * end of the input produces nothing, as a decoder that is not flushed keeps
 * it for later. A string here is a sequence of scalar values.
 */
module Utf8 {
  type Byte = x: int | 0 <= x < 0x100

  /** U+FFFD, the replacement character. */
  const Replacement: char := '\U{FFFD}'

  /** The bytes of one scalar value. */
  function EncodeChar(c: char): (r: seq<Byte>)
    ensures 1 <= |r| <= 4
  {
    var v := c as int;
    if v < 0x80 then [v]
    else if v < 0x800 then [0xC0 + v / 0x40, 0x80 + v % 0x40]
    else if v < 0x1_0000 then [0xE0 + v / 0x1000, 0x80 + v / 0x40 % 0x40, 0x80 + v % 0x40]
    else [0xF0 + v / 0x4_0000, 0x80 + v / 0x1000 % 0x40, 0x80 + v / 0x40 % 0x40, 0x80 + v % 0x40]
  }

  /** `GetBytes`: the characters' bytes one after another. */
  function Encode(s: string): seq<Byte>
  {
    if s == [] then [] else EncodeChar(s[0]) + Encode(s[1..])
  }

  /** The length of the well-formed sequence a lead byte begins; 0 when it begins none. */
  function SequenceLength(lead: Byte): nat
  {
    if lead < 0x80 then 1
    else if 0xC2 <= lead < 0xE0 then 2
    else if 0xE0 <= lead < 0xF0 then 3
    else if 0xF0 <= lead < 0xF5 then 4
    else 0
  }

  /** Byte `i` of a sequence lies in the range Table 3-7 allows after the lead byte `b[0]`. */
  predicate Fits(b: seq<Byte>, i: nat)
    requires 1 <= i < |b|
  {
    if i == 1 then
      (if b[0] == 0xE0 then 0xA0 else if b[0] == 0xF0 then 0x90 else 0x80) <= b[1]
      && b[1] <= (if b[0] == 0xED then 0x9F else if b[0] == 0xF4 then 0x8F else 0xBF)
    else 0x80 <= b[i] <= 0xBF
  }

  /** How many bytes from the front, the lead byte included, follow a well-formed sequence of `len` bytes. */
  function Matched(b: seq<Byte>, len: nat, i: nat): (m: nat)
    requires 1 <= i <= len && i <= |b|
    ensures i <= m <= len && m <= |b|
    ensures forall j :: i <= j < m ==> Fits(b, j)
    ensures m < len && m < |b| ==> !Fits(b, m)
    decreases len - i
  {
    if i == len || i == |b| || !Fits(b, i) then i else Matched(b, len, i + 1)
  }

  /** The scalar value a complete well-formed sequence of `len` bytes stands for. */
  function ScalarOf(b: seq<Byte>, len: nat): char
    requires 1 <= len <= 4 && len <= |b| && SequenceLength(b[0]) == len
    requires forall j :: 1 <= j < len ==> Fits(b, j)
  {
    var b0 := b[0] as int;
    if len == 1 then b0 as char
    else if len == 2 then ((b0 - 0xC0) * 0x40 + (b[1] as int - 0x80)) as char
    else if len == 3 then
      assert Fits(b, 1) && Fits(b, 2);
      ((b0 - 0xE0) * 0x1000 + (b[1] as int - 0x80) * 0x40 + (b[2] as int - 0x80)) as char
    else
      assert Fits(b, 1) && Fits(b, 2) && Fits(b, 3);
      ((b0 - 0xF0) * 0x4_0000 + (b[1] as int - 0x80) * 0x1000 + (b[2] as int - 0x80) * 0x40 + (b[3] as int - 0x80)) as char
  }

  /** What the decoder makes of the front of its input. */
  datatype Step = Char(c: char, size: nat) | Invalid(size: nat) | Unfinished

  function DecodeStep(b: seq<Byte>): (r: Step)
    requires |b| > 0
    ensures r.Char? ==> 1 <= r.size <= |b|
    ensures r.Invalid? ==> 1 <= r.size <= |b|
  {
    var len := SequenceLength(b[0]);
    if len == 0 then Invalid(1)
    else
      var m := Matched(b, len, 1);
      if m == len then Char(ScalarOf(b, len), len)
      else if m == |b| then Unfinished
      else Invalid(m)
  }

  /** `GetChars` without flushing: each maximal ill-formed subpart becomes one U+FFFD. */
  function Decode(b: seq<Byte>): string
    decreases |b|
  {
    if b == [] then []
    else
      match DecodeStep(b)
      case Char(c, n) => [c] + Decode(b[n..])
      case Invalid(n) => [Replacement] + Decode(b[n..])
      case Unfinished => []
  }

  /** Every sequence in the input is well-formed and complete. */
  predicate WellFormed(b: seq<Byte>)
    decreases |b|
  {
    b == [] || (DecodeStep(b).Char? && WellFormed(b[DecodeStep(b).size..]))
  }

  /** The base-64 digits the encoder takes a value apart into. */
  lemma Digits64(v: int)
    requires 0 <= v
    ensures v == v / 0x40 * 0x40 + v % 0x40
    ensures v / 0x40 == v / 0x1000 * 0x40 + v / 0x40 % 0x40
    ensures v / 0x1000 == v / 0x4_0000 * 0x40 + v / 0x1000 % 0x40
  {
  }

  /** An encoded character decodes to itself, whatever follows it. */
  lemma DecodeStepOfEncoded(c: char, rest: seq<Byte>)
    ensures DecodeStep(EncodeChar(c) + rest) == Char(c, |EncodeChar(c)|)
  {
    var v := c as int;
    Digits64(v);
    if v < 0x80 {
    } else if v < 0x800 {
      DecodeTwo(c, rest);
    } else if v < 0x1_0000 {
      DecodeThree(c, rest);
    } else {
      DecodeFour(c, rest);
    }
  }

  lemma DecodeTwo(c: char, rest: seq<Byte>)
    requires 0x80 <= c as int < 0x800
    ensures DecodeStep(EncodeChar(c) + rest) == Char(c, 2)
  {
    var v := c as int;
    Digits64(v);
    var b := EncodeChar(c) + rest;
    assert b[0] == 0xC0 + v / 0x40 && b[1] == 0x80 + v % 0x40;
    assert Fits(b, 1);
    assert Matched(b, 2, 1) == 2;
  }

  lemma DecodeThree(c: char, rest: seq<Byte>)
    requires 0x800 <= c as int < 0x1_0000
    ensures DecodeStep(EncodeChar(c) + rest) == Char(c, 3)
  {
    var v := c as int;
    Digits64(v);
    var b := EncodeChar(c) + rest;
    assert b[0] == 0xE0 + v / 0x1000 && b[1] == 0x80 + v / 0x40 % 0x40 && b[2] == 0x80 + v % 0x40;
    assert Fits(b, 1) && Fits(b, 2);
    assert Matched(b, 3, 1) == 3;
  }

  lemma DecodeFour(c: char, rest: seq<Byte>)
    requires 0x1_0000 <= c as int
    ensures DecodeStep(EncodeChar(c) + rest) == Char(c, 4)
  {
    var v := c as int;
    Digits64(v);
    var b := EncodeChar(c) + rest;
    assert b[0] == 0xF0 + v / 0x4_0000 && b[1] == 0x80 + v / 0x1000 % 0x40;
    assert b[2] == 0x80 + v / 0x40 % 0x40 && b[3] == 0x80 + v % 0x40;
    assert Fits(b, 1) && Fits(b, 2) && Fits(b, 3);
    assert Matched(b, 4, 1) == 4;
  }

  /** A decoded character encodes back to the bytes it was read from. */
  lemma EncodeOfDecodeStep(b: seq<Byte>)
    requires |b| > 0 && DecodeStep(b).Char?
    ensures EncodeChar(DecodeStep(b).c) == b[..DecodeStep(b).size]
  {
    var len := SequenceLength(b[0]);
    assert Matched(b, len, 1) == len;
    if len == 2 {
      assert Fits(b, 1);
      EncodeTwo(b);
    } else if len == 3 {
      assert Fits(b, 1) && Fits(b, 2);
      EncodeThree(b);
    } else if len == 4 {
      assert Fits(b, 1) && Fits(b, 2) && Fits(b, 3);
      EncodeFour(b);
    }
  }

  lemma EncodeTwo(b: seq<Byte>)
    requires |b| >= 2 && SequenceLength(b[0]) == 2 && Fits(b, 1)
    ensures EncodeChar(ScalarOf(b, 2)) == b[..2]
  {
    var v := (b[0] as int - 0xC0) * 0x40 + (b[1] as int - 0x80);
    assert v / 0x40 == b[0] as int - 0xC0 && v % 0x40 == b[1] as int - 0x80;
  }

  lemma EncodeThree(b: seq<Byte>)
    requires |b| >= 3 && SequenceLength(b[0]) == 3 && Fits(b, 1) && Fits(b, 2)
    ensures EncodeChar(ScalarOf(b, 3)) == b[..3]
  {
    var v := (b[0] as int - 0xE0) * 0x1000 + (b[1] as int - 0x80) * 0x40 + (b[2] as int - 0x80);
    assert v / 0x40 == (b[0] as int - 0xE0) * 0x40 + (b[1] as int - 0x80);
    assert v / 0x1000 == b[0] as int - 0xE0;
  }

  lemma EncodeFour(b: seq<Byte>)
    requires |b| >= 4 && SequenceLength(b[0]) == 4 && Fits(b, 1) && Fits(b, 2) && Fits(b, 3)
    ensures EncodeChar(ScalarOf(b, 4)) == b[..4]
  {
    var v := (b[0] as int - 0xF0) * 0x4_0000 + (b[1] as int - 0x80) * 0x1000 + (b[2] as int - 0x80) * 0x40 + (b[3] as int - 0x80);
    assert v / 0x40 == (b[0] as int - 0xF0) * 0x1000 + (b[1] as int - 0x80) * 0x40 + (b[2] as int - 0x80);
    assert v / 0x1000 == (b[0] as int - 0xF0) * 0x40 + (b[1] as int - 0x80);
    assert v / 0x4_0000 == b[0] as int - 0xF0;
  }

  /** Decoding undoes encoding, and what the encoder writes is well-formed. */
  lemma {:induction false} DecodeEncode(s: string)
    ensures Decode(Encode(s)) == s
    ensures WellFormed(Encode(s))
  {
    if s != [] {
      var e := EncodeChar(s[0]);
      DecodeStepOfEncoded(s[0], Encode(s[1..]));
      DecodeEncode(s[1..]);
      assert (e + Encode(s[1..]))[|e|..] == Encode(s[1..]);
      assert [s[0]] + s[1..] == s;
    }
  }

  /** Encoding undoes decoding on well-formed input. */
  lemma EncodeDecode(b: seq<Byte>)
    requires WellFormed(b)
    ensures Encode(Decode(b)) == b
  {
    var s := EncodingOf(b);
    DecodeEncode(s);
  }

  /** A well-formed sequence is the encoding of some string. */
  lemma {:induction false} EncodingOf(b: seq<Byte>) returns (s: string)
    requires WellFormed(b)
    ensures Encode(s) == b
    decreases |b|
  {
    if b == [] {
      s := [];
    } else {
      var c, n := FrontSequence(b);
      var rest := EncodingOf(b[n..]);
      EncodeCons(c, rest);
      s := [c] + rest;
      assert b[..n] + b[n..] == b;
    }
  }

  /** The complete sequence at the front of well-formed input: its character and its length. */
  lemma FrontSequence(b: seq<Byte>) returns (c: char, n: nat)
    requires b != [] && WellFormed(b)
    ensures 1 <= n <= |b| && WellFormed(b[n..]) && EncodeChar(c) == b[..n]
  {
    c, n := DecodeStep(b).c, DecodeStep(b).size;
    EncodeOfDecodeStep(b);
  }

  /** Encoding one more character in front. */
  lemma EncodeCons(c: char, t: string)
    ensures Encode([c] + t) == EncodeChar(c) + Encode(t)
  {
    assert ([c] + t)[1..] == t;
  }

  /** The encoding of a concatenation is the concatenation of the encodings. */
  lemma {:induction false} EncodeAppend(s: string, t: string)
    ensures Encode(s + t) == Encode(s) + Encode(t)
  {
    if s != [] {
      assert (s + t)[1..] == s[1..] + t;
      EncodeAppend(s[1..], t);
    } else {
      assert s + t == t;
    }
  }

  /** A lone continuation byte and a truncated sequence in the middle become U+FFFD. */
  lemma ReplacementExamples()
    ensures Decode([0x80]) == [Replacement]
    ensures Decode([0xE2, 0x82, 0x41]) == [Replacement, 'A']
    ensures Decode([0xE2, 0x82]) == []
  {
    assert DecodeStep([0x80]) == Invalid(1);
    var b: seq<Byte> := [0xE2, 0x82, 0x41];
    assert Matched(b, 3, 1) == 2;
    assert DecodeStep(b) == Invalid(2);
    assert b[2..] == [0x41];
    assert DecodeStep([0x41]) == Char('A', 1);
    var u: seq<Byte> := [0x41];
    assert Decode(u[1..]) == [];
    var t: seq<Byte> := [0xE2, 0x82];
    assert Matched(t, 3, 1) == 2;
  }
}
