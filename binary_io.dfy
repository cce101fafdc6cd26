/**
 * The byte layout of .NET's `BinaryWriter` and `BinaryReader` for the values a
 * health monitor message holds: an `Int32` as four little-endian two's
 * complement bytes, and a string as its UTF-8 byte count in the 7-bit encoding
 * (seven bits per byte, least significant group first, a set high bit meaning
 * that another byte follows) followed by the UTF-8 bytes.
 */
module BinaryIo {
  import opened Wrappers
  import opened Clr
  import Utf8

  type Byte = Utf8.Byte

  /** The exceptions a read can raise. */
  datatype ReadError =
    | EndOfStream                       // EndOfStreamException
    | Bad7BitInt                        // FormatException: more than five bytes in a 7-bit number
    | NegativeStringLength(length: int) // IOException: a string length below zero

  /** `Write(Int32)`. */
  function Int32Bytes(x: Int32): (r: seq<Byte>)
    ensures |r| == 4
  {
    var u := AsUInt32(x);
    [u % 0x100, u / 0x100 % 0x100, u / 0x1_0000 % 0x100, u / 0x100_0000]
  }

  /** The int32 that four little-endian bytes hold. */
  function Int32Of(b0: Byte, b1: Byte, b2: Byte, b3: Byte): Int32
  {
    Wrap32(b0 + b1 * 0x100 + b2 * 0x1_0000 + b3 * 0x100_0000)
  }

  /** The base-256 digits `Int32Bytes` takes an unsigned value apart into. */
  lemma Digits256(u: int)
    requires 0 <= u < 0x1_0000_0000
    ensures u == u % 0x100 + u / 0x100 % 0x100 * 0x100 + u / 0x1_0000 % 0x100 * 0x1_0000 + u / 0x100_0000 * 0x100_0000
  {
    assert u == u % 0x100 + u / 0x100 * 0x100;
    assert u / 0x100 == u / 0x100 % 0x100 + u / 0x1_0000 * 0x100;
    assert u / 0x1_0000 == u / 0x1_0000 % 0x100 + u / 0x100_0000 * 0x100;
  }

  /** Reading the four bytes of an int32 gives it back. */
  lemma Int32RoundTrip(x: Int32)
    ensures var b := Int32Bytes(x); Int32Of(b[0], b[1], b[2], b[3]) == x
  {
    var u := AsUInt32(x);
    Digits256(u);
    var b := Int32Bytes(x);
    assert (b[0] as int) + (b[1] as int) * 0x100 + (b[2] as int) * 0x1_0000 + (b[3] as int) * 0x100_0000 == u;
    assert u == if x < 0 then x + 0x1_0000_0000 else x;
  }

  /** Every four bytes are the encoding of the int32 they hold. */
  lemma Int32BytesOfValue(b0: Byte, b1: Byte, b2: Byte, b3: Byte)
    ensures Int32Bytes(Int32Of(b0, b1, b2, b3)) == [b0, b1, b2, b3]
  {
    var u := b0 + b1 * 0x100 + b2 * 0x1_0000 + b3 * 0x100_0000;
    var x := Int32Of(b0, b1, b2, b3);
    assert x == if u >= 0x8000_0000 then u - 0x1_0000_0000 else u;
    assert AsUInt32(x) == u;
    DigitsOf(b0, b1, b2, b3);
  }

  /** The base-256 digits of the number four bytes hold are those bytes. */
  lemma DigitsOf(b0: Byte, b1: Byte, b2: Byte, b3: Byte)
    ensures var u := b0 + b1 * 0x100 + b2 * 0x1_0000 + b3 * 0x100_0000;
      u % 0x100 == b0 && u / 0x100 % 0x100 == b1 && u / 0x1_0000 % 0x100 == b2 && u / 0x100_0000 == b3
  {
    var u := b0 + b1 * 0x100 + b2 * 0x1_0000 + b3 * 0x100_0000;
    assert u / 0x100 == b1 + b2 * 0x100 + b3 * 0x1_0000;
    assert u / 0x1_0000 == b2 + b3 * 0x100;
  }

  /** `Write7BitEncodedInt` of the unsigned value `n`. */
  function SevenBitBytes(n: nat): (r: seq<Byte>)
    ensures |r| >= 1
    decreases n
  {
    if n < 0x80 then [n] else [n % 0x80 + 0x80] + SevenBitBytes(n / 0x80)
  }

  function Pow128(k: nat): (r: nat)
    ensures r >= 1
  {
    if k == 0 then 1 else 0x80 * Pow128(k - 1)
  }

  /**
   * The unsigned number a 7-bit encoding from `pos` holds, when `k` of its
   * bytes are already read: the low seven bits of a byte plus 128 times the
   * number the following bytes hold, while the high bit is set; a sixth byte
   * is refused. The result also gives the position after the last byte.
   */
  function SevenBitValue(data: seq<Byte>, pos: nat, k: nat): (r: Result<(nat, nat), ReadError>)
    requires k <= 5
    ensures r.Ok? ==> pos < r.value.1 <= |data|
    decreases 5 - k
  {
    if k == 5 then Err(Bad7BitInt)
    else if pos >= |data| then Err(EndOfStream)
    else if data[pos] < 0x80 then Ok((data[pos], pos + 1))
    else
      match SevenBitValue(data, pos + 1, k + 1)
      case Err(e) => Err(e)
      case Ok((rest, next)) => Ok((data[pos] - 0x80 + 0x80 * rest, next))
  }

  /**
   * `Read7BitEncodedInt` at `pos`: the int32 accumulator ORs each group in at
   * its shift, which adds (the groups do not overlap) and drops the bits
   * shifted past 32, so it keeps the number modulo 2^32.
   */
  function Read7BitAt(data: seq<Byte>, pos: nat): (r: Result<(Int32, nat), ReadError>)
    ensures r.Ok? ==> pos < r.value.1 <= |data|
  {
    var n := SevenBitValue(data, pos, 0);
    if n.Err? then Err(n.error) else Ok((Wrap32(n.value.0), n.value.1))
  }

  /** `ReadInt32` at `pos`. */
  function ReadInt32At(data: seq<Byte>, pos: nat): (r: Result<(Int32, nat), ReadError>)
    ensures r.Ok? <==> pos + 4 <= |data|
    ensures r.Ok? ==> r.value.1 == pos + 4
  {
    if pos + 4 <= |data| then Ok((Int32Of(data[pos], data[pos + 1], data[pos + 2], data[pos + 3]), pos + 4))
    else Err(EndOfStream)
  }

  /** `Write(string)`: the UTF-8 byte count as a 7-bit number, then the bytes. */
  function StringBytes(s: string): seq<Byte>
  {
    SevenBitBytes(|Utf8.Encode(s)|) + Utf8.Encode(s)
  }

  /** `ReadString` at `pos`: the length, then that many bytes decoded as UTF-8. */
  function ReadStringAt(data: seq<Byte>, pos: nat): (r: Result<(string, nat), ReadError>)
    ensures r.Ok? ==> pos < r.value.1 <= |data|
  {
    var length := Read7BitAt(data, pos);
    if length.Err? then Err(length.error) else StringBody(data, length.value.0, length.value.1)
  }

  /** The part of `ReadString` after the length was read: the bytes from `next`. */
  function StringBody(data: seq<Byte>, length: Int32, next: nat): (r: Result<(string, nat), ReadError>)
    requires next <= |data|
    ensures r.Ok? ==> next <= r.value.1 <= |data|
  {
    if length < 0 then Err(NegativeStringLength(length))
    else if length == 0 then Ok(("", next))
    else if next + length > |data| then Err(EndOfStream)
    else Ok((Utf8.Decode(data[next..next + length]), next + length))
  }

  /** `bytes` lies in `data` at `pos`. */
  predicate At(data: seq<Byte>, pos: nat, bytes: seq<Byte>)
  {
    pos + |bytes| <= |data| && data[pos..pos + |bytes|] == bytes
  }

  /** Three pieces written one after another lie one after another. */
  lemma AtThree(data: seq<Byte>, pos: nat, a: seq<Byte>, b: seq<Byte>, c: seq<Byte>, p1: nat, p2: nat)
    requires At(data, pos, a + b + c)
    requires p1 == pos + |a| && p2 == p1 + |b|
    ensures At(data, pos, a) && At(data, p1, b) && At(data, p2, c)
  {
    assert a + b + c == a + (b + c);
    AtTail(data, pos, a, b + c);
    AtTail(data, pos + |a|, b, c);
  }

  lemma AtTail(data: seq<Byte>, pos: nat, first: seq<Byte>, rest: seq<Byte>)
    requires At(data, pos, first + rest)
    ensures At(data, pos, first) && At(data, pos + |first|, rest)
  {
    assert data[pos..pos + |first|] == (first + rest)[..|first|];
    assert data[pos + |first|..pos + |first| + |rest|] == (first + rest)[|first|..];
  }

  /** An int32 written at `pos` is read back from there. */
  lemma ReadInt32OfWritten(data: seq<Byte>, pos: nat, x: Int32)
    requires At(data, pos, Int32Bytes(x))
    ensures ReadInt32At(data, pos) == Ok((x, pos + 4))
  {
    var b := Int32Bytes(x);
    assert data[pos] == b[0] && data[pos + 1] == b[1] && data[pos + 2] == b[2] && data[pos + 3] == b[3];
    Int32RoundTrip(x);
  }

  /** The first byte of the encoding carries the low seven bits. */
  lemma SevenBitFirst(n: nat)
    ensures SevenBitBytes(n)[0] < 0x80 <==> n < 0x80
    ensures n < 0x80 ==> SevenBitBytes(n) == [n]
    ensures n >= 0x80 ==> SevenBitBytes(n) == [n % 0x80 + 0x80] + SevenBitBytes(n / 0x80)
  {
  }

  /** The 7-bit encoding of `n` read after `k` groups, while it fits in the bytes left. */
  lemma {:induction false} SevenBitValueOfWritten(data: seq<Byte>, pos: nat, k: nat, n: nat)
    requires k < 5 && n < Pow128(5 - k)
    requires At(data, pos, SevenBitBytes(n))
    ensures SevenBitValue(data, pos, k) == Ok((n, pos + |SevenBitBytes(n)|))
    decreases n
  {
    SevenBitFirst(n);
    assert data[pos] == SevenBitBytes(n)[0];
    if n >= 0x80 {
      AtTail(data, pos, [n % 0x80 + 0x80], SevenBitBytes(n / 0x80));
      assert Pow128(5 - k) == 0x80 * Pow128(4 - k);
      SevenBitValueOfWritten(data, pos + 1, k + 1, n / 0x80);
    }
  }

  /** An int32 written in the 7-bit encoding (of its unsigned reinterpretation) is read back. */
  lemma Read7BitRoundTrip(data: seq<Byte>, pos: nat, x: Int32)
    requires At(data, pos, SevenBitBytes(AsUInt32(x)))
    ensures Read7BitAt(data, pos) == Ok((x, pos + |SevenBitBytes(AsUInt32(x))|))
  {
    assert Pow128(5) == 0x8_0000_0000;
    SevenBitValueOfWritten(data, pos, 0, AsUInt32(x));
    WrapOfUInt32(x);
  }

  /**
   * The number read so far, `count` from the first `k` groups, completed by
   * what the rest of the encoding holds.
   */
  function Accumulated(rest: Result<(nat, nat), ReadError>, k: nat, count: nat): Result<(nat, nat), ReadError>
  {
    match rest
    case Err(e) => Err(e)
    case Ok((n, next)) => Ok((count + n * Pow128(k), next))
  }

  /** One byte read by the loop of `Read7BitEncodedInt`: the group joins the count at weight 128^k. */
  lemma AccumulateStep(data: seq<Byte>, pos: nat, k: nat, count: nat)
    requires k < 5 && pos < |data|
    ensures data[pos] < 0x80 ==>
      Accumulated(SevenBitValue(data, pos, k), k, count) == Ok((count + data[pos] % 0x80 * Pow128(k), pos + 1))
    ensures data[pos] >= 0x80 ==>
      Accumulated(SevenBitValue(data, pos, k), k, count)
        == Accumulated(SevenBitValue(data, pos + 1, k + 1), k + 1, count + data[pos] % 0x80 * Pow128(k))
  {
    var p := Pow128(k);
    assert Pow128(k + 1) == 0x80 * p;
    if data[pos] >= 0x80 {
      match SevenBitValue(data, pos + 1, k + 1)
      case Err(_) =>
      case Ok((n, next)) =>
        GroupStep(count, data[pos] - 0x80, n, p);
    }
  }

  /** The loop of `Read7BitEncodedInt` stops where the number it is reading fails. */
  lemma SevenBitFails(data: seq<Byte>, start: nat, pos: nat, k: nat, count: nat, e: ReadError)
    requires k <= 5
    requires SevenBitValue(data, start, 0) == Accumulated(SevenBitValue(data, pos, k), k, count)
    requires SevenBitValue(data, pos, k) == Err(e)
    ensures Read7BitAt(data, start) == Err(e)
  {
  }

  /** The loop of `Read7BitEncodedInt` stops at the last group with the whole number. */
  lemma SevenBitEnds(data: seq<Byte>, start: nat, n: nat, next: nat)
    requires SevenBitValue(data, start, 0) == Ok((n, next))
    ensures Read7BitAt(data, start) == Ok((Wrap32(n), next))
  {
  }

  /** A group `low` followed by the number `n`, at weight `p`. */
  lemma GroupStep(count: int, low: int, n: int, p: int)
    ensures count + (low + 0x80 * n) * p == count + low * p + n * (0x80 * p)
  {
  }

  /** Wrapping the unsigned reinterpretation gives the int32 back. */
  lemma WrapOfUInt32(x: Int32)
    ensures Wrap32(AsUInt32(x)) == x
  {
  }

  /** Only the empty string has no UTF-8 bytes. */
  lemma {:induction false} EncodeEmpty(s: string)
    ensures |Utf8.Encode(s)| == 0 <==> s == []
  {
  }

  /** A string written at `pos` is read back from there. */
  lemma {:induction false} ReadStringOfWritten(data: seq<Byte>, pos: nat, s: string)
    requires |Utf8.Encode(s)| <= Int32Max
    requires At(data, pos, StringBytes(s))
    ensures ReadStringAt(data, pos) == Ok((s, pos + |StringBytes(s)|))
  {
    var e := Utf8.Encode(s);
    ReadCountedBytes(data, pos, e);
    EncodeEmpty(s);
    Utf8.DecodeEncode(s);
  }

  /** Bytes written after their count are read back and decoded. */
  lemma {:induction false} ReadCountedBytes(data: seq<Byte>, pos: nat, e: seq<Byte>)
    requires |e| <= Int32Max
    requires At(data, pos, SevenBitBytes(|e|) + e)
    ensures ReadStringAt(data, pos)
      == Ok((if |e| == 0 then "" else Utf8.Decode(e), pos + |SevenBitBytes(|e|) + e|))
  {
    var prefix := SevenBitBytes(|e|);
    AtTail(data, pos, prefix, e);
    var next := pos + |prefix|;
    Read7BitOfCount(data, pos, |e|);
    StringBodyOf(data, next, e);
    ReadStringOfLength(data, pos, |e|, next);
  }

  /** A count written at `pos` is read back from there. */
  lemma Read7BitOfCount(data: seq<Byte>, pos: nat, n: nat)
    requires n <= Int32Max && At(data, pos, SevenBitBytes(n))
    ensures Read7BitAt(data, pos) == Ok((n as Int32, pos + |SevenBitBytes(n)|))
  {
    var x: Int32 := n;
    assert AsUInt32(x) == n;
    Read7BitRoundTrip(data, pos, x);
  }

  /** Once the count is read, `ReadString` goes on with the bytes after it. */
  lemma ReadStringOfLength(data: seq<Byte>, pos: nat, length: Int32, next: nat)
    requires Read7BitAt(data, pos) == Ok((length, next))
    ensures next <= |data| && ReadStringAt(data, pos) == StringBody(data, length, next)
  {
  }

  /** The bytes of a string that lie after its count are decoded. */
  lemma StringBodyOf(data: seq<Byte>, next: nat, e: seq<Byte>)
    requires |e| <= Int32Max && At(data, next, e)
    ensures StringBody(data, |e|, next) == Ok((if |e| == 0 then "" else Utf8.Decode(e), next + |e|))
  {
  }

  class BinaryWriter {
    /** The bytes written to the underlying stream so far. */
    var written: seq<Byte>

    constructor ()
      ensures written == []
    {
      written := [];
    }

    method WriteByte(b: Byte)
      modifies this
      ensures written == old(written) + [b]
    {
      written := written + [b];
    }

    method WriteInt32(x: Int32)
      modifies this
      ensures written == old(written) + Int32Bytes(x)
    {
      written := written + Int32Bytes(x);
    }

    /** The loop of `Write7BitEncodedInt` over `(uint)value`. */
    method Write7BitEncodedInt(value: Int32)
      modifies this
      ensures written == old(written) + SevenBitBytes(AsUInt32(value))
    {
      var v: nat := AsUInt32(value);
      while v >= 0x80
        invariant old(written) + SevenBitBytes(AsUInt32(value)) == written + SevenBitBytes(v)
        decreases v
      {
        WriteByte(v % 0x80 + 0x80);
        v := v / 0x80;
      }
      WriteByte(v);
    }

    /** `Write(string)`: the UTF-8 byte count, then the bytes. */
    method WriteString(s: string)
      requires |Utf8.Encode(s)| <= Int32Max
      modifies this
      ensures written == old(written) + StringBytes(s)
    {
      var bytes := Utf8.Encode(s);
      Write7BitEncodedInt(|bytes|);
      assert AsUInt32(|bytes|) == |bytes|;
      written := written + bytes;
    }
  }

  class BinaryReader {
    /** The bytes of the underlying stream. */
    const data: seq<Byte>
    /** The stream position. */
    var position: nat

    ghost predicate Valid()
      reads this
    {
      position <= |data|
    }

    constructor (data: seq<Byte>)
      ensures this.data == data && position == 0 && Valid()
    {
      this.data := data;
      position := 0;
    }

    method ReadByte() returns (r: Result<Byte, ReadError>)
      requires Valid()
      modifies this
      ensures Valid()
      ensures old(position) < |data| ==> r == Ok(data[old(position)]) && position == old(position) + 1
      ensures old(position) == |data| ==> r == Err(EndOfStream)
    {
      if position == |data| {
        return Err(EndOfStream);
      }
      r := Ok(data[position]);
      position := position + 1;
    }

    method ReadInt32() returns (r: Result<Int32, ReadError>)
      requires Valid()
      modifies this
      ensures Valid()
      ensures ReadInt32At(data, old(position)).Ok? ==>
        r == Ok(ReadInt32At(data, old(position)).value.0) && position == ReadInt32At(data, old(position)).value.1
      ensures ReadInt32At(data, old(position)).Err? ==> r == Err(ReadInt32At(data, old(position)).error)
    {
      if position + 4 > |data| {
        position := |data|;
        return Err(EndOfStream);
      }
      r := Ok(Int32Of(data[position], data[position + 1], data[position + 2], data[position + 3]));
      position := position + 4;
    }

    /** The `do ... while` loop of `Read7BitEncodedInt`, refusing a sixth byte. */
    method Read7BitEncodedInt() returns (r: Result<Int32, ReadError>)
      requires Valid()
      modifies this
      ensures Valid()
      ensures Read7BitAt(data, old(position)).Ok? ==>
        r == Ok(Read7BitAt(data, old(position)).value.0) && position == Read7BitAt(data, old(position)).value.1
      ensures Read7BitAt(data, old(position)).Err? ==> r == Err(Read7BitAt(data, old(position)).error)
    {
      var count := 0;
      var k := 0;
      while true
        invariant Valid() && k <= 5 && 0 <= count
        invariant SevenBitValue(data, old(position), 0) == Accumulated(SevenBitValue(data, position, k), k, count)
        decreases 5 - k
      {
        if k == 5 {
          SevenBitFails(data, old(position), position, k, count, Bad7BitInt);
          return Err(Bad7BitInt);
        }
        ghost var p := position;
        var b := ReadByte();
        if b.Err? {
          SevenBitFails(data, old(position), p, k, count, EndOfStream);
          return Err(b.error);
        }
        AccumulateStep(data, p, k, count);
        var group: nat := b.value % 0x80 * Pow128(k);
        count := count + group;
        k := k + 1;
        if b.value < 0x80 {
          SevenBitEnds(data, old(position), count, position);
          return Ok(Wrap32(count));
        }
      }
    }

    /** `ReadString`: a negative length throws, zero gives "", otherwise that many bytes are decoded. */
    method ReadString() returns (r: Result<string, ReadError>)
      requires Valid()
      modifies this
      ensures Valid()
      ensures ReadStringAt(data, old(position)).Ok? ==>
        r == Ok(ReadStringAt(data, old(position)).value.0) && position == ReadStringAt(data, old(position)).value.1
      ensures ReadStringAt(data, old(position)).Err? ==> r == Err(ReadStringAt(data, old(position)).error)
    {
      var length := Read7BitEncodedInt();
      if length.Err? {
        return Err(length.error);
      }
      if length.value < 0 {
        return Err(NegativeStringLength(length.value));
      }
      if length.value == 0 {
        return Ok("");
      }
      if position + length.value > |data| {
        position := |data|;
        return Err(EndOfStream);
      }
      var bytes := data[position..position + length.value];
      position := position + length.value;
      r := Ok(Utf8.Decode(bytes));
    }
  }
}
