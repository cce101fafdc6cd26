/**
 * The message an application sends to the HealthMonitor service: an id, a
 * parameter string and a response format, written to a TCP stream with a
 * `BinaryWriter` and read back with a `BinaryReader`; and the global throttle
 * of `SendAsync`, which drops a message when the previous one is too recent.
 */
module HealthMonitor {
  import opened Wrappers
  import opened Clr
  import Utf8
  import opened BinaryIo

  /** The port HealthMonitor listens on. */
  const DefaultHealthMonitorServerPort: int := 52100

  /** `HealthMonitorMessageResponseFormat.None`, the format `SendAsync` asks for. */
  const ResponseFormatNone: Int32 := 0

  /** `DateTime.MinValue.Ticks`, the initial time of the last message. */
  const MinDateTimeTicks: int := 0
  /** `DateTime.MaxValue.Ticks`. */
  const MaxDateTimeTicks: int := 3_155_378_975_999_999_999

  /** A `DateTime` as its tick count (100 ns units since 0001-01-01). */
  type DateTimeTicks = t: int | MinDateTimeTicks <= t <= MaxDateTimeTicks

  /**
   * The three properties of a message. The enums are stored as the int32 they
   * are cast to and from, so any int32 is a possible id or response format.
   */
  datatype Fields = Fields(id: Int32, paramStr: string, responseFormat: Int32)

  /** `SerializeTo`: the id, the parameter string, the response format. */
  function MessageBytes(f: Fields): seq<Byte>
  {
    Int32Bytes(f.id) + StringBytes(f.paramStr) + Int32Bytes(f.responseFormat)
  }

  /** `GetByteCount` of the parameter string fits in an int32, so `Write(string)` does not throw. */
  predicate Writable(s: string)
  {
    |Utf8.Encode(s)| <= Int32Max
  }

  /** `DeserializeFrom` at `pos`: the same three reads in the same order, stopping at the first failure. */
  function DecodeMessage(data: seq<Byte>, pos: nat): (r: Result<(Fields, nat), ReadError>)
    ensures r.Ok? ==> pos + 9 <= r.value.1 <= |data|
  {
    var id := ReadInt32At(data, pos);
    if id.Err? then Err(id.error)
    else
      var paramStr := ReadStringAt(data, id.value.1);
      if paramStr.Err? then Err(paramStr.error)
      else
        var responseFormat := ReadInt32At(data, paramStr.value.1);
        if responseFormat.Err? then Err(responseFormat.error)
        else Ok((Fields(id.value.0, paramStr.value.0, responseFormat.value.0), responseFormat.value.1))
  }

  /** Deserializing what was serialized restores all three fields, wherever in the stream it lies. */
  lemma {:induction false} DecodeOfEncoded(data: seq<Byte>, pos: nat, f: Fields)
    requires Writable(f.paramStr)
    requires At(data, pos, MessageBytes(f))
    ensures DecodeMessage(data, pos) == Ok((f, pos + |MessageBytes(f)|))
  {
    var p1, p2 := MessageParts(data, pos, f);
    MessageReads(data, pos, f, p1, p2);
    MessageLength(f);
    DecodeMessageOfReads(data, pos, f, p1, p2);
  }

  /** Where the three fields of a written message lie. */
  lemma MessageParts(data: seq<Byte>, pos: nat, f: Fields) returns (p1: nat, p2: nat)
    requires At(data, pos, MessageBytes(f))
    ensures p1 == pos + 4 && p2 == p1 + |StringBytes(f.paramStr)|
    ensures At(data, pos, Int32Bytes(f.id)) && At(data, p1, StringBytes(f.paramStr)) && At(data, p2, Int32Bytes(f.responseFormat))
  {
    p1 := pos + 4;
    p2 := p1 + |StringBytes(f.paramStr)|;
    AtThree(data, pos, Int32Bytes(f.id), StringBytes(f.paramStr), Int32Bytes(f.responseFormat), p1, p2);
  }

  /** The three reads of a written message, each from where the previous one ended. */
  lemma MessageReads(data: seq<Byte>, pos: nat, f: Fields, p1: nat, p2: nat)
    requires Writable(f.paramStr)
    requires p1 == pos + 4 && p2 == p1 + |StringBytes(f.paramStr)|
    requires At(data, pos, Int32Bytes(f.id)) && At(data, p1, StringBytes(f.paramStr)) && At(data, p2, Int32Bytes(f.responseFormat))
    ensures ReadInt32At(data, pos) == Ok((f.id, p1))
    ensures ReadStringAt(data, p1) == Ok((f.paramStr, p2))
    ensures ReadInt32At(data, p2) == Ok((f.responseFormat, p2 + 4))
  {
    ReadInt32OfWritten(data, pos, f.id);
    ReadStringOfWritten(data, p1, f.paramStr);
    ReadInt32OfWritten(data, p2, f.responseFormat);
  }

  /** A message takes eight bytes besides its parameter string. */
  lemma MessageLength(f: Fields)
    ensures |MessageBytes(f)| == 8 + |StringBytes(f.paramStr)|
  {
  }

  /** The three reads succeeding in turn make the message they read. */
  lemma DecodeMessageOfReads(data: seq<Byte>, pos: nat, f: Fields, p1: nat, p2: nat)
    requires ReadInt32At(data, pos) == Ok((f.id, p1))
    requires ReadStringAt(data, p1) == Ok((f.paramStr, p2))
    requires ReadInt32At(data, p2) == Ok((f.responseFormat, p2 + 4))
    ensures DecodeMessage(data, pos) == Ok((f, p2 + 4))
  {
    var id, paramStr, responseFormat := ReadInt32At(data, pos), ReadStringAt(data, p1), ReadInt32At(data, p2);
    assert id.value.1 == p1 && paramStr.value.1 == p2;
    assert Fields(id.value.0, paramStr.value.0, responseFormat.value.0) == f;
  }

  /** How the TCP connect of `SendMessage` ended. */
  datatype ConnectOutcome =
    | Connected       // completed within 10 s without an exception
    | ConnectFaulted  // completed within 10 s, but the re-awaited task throws
    | ConnectTimedOut // the 10 s delay finished first

  /** How the writes to the connected stream ended. */
  datatype WriteOutcome =
    | WriteOk                 // every write returned
    | WriteFaulted(taken: nat) // the stream threw after taking `taken` bytes

  /** The bytes `SerializeTo` offers the stream: the whole message, or only the id before the string's length check fails. */
  function Offered(f: Fields): (bytes: seq<Byte>)
    ensures Writable(f.paramStr) ==> bytes == MessageBytes(f)
    ensures !Writable(f.paramStr) ==> bytes == Int32Bytes(f.id)
  {
    if Writable(f.paramStr) then MessageBytes(f) else Int32Bytes(f.id)
  }

  /** What reaches the peer of `bytes` offered to a stream whose writes end as `write`: all of them, or the prefix taken before the fault. */
  function Delivered(bytes: seq<Byte>, write: WriteOutcome): (r: seq<Byte>)
    ensures r <= bytes
    ensures write.WriteOk? ==> r == bytes
    ensures write.WriteFaulted? && write.taken < |bytes| ==> |r| == write.taken
  {
    match write
    case WriteOk => bytes
    case WriteFaulted(taken) => if taken < |bytes| then bytes[..taken] else bytes
  }

  class HealthMonitorMessage {
    var id: Int32
    var paramStr: string
    var responseFormat: Int32

    function Current(): Fields
      reads this
    {
      Fields(id, paramStr, responseFormat)
    }

    constructor ()
      ensures Current() == Fields(0, "", ResponseFormatNone)
    {
      id := 0;
      paramStr := "";
      responseFormat := ResponseFormatNone;
    }

    /**
     * `SerializeTo`. When the UTF-8 byte count of the parameter string does
     * not fit in an int32, `Write(string)` throws after the id was written;
     * `ok` is false then.
     */
    method SerializeTo(w: BinaryWriter) returns (ok: bool)
      modifies w
      ensures ok == Writable(paramStr)
      ensures ok ==> w.written == old(w.written) + MessageBytes(Current())
      ensures !ok ==> w.written == old(w.written) + Int32Bytes(id)
    {
      w.WriteInt32(id);
      if |Utf8.Encode(paramStr)| > Int32Max {
        return false;
      }
      w.WriteString(paramStr);
      w.WriteInt32(responseFormat);
      ok := true;
    }

    /**
     * `DeserializeFrom`: overwrites the three fields in order and returns this
     * message. A read that throws leaves the fields read before it overwritten
     * and the later ones untouched.
     */
    method DeserializeFrom(r: BinaryReader) returns (res: Result<HealthMonitorMessage, ReadError>)
      requires r.Valid()
      modifies this, r
      ensures r.Valid()
      ensures var d := DecodeMessage(r.data, old(r.position));
        d.Ok? ==> res == Ok(this) && Current() == d.value.0 && r.position == d.value.1
      ensures var d := DecodeMessage(r.data, old(r.position));
        d.Err? ==> res == Err(d.error)
      ensures var first := ReadInt32At(r.data, old(r.position));
        DecodeMessage(r.data, old(r.position)).Err? ==>
          responseFormat == old(responseFormat) &&
          id == (if first.Ok? then first.value.0 else old(id)) &&
          (first.Err? || ReadStringAt(r.data, first.value.1).Err? ==> paramStr == old(paramStr))
    {
      var readId := r.ReadInt32();
      if readId.Err? {
        return Err(readId.error);
      }
      id := readId.value;
      var readParamStr := r.ReadString();
      if readParamStr.Err? {
        return Err(readParamStr.error);
      }
      paramStr := readParamStr.value;
      var readResponseFormat := r.ReadInt32();
      if readResponseFormat.Err? {
        return Err(readResponseFormat.error);
      }
      responseFormat := readResponseFormat.value;
      res := Ok(this);
    }

    /**
     * `SendMessage`: connect with a 10 s timeout and, once connected, serialize
     * the message to the connection. `sent` is what reached the stream; the
     * reply is true only when the connect succeeded in time and every write
     * returned (any exception, from the length check or from the stream, is
     * caught and gives false).
     */
    method SendMessage(connect: ConnectOutcome, write: WriteOutcome) returns (reply: bool, sent: seq<Byte>)
      ensures reply <==> connect == Connected && write == WriteOk && Writable(paramStr)
      ensures reply ==> sent == MessageBytes(Current())
      ensures connect == Connected ==> sent == Delivered(Offered(Current()), write)
      ensures connect != Connected ==> sent == []
    {
      reply := false;
      sent := [];
      if connect == Connected {
        var w := new BinaryWriter();
        var serialized := SerializeTo(w);
        assert w.written == Offered(Current());
        reply := serialized && write == WriteOk;
        sent := Delivered(w.written, write);
      }
    }
  }

  /**
   * The throttle test of `SendAsync`: the time since the last message (a
   * `TimeSpan` in ticks) must exceed the minimum gap, which defaults to
   * `TimeSpan.MinValue`, so without a gap every message is sent.
   */
  function ShouldSend(now: DateTimeTicks, last: DateTimeTicks, minGap: Option<Int64>): (r: bool)
    ensures minGap.None? ==> r
    ensures minGap.Some? ==> (r <==> now - last > minGap.value)
  {
    var gap := if minGap.Some? then minGap.value else Int64Min;
    now - last > gap
  }

  /** The application-wide `gLastMessageTime` and `SendAsync`, which reads and updates it. */
  class Sender {
    var lastMessageTime: DateTimeTicks

    constructor ()
      ensures lastMessageTime == MinDateTimeTicks
    {
      lastMessageTime := MinDateTimeTicks;
    }

    /**
     * `SendAsync` at time `now`. A message passing the throttle is sent with
     * response format `None`; whatever the reply, the last message time becomes
     * `after`, the clock read once sending finished. A throttled message is
     * dropped and leaves the time unchanged. `attempt` is the message sent, if
     * any, and `sent` the bytes that reached the stream.
     */
    method SendAsync(fullMsg: string, healthMonId: Int32, minGap: Option<Int64>, now: DateTimeTicks,
                     connect: ConnectOutcome, write: WriteOutcome, after: DateTimeTicks)
      returns (attempt: Option<Fields>, sent: seq<Byte>)
      modifies this
      ensures attempt.Some? <==> ShouldSend(now, old(lastMessageTime), minGap)
      ensures attempt.Some? ==> attempt.value == Fields(healthMonId, fullMsg, ResponseFormatNone)
      ensures attempt.Some? ==> lastMessageTime == after
      ensures attempt.None? ==> lastMessageTime == old(lastMessageTime) && sent == []
      ensures attempt.Some? && connect == Connected && write == WriteOk && Writable(fullMsg) ==> sent == MessageBytes(attempt.value)
      ensures attempt.Some? && connect == Connected ==> sent == Delivered(Offered(attempt.value), write)
      ensures attempt.Some? && connect != Connected ==> sent == []
    {
      var gap := if minGap.Some? then minGap.value else Int64Min;
      attempt := None;
      sent := [];
      if now - lastMessageTime > gap {
        var m := new HealthMonitorMessage();
        m.id, m.paramStr, m.responseFormat := healthMonId, fullMsg, ResponseFormatNone;
        var reply;
        reply, sent := m.SendMessage(connect, write);
        attempt := Some(m.Current());
        lastMessageTime := after;
      }
    }
  }
}
