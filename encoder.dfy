/**
 * The outbound frame encoder. A frame is, in big-endian order, a 16-bit
 * message-kind code, the 16-bit id of the serializer, the 32-bit payload
 * length and the payload bytes. The serializer is a value: its kind (whose
 * id is fixed) and the byte-producing function it applies, where `None`
 * stands for a `null` array. The two message-kind codes are a parameter.
 */
module FrameEncoder {
  import opened JavaInt
  import opened Wrappers
  import opened Messages

  type byte = x: int | 0 <= x < 256

  /** A Java `byte[]`: its length is an `int`. */
  type ByteArray = s: seq<byte> | |s| < TWO_31

  /** Netty's `writeShort`: the low 16 bits of `v`, high byte first. */
  function BE16(v: int): (bs: seq<byte>)
    ensures |bs| == 2
  {
    [(v / 0x100) % 0x100, v % 0x100]
  }

  /** Netty's `writeInt`: the 32 bits of `v`, high byte first. */
  function BE32(v: int): (bs: seq<byte>)
    ensures |bs| == 4
  {
    [(v / 0x100_0000) % 0x100, (v / 0x1_0000) % 0x100, (v / 0x100) % 0x100, v % 0x100]
  }

  /** The unsigned 16-bit value of two big-endian bytes. */
  function U16(bs: seq<byte>): (v: int)
    requires |bs| == 2
    ensures 0 <= v < 0x1_0000
  {
    bs[0] as int * 0x100 + bs[1] as int
  }

  /** The unsigned 32-bit value of four big-endian bytes. */
  function U32(bs: seq<byte>): (v: int)
    requires |bs| == 4
    ensures 0 <= v < TWO_32
  {
    U16(bs[..2]) * 0x1_0000 + U16(bs[2..])
  }

  /** Splitting a number at a positive base into quotient and remainder. */
  lemma Split(v: int, b: int)
    requires b > 0
    ensures v == (v / b) * b + v % b && 0 <= v % b < b
  {
  }

  /** Two bytes written by `writeShort` read back as the low 16 bits of the value. */
  lemma {:induction false} U16RoundTrip(v: int)
    ensures U16(BE16(v)) == v % 0x1_0000
  {
    var q := v / 0x100;
    Split(v, 0x100);
    Split(q, 0x100);
    Split(v, 0x1_0000);
    DivDiv(v, 0x100, 0x100);
    assert U16(BE16(v)) == (q % 0x100) * 0x100 + v % 0x100;
    assert v == (q / 0x100) * 0x1_0000 + (q % 0x100) * 0x100 + v % 0x100;
    ModUnique(v, 0x1_0000, q / 0x100, (q % 0x100) * 0x100 + v % 0x100);
  }

  /** Four bytes written by `writeInt` read back as the low 32 bits of the value. */
  lemma {:induction false} U32RoundTrip(v: int)
    ensures U32(BE32(v)) == v % TWO_32
  {
    var hi := v / 0x1_0000;
    var bs := BE32(v);
    DivDiv(v, 0x1_0000, 0x100);
    assert bs[..2] == BE16(hi);
    assert bs[2..] == BE16(v);
    U16RoundTrip(hi);
    U16RoundTrip(v);
    Split(v, 0x1_0000);
    Split(hi, 0x1_0000);
    DivDiv(v, 0x1_0000, 0x1_0000);
    assert v == (hi / 0x1_0000) * TWO_32 + (hi % 0x1_0000) * 0x1_0000 + v % 0x1_0000;
    ModUnique(v, TWO_32, hi / 0x1_0000, (hi % 0x1_0000) * 0x1_0000 + v % 0x1_0000);
  }

  /** Dividing twice is dividing by the product. */
  lemma DivDiv(v: int, a: int, b: int)
    requires a > 0 && b > 0
    ensures v / a / b == v / (a * b)
  {
    var q, r := v / a, v % a;
    var q2, r2 := q / b, q % b;
    Split(v, a);
    Split(q, b);
    assert v == (q2 * b + r2) * a + r;
    assert (q2 * b + r2) * a == q2 * (a * b) + r2 * a;
    MulBelow(r2, b - 1, a);
    assert (b - 1) * a == a * b - a;
    ModUnique(v, a * b, q2, r2 * a + r);
  }

  /** Multiplying by a non-negative factor keeps the order. */
  lemma MulBelow(x: int, y: int, a: int)
    requires x <= y && a >= 0
    ensures x * a <= y * a
  {
    assert y * a - x * a == (y - x) * a;
  }

  /** Quotient and remainder are the only way to write `v` as `q * m + r` with `0 <= r < m`. */
  lemma ModUnique(v: int, m: int, q: int, r: int)
    requires m > 0 && v == q * m + r && 0 <= r < m
    ensures v / m == q && v % m == r
  {
    Split(v, m);
    var t := v / m - q;
    assert t * m == r - v % m by {
      assert t * m == (v / m) * m - q * m;
    }
    ZeroFactor(t, m);
  }

  /** A multiple of `m` strictly between `-m` and `m` is zero. */
  lemma ZeroFactor(t: int, m: int)
    requires m > 0 && -m < t * m < m
    ensures t == 0
  {
  }

  /** The objects the encoder can be handed. */
  datatype Message = Request(request: RpcRequest) | Response(response: RpcResponse) | Other(obj: JObject)

  /** The `MessageType` codes of requests and responses. */
  datatype MessageCodes = MessageCodes(request: int32, response: int32)

  /** Codes a reader of the 16-bit field can tell apart. */
  predicate ReadableCodes(codes: MessageCodes)
  {
    0 <= codes.request < 0x1_0000 && 0 <= codes.response < 0x1_0000 && codes.request != codes.response
  }

  datatype SerializerKind = Hessian | Protostuff

  /** `getType()` of each serializer. */
  function TypeCode(k: SerializerKind): (id: int32)
    ensures id == (if k == Hessian then 3 else 4)
  {
    match k
    case Hessian => 3
    case Protostuff => 4
  }

  datatype Serializer = Serializer(kind: SerializerKind, serialize: Message -> Option<ByteArray>)

  /** The two `IllegalArgumentException`s `encode` throws. */
  datatype EncodeError = UnknownMessageType | EmptyPayload

  /** The kind code written for a message, or None for an object that is neither request nor response. */
  function KindCode(codes: MessageCodes, msg: Message): Option<int32>
  {
    match msg
    case Request(_) => Some(codes.request)
    case Response(_) => Some(codes.response)
    case Other(_) => None
  }

  /**
   * What `encode` appends to the buffer, and the exception it ends with.
   * An unknown object is rejected before anything is written; an absent or
   * empty payload is rejected after the 4-byte kind and serializer fields.
   */
  function Frame(codes: MessageCodes, ser: Serializer, msg: Message): (r: (seq<byte>, Option<EncodeError>))
    ensures r.1 == Some(UnknownMessageType) <==> msg.Other?
    ensures msg.Other? ==> r.0 == []
    ensures !msg.Other? ==> |r.0| >= 4 && r.0[..4] == BE16(KindCode(codes, msg).value) + BE16(TypeCode(ser.kind))
    ensures r.1 == Some(EmptyPayload) <==>
      !msg.Other? && (ser.serialize(msg).None? || ser.serialize(msg).value == [])
    ensures r.1 == Some(EmptyPayload) ==> |r.0| == 4
    ensures r.1.None? ==>
      var payload := ser.serialize(msg).value;
      |r.0| == 8 + |payload| && r.0[4..8] == BE32(|payload|) && r.0[8..] == payload
  {
    match KindCode(codes, msg)
    case None => ([], Some(UnknownMessageType))
    case Some(kind) =>
      var header := BE16(kind) + BE16(TypeCode(ser.kind));
      var bytes := ser.serialize(msg);
      if bytes.None? || bytes.value == [] then (header, Some(EmptyPayload))
      else (header + BE32(|bytes.value|) + bytes.value, None)
  }

  /** The three header fields of a frame, read back as unsigned numbers. */
  function ParseHeader(frame: seq<byte>): (h: (int, int, int))
    requires |frame| >= 8
  {
    (U16(frame[..2]), U16(frame[2..4]), U32(frame[4..8]))
  }

  /**
   * A frame reads back: its header gives the kind code, the serializer id
   * and the payload length, the rest is the payload, and with readable
   * codes the kind field tells a request from a response.
   */
  lemma FrameRoundTrip(codes: MessageCodes, ser: Serializer, msg: Message)
    requires ReadableCodes(codes) && Frame(codes, ser, msg).1.None?
    ensures var frame := Frame(codes, ser, msg).0;
      var payload := ser.serialize(msg).value;
      |frame| >= 8 &&
      ParseHeader(frame) == (KindCode(codes, msg).value as int, TypeCode(ser.kind) as int, |payload|) &&
      frame[8..] == payload &&
      (ParseHeader(frame).0 == codes.request <==> msg.Request?)
  {
    var frame := Frame(codes, ser, msg).0;
    var payload := ser.serialize(msg).value;
    var kind := KindCode(codes, msg).value;
    assert frame[..2] == BE16(kind) && frame[2..4] == BE16(TypeCode(ser.kind)) by {
      assert frame[..4] == BE16(kind) + BE16(TypeCode(ser.kind));
      assert frame[..2] == frame[..4][..2];
      assert frame[2..4] == frame[..4][2..];
    }
    U16RoundTrip(kind);
    U16RoundTrip(TypeCode(ser.kind));
    U32RoundTrip(|payload|);
  }

  /** Netty's `ByteBuf` as the encoder uses it: the bytes written so far. */
  class ByteBuf {
    var bytes: seq<byte>

    constructor()
      ensures bytes == []
    {
      bytes := [];
    }

    method WriteShort(v: int)
      modifies this
      ensures bytes == old(bytes) + BE16(v)
    {
      bytes := bytes + BE16(v);
    }

    method WriteInt(v: int)
      modifies this
      ensures bytes == old(bytes) + BE32(v)
    {
      bytes := bytes + BE32(v);
    }

    method WriteBytes(src: seq<byte>)
      modifies this
      ensures bytes == old(bytes) + src
    {
      bytes := bytes + src;
    }
  }

  /** `MyEncoder`: a serializer, and the message-kind codes it writes. */
  class MyEncoder {
    const serializer: Serializer
    const codes: MessageCodes

    constructor(serializer: Serializer, codes: MessageCodes)
      ensures this.serializer == serializer && this.codes == codes
    {
      this.serializer := serializer;
      this.codes := codes;
    }

    /** `encode`: appends `Frame` to `out` step by step and ends with its exception, if any. */
    method Encode(msg: Message, out: ByteBuf) returns (err: Option<EncodeError>)
      modifies out
      ensures out.bytes == old(out.bytes) + Frame(codes, serializer, msg).0
      ensures err == Frame(codes, serializer, msg).1
    {
      match msg {
        case Request(_) => out.WriteShort(codes.request);
        case Response(_) => out.WriteShort(codes.response);
        case Other(_) => return Some(UnknownMessageType);
      }
      out.WriteShort(TypeCode(serializer.kind));
      var serializeBytes := serializer.serialize(msg);
      if serializeBytes.None? || |serializeBytes.value| == 0 {
        return Some(EmptyPayload);
      }
      out.WriteInt(|serializeBytes.value|);
      out.WriteBytes(serializeBytes.value);
      return None;
    }
  }
}
