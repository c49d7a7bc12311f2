/**
 * `FromWire` and `IntoWire` for the protobuf scalars and for any `Message`.
 *
 * Each scalar type has three operations: `into_wire`, which builds the owned
 * payload; `from_wire`, which reads a value back from a borrowed view and fails
 * with `UnexpectedWireType` on a view of the wrong shape; and `size_hint(tag)`,
 * the byte count of the tagged field.
 *
 *   f64 -> FixedI64, f32 -> FixedI32 (little-endian bytes)
 *   u64, i64, u32, i32, bool -> VarInt (signed types zig-zag encoded)
 *   String, Message -> LengthEncoded
 */
module Scalars {
  import opened IntEncoding
  import opened Utf8
  import opened Wire

  /** An `f64`, seen only as the 8 bytes of `to_le_bytes`; its floating-point meaning is not modelled. */
  type F64 = s: seq<Byte> | |s| == 8 witness [0, 0, 0, 0, 0, 0, 0, 0]

  /** An `f32`, seen only as the 4 bytes of `to_le_bytes`. */
  type F32 = s: seq<Byte> | |s| == 4 witness [0, 0, 0, 0]

  // ---------------------------------------------------------------------------
  // f64 and f32

  function FromWireF64(view: WireTypeView): (r: Result<F64>)
    requires view.FixedI64? ==> |view.data| == 8
    ensures r.Ok? <==> view.FixedI64?
    ensures r.Err? ==> r.error == UnexpectedWireType
    ensures r.Ok? ==> r.value == view.data
  {
    match view
    case FixedI64(data) => Ok(data)
    case _ => Err(UnexpectedWireType)
  }

  function IntoWireF64(x: F64): (w: WireType)
    ensures w.WellFormed() && w.FixedI64?
    ensures FromWireF64(View(w)) == Ok(x)
  {
    WireType.FixedI64(x)
  }

  function SizeHintF64(x: F64, tag: U32): (r: nat)
    ensures r == FieldLength(tag, IntoWireF64(x))
    ensures 9 <= r <= 13
  {
    RequiredSpaceWidths(tag);
    8 + RequiredSpace(tag)
  }

  function FromWireF32(view: WireTypeView): (r: Result<F32>)
    requires view.FixedI32? ==> |view.data| == 4
    ensures r.Ok? <==> view.FixedI32?
    ensures r.Err? ==> r.error == UnexpectedWireType
    ensures r.Ok? ==> r.value == view.data
  {
    match view
    case FixedI32(data) => Ok(data)
    case _ => Err(UnexpectedWireType)
  }

  function IntoWireF32(x: F32): (w: WireType)
    ensures w.WellFormed() && w.FixedI32?
    ensures FromWireF32(View(w)) == Ok(x)
  {
    WireType.FixedI32(x)
  }

  function SizeHintF32(x: F32, tag: U32): (r: nat)
    ensures r == FieldLength(tag, IntoWireF32(x))
    ensures 5 <= r <= 9
  {
    RequiredSpaceWidths(tag);
    4 + RequiredSpace(tag)
  }

  // ---------------------------------------------------------------------------
  // Varint-encoded integers

  /**
   * The owned varint payload for the unsigned value `n`: a zeroed ten-byte
   * buffer with the base-128 encoding of `n` at its front, and its length.
   */
  function VarIntWire(n: U64): (w: WireType)
    ensures w.WellFormed() && w.VarInt?
    ensures w.size == RequiredSpace(n) && 1 <= w.size <= MAX_VARINT_LEN
    ensures View(w).data == EncodeVar(n)
    ensures forall i :: w.size <= i < MAX_VARINT_LEN ==> w.data[i] == 0
  {
    RequiredSpaceWidths(n);
    EncodeVarLength(n);
    var padding: seq<Byte> := seq(MAX_VARINT_LEN - RequiredSpace(n), _ => 0);
    assert (EncodeVar(n) + padding)[..RequiredSpace(n)] == EncodeVar(n);
    WireType.VarInt(EncodeVar(n) + padding, RequiredSpace(n))
  }

  /**
   * The three lines every integer `into_wire` shares: a zeroed `[u8; 10]`,
   * `encode_var` into it, and the buffer with the count it returned.
   */
  method EncodeIntoVarInt(n: U64) returns (w: WireType)
    ensures w == VarIntWire(n)
  {
    RequiredSpaceWidths(n);
    var data := new Byte[MAX_VARINT_LEN](_ => 0);
    var size := EncodeVarInto(n, data);
    w := WireType.VarInt(data[..], size);
    assert data[..] == data[..size] + data[size..];
    assert data[size..] == VarIntWire(n).data[size..];
  }

  function FromWireU64(view: WireTypeView): (r: Result<U64>)
    ensures !view.VarInt? ==> r == Err(UnexpectedWireType)
    ensures view.VarInt? ==> r.Ok? || r == Err(InvalidVarInt)
    ensures view.VarInt? ==> (r == Err(InvalidVarInt) <==> !HasTerminator(view.data))
    ensures r.Ok? ==> DecodeU64(view.data).Some? && r.value == DecodeU64(view.data).value.0
  {
    match view
    case VarInt(data) =>
      (match DecodeU64(data)
       case None => Err(InvalidVarInt)
       case Some((value, _)) => Ok(value))
    case _ => Err(UnexpectedWireType)
  }

  method IntoWireU64(v: U64) returns (w: WireType)
    ensures w == VarIntWire(v)
    ensures FromWireU64(View(w)) == Ok(v)
  {
    w := EncodeIntoVarInt(v);
    FromWireU64Encoded(v, []);
    assert EncodeVar(v) + [] == View(w).data;
  }

  function SizeHintU64(v: U64, tag: U32): (r: nat)
    ensures r == FieldLength(tag, VarIntWire(v))
    ensures 2 <= r <= 15
  {
    RequiredSpaceWidths(v);
    RequiredSpaceWidths(tag);
    RequiredSpace(v) + RequiredSpace(tag)
  }

  function FromWireI64(view: WireTypeView): (r: Result<I64>)
    ensures !view.VarInt? ==> r == Err(UnexpectedWireType)
    ensures view.VarInt? ==> r.Ok? || r == Err(InvalidVarInt)
    ensures view.VarInt? ==> (r == Err(InvalidVarInt) <==> !HasTerminator(view.data))
    ensures r.Ok? ==> DecodeU64(view.data).Some? && ZigZag(r.value) == DecodeU64(view.data).value.0
  {
    match view
    case VarInt(data) =>
      (match DecodeI64(data)
       case None => Err(InvalidVarInt)
       case Some((value, _)) => Ok(value))
    case _ => Err(UnexpectedWireType)
  }

  method IntoWireI64(v: I64) returns (w: WireType)
    ensures ZigZag(v) < TWO_64 && w == VarIntWire(ZigZag(v))
    ensures FromWireI64(View(w)) == Ok(v)
  {
    UnZigZagOfZigZag(v);
    w := EncodeIntoVarInt(ZigZag(v));
    FromWireI64Encoded(v, []);
    assert EncodeVar(ZigZag(v)) + [] == View(w).data;
  }

  function SizeHintI64(v: I64, tag: U32): (r: nat)
    ensures ZigZag(v) < TWO_64 && r == FieldLength(tag, VarIntWire(ZigZag(v)))
    ensures 2 <= r <= 15
  {
    UnZigZagOfZigZag(v);
    RequiredSpaceWidths(ZigZag(v));
    RequiredSpaceWidths(tag);
    RequiredSpace(ZigZag(v)) + RequiredSpace(tag)
  }

  function FromWireU32(view: WireTypeView): (r: Result<U32>)
    ensures !view.VarInt? ==> r == Err(UnexpectedWireType)
    ensures view.VarInt? ==> r.Ok? || r == Err(InvalidVarInt)
    ensures view.VarInt? ==>
      (r == Err(InvalidVarInt) <==> !HasTerminator(view.data) || DecodeU64(view.data).value.0 >= TWO_32)
    ensures r.Ok? ==> DecodeU64(view.data).Some? && r.value == DecodeU64(view.data).value.0
  {
    match view
    case VarInt(data) =>
      (match DecodeU32(data)
       case None => Err(InvalidVarInt)
       case Some((value, _)) => Ok(value))
    case _ => Err(UnexpectedWireType)
  }

  method IntoWireU32(v: U32) returns (w: WireType)
    ensures w == VarIntWire(v) && w.size <= 5
    ensures FromWireU32(View(w)) == Ok(v)
  {
    RequiredSpaceWidths(v);
    w := EncodeIntoVarInt(v);
    FromWireU32Encoded(v, []);
    assert EncodeVar(v) + [] == View(w).data;
  }

  function SizeHintU32(v: U32, tag: U32): (r: nat)
    ensures r == FieldLength(tag, VarIntWire(v))
    ensures 2 <= r <= 10
  {
    RequiredSpaceWidths(v);
    RequiredSpaceWidths(tag);
    RequiredSpace(v) + RequiredSpace(tag)
  }

  function FromWireI32(view: WireTypeView): (r: Result<I32>)
    ensures !view.VarInt? ==> r == Err(UnexpectedWireType)
    ensures view.VarInt? ==> r.Ok? || r == Err(InvalidVarInt)
    ensures view.VarInt? ==>
      (r == Err(InvalidVarInt) <==>
        !HasTerminator(view.data) || !(-TWO_31 <= UnZigZag(DecodeU64(view.data).value.0) < TWO_31))
    ensures r.Ok? ==> DecodeU64(view.data).Some? && ZigZag(r.value) == DecodeU64(view.data).value.0
  {
    match view
    case VarInt(data) =>
      (match DecodeI32(data)
       case None => Err(InvalidVarInt)
       case Some((value, _)) => Ok(value))
    case _ => Err(UnexpectedWireType)
  }

  method IntoWireI32(v: I32) returns (w: WireType)
    ensures ZigZag(v) < TWO_32 && w == VarIntWire(ZigZag(v)) && w.size <= 5
    ensures FromWireI32(View(w)) == Ok(v)
  {
    UnZigZagOfZigZag(v);
    RequiredSpaceWidths(ZigZag(v));
    w := EncodeIntoVarInt(ZigZag(v));
    FromWireI32Encoded(v, []);
    assert EncodeVar(ZigZag(v)) + [] == View(w).data;
  }

  function SizeHintI32(v: I32, tag: U32): (r: nat)
    ensures ZigZag(v) < TWO_64 && r == FieldLength(tag, VarIntWire(ZigZag(v)))
    ensures 2 <= r <= 10
  {
    UnZigZagOfZigZag(v);
    RequiredSpaceWidths(ZigZag(v));
    RequiredSpaceWidths(tag);
    RequiredSpace(ZigZag(v)) + RequiredSpace(tag)
  }

  // ---------------------------------------------------------------------------
  // String

  function FromWireString(view: WireTypeView): (r: Result<Utf8String>)
    ensures !view.LengthEncoded? ==> r == Err(UnexpectedWireType)
    ensures view.LengthEncoded? ==> (r.Ok? <==> ValidUtf8(view.data))
    ensures view.LengthEncoded? && !ValidUtf8(view.data) ==> r == Err(Utf8)
    ensures r.Ok? ==> r.value == view.data
  {
    match view
    case LengthEncoded(data) => if ValidUtf8(data) then Ok(data) else Err(Utf8)
    case _ => Err(UnexpectedWireType)
  }

  function IntoWireString(s: Utf8String): (w: WireType)
    ensures w.WellFormed() && w.LengthEncoded?
    ensures View(w).data == s
    ensures FromWireString(View(w)) == Ok(s)
  {
    WireType.LengthEncoded(s)
  }

  function SizeHintString(s: Utf8String, tag: U32): (r: nat)
    ensures r == FieldLength(tag, IntoWireString(s))
    ensures |s| + 2 <= r
  {
    RequiredSpaceWidths(tag);
    RequiredSpace(|s|) + RequiredSpace(tag) + |s|
  }

  // ---------------------------------------------------------------------------
  // bool

  /** Decodes with the signed 32-bit decoder and reads any non-zero value as true. */
  function FromWireBool(view: WireTypeView): (r: Result<bool>)
    ensures !view.VarInt? ==> r == Err(UnexpectedWireType)
    ensures view.VarInt? ==> r.Ok? || r == Err(InvalidVarInt)
    ensures view.VarInt? ==> (r == Err(InvalidVarInt) <==> DecodeI32(view.data).None?)
    ensures r.Ok? ==> DecodeU64(view.data).Some? && (r.value <==> DecodeU64(view.data).value.0 != 0)
  {
    match view
    case VarInt(data) =>
      (match DecodeI32(data)
       case None => Err(InvalidVarInt)
       case Some((value, _)) =>
         ZigZagOfUnZigZag(DecodeU64(data).value.0);
         Ok(value != 0))
    case _ => Err(UnexpectedWireType)
  }

  /** `true` and `false` go out as the unsigned varints 1 and 0. */
  function BoolAsU32(b: bool): U32
  {
    if b then 1 else 0
  }

  method IntoWireBool(b: bool) returns (w: WireType)
    ensures w == VarIntWire(BoolAsU32(b))
    ensures View(w).data == [if b then 1 else 0]
    ensures FromWireBool(View(w)) == Ok(b)
  {
    w := EncodeIntoVarInt(BoolAsU32(b));
    FromWireBoolEncoded(b);
  }

  function SizeHintBool(b: bool, tag: U32): (r: nat)
    ensures r == FieldLength(tag, VarIntWire(BoolAsU32(b)))
    ensures r == 1 + RequiredSpace(tag)
  {
    RequiredSpace(BoolAsU32(b)) + RequiredSpace(tag)
  }

  // ---------------------------------------------------------------------------
  // Any Message, as a length-delimited payload

  /**
   * The effect of `Message::serialize` on the scratch slice: it writes its bytes
   * at the front and advances the slice past them. Returns the length of the
   * slice that remains.
   */
  method SerializeInto<T>(c: MessageCodec<T>, m: T, buffer: array<Byte>) returns (remaining: nat)
    requires |c.serialize(m)| <= buffer.Length
    modifies buffer
    ensures remaining == buffer.Length - |c.serialize(m)|
    ensures buffer[..|c.serialize(m)|] == c.serialize(m)
    ensures buffer[|c.serialize(m)|..] == old(buffer[|c.serialize(m)|..])
  {
    var bytes := c.serialize(m);
    var cursor := 0;
    while cursor < |bytes|
      invariant cursor <= |bytes|
      invariant buffer[..cursor] == bytes[..cursor]
      invariant buffer[cursor..] == old(buffer[cursor..])
    {
      buffer[cursor] := bytes[cursor];
      cursor := cursor + 1;
    }
    remaining := buffer.Length - cursor;
  }

  /**
   * `into_wire` for a message: a zeroed scratch buffer of `size_hint()` bytes,
   * the message serialised into it, and the first `written = size - remaining`
   * bytes emitted. A message that writes fewer bytes than its size hint yields
   * exactly the bytes it wrote.
   */
  method IntoWireMessage<T>(c: MessageCodec<T>, m: T) returns (w: WireType)
    requires |c.serialize(m)| <= c.sizeHint(m)
    ensures w == WireType.LengthEncoded(c.serialize(m))
    ensures |w.data| <= c.sizeHint(m)
  {
    var size := c.sizeHint(m);
    var buffer := new Byte[size](_ => 0);
    var remaining := SerializeInto(c, m, buffer);
    var written := size - remaining;
    w := WireType.LengthEncoded(buffer[0..written]);
  }

  /** `from_wire` for a message: the whole slice goes to `deserialize`, and the consumed count is dropped. */
  function FromWireMessage<T>(c: MessageCodec<T>, view: WireTypeView): (r: Result<T>)
    ensures !view.LengthEncoded? ==> r == Err(UnexpectedWireType)
    ensures view.LengthEncoded? ==> (r.Ok? <==> c.deserialize(view.data).Ok?)
    ensures view.LengthEncoded? && r.Err? ==> r.error == c.deserialize(view.data).error
    ensures view.LengthEncoded? && r.Ok? ==> r.value == c.deserialize(view.data).value.0
  {
    match view
    case LengthEncoded(data) =>
      (match c.deserialize(data)
       case Ok((value, _)) => Ok(value)
       case Err(e) => Err(e))
    case _ => Err(UnexpectedWireType)
  }

  /**
   * `size_hint(tag)` for a message: the tag and the message's own length. It does
   * not count the length prefix that frames the payload on the wire.
   */
  function SizeHintMessage<T>(c: MessageCodec<T>, m: T, tag: U32): (r: nat)
    ensures |c.serialize(m)| == c.sizeHint(m) ==>
      r + RequiredSpace(c.sizeHint(m)) == FieldLength(tag, WireType.LengthEncoded(c.serialize(m)))
  {
    RequiredSpace(tag) + c.sizeHint(m)
  }

  // ---------------------------------------------------------------------------
  // Properties across operations

  /** An unsigned 64-bit view that begins with the encoding of `v` reads back `v`; what follows is ignored. */
  lemma FromWireU64Encoded(v: U64, rest: seq<Byte>)
    ensures FromWireU64(WireTypeView.VarInt(EncodeVar(v) + rest)) == Ok(v)
  {
    DecodeU64Encode(v, rest);
  }

  lemma FromWireI64Encoded(v: I64, rest: seq<Byte>)
    ensures FromWireI64(WireTypeView.VarInt(EncodeVar(ZigZag(v)) + rest)) == Ok(v)
  {
    DecodeI64Encode(v, rest);
  }

  lemma FromWireU32Encoded(v: U32, rest: seq<Byte>)
    ensures FromWireU32(WireTypeView.VarInt(EncodeVar(v) + rest)) == Ok(v)
  {
    DecodeU32Encode(v, rest);
  }

  lemma FromWireI32Encoded(v: I32, rest: seq<Byte>)
    ensures FromWireI32(WireTypeView.VarInt(EncodeVar(ZigZag(v)) + rest)) == Ok(v)
  {
    DecodeI32Encode(v, rest);
  }

  /** The single byte `into_wire` writes for a bool reads back as that bool; `true` goes through -1. */
  lemma FromWireBoolEncoded(b: bool)
    ensures View(VarIntWire(BoolAsU32(b))).data == [if b then 1 else 0]
    ensures FromWireBool(WireTypeView.VarInt([if b then 1 else 0])) == Ok(b)
    ensures DecodeI32([if b then 1 else 0]) == Some((if b then -1 else 0, 1))
  {
    var n := BoolAsU32(b);
    assert EncodeVar(n) == [n];
    assert DecodeRaw([n], MAX_VARINT_LEN) == Some((n, 1));
  }

  /** Boolean decoding is lenient: the varint 2 reads as true, 0 as false. */
  lemma FromWireBoolLenient()
    ensures FromWireBool(WireTypeView.VarInt([2])) == Ok(true)
    ensures FromWireBool(WireTypeView.VarInt([0])) == Ok(false)
  {
    assert DecodeRaw([2], MAX_VARINT_LEN) == Some((2, 1));
    assert DecodeRaw([0], MAX_VARINT_LEN) == Some((0, 1));
  }

  /** Ten bytes that all carry the continuation bit, or input that ends before the last byte, are rejected. */
  lemma FromWireMalformedVarInt(s: seq<Byte>)
    requires (|s| >= 10 && forall i :: 0 <= i < 10 ==> s[i] >= 128) || (forall i :: 0 <= i < |s| ==> s[i] >= 128)
    ensures FromWireU64(WireTypeView.VarInt(s)) == Err(InvalidVarInt)
    ensures FromWireI64(WireTypeView.VarInt(s)) == Err(InvalidVarInt)
    ensures FromWireU32(WireTypeView.VarInt(s)) == Err(InvalidVarInt)
    ensures FromWireI32(WireTypeView.VarInt(s)) == Err(InvalidVarInt)
    ensures FromWireBool(WireTypeView.VarInt(s)) == Err(InvalidVarInt)
  {
  }

  /** `300u32` is written as `[0xAC, 0x02]`, and under tag 1 its field takes 3 bytes. */
  lemma U32Example()
    ensures View(VarIntWire(300)).data == [0xAC, 0x02]
    ensures SizeHintU32(300, 1) == 3
    ensures FromWireU32(WireTypeView.VarInt([0xAC, 0x02])) == Ok(300)
  {
    assert EncodeVar(300) == [0xAC, 0x02];
    FromWireU32Encoded(300, []);
    assert EncodeVar(300) + [] == [0xAC, 0x02];
  }

  /** A message whose `deserialize` reads back what `serialize` wrote round-trips through the wire. */
  lemma MessageRoundTrip<T>(c: MessageCodec<T>, m: T)
    requires c.deserialize(c.serialize(m)).Ok? && c.deserialize(c.serialize(m)).value.0 == m
    ensures FromWireMessage(c, View(WireType.LengthEncoded(c.serialize(m)))) == Ok(m)
  {
  }

  /** Bytes after the ones a message's `deserialize` consumes are not checked. */
  lemma MessageTrailingBytesIgnored<T>(c: MessageCodec<T>, data: seq<Byte>, v: T, consumed: nat)
    requires c.deserialize(data) == Ok((v, consumed)) && consumed < |data|
    ensures FromWireMessage(c, WireTypeView.LengthEncoded(data)) == Ok(v)
  {
  }
}
