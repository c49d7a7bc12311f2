/**
 * The shapes a field payload takes on the wire, owned (`WireType`, produced by
 * `into_wire`) and borrowed (`WireTypeView`, consumed by `from_wire`), the error
 * type the decoders return, and the `Message` contract of composite values.
 */
module Wire {
  import opened IntEncoding

  /** The library's error type, as far as the codecs here produce it or pass it on. */
  datatype Error =
    | UnexpectedWireType  // the view's shape is not the one the target type is encoded as
    | InvalidVarInt       // the varint decoder rejected the bytes
    | Utf8                // a length-delimited payload is not well-formed UTF-8
    | Message(code: nat)  // any other error a message's own deserialiser reports, passed on unchanged

  datatype Result<+T> = Ok(value: T) | Err(error: Error)

  /** The owned form of a payload, as `into_wire` builds it. */
  datatype WireType =
    | VarInt(data: seq<Byte>, size: nat)   // a 10-byte buffer of which the first `size` bytes are used
    | FixedI64(data: seq<Byte>)            // 8 little-endian bytes
    | FixedI32(data: seq<Byte>)            // 4 little-endian bytes
    | LengthEncoded(data: seq<Byte>)       // the payload of a length-delimited record
  {
    /** The sizes the owned shapes carry by construction. */
    predicate WellFormed()
    {
      match this
      case VarInt(data, size) => |data| == MAX_VARINT_LEN && size <= MAX_VARINT_LEN
      case FixedI64(data) => |data| == 8
      case FixedI32(data) => |data| == 4
      case LengthEncoded(_) => true
    }
  }

  /** The borrowed form of a payload, a slice of the buffer a frame parser reads from. */
  datatype WireTypeView =
    | VarInt(data: seq<Byte>)
    | FixedI64(data: seq<Byte>)
    | FixedI32(data: seq<Byte>)
    | LengthEncoded(data: seq<Byte>)
  {
    /**
     * A fixed-width view holds exactly its width; `from_wire` for the float types
     * panics on any other length.
     */
    predicate FixedWidthsHold()
    {
      (FixedI64? ==> |data| == 8) && (FixedI32? ==> |data| == 4)
    }
  }

  /** The view a reader gets of the payload bytes an owned value puts on the wire. */
  function View(w: WireType): (v: WireTypeView)
    requires w.WellFormed()
    ensures v.FixedWidthsHold()
  {
    match w
    case VarInt(data, size) => WireTypeView.VarInt(data[..size])
    case FixedI64(data) => WireTypeView.FixedI64(data)
    case FixedI32(data) => WireTypeView.FixedI32(data)
    case LengthEncoded(data) => WireTypeView.LengthEncoded(data)
  }

  /**
   * The number of bytes a field occupies in the wire format: the tag's varint,
   * then the payload -- the used bytes of a varint, the 8 or 4 bytes of a fixed
   * value, or a varint length prefix followed by that many bytes.
   */
  function FieldLength(tag: U32, w: WireType): nat
    requires w.WellFormed()
  {
    RequiredSpace(tag) +
    match w
    case VarInt(_, size) => size
    case FixedI64(_) => 8
    case FixedI32(_) => 4
    case LengthEncoded(data) => RequiredSpace(|data|) + |data|
  }

  /**
   * The payload bytes an owned value puts on the wire after the tag: the used
   * bytes of a varint, the 8 or 4 fixed bytes, or a varint length prefix
   * followed by the data.
   */
  function PayloadBytes(w: WireType): seq<Byte>
    requires w.WellFormed()
  {
    match w
    case VarInt(data, size) => data[..size]
    case FixedI64(data) => data
    case FixedI32(data) => data
    case LengthEncoded(data) => EncodeVar(|data|) + data
  }

  /** The bytes of a tagged field: the tag's varint, then the payload. */
  function FieldBytes(tag: U32, w: WireType): seq<Byte>
    requires w.WellFormed()
  {
    EncodeVar(tag) + PayloadBytes(w)
  }

  /**
   * `FieldLength` counts exactly the bytes of the field. A reader gets the tag
   * back from the front of those bytes, and the length prefix of a
   * length-delimited payload back from the front of the payload.
   */
  lemma FieldBytesLength(tag: U32, w: WireType)
    requires w.WellFormed()
    ensures |FieldBytes(tag, w)| == FieldLength(tag, w)
    ensures DecodeU64(FieldBytes(tag, w)) == Some((tag, RequiredSpace(tag)))
    ensures w.LengthEncoded? && |w.data| < TWO_64 ==>
              DecodeU64(PayloadBytes(w)) == Some((|w.data|, RequiredSpace(|w.data|)))
              && PayloadBytes(w)[RequiredSpace(|w.data|)..] == w.data
  {
    EncodeVarLength(tag);
    DecodeU64Encode(tag, PayloadBytes(w));
    if w.LengthEncoded? {
      EncodeVarLength(|w.data|);
      if |w.data| < TWO_64 {
        DecodeU64Encode(|w.data|, w.data);
      }
    }
  }

  /**
   * What a composite value (`Message`) provides, defined outside the codecs:
   * `sizeHint` is `Message::size_hint`, its own serialised length without tag or
   * length prefix; `serialize` gives the bytes `Message::serialize` writes into a
   * buffer; `deserialize` is `Message::deserialize`, the value and the number of
   * bytes it consumed, or an error.
   */
  datatype MessageCodec<!T> = MessageCodec(
    sizeHint: T -> USize,
    serialize: T -> seq<Byte>,
    deserialize: seq<Byte> -> Result<(T, nat)>)
}
