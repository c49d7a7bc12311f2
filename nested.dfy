/**
 * `nested::size_hint`: the byte count of a length-delimited field whose payload
 * is a value that knows its own size hint. It adds the tag's varint length and
 * the varint length of the inner size to that inner size.
 */
module Nested {
  import opened IntEncoding
  import opened Wire
  import opened Scalars

  /** `size_hint(tag, message)`, where `size` is `message.size_hint(tag)`. */
  function SizeHint(tag: U32, size: USize): (r: nat)
    ensures size + 2 <= r <= size + 15
  {
    RequiredSpaceWidths(tag);
    RequiredSpaceWidths(size);
    RequiredSpace(tag) + RequiredSpace(size) + size
  }

  /** A larger inner size never gives a smaller result. */
  lemma SizeHintMonotone(tag: U32, small: USize, large: USize)
    requires small <= large
    ensures SizeHint(tag, small) <= SizeHint(tag, large)
  {
    RequiredSpaceMonotone(small, large);
  }

  /**
   * When `size` is the payload length itself, the result is exactly the length of
   * the field that frames the payload: tag, length prefix, payload.
   */
  lemma SizeHintFramesPayload(tag: U32, payload: seq<Byte>)
    requires |payload| < TWO_64
    ensures SizeHint(tag, |payload|) == FieldLength(tag, WireType.LengthEncoded(payload))
  {
  }

  /**
   * For a message the inner size is the message's `size_hint(tag)`, which already
   * counts the tag. The result therefore over-counts the field the message occupies
   * by the tag's length again, plus whatever the longer length prefix adds.
   */
  lemma MessageTagCountedTwice<T>(c: MessageCodec<T>, m: T, tag: U32)
    requires |c.serialize(m)| == c.sizeHint(m)
    requires SizeHintMessage(c, m, tag) < TWO_64
    ensures SizeHint(tag, SizeHintMessage(c, m, tag))
              == FieldLength(tag, WireType.LengthEncoded(c.serialize(m))) + RequiredSpace(tag)
                 + RequiredSpace(SizeHintMessage(c, m, tag)) - RequiredSpace(c.sizeHint(m))
    ensures SizeHint(tag, SizeHintMessage(c, m, tag))
              >= FieldLength(tag, WireType.LengthEncoded(c.serialize(m))) + RequiredSpace(tag)
  {
    RequiredSpaceMonotone(c.sizeHint(m), SizeHintMessage(c, m, tag));
  }
}
