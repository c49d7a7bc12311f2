/**
 * The base-128 variable-length integer primitive that the scalar codecs rely on
 * (the `integer_encoding` crate's `VarInt` trait). The crate itself is not part of
 * this model; this module gives a concrete specification of what it computes:
 *
 *   - an unsigned value is written seven bits at a time, least significant group
 *     first, with the high bit (0x80) set on every byte but the last;
 *   - a signed value is first mapped to an unsigned one by zig-zag encoding
 *     (0, -1, 1, -2, 2, ... become 0, 1, 2, 3, 4, ...);
 *   - a decoder looks at no more than 10 bytes, and fails when the input ends or
 *     the tenth byte is reached without a byte whose high bit is clear.
 */
module IntEncoding {

  datatype Option<+T> = None | Some(value: T)

  const TWO_32: int := 0x1_0000_0000
  const TWO_31: int := 0x8000_0000
  const TWO_64: int := 0x1_0000_0000_0000_0000
  const TWO_63: int := 0x8000_0000_0000_0000

  /** The longest varint the decoder accepts, in bytes. */
  const MAX_VARINT_LEN: nat := 10

  type Byte = x: int | 0 <= x < 256
  type U32 = x: int | 0 <= x < TWO_32
  type I32 = x: int | -TWO_31 <= x < TWO_31
  type U64 = x: int | 0 <= x < TWO_64
  type I64 = x: int | -TWO_63 <= x < TWO_63
  /** `usize` on the 64-bit targets the library is built for. */
  type USize = U64

  function Pow128(k: nat): (r: nat)
    ensures r >= 1
  {
    if k == 0 then 1 else 128 * Pow128(k - 1)
  }

  /** The number of bytes the base-128 encoding of `n` occupies. */
  function RequiredSpace(n: nat): (r: nat)
    decreases n
  {
    if n < 128 then 1 else 1 + RequiredSpace(n / 128)
  }

  /** The base-128 encoding of `n`: low seven-bit group first, high bit set on all but the last byte. */
  function EncodeVar(n: nat): (r: seq<Byte>)
    decreases n
  {
    if n < 128 then [n] else [n % 128 + 128] + EncodeVar(n / 128)
  }

  /**
   * Reads a varint from the front of `s`, looking at no more than `limit` bytes.
   * Gives the (unbounded) value and the number of bytes consumed, or None when no
   * byte with the high bit clear occurs within the window.
   */
  function DecodeRaw(s: seq<Byte>, limit: nat): (r: Option<(nat, nat)>)
    ensures r.Some? ==> 1 <= r.value.1 <= limit && r.value.1 <= |s|
    decreases limit
  {
    if limit == 0 || |s| == 0 then None
    else if s[0] < 128 then Some((s[0], 1))
    else
      match DecodeRaw(s[1..], limit - 1)
      case None => None
      case Some((v, k)) => Some((s[0] - 128 + 128 * v, k + 1))
  }

  /** Some byte among the first ten has its high bit clear, so the decoder finds where the varint ends. */
  predicate HasTerminator(s: seq<Byte>)
  {
    exists i :: 0 <= i < |s| && i < MAX_VARINT_LEN && s[i] < 128
  }

  /** `u64::decode_var`: the tenth byte's bits above bit 63 are shifted out, so the value is taken modulo 2^64. */
  function DecodeU64(s: seq<Byte>): (r: Option<(U64, nat)>)
    ensures r.None? <==> !HasTerminator(s)
    ensures r.Some? ==> 1 <= r.value.1 <= MAX_VARINT_LEN && r.value.1 <= |s|
  {
    DecodeRawStopsAtTerminator(s, MAX_VARINT_LEN);
    match DecodeRaw(s, MAX_VARINT_LEN)
    case None => None
    case Some((v, k)) => Some((v % TWO_64, k))
  }

  /** `u32::decode_var`: a `u64` varint that does not fit 32 bits is rejected. */
  function DecodeU32(s: seq<Byte>): (r: Option<(U32, nat)>)
    ensures r.None? <==> DecodeU64(s).None? || DecodeU64(s).value.0 >= TWO_32
    ensures r.Some? ==> r.value == DecodeU64(s).value
  {
    match DecodeU64(s)
    case None => None
    case Some((v, k)) => if v < TWO_32 then Some((v, k)) else None
  }

  /** Zig-zag: non-negative `v` goes to `2v`, negative `v` to `-2v - 1`. */
  function ZigZag(v: int): (u: nat)
  {
    if v >= 0 then 2 * v else -2 * v - 1
  }

  /** The inverse of zig-zag: even `u` gives `u / 2`, odd `u` gives `-(u + 1) / 2`. */
  function UnZigZag(u: nat): (v: int)
  {
    if u % 2 == 0 then u / 2 else -((u + 1) / 2)
  }

  /** `i64::decode_var`: a `u64` varint mapped back through zig-zag. */
  function DecodeI64(s: seq<Byte>): (r: Option<(I64, nat)>)
    ensures r.None? <==> DecodeU64(s).None?
    ensures r.Some? ==> ZigZag(r.value.0) == DecodeU64(s).value.0 && r.value.1 == DecodeU64(s).value.1
  {
    match DecodeU64(s)
    case None => None
    case Some((u, k)) =>
      ZigZagOfUnZigZag(u);
      Some((UnZigZag(u), k))
  }

  /** `i32::decode_var`: an `i64` varint that does not fit 32 bits is rejected. */
  function DecodeI32(s: seq<Byte>): (r: Option<(I32, nat)>)
    ensures r.None? <==> DecodeI64(s).None? || !(-TWO_31 <= DecodeI64(s).value.0 < TWO_31)
    ensures r.Some? ==> r.value == DecodeI64(s).value
  {
    match DecodeI64(s)
    case None => None
    case Some((v, k)) => if -TWO_31 <= v < TWO_31 then Some((v, k)) else None
  }

  /**
   * `encode_var`: writes the base-128 encoding of `v` at the front of `dst`, one
   * seven-bit group per byte, and returns the number of bytes written. The bytes
   * of `dst` past that count are left as they were.
   */
  method EncodeVarInto(v: U64, dst: array<Byte>) returns (size: nat)
    requires RequiredSpace(v) <= dst.Length
    modifies dst
    ensures size == RequiredSpace(v)
    ensures dst[..size] == EncodeVar(v)
    ensures forall k :: size <= k < dst.Length ==> dst[k] == old(dst[k])
  {
    var n: nat := v;
    var i := 0;
    while n >= 128
      invariant i + RequiredSpace(n) == RequiredSpace(v)
      invariant dst[..i] + EncodeVar(n) == EncodeVar(v)
      invariant forall k :: i <= k < dst.Length ==> dst[k] == old(dst[k])
      decreases n
    {
      EncodeVarStep(dst[..i], n, v);
      label Step:
      dst[i] := n % 128 + 128;
      assert dst[..i + 1] == old@Step(dst[..i]) + [n % 128 + 128];
      i := i + 1;
      n := n / 128;
    }
    dst[i] := n;
    size := i + 1;
    assert dst[..size] == dst[..i] + [n];
  }

  // ---------------------------------------------------------------------------
  // Properties of the specification

  /** One step of the writer: emitting the low group of `n` leaves the encoding of `n / 128` to go. */
  lemma EncodeVarStep(done: seq<Byte>, n: nat, v: nat)
    requires n >= 128 && done + EncodeVar(n) == EncodeVar(v)
    ensures (done + [n % 128 + 128]) + EncodeVar(n / 128) == EncodeVar(v)
  {
    assert EncodeVar(n) == [n % 128 + 128] + EncodeVar(n / 128);
  }

  /**
   * The decoder fails exactly when none of the first `limit` bytes has its high
   * bit clear; otherwise it stops at the first such byte.
   */
  lemma {:induction false} DecodeRawStopsAtTerminator(s: seq<Byte>, limit: nat)
    ensures DecodeRaw(s, limit).None? <==> forall i :: 0 <= i < |s| && i < limit ==> s[i] >= 128
    ensures DecodeRaw(s, limit).Some? ==>
      var k := DecodeRaw(s, limit).value.1;
      s[k - 1] < 128 && forall i :: 0 <= i < k - 1 ==> s[i] >= 128
    decreases limit
  {
    if limit > 0 && |s| > 0 && s[0] >= 128 {
      var tail := s[1..];
      DecodeRawStopsAtTerminator(tail, limit - 1);
      forall i | 1 <= i < |s| ensures s[i] == tail[i - 1] {}
    }
  }

  /** Every byte of the encoding but the last carries the continuation bit; the last does not. */
  lemma {:induction false} EncodeVarShape(n: nat)
    ensures |EncodeVar(n)| >= 1 && EncodeVar(n)[|EncodeVar(n)| - 1] < 128
    ensures forall i :: 0 <= i < |EncodeVar(n)| - 1 ==> EncodeVar(n)[i] >= 128
    decreases n
  {
    if n >= 128 {
      EncodeVarShape(n / 128);
      var tail := EncodeVar(n / 128);
      assert EncodeVar(n) == [n % 128 + 128] + tail;
      forall i | 1 <= i < |EncodeVar(n)| - 1
        ensures EncodeVar(n)[i] >= 128
      {
        assert EncodeVar(n)[i] == tail[i - 1];
      }
    }
  }

  /** The encoding is exactly `RequiredSpace(n)` bytes long. */
  lemma {:induction false} EncodeVarLength(n: nat)
    ensures |EncodeVar(n)| == RequiredSpace(n)
    decreases n
  {
    if n >= 128 {
      EncodeVarLength(n / 128);
    }
  }

  /**
   * `RequiredSpace(n)` is the least `k >= 1` with `n < 128^k`: an independent
   * characterisation of the byte count by powers of 128.
   */
  lemma {:induction false} RequiredSpaceRange(n: nat)
    ensures n < Pow128(RequiredSpace(n))
    ensures RequiredSpace(n) > 1 ==> Pow128(RequiredSpace(n) - 1) <= n
    decreases n
  {
    if n >= 128 {
      RequiredSpaceRange(n / 128);
    }
  }

  /** Any value below `128^k` fits in `k` bytes (and every value needs at least one). */
  lemma {:induction false} RequiredSpaceAtMost(n: nat, k: nat)
    requires 1 <= k && n < Pow128(k)
    ensures 1 <= RequiredSpace(n) <= k
    decreases n
  {
    if n >= 128 {
      assert Pow128(k) == 128 * Pow128(k - 1);
      assert k >= 2;
      assert n / 128 < Pow128(k - 1);
      RequiredSpaceAtMost(n / 128, k - 1);
    }
  }

  /** A larger value never needs fewer bytes. */
  lemma {:induction false} RequiredSpaceMonotone(a: nat, b: nat)
    requires a <= b
    ensures RequiredSpace(a) <= RequiredSpace(b)
    decreases b
  {
    if a >= 128 {
      RequiredSpaceMonotone(a / 128, b / 128);
    }
  }

  /** A 64-bit value takes 1 to 10 bytes, a 32-bit value 1 to 5. */
  lemma RequiredSpaceWidths(n: nat)
    ensures n < TWO_64 ==> 1 <= RequiredSpace(n) <= 10
    ensures n < TWO_32 ==> 1 <= RequiredSpace(n) <= 5
  {
    if n < TWO_32 {
      assert Pow128(5) == 0x8_0000_0000;
      RequiredSpaceAtMost(n, 5);
    }
    if n < TWO_64 {
      assert Pow128(10) == 0x40_0000_0000_0000_0000;
      RequiredSpaceAtMost(n, 10);
    }
  }

  /** Decoding reads back the value and the length of its encoding, whatever follows it. */
  lemma {:induction false} DecodeRawEncode(n: nat, rest: seq<Byte>, limit: nat)
    requires RequiredSpace(n) <= limit
    ensures DecodeRaw(EncodeVar(n) + rest, limit) == Some((n, RequiredSpace(n)))
    decreases n
  {
    var s := EncodeVar(n) + rest;
    if n >= 128 {
      assert s[0] == n % 128 + 128;
      assert s[1..] == EncodeVar(n / 128) + rest;
      DecodeRawEncode(n / 128, rest, limit - 1);
    } else {
      assert s[0] == n;
    }
  }

  /** A raw decode that already fits 64 bits is what `u64::decode_var` returns. */
  lemma DecodeU64OfRaw(s: seq<Byte>, n: nat, k: nat)
    requires DecodeRaw(s, MAX_VARINT_LEN) == Some((n, k)) && n < TWO_64
    ensures DecodeU64(s) == Some((n, k))
  {
  }

  /** Round trip of the unsigned 64-bit codec; trailing bytes are not looked at. */
  lemma DecodeU64Encode(v: U64, rest: seq<Byte>)
    ensures DecodeU64(EncodeVar(v) + rest) == Some((v, RequiredSpace(v)))
  {
    assert RequiredSpace(v) <= MAX_VARINT_LEN by {
      RequiredSpaceWidths(v);
    }
    DecodeRawEncode(v, rest, MAX_VARINT_LEN);
    DecodeU64OfRaw(EncodeVar(v) + rest, v, RequiredSpace(v));
  }

  /** Round trip of the unsigned 32-bit codec. */
  lemma DecodeU32Encode(v: U32, rest: seq<Byte>)
    ensures DecodeU32(EncodeVar(v) + rest) == Some((v, RequiredSpace(v)))
  {
    DecodeU64Encode(v, rest);
  }

  /** Zig-zag is undone by its inverse, and maps each signed width into the unsigned one. */
  lemma UnZigZagOfZigZag(v: int)
    ensures UnZigZag(ZigZag(v)) == v
    ensures -TWO_63 <= v < TWO_63 ==> ZigZag(v) < TWO_64
    ensures -TWO_31 <= v < TWO_31 ==> ZigZag(v) < TWO_32
  {
  }

  /** The inverse of zig-zag is undone by zig-zag, and maps each unsigned width back into the signed one. */
  lemma ZigZagOfUnZigZag(u: nat)
    ensures ZigZag(UnZigZag(u)) == u
    ensures u < TWO_64 ==> -TWO_63 <= UnZigZag(u) < TWO_63
    ensures u < TWO_32 ==> -TWO_31 <= UnZigZag(u) < TWO_31
    ensures (UnZigZag(u) == 0) == (u == 0)
  {
  }

  /** Round trip of the signed 64-bit codec. */
  lemma DecodeI64Encode(v: I64, rest: seq<Byte>)
    ensures DecodeI64(EncodeVar(ZigZag(v)) + rest) == Some((v, RequiredSpace(ZigZag(v))))
  {
    UnZigZagOfZigZag(v);
    DecodeU64Encode(ZigZag(v), rest);
  }

  /** Round trip of the signed 32-bit codec. */
  lemma DecodeI32Encode(v: I32, rest: seq<Byte>)
    ensures DecodeI32(EncodeVar(ZigZag(v)) + rest) == Some((v, RequiredSpace(ZigZag(v))))
  {
    DecodeI64Encode(v, rest);
  }
}
