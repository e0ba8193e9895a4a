/**
 * The VarInt / VarLong codec of rustic_io/src/datatypes/var.rs: the
 * variable-length integers of the Minecraft Java Edition protocol, which are
 * unsigned LEB128 applied to the two's-complement bit pattern of an i32 or
 * an i64. Each byte carries seven payload bits (SEGMENT_BITS = 0x7F), least
 * significant group first, and its high bit (CONTINUE_BIT = 0x80) says that
 * another byte follows.
 *
 * The decoder and the encoder are the source's loops; both are proved against
 * the specification functions Decode and Encode, about which the properties
 * of the format are proved as lemmas. Unsigned bit patterns are naturals below
 * 2^32 or 2^64; `|` is Bits.Or, `>>= 7` is division by 128, and on a byte
 * `b & 0x7F` is `b % 0x80` and `b & 0x80 != 0` is `b >= 0x80`.
 */
module VarCodec {
  import opened Bits

  type byte = b: int | 0 <= b < 0x100

  type i32 = v: int | -0x8000_0000 <= v < 0x8000_0000
  type i64 = v: int | -0x8000_0000_0000_0000 <= v < 0x8000_0000_0000_0000

  /** `struct VarInt(pub i32)` */
  datatype VarInt = VarInt(value: i32)

  /** `struct VarLong(pub i64)` */
  datatype VarLong = VarLong(value: i64)

  /** The two integer widths the codec is instantiated at. */
  datatype Width = W32 | W64

  function WidthBits(w: Width): nat {
    if w == W32 then 32 else 64
  }

  /**
   * The most bytes the decoder reads: `byte_position` grows by 7 per byte and
   * the loop gives up once it reaches the width, after 5 or 10 bytes.
   */
  function MaxLen(w: Width): (n: nat)
    ensures 7 * (n - 1) < WidthBits(w) <= 7 * n
  {
    if w == W32 then 5 else 10
  }

  /**
   * The errors the codec can return: TooBig from the decoder, carrying the
   * bit pattern accumulated so far and the length of the input, and the
   * BadOffset of a single-byte read or write past the end of the buffer.
   */
  datatype Error = TooBig(size: nat, len: nat) | BadOffset(offset: nat)

  datatype Result<T> = Ok(value: T) | Err(error: Error)

  /** `b & SEGMENT_BITS`: the seven payload bits of a byte. */
  function Segment(b: byte): nat {
    b % 0x80
  }

  /** `b & CONTINUE_BIT != 0`: another byte follows. */
  predicate Continues(b: byte) {
    b >= 0x80
  }

  // ---------------------------------------------------------------------------
  // Specification of the byte format
  // ---------------------------------------------------------------------------

  /** The number whose base-128 digits, least significant first, are the payloads of `s`. */
  function Groups(s: seq<byte>): nat {
    if s == [] then 0 else Segment(s[0]) + 0x80 * Groups(s[1..])
  }

  /** The index of the first byte of `s` with the continuation bit clear, or |s| if there is none. */
  function FirstStop(s: seq<byte>): (n: nat)
    ensures n <= |s|
    ensures forall j :: 0 <= j < n ==> Continues(s[j])
    ensures n < |s| ==> !Continues(s[n])
  {
    if s == [] then 0
    else if !Continues(s[0]) then 0
    else 1 + FirstStop(s[1..])
  }

  /**
   * What decoding `src` at width `w` yields: the value of the groups up to
   * and including the first terminating byte, truncated to the width,
   * together with the number of bytes read; TooBig when the first MaxLen(w)
   * bytes all continue; BadOffset at the end of the input when it runs out
   * first.
   */
  function Decode(src: seq<byte>, w: Width): (r: Result<(nat, nat)>)
    ensures r.Ok? ==> 1 <= r.value.1 <= |src| && r.value.1 <= MaxLen(w) && r.value.0 < Pow2(WidthBits(w))
    ensures r.Ok? ==> !Continues(src[r.value.1 - 1])
    ensures r.Err? && r.error.BadOffset? ==> r.error.offset == |src| < MaxLen(w)
    ensures r.Err? && r.error.TooBig? ==> r.error.len == |src| >= MaxLen(w)
  {
    var n := FirstStop(src);
    if n < MaxLen(w) && n < |src| then
      Ok((Groups(src[..n + 1]) % Pow2(WidthBits(w)), n + 1))
    else if MaxLen(w) <= n then
      Err(TooBig(Groups(src[..MaxLen(w)]) % Pow2(WidthBits(w)), |src|))
    else
      Err(BadOffset(|src|))
  }

  /**
   * The bytes the encoder writes for the unsigned pattern `u`: the first
   * carries the low seven bits of `u`, and continues exactly when bits
   * remain above them.
   */
  function Encode(u: nat): (e: seq<byte>)
    ensures |e| >= 1
    ensures Segment(e[0]) == u % 0x80
    ensures Continues(e[0]) <==> u >= 0x80
    decreases u
  {
    if u < 0x80 then [u] else [u % 0x80 + 0x80] + Encode(u / 0x80)
  }

  /**
   * What a write of `e` into a buffer holding `before` leaves: the count on
   * success, with the buffer past it untouched; otherwise BadOffset at the
   * buffer's length, with the whole buffer overwritten by a prefix of `e`.
   */
  ghost predicate WriteOutcome(e: seq<byte>, before: seq<byte>, after: seq<byte>, r: Result<nat>) {
    if |e| <= |before| then
      r == Ok(|e|) && after == e + before[|e|..]
    else
      r == Err(BadOffset(|before|)) && after == e[..|before|]
  }

  // ---------------------------------------------------------------------------
  // The decoding loop: try_from_ctx of VarInt and VarLong
  // ---------------------------------------------------------------------------

  /**
   * The loop of `try_from_ctx`: read a byte (BadOffset past the end), OR its
   * payload shifted by `byte_position` into `value` (bits shifted past the
   * width are lost), stop at a byte whose continuation bit is clear, and give
   * up with TooBig once `byte_position` reaches the width. `value` is the
   * unsigned bit pattern of the source's i32 or i64 accumulator.
   */
  method ReadGroups(src: seq<byte>, w: Width) returns (r: Result<(nat, nat)>)
    ensures r == Decode(src, w)
  {
    var bits := WidthBits(w);
    var value: nat := 0;
    var bytePosition: nat := 0;
    var offset: nat := 0;
    assert src[..0] == [];
    DivModUnique(0, 0, Pow2(bits), 0);
    while true
      invariant offset <= |src| && offset < MaxLen(w)
      invariant bytePosition == 7 * offset
      invariant forall j :: 0 <= j < offset ==> Continues(src[j])
      invariant value == Groups(src[..offset]) % Pow2(bits)
      decreases MaxLen(w) - offset
    {
      if offset >= |src| {
        DecodeRunsOut(src, w);
        return Err(BadOffset(offset));
      }
      var b := src[offset];
      AccumulateStep(src[..offset], b, w);
      assert src[..offset] + [b] == src[..offset + 1];
      value := Or(value, (Segment(b) * Pow2(bytePosition)) % Pow2(bits));
      offset := offset + 1;
      if !Continues(b) {
        DecodeStops(src, offset - 1, w);
        return Ok((value, offset));
      }
      bytePosition := bytePosition + 7;
      if bytePosition >= bits {
        assert offset == MaxLen(w);
        DecodeTooBig(src, w);
        return Err(TooBig(value, |src|));
      }
    }
  }

  /** The exit of the decoding loop at the end of an input whose bytes all continue. */
  lemma DecodeRunsOut(src: seq<byte>, w: Width)
    requires |src| < MaxLen(w)
    requires forall j :: 0 <= j < |src| ==> Continues(src[j])
    ensures Decode(src, w) == Err(BadOffset(|src|))
  {
    assert FirstStop(src) == |src|;
  }

  /** The exit of the decoding loop at the first byte that does not continue. */
  lemma DecodeStops(src: seq<byte>, n: nat, w: Width)
    requires n < |src| && n < MaxLen(w)
    requires forall j :: 0 <= j < n ==> Continues(src[j])
    requires !Continues(src[n])
    ensures Decode(src, w) == Ok((Groups(src[..n + 1]) % Pow2(WidthBits(w)), n + 1))
  {
    assert FirstStop(src) == n;
  }

  /** The exit of the decoding loop after MaxLen(w) continuing bytes. */
  lemma DecodeTooBig(src: seq<byte>, w: Width)
    requires MaxLen(w) <= |src|
    requires forall j :: 0 <= j < MaxLen(w) ==> Continues(src[j])
    ensures Decode(src, w) == Err(TooBig(Groups(src[..MaxLen(w)]) % Pow2(WidthBits(w)), |src|))
  {
    assert FirstStop(src) >= MaxLen(w);
  }

  /** `VarInt::try_from_ctx`: the loop at width 32, its pattern read back as an i32. */
  method ReadVarInt(src: seq<byte>) returns (r: Result<(VarInt, nat)>)
    ensures r == VarIntFrom(src)
  {
    var g := ReadGroups(src, W32);
    match g {
      case Ok((u, n)) => r := Ok((VarInt(AsSigned32(u)), n));
      case Err(e) => r := Err(e);
    }
  }

  /** `VarLong::try_from_ctx`: the loop at width 64, its pattern read back as an i64. */
  method ReadVarLong(src: seq<byte>) returns (r: Result<(VarLong, nat)>)
    ensures r == VarLongFrom(src)
  {
    var g := ReadGroups(src, W64);
    match g {
      case Ok((u, n)) => r := Ok((VarLong(AsSigned64(u)), n));
      case Err(e) => r := Err(e);
    }
  }

  // ---------------------------------------------------------------------------
  // The encoding loop: try_into_ctx of VarInt and VarLong
  // ---------------------------------------------------------------------------

  /**
   * The loop of `try_into_ctx`: while bits above the low seven remain
   * (`value & !0x7F != 0`), write the low seven bits with the continuation
   * bit set and shift right by 7; then write what is left. Each write is
   * bounds-checked and fails with BadOffset at the first index past the end
   * of `output`, leaving the bytes already written in place.
   */
  method WriteGroups(u: nat, output: array<byte>) returns (r: Result<nat>)
    modifies output
    ensures WriteOutcome(Encode(u), old(output[..]), output[..], r)
  {
    ghost var e := Encode(u);
    var value := u;
    var offset: nat := 0;
    while value >= 0x80
      invariant offset <= output.Length
      invariant e == output[..offset] + Encode(value)
      invariant output[offset..] == old(output[offset..])
      decreases value
    {
      if offset >= output.Length {
        WrittenPrefix(e, output[..], Encode(value));
        return Err(BadOffset(offset));
      }
      ghost var before := output[..];
      output[offset] := value % 0x80 + 0x80;
      ContinuationWritten(e, before, output[..], offset, value);
      offset := offset + 1;
      value := value / 0x80;
    }
    if offset >= output.Length {
      WrittenPrefix(e, output[..], Encode(value));
      return Err(BadOffset(offset));
    }
    ghost var before := output[..];
    output[offset] := value;
    LastWritten(e, before, output[..], offset, value);
    return Ok(offset + 1);
  }

  /** A buffer filled with the first bytes of an encoding, with bytes still to go, holds a proper prefix of it. */
  lemma WrittenPrefix(e: seq<byte>, written: seq<byte>, rest: seq<byte>)
    requires e == written + rest && |rest| >= 1
    ensures |e| > |written| && e[..|written|] == written
  {
  }

  /** Writing a continuation byte at `offset` extends the written prefix of the encoding by one byte. */
  lemma ContinuationWritten(e: seq<byte>, before: seq<byte>, after: seq<byte>, offset: nat, value: nat)
    requires value >= 0x80 && offset < |before|
    requires e == before[..offset] + Encode(value)
    requires after == before[offset := value % 0x80 + 0x80]
    ensures e == after[..offset + 1] + Encode(value / 0x80)
    ensures after[offset + 1..] == before[offset + 1..]
  {
    var b := value % 0x80 + 0x80;
    assert Encode(value) == [b] + Encode(value / 0x80);
    ByteWritten(e, before, after, offset, b, Encode(value / 0x80));
  }

  /** Overwriting index `offset` with the next byte `b` of `e` moves the written prefix one byte on. */
  lemma ByteWritten(e: seq<byte>, before: seq<byte>, after: seq<byte>, offset: nat, b: byte, tail: seq<byte>)
    requires offset < |before|
    requires e == before[..offset] + ([b] + tail)
    requires after == before[offset := b]
    ensures e == after[..offset + 1] + tail
    ensures after[offset + 1..] == before[offset + 1..]
  {
    assert after[..offset + 1] == before[..offset] + [b];
  }

  /** Writing the final byte at `offset` completes the encoding; the bytes after it are untouched. */
  lemma LastWritten(e: seq<byte>, before: seq<byte>, after: seq<byte>, offset: nat, value: nat)
    requires value < 0x80 && offset < |before|
    requires e == before[..offset] + Encode(value)
    requires after == before[offset := value]
    ensures |e| == offset + 1 && after == e + before[offset + 1..]
  {
    assert after == before[..offset] + [value] + before[offset + 1..];
  }

  /** `VarInt::try_into_ctx`: the loop on the u32 reinterpretation of the value. */
  method WriteVarInt(v: VarInt, output: array<byte>) returns (r: Result<nat>)
    modifies output
    ensures WriteOutcome(VarIntBytes(v), old(output[..]), output[..], r)
  {
    r := WriteGroups(AsUnsigned32(v.value), output);
  }

  /** `VarLong::try_into_ctx`: the loop on the u64 reinterpretation of the value. */
  method WriteVarLong(v: VarLong, output: array<byte>) returns (r: Result<nat>)
    modifies output
    ensures WriteOutcome(VarLongBytes(v), old(output[..]), output[..], r)
  {
    r := WriteGroups(AsUnsigned64(v.value), output);
  }

  // ---------------------------------------------------------------------------
  // Signed values and their bit patterns (to_ne_bytes / from_ne_bytes)
  // ---------------------------------------------------------------------------

  /** The u32 with the same bits as `v`. */
  function AsUnsigned32(v: i32): (u: nat)
    ensures u < 0x1_0000_0000
    ensures u % 0x8000_0000 == v % 0x8000_0000 && (u >= 0x8000_0000 <==> v < 0)
  {
    v % 0x1_0000_0000
  }

  /** The i32 with the same bits as the u32 `u`; anything above is cut off as in `value as i32`. */
  function AsSigned32(u: nat): i32 {
    var low := u % 0x1_0000_0000;
    if low < 0x8000_0000 then low else low - 0x1_0000_0000
  }

  /** The u64 with the same bits as `v`. */
  function AsUnsigned64(v: i64): (u: nat)
    ensures u < 0x1_0000_0000_0000_0000
    ensures u % 0x8000_0000_0000_0000 == v % 0x8000_0000_0000_0000 && (u >= 0x8000_0000_0000_0000 <==> v < 0)
  {
    v % 0x1_0000_0000_0000_0000
  }

  /** The i64 with the same bits as the u64 `u`. */
  function AsSigned64(u: nat): i64 {
    var low := u % 0x1_0000_0000_0000_0000;
    if low < 0x8000_0000_0000_0000 then low else low - 0x1_0000_0000_0000_0000
  }

  /** The bytes `VarInt::try_into_ctx` writes for `v`. */
  function VarIntBytes(v: VarInt): seq<byte> {
    Encode(AsUnsigned32(v.value))
  }

  /** The bytes `VarLong::try_into_ctx` writes for `v`. */
  function VarLongBytes(v: VarLong): seq<byte> {
    Encode(AsUnsigned64(v.value))
  }

  /** What `VarInt::try_from_ctx` returns for `src`. */
  function VarIntFrom(src: seq<byte>): Result<(VarInt, nat)> {
    match Decode(src, W32)
    case Ok((u, n)) => Ok((VarInt(AsSigned32(u)), n))
    case Err(e) => Err(e)
  }

  /** What `VarLong::try_from_ctx` returns for `src`. */
  function VarLongFrom(src: seq<byte>): Result<(VarLong, nat)> {
    match Decode(src, W64)
    case Ok((u, n)) => Ok((VarLong(AsSigned64(u)), n))
    case Err(e) => Err(e)
  }

  // ---------------------------------------------------------------------------
  // Lemmas about the accumulator of the decoding loop
  // ---------------------------------------------------------------------------

  /** Appending a byte adds its payload at the next group position. */
  lemma {:induction false} GroupsAppend(s: seq<byte>, b: byte)
    ensures Groups(s + [b]) == Groups(s) + Segment(b) * Pow2(7 * |s|)
  {
    if s == [] {
      assert [b][1..] == [];
    } else {
      var t := s[1..];
      assert (s + [b])[1..] == t + [b];
      GroupsAppend(t, b);
      var g, d, low := Groups(t), Segment(b), Pow2(7 * |t|);
      Pow2Add(7, 7 * |t|);
      Pow2Small();
      assert Pow2(7 * |s|) == 0x80 * low;
      MulIntoSum(0x80, g, d, low);
    }
  }

  /** k groups of seven bits stay below 2^(7k). */
  lemma {:induction false} GroupsBound(s: seq<byte>)
    ensures Groups(s) < Pow2(7 * |s|)
  {
    if s != [] {
      GroupsBound(s[1..]);
      Pow2Add(7, 7 * (|s| - 1));
      assert Pow2(7) == 0x80;
    }
  }

  /**
   * One iteration of the decoding loop: OR-ing the shifted, truncated payload
   * of the next byte into the truncated groups read so far gives the
   * truncated groups of one more byte.
   */
  lemma AccumulateStep(s: seq<byte>, b: byte, w: Width)
    requires |s| < MaxLen(w)
    ensures Or(Groups(s) % Pow2(WidthBits(w)), (Segment(b) * Pow2(7 * |s|)) % Pow2(WidthBits(w)))
         == Groups(s + [b]) % Pow2(WidthBits(w))
  {
    GroupsBound(s);
    GroupsAppend(s, b);
    OrShiftedMod(Groups(s), Segment(b), 7 * |s|, WidthBits(w));
  }

  // ---------------------------------------------------------------------------
  // Properties of the encoding
  // ---------------------------------------------------------------------------

  /**
   * The shape of an encoding: at least one byte, every byte but the last has
   * the continuation bit set, the last has it clear.
   */
  lemma {:induction false} EncodeShape(u: nat)
    ensures |Encode(u)| >= 1
    ensures forall i :: 0 <= i < |Encode(u)| - 1 ==> Continues(Encode(u)[i])
    ensures !Continues(Encode(u)[|Encode(u)| - 1])
    decreases u
  {
    if u >= 0x80 {
      EncodeShape(u / 0x80);
    }
  }

  /** The payload of byte i is bits 7i .. 7i+6 of the encoded value. */
  lemma {:induction false} EncodeSegments(u: nat, i: nat)
    requires i < |Encode(u)|
    ensures Segment(Encode(u)[i]) == (u / Pow2(7 * i)) % 0x80
    decreases u
  {
    if i > 0 {
      EncodeSegments(u / 0x80, i - 1);
      Pow2Add(7, 7 * (i - 1));
      assert Pow2(7) == 0x80;
      DivDiv(u, 0x80, Pow2(7 * (i - 1)));
    }
  }

  /** The groups of an encoding are the encoded value. */
  lemma {:induction false} EncodeGroups(u: nat)
    ensures Groups(Encode(u)) == u
    decreases u
  {
    if u >= 0x80 {
      EncodeGroups(u / 0x80);
      assert Encode(u)[1..] == Encode(u / 0x80);
    }
  }

  /**
   * The encoding is minimal: it fits in k >= 1 bytes exactly when the value
   * is below 128^k. So 0 .. 127 take one byte, and the length is the least
   * k >= 1 with u < 128^k.
   */
  lemma {:induction false} EncodeLengthMinimal(u: nat, k: nat)
    requires k >= 1
    ensures |Encode(u)| <= k <==> u < Pow2(7 * k)
    decreases u
  {
    Pow2Add(7, 7 * (k - 1));
    assert Pow2(7) == 0x80;
    if u >= 0x80 {
      if k == 1 {
      } else {
        EncodeLengthMinimal(u / 0x80, k - 1);
        assert |Encode(u)| == 1 + |Encode(u / 0x80)|;
        DivBelow(u, 0x80, Pow2(7 * (k - 1)));
      }
    } else {
      Pow2Monotone(7, 7 * k);
    }
  }

  /** A value of width w encodes in 1 to MaxLen(w) bytes: 1..5 for a VarInt, 1..10 for a VarLong. */
  lemma EncodeLengthBounds(u: nat, w: Width)
    requires u < Pow2(WidthBits(w))
    ensures 1 <= |Encode(u)| <= MaxLen(w)
  {
    EncodeShape(u);
    Pow2Monotone(WidthBits(w), 7 * MaxLen(w));
    EncodeLengthMinimal(u, MaxLen(w));
  }

  // ---------------------------------------------------------------------------
  // Properties of decoding
  // ---------------------------------------------------------------------------

  /**
   * Decoding what the encoder wrote gives the value back, and reports as
   * read exactly the bytes written, whatever follows them.
   */
  lemma DecodeEncode(u: nat, w: Width, rest: seq<byte>)
    requires u < Pow2(WidthBits(w))
    ensures Decode(Encode(u) + rest, w) == Ok((u, |Encode(u)|))
  {
    var e := Encode(u);
    var src := e + rest;
    EncodeLengthBounds(u, w);
    FirstStopOfEncoding(u, rest);
    assert src[..|e|] == e;
    EncodeGroups(u);
    DivModUnique(u, 0, Pow2(WidthBits(w)), u);
  }

  /** Decoding an encoding followed by anything stops at the encoding's last byte. */
  lemma {:induction false} FirstStopOfEncoding(u: nat, rest: seq<byte>)
    ensures FirstStop(Encode(u) + rest) == |Encode(u)| - 1
    decreases u
  {
    if u >= 0x80 {
      FirstStopOfEncoding(u / 0x80, rest);
      assert (Encode(u) + rest)[1..] == Encode(u / 0x80) + rest;
    }
  }

  /**
   * Decoding stops at the first byte with the continuation bit clear and
   * counts it: on success every byte before the count-th continues, the
   * count-th does not, and the count is at most MaxLen(w). TooBig exactly
   * when the first MaxLen(w) bytes are all present and all continue;
   * BadOffset at the input's length exactly when it ends, continuing, before
   * that.
   */
  lemma DecodeOutcomes(src: seq<byte>, w: Width)
    ensures Decode(src, w).Ok? ==>
      var n := Decode(src, w).value.1;
      1 <= n <= MaxLen(w) && n <= |src| && !Continues(src[n - 1]) &&
      (forall j :: 0 <= j < n - 1 ==> Continues(src[j])) &&
      Decode(src, w).value.0 < Pow2(WidthBits(w))
    ensures (Decode(src, w).Err? && Decode(src, w).error.TooBig?) <==>
      |src| >= MaxLen(w) && forall j :: 0 <= j < MaxLen(w) ==> Continues(src[j])
    ensures Decode(src, w) == Err(BadOffset(|src|)) <==>
      |src| < MaxLen(w) && forall j :: 0 <= j < |src| ==> Continues(src[j])
  {
    var n := FirstStop(src);
    if |src| >= MaxLen(w) && forall j :: 0 <= j < MaxLen(w) ==> Continues(src[j]) {
      assert n >= MaxLen(w);
    }
    if |src| < MaxLen(w) && forall j :: 0 <= j < |src| ==> Continues(src[j]) {
      assert n == |src|;
    }
  }

  /**
   * Decoding never looks past the terminating byte: once it succeeds on
   * `src`, it gives the same answer on the bytes it read followed by
   * anything else.
   */
  lemma DecodeReadsOnlyPrefix(src: seq<byte>, w: Width, rest: seq<byte>)
    requires Decode(src, w).Ok?
    ensures var n := Decode(src, w).value.1;
            n <= |src| && Decode(src[..n] + rest, w) == Decode(src, w)
  {
    var n := FirstStop(src) + 1;
    var src' := src[..n] + rest;
    assert src'[..n] == src[..n];
    assert FirstStop(src') == n - 1 by {
      assert forall j :: 0 <= j < n ==> src'[j] == src[j];
    }
  }

  /**
   * Bits shifted past the width are dropped: in an input whose first
   * MaxLen(w) - 1 bytes continue and whose next byte ends it, only the low
   * WidthBits(w) - 7 * (MaxLen(w) - 1) bits of that last byte reach the
   * result; 4 bits for a VarInt, 1 bit for a VarLong.
   */
  lemma LastGroupTruncated(init: seq<byte>, b: byte, w: Width)
    requires |init| == MaxLen(w) - 1
    requires forall j :: 0 <= j < |init| ==> Continues(init[j])
    requires !Continues(b)
    ensures Decode(init + [b], w)
         == Ok((Groups(init) + (b % Pow2(WidthBits(w) - 7 * |init|)) * Pow2(7 * |init|), |init| + 1))
  {
    var p := 7 * |init|;
    var q := WidthBits(w) - p;
    var src := init + [b];
    FirstStopOfTerminated(init, b);
    assert src[..|init| + 1] == src;
    GroupsAppend(init, b);
    GroupsBound(init);
    ShiftedMod(Groups(init), Segment(b), p, q);
    ModOfSmallerPow2(b, q);
    assert Groups(src) % Pow2(WidthBits(w)) == Groups(init) + (b % Pow2(q)) * Pow2(p);
  }

  /** A run of continuing bytes ended by one that does not stops decoding at that byte. */
  lemma {:induction false} FirstStopOfTerminated(init: seq<byte>, b: byte)
    requires forall j :: 0 <= j < |init| ==> Continues(init[j])
    requires !Continues(b)
    ensures FirstStop(init + [b]) == |init|
  {
    if init != [] {
      assert (init + [b])[1..] == init[1..] + [b];
      FirstStopOfTerminated(init[1..], b);
    }
  }

  /** For q <= 7, the low q bits of a byte are the low q bits of its payload. */
  lemma ModOfSmallerPow2(b: byte, q: nat)
    requires q <= 7
    ensures Segment(b) % Pow2(q) == b % Pow2(q)
  {
    Pow2Add(q, 7 - q);
    assert Pow2(7) == 0x80;
    ModOfMultipleModulus(b, Pow2(q), Pow2(7 - q));
  }

  // ---------------------------------------------------------------------------
  // Properties of VarInt and VarLong
  // ---------------------------------------------------------------------------

  /** Reinterpreting the bits of an i32 as a u32 and back is the identity, both ways. */
  lemma SignedUnsigned32(v: i32, u: nat)
    requires u < 0x1_0000_0000
    ensures AsSigned32(AsUnsigned32(v)) == v
    ensures AsUnsigned32(AsSigned32(u)) == u
  {
  }

  /** Reinterpreting the bits of an i64 as a u64 and back is the identity, both ways. */
  lemma SignedUnsigned64(v: i64, u: nat)
    requires u < 0x1_0000_0000_0000_0000
    ensures AsSigned64(AsUnsigned64(v)) == v
    ensures AsUnsigned64(AsSigned64(u)) == u
  {
  }

  /**
   * A VarInt takes 1 to 5 bytes; a negative one, whose sign bit is set,
   * always takes all 5, and the non-negative ones below 2^(7k) take at most k.
   */
  lemma VarIntLength(v: VarInt)
    ensures 1 <= |VarIntBytes(v)| <= 5
    ensures v.value < 0 ==> |VarIntBytes(v)| == 5
    ensures forall k: nat :: 1 <= k && 0 <= v.value < Pow2(7 * k) ==> |VarIntBytes(v)| <= k
  {
    var u := AsUnsigned32(v.value);
    Pow2Of32();
    EncodeLengthBounds(u, W32);
    if v.value < 0 {
      Pow2Of31();
      Pow2Monotone(28, 31);
      EncodeLengthMinimal(u, 4);
    }
    if v.value >= 0 {
      assert u == v.value;
    }
    forall k: nat | 1 <= k && 0 <= v.value < Pow2(7 * k)
      ensures |VarIntBytes(v)| <= k
    {
      EncodeLengthMinimal(u, k);
    }
  }

  /**
   * A VarLong takes 1 to 10 bytes; a negative one always takes all 10, and
   * the non-negative ones below 2^(7k) take at most k.
   */
  lemma VarLongLength(v: VarLong)
    ensures 1 <= |VarLongBytes(v)| <= 10
    ensures v.value < 0 ==> |VarLongBytes(v)| == 10
    ensures forall k: nat :: 1 <= k && 0 <= v.value < Pow2(7 * k) ==> |VarLongBytes(v)| <= k
  {
    var u := AsUnsigned64(v.value);
    Pow2Of64();
    EncodeLengthBounds(u, W64);
    if v.value < 0 {
      Pow2Of63();
      EncodeLengthMinimal(u, 9);
    }
    if v.value >= 0 {
      assert u == v.value;
    }
    forall k: nat | 1 <= k && 0 <= v.value < Pow2(7 * k)
      ensures |VarLongBytes(v)| <= k
    {
      EncodeLengthMinimal(u, k);
    }
  }

  /**
   * Reading back what was written for a VarInt gives the same VarInt and
   * consumes exactly the bytes written, whatever follows them.
   */
  lemma VarIntRoundTrip(v: VarInt, rest: seq<byte>)
    ensures VarIntFrom(VarIntBytes(v) + rest) == Ok((v, |VarIntBytes(v)|))
  {
    var u := AsUnsigned32(v.value);
    Pow2Of32();
    DecodeEncode(u, W32, rest);
    var n: nat := |VarIntBytes(v)|;
    assert Decode(VarIntBytes(v) + rest, W32) == Ok((u, n));
    SignedUnsigned32(v.value, u);
  }

  /**
   * Reading back what was written for a VarLong gives the same VarLong and
   * consumes exactly the bytes written, whatever follows them.
   */
  lemma VarLongRoundTrip(v: VarLong, rest: seq<byte>)
    ensures VarLongFrom(VarLongBytes(v) + rest) == Ok((v, |VarLongBytes(v)|))
  {
    var u := AsUnsigned64(v.value);
    Pow2Of64();
    DecodeEncode(u, W64, rest);
    var n: nat := |VarLongBytes(v)|;
    assert Decode(VarLongBytes(v) + rest, W64) == Ok((u, n));
    SignedUnsigned64(v.value, u);
  }

  /**
   * Writing a VarInt into a buffer and reading the buffer back: a write that
   * succeeds with count n is read back as the same VarInt with count n.
   */
  lemma WriteThenReadVarInt(v: VarInt, before: seq<byte>, after: seq<byte>, r: Result<nat>)
    requires WriteOutcome(VarIntBytes(v), before, after, r) && r.Ok?
    ensures VarIntFrom(after) == Ok((v, r.value))
  {
    VarIntRoundTrip(v, before[|VarIntBytes(v)|..]);
  }

  /**
   * Writing a VarLong into a buffer and reading the buffer back: a write that
   * succeeds with count n is read back as the same VarLong with count n.
   */
  lemma WriteThenReadVarLong(v: VarLong, before: seq<byte>, after: seq<byte>, r: Result<nat>)
    requires WriteOutcome(VarLongBytes(v), before, after, r) && r.Ok?
    ensures VarLongFrom(after) == Ok((v, r.value))
  {
    VarLongRoundTrip(v, before[|VarLongBytes(v)|..]);
  }

  /**
   * The decoder does not insist on the shortest form: zero padded with k
   * empty continuation groups (k 0x80 bytes, then 0x00) is accepted whenever
   * it fits the width, and reported as k + 1 bytes read, so distinct inputs
   * decode to the same value.
   */
  lemma OverlongZeroAccepted(k: nat, w: Width)
    requires k < MaxLen(w)
    ensures var r := Decode(seq(k, _ => 0x80) + [0x00], w);
            r.Ok? && r.value.0 == 0 && r.value.1 == k + 1
  {
    var pad: seq<byte> := seq(k, _ => 0x80);
    var src := pad + [0x00];
    FirstStopOfTerminated(pad, 0x00);
    assert src[..k + 1] == src;
    GroupsOfEmptyGroups(src);
  }

  /** The shortest overlong VarInt: [0x80, 0x00] reads as 0 with two bytes. */
  lemma OverlongAccepted()
    ensures VarIntFrom([0x80, 0x00]) == Ok((VarInt(0), 2))
  {
    OverlongZeroAccepted(1, W32);
    assert seq(1, _ => 0x80) + [0x00] == [0x80, 0x00];
  }

  /** Bytes with no payload bits make the number zero. */
  lemma {:induction false} GroupsOfEmptyGroups(s: seq<byte>)
    requires forall j :: 0 <= j < |s| ==> Segment(s[j]) == 0
    ensures Groups(s) == 0
  {
    if s != [] {
      GroupsOfEmptyGroups(s[1..]);
    }
  }

  /** One unfolding of the encoder, for evaluating it on literals a byte at a time. */
  lemma EncodeCons(u: nat, tail: seq<byte>)
    requires u >= 0x80 && Encode(u / 0x80) == tail
    ensures Encode(u) == [u % 0x80 + 0x80] + tail
  {
  }

  /** A row of a write table read back: the bytes written for v decode to v. */
  lemma VarIntReadRow(v: VarInt, bytes: seq<byte>)
    requires VarIntBytes(v) == bytes
    ensures VarIntFrom(bytes) == Ok((v, |bytes|))
  {
    VarIntRoundTrip(v, []);
    assert bytes + [] == bytes;
  }

  /** A row of a write table read back: the bytes written for v decode to v. */
  lemma VarLongReadRow(v: VarLong, bytes: seq<byte>)
    requires VarLongBytes(v) == bytes
    ensures VarLongFrom(bytes) == Ok((v, |bytes|))
  {
    VarLongRoundTrip(v, []);
    assert bytes + [] == bytes;
  }

  /** The bytes written for the non-negative rows of the VarInt table of the protocol documentation. */
  lemma VarIntWriteVectors()
    ensures VarIntBytes(VarInt(0)) == [0x00]
    ensures VarIntBytes(VarInt(1)) == [0x01]
    ensures VarIntBytes(VarInt(2)) == [0x02]
    ensures VarIntBytes(VarInt(127)) == [0x7f]
    ensures VarIntBytes(VarInt(128)) == [0x80, 0x01]
    ensures VarIntBytes(VarInt(255)) == [0xff, 0x01]
    ensures VarIntBytes(VarInt(25565)) == [0xdd, 0xc7, 0x01]
    ensures VarIntBytes(VarInt(2097151)) == [0xff, 0xff, 0x7f]
    ensures VarIntBytes(VarInt(2147483647)) == [0xff, 0xff, 0xff, 0xff, 0x07]
  {
    EncodeCons(0x80, [0x01]);
    EncodeCons(0xff, [0x01]);
    EncodeCons(0xc7, [0x01]);
    EncodeCons(0x63dd, [0xc7, 0x01]);
    EncodeCons(0x3fff, [0x7f]);
    EncodeCons(0x1fffff, [0xff, 0x7f]);
    EncodeCons(0x3ff, [0x07]);
    EncodeCons(0x1ffff, [0xff, 0x07]);
    EncodeCons(0xffffff, [0xff, 0xff, 0x07]);
    EncodeCons(0x7fffffff, [0xff, 0xff, 0xff, 0x07]);
  }

  /** The bytes written for the negative rows of the VarInt table: every negative VarInt takes five bytes. */
  lemma VarIntWriteVectorsNegative()
    ensures VarIntBytes(VarInt(-1)) == [0xff, 0xff, 0xff, 0xff, 0x0f]
    ensures VarIntBytes(VarInt(-2147483648)) == [0x80, 0x80, 0x80, 0x80, 0x08]
  {
    assert AsUnsigned32(-1) == 0xffffffff;
    EncodeCons(0x7ff, [0x0f]);
    EncodeCons(0x3ffff, [0xff, 0x0f]);
    EncodeCons(0x1ffffff, [0xff, 0xff, 0x0f]);
    EncodeCons(0xffffffff, [0xff, 0xff, 0xff, 0x0f]);
    assert AsUnsigned32(-2147483648) == 0x80000000;
    EncodeCons(0x400, [0x08]);
    EncodeCons(0x20000, [0x80, 0x08]);
    EncodeCons(0x1000000, [0x80, 0x80, 0x08]);
    EncodeCons(0x80000000, [0x80, 0x80, 0x80, 0x08]);
  }

  /** The bytes written for the non-negative rows of the VarLong table of the protocol documentation. */
  lemma VarLongWriteVectors()
    ensures VarLongBytes(VarLong(0)) == [0x00]
    ensures VarLongBytes(VarLong(1)) == [0x01]
    ensures VarLongBytes(VarLong(2)) == [0x02]
    ensures VarLongBytes(VarLong(127)) == [0x7f]
    ensures VarLongBytes(VarLong(128)) == [0x80, 0x01]
    ensures VarLongBytes(VarLong(255)) == [0xff, 0x01]
    ensures VarLongBytes(VarLong(2147483647)) == [0xff, 0xff, 0xff, 0xff, 0x07]
    ensures VarLongBytes(VarLong(9223372036854775807)) == [0xff, 0xff, 0xff, 0xff, 0xff, 0xff, 0xff, 0xff, 0x7f]
  {
    EncodeCons(0x80, [0x01]);
    EncodeCons(0xff, [0x01]);
    EncodeCons(0x3ff, [0x07]);
    EncodeCons(0x1ffff, [0xff, 0x07]);
    EncodeCons(0xffffff, [0xff, 0xff, 0x07]);
    EncodeCons(0x7fffffff, [0xff, 0xff, 0xff, 0x07]);
    EncodeCons(0x3fff, [0x7f]);
    EncodeCons(0x1fffff, [0xff, 0x7f]);
    EncodeCons(0xfffffff, [0xff, 0xff, 0x7f]);
    EncodeCons(0x7ffffffff, [0xff, 0xff, 0xff, 0x7f]);
    EncodeCons(0x3ffffffffff, [0xff, 0xff, 0xff, 0xff, 0x7f]);
    EncodeCons(0x1ffffffffffff, [0xff, 0xff, 0xff, 0xff, 0xff, 0x7f]);
    EncodeCons(0xffffffffffffff, [0xff, 0xff, 0xff, 0xff, 0xff, 0xff, 0x7f]);
    EncodeCons(0x7fffffffffffffff, [0xff, 0xff, 0xff, 0xff, 0xff, 0xff, 0xff, 0x7f]);
  }

  /** The bytes written for the VarLong -1: ten bytes, all 64 bits set. */
  lemma VarLongWriteMinusOne()
    ensures VarLongBytes(VarLong(-1)) == [0xff, 0xff, 0xff, 0xff, 0xff, 0xff, 0xff, 0xff, 0xff, 0x01]
  {
    assert AsUnsigned64(-1) == 0xffffffffffffffff;
    EncodeCons(0xff, [0x01]);
    EncodeCons(0x7fff, [0xff, 0x01]);
    EncodeCons(0x3fffff, [0xff, 0xff, 0x01]);
    EncodeCons(0x1fffffff, [0xff, 0xff, 0xff, 0x01]);
    EncodeCons(0xfffffffff, [0xff, 0xff, 0xff, 0xff, 0x01]);
    EncodeCons(0x7ffffffffff, [0xff, 0xff, 0xff, 0xff, 0xff, 0x01]);
    EncodeCons(0x3ffffffffffff, [0xff, 0xff, 0xff, 0xff, 0xff, 0xff, 0x01]);
    EncodeCons(0x1ffffffffffffff, [0xff, 0xff, 0xff, 0xff, 0xff, 0xff, 0xff, 0x01]);
    EncodeCons(0xffffffffffffffff, [0xff, 0xff, 0xff, 0xff, 0xff, 0xff, 0xff, 0xff, 0x01]);
  }

  /** The bytes written for the VarLong -2^31: ten bytes. */
  lemma VarLongWriteMinInt()
    ensures VarLongBytes(VarLong(-2147483648)) == [0x80, 0x80, 0x80, 0x80, 0xf8, 0xff, 0xff, 0xff, 0xff, 0x01]
  {
    assert AsUnsigned64(-2147483648) == 0xffffffff80000000;
    EncodeCons(0xff, [0x01]);
    EncodeCons(0x7fff, [0xff, 0x01]);
    EncodeCons(0x3fffff, [0xff, 0xff, 0x01]);
    EncodeCons(0x1fffffff, [0xff, 0xff, 0xff, 0x01]);
    EncodeCons(0xffffffff8, [0xff, 0xff, 0xff, 0xff, 0x01]);
    EncodeCons(0x7fffffffc00, [0xf8, 0xff, 0xff, 0xff, 0xff, 0x01]);
    EncodeCons(0x3fffffffe0000, [0x80, 0xf8, 0xff, 0xff, 0xff, 0xff, 0x01]);
    EncodeCons(0x1ffffffff000000, [0x80, 0x80, 0xf8, 0xff, 0xff, 0xff, 0xff, 0x01]);
    EncodeCons(0xffffffff80000000, [0x80, 0x80, 0x80, 0xf8, 0xff, 0xff, 0xff, 0xff, 0x01]);
  }

  /** The bytes written for the VarLong -2^63: ten bytes, only the sign bit set. */
  lemma VarLongWriteMinLong()
    ensures VarLongBytes(VarLong(-9223372036854775808)) == [0x80, 0x80, 0x80, 0x80, 0x80, 0x80, 0x80, 0x80, 0x80, 0x01]
  {
    assert AsUnsigned64(-9223372036854775808) == 0x8000000000000000;
    EncodeCons(0x80, [0x01]);
    EncodeCons(0x4000, [0x80, 0x01]);
    EncodeCons(0x200000, [0x80, 0x80, 0x01]);
    EncodeCons(0x10000000, [0x80, 0x80, 0x80, 0x01]);
    EncodeCons(0x800000000, [0x80, 0x80, 0x80, 0x80, 0x01]);
    EncodeCons(0x40000000000, [0x80, 0x80, 0x80, 0x80, 0x80, 0x01]);
    EncodeCons(0x2000000000000, [0x80, 0x80, 0x80, 0x80, 0x80, 0x80, 0x01]);
    EncodeCons(0x100000000000000, [0x80, 0x80, 0x80, 0x80, 0x80, 0x80, 0x80, 0x01]);
    EncodeCons(0x8000000000000000, [0x80, 0x80, 0x80, 0x80, 0x80, 0x80, 0x80, 0x80, 0x01]);
  }

  /** Reading each row of the VarInt table gives its value and consumes all of its bytes. */
  lemma VarIntReadVectors()
    ensures VarIntFrom([0x00]) == Ok((VarInt(0), 1))
    ensures VarIntFrom([0x01]) == Ok((VarInt(1), 1))
    ensures VarIntFrom([0x02]) == Ok((VarInt(2), 1))
    ensures VarIntFrom([0x7f]) == Ok((VarInt(127), 1))
    ensures VarIntFrom([0x80, 0x01]) == Ok((VarInt(128), 2))
    ensures VarIntFrom([0xff, 0x01]) == Ok((VarInt(255), 2))
    ensures VarIntFrom([0xdd, 0xc7, 0x01]) == Ok((VarInt(25565), 3))
    ensures VarIntFrom([0xff, 0xff, 0x7f]) == Ok((VarInt(2097151), 3))
    ensures VarIntFrom([0xff, 0xff, 0xff, 0xff, 0x07]) == Ok((VarInt(2147483647), 5))
    ensures VarIntFrom([0xff, 0xff, 0xff, 0xff, 0x0f]) == Ok((VarInt(-1), 5))
    ensures VarIntFrom([0x80, 0x80, 0x80, 0x80, 0x08]) == Ok((VarInt(-2147483648), 5))
  {
    VarIntWriteVectors();
    VarIntWriteVectorsNegative();
    VarIntReadRow(VarInt(0), [0x00]);
    VarIntReadRow(VarInt(1), [0x01]);
    VarIntReadRow(VarInt(2), [0x02]);
    VarIntReadRow(VarInt(127), [0x7f]);
    VarIntReadRow(VarInt(128), [0x80, 0x01]);
    VarIntReadRow(VarInt(255), [0xff, 0x01]);
    VarIntReadRow(VarInt(25565), [0xdd, 0xc7, 0x01]);
    VarIntReadRow(VarInt(2097151), [0xff, 0xff, 0x7f]);
    VarIntReadRow(VarInt(2147483647), [0xff, 0xff, 0xff, 0xff, 0x07]);
    VarIntReadRow(VarInt(-1), [0xff, 0xff, 0xff, 0xff, 0x0f]);
    VarIntReadRow(VarInt(-2147483648), [0x80, 0x80, 0x80, 0x80, 0x08]);
  }

  /** Reading each row of the VarLong table gives its value and consumes all of its bytes. */
  lemma VarLongReadVectors()
    ensures VarLongFrom([0x00]) == Ok((VarLong(0), 1))
    ensures VarLongFrom([0x01]) == Ok((VarLong(1), 1))
    ensures VarLongFrom([0x02]) == Ok((VarLong(2), 1))
    ensures VarLongFrom([0x7f]) == Ok((VarLong(127), 1))
    ensures VarLongFrom([0x80, 0x01]) == Ok((VarLong(128), 2))
    ensures VarLongFrom([0xff, 0x01]) == Ok((VarLong(255), 2))
    ensures VarLongFrom([0xff, 0xff, 0xff, 0xff, 0x07]) == Ok((VarLong(2147483647), 5))
    ensures VarLongFrom([0xff, 0xff, 0xff, 0xff, 0xff, 0xff, 0xff, 0xff, 0x7f]) == Ok((VarLong(9223372036854775807), 9))
    ensures VarLongFrom([0xff, 0xff, 0xff, 0xff, 0xff, 0xff, 0xff, 0xff, 0xff, 0x01]) == Ok((VarLong(-1), 10))
    ensures VarLongFrom([0x80, 0x80, 0x80, 0x80, 0xf8, 0xff, 0xff, 0xff, 0xff, 0x01]) == Ok((VarLong(-2147483648), 10))
    ensures VarLongFrom([0x80, 0x80, 0x80, 0x80, 0x80, 0x80, 0x80, 0x80, 0x80, 0x01]) == Ok((VarLong(-9223372036854775808), 10))
  {
    VarLongWriteVectors();
    VarLongWriteMinusOne();
    VarLongWriteMinInt();
    VarLongWriteMinLong();
    VarLongReadRow(VarLong(0), [0x00]);
    VarLongReadRow(VarLong(1), [0x01]);
    VarLongReadRow(VarLong(2), [0x02]);
    VarLongReadRow(VarLong(127), [0x7f]);
    VarLongReadRow(VarLong(128), [0x80, 0x01]);
    VarLongReadRow(VarLong(255), [0xff, 0x01]);
    VarLongReadRow(VarLong(2147483647), [0xff, 0xff, 0xff, 0xff, 0x07]);
    VarLongReadRow(VarLong(9223372036854775807), [0xff, 0xff, 0xff, 0xff, 0xff, 0xff, 0xff, 0xff, 0x7f]);
    VarLongReadRow(VarLong(-1), [0xff, 0xff, 0xff, 0xff, 0xff, 0xff, 0xff, 0xff, 0xff, 0x01]);
    VarLongReadRow(VarLong(-2147483648), [0x80, 0x80, 0x80, 0x80, 0xf8, 0xff, 0xff, 0xff, 0xff, 0x01]);
    VarLongReadRow(VarLong(-9223372036854775808), [0x80, 0x80, 0x80, 0x80, 0x80, 0x80, 0x80, 0x80, 0x80, 0x01]);
  }

  /**
   * Decoding never reads past MaxLen(w) bytes: when those all continue, the
   * result is TooBig with their truncated value and the length of the whole
   * input, whatever follows.
   */
  lemma TooBigIgnoresRest(s: seq<byte>, w: Width, rest: seq<byte>)
    requires |s| == MaxLen(w)
    requires forall j :: 0 <= j < |s| ==> Continues(s[j])
    ensures Decode(s + rest, w) == Err(TooBig(Groups(s) % Pow2(WidthBits(w)), |s| + |rest|))
  {
    var src := s + rest;
    assert src[..|s|] == s;
    assert forall j :: 0 <= j < |s| ==> src[j] == s[j];
  }
}
