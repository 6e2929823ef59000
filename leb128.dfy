/** Unsigned LEB128 encoding of 32-bit values (the `leb128` package).

    The encoder shifts with `>>>` and masks with `&`, which act on unsigned
    32-bit integers; the decoder combines digits with `|` and `<<`, which act
    on SIGNED 32-bit integers, so a decoded word with bit 31 set is negative
    and is rejected by the source's `value < 0` test. Both are modelled on
    `bv32`, with the sign read off bit 31. */
module Leb128 {
  import opened Common

  type u32 = bv32

  /** The encoding: 7-bit groups, least significant first; every byte but the
      last carries the continuation bit 0x80. */
  function Uleb128(v: u32): seq<byte>
    decreases v
  {
    if v >> 7 == 0 then [v as byte] else [((v & 0x7f) | 0x80) as byte] + Uleb128(v >> 7)
  }

  /** `encodeU32`: the loop pushes one group per round while `value >>> 7`
      is not zero, then the remaining group. */
  method EncodeU32(value: u32) returns (r: seq<byte>)
    ensures r == Uleb128(value)
    ensures 1 <= |r| <= 5 && r[|r| - 1] < 0x80
    ensures forall i :: 0 <= i < |r| - 1 ==> r[i] >= 0x80
  {
    var valueArray: seq<byte> := [];
    var v := value;
    while v >> 7 != 0
      invariant valueArray + Uleb128(v) == Uleb128(value)
      decreases v
    {
      var b := ((v & 0x7f) | 0x80) as byte;
      assert (valueArray + [b]) + Uleb128(v >> 7) == Uleb128(value) by {
        UlebCons(v);
        assert (valueArray + [b]) + Uleb128(v >> 7) == valueArray + ([b] + Uleb128(v >> 7));
      }
      valueArray := valueArray + [b];
      v := v >> 7;
    }
    r := valueArray + [v as byte];
    assert r == Uleb128(value) by {
      UlebCons(v);
    }
    EncodingShape(value);
    EncodingLength(value);
  }

  /** The three ways `decodeU32` throws. */
  datatype LebError = IndexOverflow | Overflow | UnexpectedZeroDigit

  /** How a digit is combined into the running value: `Int32` is the source's
      signed 32-bit `|`/`<<` (a word with bit 31 set reads as negative and
      throws), `Exact` is unbounded arithmetic with the `MAX_UINT_32` bound
      (bits that do not fit in 32 throw). */
  datatype Arith = Int32 | Exact

  /** What one round of the loop does with the byte it read: throw or return
      (`Stop`), or go on with the new running value (`Next`). */
  datatype Round = Stop(result: Result<u32, LebError>) | Next(value: bv32)

  /** One round of the `decodeU32` loop: the byte `x` is combined into `value`
      at `shift`. */
  function Step(mode: Arith, x: byte, shift: bv32, value: bv32): Round
    requires shift < 32
  {
    var digit := (x as bv32) & 0x7f;
    var v := value | (digit << shift);
    var overflow := match mode
      case Int32 => v >= 0x8000_0000
      case Exact => shift == 28 && digit >> 4 != 0;
    if overflow then Stop(Err(Overflow))
    else if digit == x as bv32 then
      (if shift > 0 && digit == 0 then Stop(Err(UnexpectedZeroDigit)) else Stop(Ok(v)))
    else Next(v)
  }

  /** The decoder loop from the round with `shift`, reading `arr[offset]`,
      with `value` collected so far. */
  function DecodeFrom(mode: Arith, arr: seq<byte>, offset: nat, shift: bv32, value: bv32): Result<u32, LebError>
    decreases |arr| - offset
  {
    if shift >= 32 then Err(Overflow)
    else if offset >= |arr| then Err(IndexOverflow)
    else match Step(mode, arr[offset], shift, value)
      case Stop(r) => r
      case Next(v) => DecodeFrom(mode, arr, offset + 1, shift + 7, v)
  }

  /** `shift` is the shift of the round that reads `arr[k]`: 7 * k. */
  predicate RoundAt(k: nat, shift: bv32)
  {
    (k == 0 && shift == 0) || (k == 1 && shift == 7) || (k == 2 && shift == 14)
    || (k == 3 && shift == 21) || (k == 4 && shift == 28) || (k == 5 && shift == 35)
  }

  /** `decodeU32` as written. */
  function DecodeU32Spec(arr: seq<byte>): Result<u32, LebError>
  {
    DecodeFrom(Int32, arr, 0, 0, 0)
  }

  /** `decodeU32` as its `MAX_UINT_32` bound shows it was meant: every u32
      decodes, and bits beyond 32 are rejected instead of dropped. */
  function DecodeU32Intended(arr: seq<byte>): Result<u32, LebError>
  {
    DecodeFrom(Exact, arr, 0, 0, 0)
  }

  /** `decodeU32`: a `for` loop over `shift` = 0, 7, …, 28 reading one byte per
      round; what a round does with its byte is `Step`. */
  method DecodeU32(arr: seq<byte>) returns (r: Result<u32, LebError>)
    ensures r == DecodeU32Spec(arr)
  {
    var offset: nat := 0;
    var value: bv32 := 0;
    var shift: bv32 := 0;
    while shift < 32
      invariant RoundAt(offset, shift)
      invariant DecodeFrom(Int32, arr, offset, shift, value) == DecodeU32Spec(arr)
      decreases 32 - shift as int
    {
      if offset >= |arr| {
        return Err(IndexOverflow);
      }
      var x := arr[offset];
      offset := offset + 1;
      match Step(Int32, x, shift, value)
      case Stop(result) =>
        UnfoldStop(Int32, arr, offset - 1, shift, value);
        return result;
      case Next(v) =>
        UnfoldNext(Int32, arr, offset - 1, shift, value);
        value := v;
      shift := shift + 7;
    }
    return Err(Overflow);
  }

  // ---------------------------------------------------------------------
  // The shape of an encoding

  lemma UlebHead(v: u32)
    ensures v >> 7 != 0 ==> Uleb128(v)[0] as bv32 == (v & 0x7f) | 0x80 && Uleb128(v)[1..] == Uleb128(v >> 7)
    ensures v >> 7 == 0 ==> Uleb128(v) == [v as byte] && Uleb128(v)[0] as bv32 == v
  {}

  /** The definition of `Uleb128`, one group at a time. */
  lemma UlebCons(v: u32)
    ensures v >> 7 != 0 ==> Uleb128(v) == [((v & 0x7f) | 0x80) as byte] + Uleb128(v >> 7)
    ensures v >> 7 == 0 ==> Uleb128(v) == [v as byte]
  {}

  lemma Shift7(v: u32) ensures (v >> 7) >> 7 == v >> 14 {}
  lemma Shift14(v: u32) ensures (v >> 14) >> 7 == v >> 21 {}
  lemma Shift21(v: u32) ensures (v >> 21) >> 7 == v >> 28 {}
  lemma Shift28(v: u32) ensures (v >> 28) >> 7 == 0 {}

  lemma LengthStep(u: u32)
    ensures |Uleb128(u)| == if u >> 7 == 0 then 1 else 1 + |Uleb128(u >> 7)|
  {}

  /** One byte per 7-bit group that is needed: 1 to 5 bytes. */
  lemma EncodingLength(v: u32)
    ensures |Uleb128(v)| == if v >> 7 == 0 then 1 else if v >> 14 == 0 then 2
                            else if v >> 21 == 0 then 3 else if v >> 28 == 0 then 4 else 5
    ensures 1 <= |Uleb128(v)| <= 5
  {
    Shift7(v);
    Shift14(v);
    Shift21(v);
    Shift28(v);
    var a, b, c, d, e := |Uleb128(v)|, |Uleb128(v >> 7)|, |Uleb128(v >> 14)|, |Uleb128(v >> 21)|, |Uleb128(v >> 28)|;
    LengthStep(v >> 28);
    assert e == 1;
    LengthStep(v >> 21);
    assert d == if v >> 28 == 0 then 1 else 2;
    LengthStep(v >> 14);
    assert c == if v >> 21 == 0 then 1 else 1 + d;
    LengthStep(v >> 7);
    assert b == if v >> 14 == 0 then 1 else 1 + c;
    LengthStep(v);
    assert a == if v >> 7 == 0 then 1 else 1 + b;
  }

  /** Every byte but the last has the continuation bit; the last has not, and
      it is zero only in the one-byte encoding of 0, so the encoding is
      canonical. */
  lemma {:induction false} EncodingShape(v: u32)
    ensures forall i :: 0 <= i < |Uleb128(v)| - 1 ==> Uleb128(v)[i] >= 0x80
    ensures Uleb128(v)[|Uleb128(v)| - 1] < 0x80
    ensures Uleb128(v)[|Uleb128(v)| - 1] == 0 <==> v == 0
    decreases v
  {
    if v >> 7 != 0 {
      var r := Uleb128(v);
      EncodingShape(v >> 7);
      assert ((v & 0x7f) | 0x80) as byte >= 0x80;
      assert r == [r[0]] + Uleb128(v >> 7);
      assert v != 0;
    } else {
      assert (v as byte == 0) == (v == 0);
    }
  }

  // ---------------------------------------------------------------------
  // The decoder, one round at a time

  lemma UnfoldRound(mode: Arith, x: seq<byte>, k: nat, shift: bv32, val: bv32)
    requires k < |x| && shift < 32
    ensures DecodeFrom(mode, x, k, shift, val) ==
      match Step(mode, x[k], shift, val)
      case Stop(r) => r
      case Next(v) => DecodeFrom(mode, x, k + 1, shift + 7, v)
  {}

  lemma UnfoldStop(mode: Arith, x: seq<byte>, k: nat, shift: bv32, val: bv32)
    requires k < |x| && shift < 32 && Step(mode, x[k], shift, val).Stop?
    ensures DecodeFrom(mode, x, k, shift, val) == Step(mode, x[k], shift, val).result
  {}

  lemma UnfoldNext(mode: Arith, x: seq<byte>, k: nat, shift: bv32, val: bv32)
    requires k < |x| && shift < 32 && Step(mode, x[k], shift, val).Next?
    ensures DecodeFrom(mode, x, k, shift, val) ==
      DecodeFrom(mode, x, k + 1, shift + 7, Step(mode, x[k], shift, val).value)
  {}

  /** The byte at position `k` of an encoding of `u` placed at `k`. */
  lemma ByteAt(x: seq<byte>, k: nat, u: u32, rest: seq<byte>)
    requires k <= |x| && x[k..] == Uleb128(u) + rest
    ensures k < |x|
    ensures u >> 7 == 0 ==> x[k] as bv32 == u
    ensures u >> 7 != 0 ==> x[k] as bv32 == (u & 0x7f) | 0x80 && x[k + 1..] == Uleb128(u >> 7) + rest
  {
    UlebHead(u);
    assert x[k] == x[k..][0];
    if u >> 7 != 0 {
      assert x[k + 1..] == x[k..][1..];
    }
  }

  // A round that reads byte k of the encoding of v, with the lower 7 * k
  // bits of v collected so far.

  lemma StepGo0(mode: Arith, v: u32, b: byte)
    requires b as bv32 == (v & 0x7f) | 0x80
    ensures Step(mode, b, 0, 0) == Next(v & 0x7f)
  {}

  lemma StepGo1(mode: Arith, v: u32, b: byte)
    requires b as bv32 == ((v >> 7) & 0x7f) | 0x80
    ensures Step(mode, b, 7, v & 0x7f) == Next(v & 0x3fff)
  {}

  lemma StepGo2(mode: Arith, v: u32, b: byte)
    requires b as bv32 == ((v >> 14) & 0x7f) | 0x80
    ensures Step(mode, b, 14, v & 0x3fff) == Next(v & 0x1f_ffff)
  {}

  lemma StepGo3(mode: Arith, v: u32, b: byte)
    requires b as bv32 == ((v >> 21) & 0x7f) | 0x80
    ensures Step(mode, b, 21, v & 0x1f_ffff) == Next(v & 0xfff_ffff)
  {}

  lemma StepLast0(mode: Arith, v: u32, b: byte)
    requires v >> 7 == 0 && b as bv32 == v
    ensures Step(mode, b, 0, 0) == Stop(Ok(v))
  {}

  lemma StepLast1(mode: Arith, v: u32, b: byte)
    requires v >> 14 == 0 && v >> 7 != 0 && b as bv32 == v >> 7
    ensures Step(mode, b, 7, v & 0x7f) == Stop(Ok(v))
  {}

  lemma StepLast2(mode: Arith, v: u32, b: byte)
    requires v >> 21 == 0 && v >> 14 != 0 && b as bv32 == v >> 14
    ensures Step(mode, b, 14, v & 0x3fff) == Stop(Ok(v))
  {}

  lemma StepLast3(mode: Arith, v: u32, b: byte)
    requires v >> 28 == 0 && v >> 21 != 0 && b as bv32 == v >> 21
    ensures Step(mode, b, 21, v & 0x1f_ffff) == Stop(Ok(v))
  {}

  lemma StepLast4(mode: Arith, v: u32, b: byte)
    requires v >> 28 != 0 && b as bv32 == v >> 28
    ensures Step(mode, b, 28, v & 0xfff_ffff) == Stop(Decoded(mode, v))
  {
    LastDigit4(v, b as bv32);
  }

  lemma LastDigit4(v: u32, b: bv32)
    requires v >> 28 != 0 && b == v >> 28
    ensures b & 0x7f == b && b != 0 && b >> 4 == 0 && (v & 0xfff_ffff) | ((b & 0x7f) << 28) == v
  {}

  /** What decoding gives for a value whose encoding is read. */
  function Decoded(mode: Arith, v: u32): Result<u32, LebError>
  {
    if mode == Exact || v < 0x8000_0000 then Ok(v) else Err(Overflow)
  }

  lemma Go0(mode: Arith, v: u32, x: seq<byte>, rest: seq<byte>)
    requires 0 <= |x| && x[0..] == Uleb128(v) + rest && v >> 7 != 0
    ensures 1 <= |x| && x[1..] == Uleb128(v >> 7) + rest
    ensures DecodeFrom(mode, x, 0, 0, 0) == DecodeFrom(mode, x, 1, 7, v & 0x7f)
  {
    ByteAt(x, 0, v, rest);
    StepGo0(mode, v, x[0]);
    UnfoldNext(mode, x, 0, 0, 0);
  }

  lemma Go1(mode: Arith, v: u32, x: seq<byte>, rest: seq<byte>)
    requires 1 <= |x| && x[1..] == Uleb128(v >> 7) + rest && v >> 14 != 0
    ensures 2 <= |x| && x[2..] == Uleb128(v >> 14) + rest
    ensures DecodeFrom(mode, x, 1, 7, v & 0x7f) == DecodeFrom(mode, x, 2, 14, v & 0x3fff)
  {
    assert x[1] as bv32 == ((v >> 7) & 0x7f) | 0x80 && x[2..] == Uleb128(v >> 14) + rest by {
      Shift7(v);
      ByteAt(x, 1, v >> 7, rest);
    }
    StepGo1(mode, v, x[1]);
    UnfoldNext(mode, x, 1, 7, v & 0x7f);
  }

  lemma Go2(mode: Arith, v: u32, x: seq<byte>, rest: seq<byte>)
    requires 2 <= |x| && x[2..] == Uleb128(v >> 14) + rest && v >> 21 != 0
    ensures 3 <= |x| && x[3..] == Uleb128(v >> 21) + rest
    ensures DecodeFrom(mode, x, 2, 14, v & 0x3fff) == DecodeFrom(mode, x, 3, 21, v & 0x1f_ffff)
  {
    assert x[2] as bv32 == ((v >> 14) & 0x7f) | 0x80 && x[3..] == Uleb128(v >> 21) + rest by {
      Shift14(v);
      ByteAt(x, 2, v >> 14, rest);
    }
    StepGo2(mode, v, x[2]);
    UnfoldNext(mode, x, 2, 14, v & 0x3fff);
  }

  lemma Go3(mode: Arith, v: u32, x: seq<byte>, rest: seq<byte>)
    requires 3 <= |x| && x[3..] == Uleb128(v >> 21) + rest && v >> 28 != 0
    ensures 4 <= |x| && x[4..] == Uleb128(v >> 28) + rest
    ensures DecodeFrom(mode, x, 3, 21, v & 0x1f_ffff) == DecodeFrom(mode, x, 4, 28, v & 0xfff_ffff)
  {
    assert x[3] as bv32 == ((v >> 21) & 0x7f) | 0x80 && x[4..] == Uleb128(v >> 28) + rest by {
      Shift21(v);
      ByteAt(x, 3, v >> 21, rest);
    }
    StepGo3(mode, v, x[3]);
    UnfoldNext(mode, x, 3, 21, v & 0x1f_ffff);
  }

  lemma Stop0(mode: Arith, v: u32, x: seq<byte>, rest: seq<byte>)
    requires x == Uleb128(v) + rest && v >> 7 == 0
    ensures DecodeFrom(mode, x, 0, 0, 0) == Ok(v)
  {
    ByteAt(x, 0, v, rest);
    StepLast0(mode, v, x[0]);
    UnfoldStop(mode, x, 0, 0, 0);
  }

  lemma Stop1(mode: Arith, v: u32, x: seq<byte>, rest: seq<byte>)
    requires 1 <= |x| && x[1..] == Uleb128(v >> 7) + rest && v >> 7 != 0 && v >> 14 == 0
    ensures DecodeFrom(mode, x, 1, 7, v & 0x7f) == Ok(v)
  {
    assert x[1] as bv32 == v >> 7 by {
      Shift7(v);
      ByteAt(x, 1, v >> 7, rest);
    }
    StepLast1(mode, v, x[1]);
    UnfoldStop(mode, x, 1, 7, v & 0x7f);
  }

  lemma Stop2(mode: Arith, v: u32, x: seq<byte>, rest: seq<byte>)
    requires 2 <= |x| && x[2..] == Uleb128(v >> 14) + rest && v >> 14 != 0 && v >> 21 == 0
    ensures DecodeFrom(mode, x, 2, 14, v & 0x3fff) == Ok(v)
  {
    assert x[2] as bv32 == v >> 14 by {
      Shift14(v);
      ByteAt(x, 2, v >> 14, rest);
    }
    StepLast2(mode, v, x[2]);
    UnfoldStop(mode, x, 2, 14, v & 0x3fff);
  }

  lemma Stop3(mode: Arith, v: u32, x: seq<byte>, rest: seq<byte>)
    requires 3 <= |x| && x[3..] == Uleb128(v >> 21) + rest && v >> 21 != 0 && v >> 28 == 0
    ensures DecodeFrom(mode, x, 3, 21, v & 0x1f_ffff) == Ok(v)
  {
    assert x[3] as bv32 == v >> 21 by {
      Shift21(v);
      ByteAt(x, 3, v >> 21, rest);
    }
    StepLast3(mode, v, x[3]);
    UnfoldStop(mode, x, 3, 21, v & 0x1f_ffff);
  }

  lemma Stop4(mode: Arith, v: u32, x: seq<byte>, rest: seq<byte>)
    requires 4 <= |x| && x[4..] == Uleb128(v >> 28) + rest && v >> 28 != 0
    ensures DecodeFrom(mode, x, 4, 28, v & 0xfff_ffff) == Decoded(mode, v)
  {
    assert x[4] as bv32 == v >> 28 by {
      Shift28(v);
      ByteAt(x, 4, v >> 28, rest);
    }
    StepLast4(mode, v, x[4]);
    UnfoldStop(mode, x, 4, 28, v & 0xfff_ffff);
  }

  lemma Level3(mode: Arith, v: u32, x: seq<byte>, rest: seq<byte>)
    requires 3 <= |x| && x[3..] == Uleb128(v >> 21) + rest && v >> 21 != 0
    ensures DecodeFrom(mode, x, 3, 21, v & 0x1f_ffff) == Decoded(mode, v)
  {
    if v >> 28 == 0 {
      Stop3(mode, v, x, rest);
    } else {
      Go3(mode, v, x, rest);
      Stop4(mode, v, x, rest);
    }
  }

  lemma Level2(mode: Arith, v: u32, x: seq<byte>, rest: seq<byte>)
    requires 2 <= |x| && x[2..] == Uleb128(v >> 14) + rest && v >> 14 != 0
    ensures DecodeFrom(mode, x, 2, 14, v & 0x3fff) == Decoded(mode, v)
  {
    if v >> 21 == 0 {
      Stop2(mode, v, x, rest);
    } else {
      Go2(mode, v, x, rest);
      Level3(mode, v, x, rest);
    }
  }

  lemma Level1(mode: Arith, v: u32, x: seq<byte>, rest: seq<byte>)
    requires 1 <= |x| && x[1..] == Uleb128(v >> 7) + rest && v >> 7 != 0
    ensures DecodeFrom(mode, x, 1, 7, v & 0x7f) == Decoded(mode, v)
  {
    if v >> 14 == 0 {
      Stop1(mode, v, x, rest);
    } else {
      Go1(mode, v, x, rest);
      Level2(mode, v, x, rest);
    }
  }

  /** Decoding reads back the value from its encoding, whatever follows. */
  lemma DecodeEncoding(mode: Arith, v: u32, rest: seq<byte>)
    ensures DecodeFrom(mode, Uleb128(v) + rest, 0, 0, 0) == Decoded(mode, v)
  {
    var x := Uleb128(v) + rest;
    assert x[0..] == x;
    if v >> 7 == 0 {
      Stop0(mode, v, x, rest);
    } else {
      Go0(mode, v, x, rest);
      Level1(mode, v, x, rest);
    }
  }

  // ---------------------------------------------------------------------
  // Properties of `decodeU32` as written

  /** Decoding an encoding gives the value back, whatever follows it, for
      every value below 2^31; a value with bit 31 set throws "Overflow". */
  lemma RoundTrip(v: u32, rest: seq<byte>)
    ensures DecodeU32Spec(Uleb128(v) + rest) == if v < 0x8000_0000 then Ok(v) else Err(Overflow)
  {
    DecodeEncoding(Int32, v, rest);
  }

  /** A continuation byte read in one of the first four rounds never ends the
      loop and keeps the running value below 2^28. */
  lemma StepContinues(mode: Arith, b: byte, shift: bv32, value: bv32)
    requires shift <= 21 && value < 0x1000_0000 && b >= 0x80
    ensures Step(mode, b, shift, value).Next? && Step(mode, b, shift, value).value < 0x1000_0000
  {}

  /** Input that ends before a byte without the continuation bit throws
      "index overflow". */
  lemma {:induction false} UnterminatedInput(mode: Arith, arr: seq<byte>, k: nat, shift: bv32, value: bv32)
    requires |arr| <= 4 && k <= |arr| && RoundAt(k, shift) && value < 0x1000_0000
    requires forall i :: k <= i < |arr| ==> arr[i] >= 0x80
    ensures DecodeFrom(mode, arr, k, shift, value) == Err(IndexOverflow)
    decreases |arr| - k
  {
    if k < |arr| {
      StepContinues(mode, arr[k], shift, value);
      UnfoldNext(mode, arr, k, shift, value);
      UnterminatedInput(mode, arr, k + 1, shift + 7, Step(mode, arr[k], shift, value).value);
    }
  }

  lemma UnterminatedU32(arr: seq<byte>)
    requires |arr| <= 4 && forall i :: 0 <= i < |arr| ==> arr[i] >= 0x80
    ensures DecodeU32Spec(arr) == Err(IndexOverflow)
  {
    UnterminatedInput(Int32, arr, 0, 0, 0);
  }

  lemma StepZero(mode: Arith, shift: bv32, value: bv32)
    requires 0 < shift < 32 && value < 0x8000_0000
    ensures Step(mode, 0, shift, value) == Stop(Err(UnexpectedZeroDigit))
  {}

  /** A zero byte read after the first position, which ends the number, throws
      "unexpected zero digit" unless the running value already overflowed. */
  lemma ZeroDigitRejected(mode: Arith, arr: seq<byte>, k: nat, shift: bv32, value: bv32)
    requires k < |arr| && arr[k] == 0 && 0 < shift < 32 && value < 0x8000_0000
    ensures DecodeFrom(mode, arr, k, shift, value) == Err(UnexpectedZeroDigit)
  {
    StepZero(mode, shift, value);
    UnfoldStop(mode, arr, k, shift, value);
  }

  /** In particular a continuation byte followed by a zero byte is rejected. */
  lemma TrailingZeroRejected(b: byte, rest: seq<byte>)
    requires b >= 0x80
    ensures DecodeU32Spec([b, 0] + rest) == Err(UnexpectedZeroDigit)
  {
    var arr := [b, 0] + rest;
    StepContinues(Int32, arr[0], 0, 0);
    UnfoldNext(Int32, arr, 0, 0, 0);
    ZeroDigitRejected(Int32, arr, 1, 7, Step(Int32, arr[0], 0, 0).value);
  }

  /** Bytes after the one that ends the number are never read. */
  lemma {:induction false} TrailingBytesIgnored(mode: Arith, arr: seq<byte>, rest: seq<byte>, k: nat, shift: bv32, value: bv32)
    requires RoundAt(k, shift) && DecodeFrom(mode, arr, k, shift, value) != Err(IndexOverflow)
    ensures DecodeFrom(mode, arr + rest, k, shift, value) == DecodeFrom(mode, arr, k, shift, value)
    decreases 5 - k
  {
    if k < 5 && k < |arr| {
      assert (arr + rest)[k] == arr[k];
      if Step(mode, arr[k], shift, value).Stop? {
        UnfoldStop(mode, arr, k, shift, value);
        UnfoldStop(mode, arr + rest, k, shift, value);
      } else {
        UnfoldNext(mode, arr, k, shift, value);
        UnfoldNext(mode, arr + rest, k, shift, value);
        TrailingBytesIgnored(mode, arr, rest, k + 1, shift + 7, Step(mode, arr[k], shift, value).value);
      }
    }
  }

  /** At most five bytes are read: a fifth byte with the continuation bit
      set throws "Overflow" and anything after it is never looked at. */
  lemma {:induction false} ReadsAtMostFive(mode: Arith, arr: seq<byte>, k: nat, shift: bv32, value: bv32)
    requires |arr| >= 5 && RoundAt(k, shift)
    ensures DecodeFrom(mode, arr, k, shift, value) == DecodeFrom(mode, arr[..5], k, shift, value)
    decreases 5 - k
  {
    if k < 5 {
      assert arr[..5][k] == arr[k];
      if Step(mode, arr[k], shift, value).Stop? {
        UnfoldStop(mode, arr, k, shift, value);
        UnfoldStop(mode, arr[..5], k, shift, value);
      } else {
        UnfoldNext(mode, arr, k, shift, value);
        UnfoldNext(mode, arr[..5], k, shift, value);
        ReadsAtMostFive(mode, arr, k + 1, shift + 7, Step(mode, arr[k], shift, value).value);
      }
    }
  }

  /** A continuation byte read at shift 28 either overflows the signed word
      or leaves the loop, whose `shift` is then past 32: "Overflow" either way. */
  lemma {:induction false} ContinuationsOverflow(mode: Arith, arr: seq<byte>, k: nat, shift: bv32, value: bv32)
    requires |arr| >= 5 && RoundAt(k, shift) && (k < 5 ==> value < 0x1000_0000)
    requires forall i :: k <= i < 5 ==> arr[i] >= 0x80
    ensures DecodeFrom(mode, arr, k, shift, value) == Err(Overflow)
    decreases 5 - k
  {
    if k < 5 {
      if k < 4 {
        StepContinues(mode, arr[k], shift, value);
      }
      if Step(mode, arr[k], shift, value).Stop? {
        UnfoldStop(mode, arr, k, shift, value);
      } else {
        UnfoldNext(mode, arr, k, shift, value);
        ContinuationsOverflow(mode, arr, k + 1, shift + 7, Step(mode, arr[k], shift, value).value);
      }
    }
  }

  /** Five continuation bytes throw "Overflow" without a sixth byte being
      read, and four alone throw "index overflow". */
  lemma SixthByteOverflows(arr: seq<byte>)
    requires |arr| >= 5 && forall i :: 0 <= i < 5 ==> arr[i] >= 0x80
    ensures DecodeU32Spec(arr) == Err(Overflow)
    ensures DecodeU32Spec(arr) == DecodeU32Spec(arr[..5])
    ensures DecodeU32Spec(arr[..4]) == Err(IndexOverflow)
  {
    ContinuationsOverflow(Int32, arr, 0, 0, 0);
    ReadsAtMostFive(Int32, arr, 0, 0, 0);
    UnterminatedU32(arr[..4]);
  }

  // ---------------------------------------------------------------------
  // The discrepancies of the signed 32-bit arithmetic, and the intended
  // decoder

  /** 2^31 encodes to five bytes that the decoder as written rejects. */
  lemma HighBitRejected()
    ensures Uleb128(0x8000_0000) == [0x80, 0x80, 0x80, 0x80, 0x08]
    ensures DecodeU32Spec([0x80, 0x80, 0x80, 0x80, 0x08]) == Err(Overflow)
  {
    var x: seq<byte> := [0x80, 0x80, 0x80, 0x80, 0x08];
    UlebHead(0x8000_0000);
    UlebHead(0x100_0000);
    UlebHead(0x2_0000);
    UlebHead(0x400);
    UlebHead(0x8);
    UnfoldNext(Int32, x, 0, 0, 0);
    UnfoldNext(Int32, x, 1, 7, 0);
    UnfoldNext(Int32, x, 2, 14, 0);
    UnfoldNext(Int32, x, 3, 21, 0);
    UnfoldStop(Int32, x, 4, 28, 0);
  }

  /** The fifth byte's digit is shifted by 28, so its bits above bit 3 fall off
      the 32-bit word: a five-byte input that is no encoding decodes to 0,
      whose encoding is the single byte 0. */
  lemma DroppedBitsAccepted()
    ensures DecodeU32Spec([0x80, 0x80, 0x80, 0x80, 0x10]) == Ok(0)
    ensures Uleb128(0) == [0]
  {
    var x: seq<byte> := [0x80, 0x80, 0x80, 0x80, 0x10];
    UnfoldNext(Int32, x, 0, 0, 0);
    UnfoldNext(Int32, x, 1, 7, 0);
    UnfoldNext(Int32, x, 2, 14, 0);
    UnfoldNext(Int32, x, 3, 21, 0);
    UnfoldStop(Int32, x, 4, 28, 0);
  }

  /** The intended decoder inverts the encoder on every u32. */
  lemma IntendedRoundTrip(v: u32, rest: seq<byte>)
    ensures DecodeU32Intended(Uleb128(v) + rest) == Ok(v)
  {
    DecodeEncoding(Exact, v, rest);
  }

  /** Four continuation bytes, then a fifth digit of 16 or more: the intended
      decoder throws "Overflow" at the fifth byte. */
  lemma {:induction false} HighDigitRejected(arr: seq<byte>, k: nat, shift: bv32, value: bv32)
    requires |arr| >= 5 && k <= 4 && RoundAt(k, shift) && value < 0x1000_0000
    requires forall i :: k <= i < 4 ==> arr[i] >= 0x80
    requires arr[4] & 0x7f >= 0x10
    ensures DecodeFrom(Exact, arr, k, shift, value) == Err(Overflow)
    decreases 4 - k
  {
    if k < 4 {
      StepContinues(Exact, arr[k], shift, value);
      UnfoldNext(Exact, arr, k, shift, value);
      HighDigitRejected(arr, k + 1, shift + 7, Step(Exact, arr[k], shift, value).value);
    } else {
      assert ((arr[4] as bv32) & 0x7f) >> 4 != 0;
      UnfoldStop(Exact, arr, 4, 28, value);
    }
  }

  /** The intended decoder rejects every input whose high bits the source
      drops: four continuation bytes and a fifth digit that does not fit in
      the remaining 4 bits. */
  lemma IntendedRejectsDroppedBits(arr: seq<byte>)
    requires |arr| >= 5 && forall i :: 0 <= i < 4 ==> arr[i] >= 0x80
    requires arr[4] & 0x7f >= 0x10
    ensures DecodeU32Intended(arr) == Err(Overflow)
  {
    HighDigitRejected(arr, 0, 0, 0);
  }
}
