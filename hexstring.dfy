/** The `HexString` of the `hexstring` package: an immutable `0x`-prefixed
    string with no normalisation, byte conversion that pads an odd digit count
    with a leading `0`, and case-insensitive comparison. */
module Hexstring {
  import opened Common
  import opened HexCodec

  /** The one read-only field, `_hexString`, always starts with `0x`. */
  datatype HexString = HexString(hexString: Prefixed)
  {
    function Hex(): Prefixed
    {
      hexString
    }

    /** `lowerHex`: still `0x`-prefixed, as long as the text. */
    function LowerHex(): (r: string)
      ensures HasPrefix(r) && |r| == |hexString|
    {
      Lower(hexString)
    }

    /** The digits: everything after the prefix. */
    function NoPrefix(): (r: string)
      ensures "0x" + r == hexString
    {
      hexString[2..]
    }

    /** `0x` followed by the digits without their leading zeros. */
    function ToShortString(): Prefixed
    {
      "0x" + TrimLeadingZeros(NoPrefix())
    }

    /** The digits, with one `0` in front when their number is odd. */
    function HexBytesNoPrefix(): (r: string)
      ensures |r| % 2 == 0
      ensures |NoPrefix()| <= |r| <= |NoPrefix()| + 1 && r[|r| - |NoPrefix()|..] == NoPrefix()
      ensures forall i :: 0 <= i < |r| - |NoPrefix()| ==> r[i] == '0'
    {
      if |hexString| % 2 == 1 then "0" + NoPrefix() else NoPrefix()
    }

    /** `toBuffer` and `toUint8Array`: the padded digits decoded pair by pair. */
    function ToUint8Array(): seq<byte>
    {
      DecodeHex(HexBytesNoPrefix())
    }

    /** `equals`: the lower-cased full strings agree. */
    function Equals(other: MaybeHexString): bool
    {
      LowerHex() == Ensure(other).LowerHex()
    }
  }

  /** A `HexStringLike` that is not a `HexString` is represented by what its
      `hex()` returns. */
  datatype MaybeHexString = Str(s: string) | Hex(h: HexString) | Like(hex: string)

  /** `new HexString(s)`. */
  function New(s: string): (h: HexString)
    ensures HasPrefix(s) ==> h.Hex() == s
    ensures !HasPrefix(s) ==> h.Hex() == "0x" + s && h.NoPrefix() == s
  {
    HexString(WithPrefix(s))
  }

  /** `fromBuffer` and `fromUint8Array`: two lower-case digits per byte. */
  function FromBuffer(b: seq<byte>): (h: HexString)
    ensures h.Hex() == "0x" + EncodeHex(b) && h.NoPrefix() == EncodeHex(b)
  {
    EncodeHexUnprefixed(b);
    New(EncodeHex(b))
  }

  /** `ensure`: a `HexString` is returned as it is; a string, or the `hex()`
      of any other object, is wrapped. */
  function Ensure(m: MaybeHexString): (h: HexString)
    ensures m.Hex? ==> h == m.h
    ensures m.Str? ==> h == New(m.s)
    ensures m.Like? ==> h == New(m.hex)
  {
    match m
    case Str(s) => New(s)
    case Hex(h) => h
    case Like(x) => New(x)
  }

  lemma HexBytesNoPrefixHex(h: HexString)
    ensures AllHex(h.NoPrefix()) ==> AllHex(h.HexBytesNoPrefix())
  {
    var d, r := h.NoPrefix(), h.HexBytesNoPrefix();
    if AllHex(d) && |r| > |d| {
      assert forall i :: 1 <= i < |r| ==> r[i] == d[i - 1];
    }
  }

  // ---------------------------------------------------------------------
  // Properties

  /** Hex digits give one byte per digit pair, counting an odd first digit
      as a pair of its own. */
  lemma ToUint8ArrayLength(h: HexString)
    requires AllHex(h.NoPrefix())
    ensures |h.ToUint8Array()| == (|h.NoPrefix()| + 1) / 2
  {
    var d, r := h.NoPrefix(), h.HexBytesNoPrefix();
    HexBytesNoPrefixHex(h);
    DecodeHexLength(r);
    assert |r| / 2 == (|d| + 1) / 2;
  }

  /** The text always starts with `0x` and is `0x` followed by the digits. */
  lemma HexIsPrefixedDigits(h: HexString)
    ensures HasPrefix(h.Hex()) && h.Hex() == "0x" + h.NoPrefix()
  {}

  /** Wrapping a `hex()` again gives the same value. */
  lemma NewOfHex(h: HexString)
    ensures New(h.Hex()) == h
  {}

  /** Re-wrapping a short string and shortening it again changes nothing. */
  lemma ShortStringIdempotent(h: HexString)
    ensures New(h.ToShortString()).ToShortString() == h.ToShortString()
  {
    var t := TrimLeadingZeros(h.NoPrefix());
    assert New(h.ToShortString()).NoPrefix() == t;
    TrimIdempotent(h.NoPrefix());
  }

  /** The short string is `0x` exactly when every digit is `0`. */
  lemma ShortStringZeros(h: HexString)
    ensures h.ToShortString() == "0x" <==> forall i :: 0 <= i < |h.NoPrefix()| ==> h.NoPrefix()[i] == '0'
  {
    var t := TrimLeadingZeros(h.NoPrefix());
    TrimAllZeros(h.NoPrefix());
    assert h.ToShortString() == "0x" <==> t == [] by {
      assert h.ToShortString()[2..] == t;
    }
  }

  /** Bytes written as hex read back unchanged: the digit count is even, so
      nothing is padded. */
  lemma BufferRoundTrip(b: seq<byte>)
    ensures FromBuffer(b).ToUint8Array() == b
  {
    var h := FromBuffer(b);
    assert |h.hexString| % 2 == 0;
    assert h.HexBytesNoPrefix() == EncodeHex(b);
    DecodeEncode(b);
  }

  /** An odd digit count is read as if it had a leading `0`: the first byte
      holds the first digit alone. */
  lemma OddDigitsPadded(h: HexString)
    requires |h.NoPrefix()| % 2 == 1
    ensures h.ToUint8Array() == DecodeHex("0" + h.NoPrefix())
    ensures AllHex(h.NoPrefix()) ==>
      h.ToUint8Array()[0] as nat == DigitValue(h.NoPrefix()[0]) && h.ToUint8Array()[1..] == DecodeHex(h.NoPrefix()[1..])
  {
    var d := h.NoPrefix();
    if AllHex(d) {
      var p := "0" + d;
      DecodeHexCons(p);
      assert p[2..] == d[1..];
      var x := PairByte('0', d[0]);
      Nibbles(x);
    }
  }

  /** `equals` is reflexive, symmetric and transitive. */
  lemma EqualsEquivalence(h: HexString, g: HexString, k: HexString)
    ensures h.Equals(Hex(h))
    ensures h.Equals(Hex(g)) == g.Equals(Hex(h))
    ensures h.Equals(Hex(g)) && g.Equals(Hex(k)) ==> h.Equals(Hex(k))
  {}

  /** `equals` ignores letter case and nothing else: it holds exactly when
      the lower-cased texts agree, so texts of different lengths (such as a
      zero-padded one) are never equal. */
  lemma EqualsIgnoresCaseOnly(h: HexString, s: string)
    ensures h.Equals(Str(s)) <==> Lower(h.Hex()) == Lower(WithPrefix(s))
    ensures |h.Hex()| != |WithPrefix(s)| ==> !h.Equals(Str(s))
    ensures h.Equals(Str(s)) <==> h.Equals(Hex(New(s)))
  {}

  /** Upper-case and lower-case spellings of the same digits are equal. */
  lemma EqualsUpToCase(h: HexString, g: HexString)
    requires Lower(h.NoPrefix()) == Lower(g.NoPrefix())
    ensures h.Equals(Hex(g))
  {
    LowerConcat("0x", h.NoPrefix());
    LowerConcat("0x", g.NoPrefix());
  }

  /** The cases of `index.spec.ts`: `0x1234` equals itself, and neither the
      zero-padded `0x000001234` nor `0x1235` equals `0x1234`. */
  lemma EqualsExamples()
    ensures Ensure(Str("0x1234")).Equals(Str("0x1234"))
    ensures !Ensure(Str("0x000001234")).Equals(Str("0x1234"))
    ensures !Ensure(Str("0x1234")).Equals(Str("0x1235"))
  {
    var a, b := Lower("0x1234"), Lower("0x1235");
    assert a[5] == '4' && b[5] == '5';
  }

  /** Four hex digits read as two bytes, high digit first: `0x1234` gives
      0x12, 0x34. */
  lemma ToUint8ArrayPairs(h: HexString, h1: char, l1: char, h2: char, l2: char)
    requires h.NoPrefix() == [h1, l1, h2, l2]
    requires IsHexDigit(h1) && IsHexDigit(l1) && IsHexDigit(h2) && IsHexDigit(l2)
    ensures h.ToUint8Array() == [PairByte(h1, l1), PairByte(h2, l2)]
  {
    var d := h.NoPrefix();
    assert h.HexBytesNoPrefix() == d;
    DecodeHexCons(d);
    assert d[2..] == [h2, l2];
    DecodeHexCons(d[2..]);
    assert d[2..][2..] == [];
  }
}
