/** The `HexString` of the `core` package, with its `Address` subclass: an
    immutable `0x`-prefixed string, byte conversion without odd-length
    padding, and the mixed-case checksum spelling of an address. */
module CoreHexString {
  import opened Common
  import opened HexCodec

  /** A `HexString` value, or an `Address` (the subclass adds no state). The
      read-only field `hexString` always starts with `0x`. */
  datatype HexString = Plain(hexString: Prefixed) | Address(hexString: Prefixed)
  {
    function Hex(): Prefixed
    {
      hexString
    }

    /** The digits: everything after the prefix. */
    function NoPrefix(): (r: string)
      ensures "0x" + r == hexString
    {
      hexString[2..]
    }

    /** `hexString.replace(/^0x0*\/, "")` behind `0x`; the pattern always finds
        the prefix, so this drops the leading zero digits. */
    function ToShortString(): Prefixed
    {
      "0x" + TrimLeadingZeros(NoPrefix())
    }

    /** `toBuffer` and `toUint8Array`: the digits decoded pair by pair, with
        no padding, so an odd last digit is lost. */
    function ToBuffer(): seq<byte>
    {
      DecodeHex(NoPrefix())
    }
  }

  datatype MaybeHexString = Str(s: string) | Value(h: HexString)

  /** `new HexString(s)`. */
  function New(s: string): (h: HexString)
    ensures h.Plain?
    ensures HasPrefix(s) ==> h.Hex() == s
    ensures !HasPrefix(s) ==> h.Hex() == "0x" + s && h.NoPrefix() == s
  {
    Plain(WithPrefix(s))
  }

  /** `ensure`: a string is wrapped; any other argument is returned as it is. */
  function Ensure(m: MaybeHexString): (h: HexString)
    ensures m.Value? ==> h == m.h
    ensures m.Str? ==> h == New(m.s)
  {
    match m
    case Str(s) => New(s)
    case Value(h) => h
  }

  /** `fromBuffer` and `fromUint8Array`: two lower-case digits per byte. */
  function FromBuffer(b: seq<byte>): (h: HexString)
    ensures h.Plain? && h.Hex() == "0x" + EncodeHex(b) && h.NoPrefix() == EncodeHex(b)
  {
    EncodeHexUnprefixed(b);
    New(EncodeHex(b))
  }

  // ---------------------------------------------------------------------
  // Conversions

  /** Re-wrapping a short string and shortening it again changes nothing,
      and the short string is `0x` exactly when every digit is `0`. */
  lemma ShortString(h: HexString)
    ensures New(h.ToShortString()).ToShortString() == h.ToShortString()
    ensures h.ToShortString() == "0x" <==> forall i :: 0 <= i < |h.NoPrefix()| ==> h.NoPrefix()[i] == '0'
  {
    var t := TrimLeadingZeros(h.NoPrefix());
    assert New(h.ToShortString()).NoPrefix() == t;
    TrimIdempotent(h.NoPrefix());
    TrimAllZeros(h.NoPrefix());
    assert h.ToShortString() == "0x" <==> t == [] by {
      assert h.ToShortString()[2..] == t;
    }
  }

  /** Bytes written as hex read back unchanged. */
  lemma BufferRoundTrip(b: seq<byte>)
    ensures FromBuffer(b).ToBuffer() == b
  {
    DecodeEncode(b);
  }

  /** Unlike the `hexstring` package, an odd number of hex digits loses its
      last digit: one byte per complete pair. */
  lemma OddDigitDropped(h: HexString)
    requires AllHex(h.NoPrefix()) && |h.NoPrefix()| % 2 == 1
    ensures h.ToBuffer() == DecodeHex(h.NoPrefix()[..|h.NoPrefix()| - 1])
    ensures |h.ToBuffer()| == |h.NoPrefix()| / 2
  {
    DecodeHexOdd(h.NoPrefix());
    DecodeHexLength(h.NoPrefix());
  }

  // ---------------------------------------------------------------------
  // The checksum spelling

  /** `invariant(...)` failed: the digest has no byte for a digit, or an odd
      digit count needs to upper-case a character past the end. */
  datatype ChecksumError = InvariantFailed

  /** Hash nibble `i`: the high nibble of byte `i / 2` for even `i`, the low
      nibble for odd `i`. */
  function Nibble(d: Digest, i: nat): nat
    requires i < 64
  {
    if i % 2 == 0 then Hi(d[i / 2]) else Lo(d[i / 2])
  }

  /** Character `i` after the loop has seen it. */
  function Marked(chars: string, d: Digest, i: nat): char
    requires i < |chars| && i < 64
  {
    if Nibble(d, i) >= 8 then ToUpper(chars[i]) else chars[i]
  }

  /** The lower-cased digits with every character whose hash nibble is 8 or
      more upper-cased. */
  function Checksummed(chars: string, d: Digest): (r: string)
    requires |chars| <= 64
    ensures |r| == |chars|
  {
    seq(|chars|, i requires 0 <= i < |chars| => Marked(chars, d, i))
  }

  /** The digest `getChecksumAddress` hashes: SHA3-256 of the character codes
      of the lower-cased digits. */
  function DigitsDigest(h: HexString, sha3: seq<byte> -> Digest): Digest
  {
    sha3(CharCodes(Lower(h.NoPrefix())))
  }

  /** What `getChecksumAddress` returns or throws. It throws when there are
      more than 64 digits, or when an odd digit count would upper-case the
      character after the last one. */
  function ChecksumAddress(h: HexString, sha3: seq<byte> -> Digest): Result<string, ChecksumError>
  {
    var chars := Lower(h.NoPrefix());
    var d := DigitsDigest(h, sha3);
    if |chars| > 64 || (|chars| % 2 == 1 && Nibble(d, |chars|) >= 8) then Err(InvariantFailed)
    else Ok("0x" + Checksummed(chars, d))
  }

  /** The characters after the loop has seen the first `i` of them. */
  function Partial(chars: string, d: Digest, i: nat): (r: string)
    requires i <= 64
    ensures |r| == |chars|
  {
    seq(|chars|, j requires 0 <= j < |chars| => if j < i then Marked(chars, d, j) else chars[j])
  }

  /** One round of the loop marks characters `i` and `i + 1`, which it has
      not touched before, by the two nibbles of hash byte `i / 2`. */
  lemma PartialStep(chars: string, d: Digest, i: nat)
    requires i + 2 <= 64 && i < |chars| && i % 2 == 0
    ensures Partial(chars, d, i)[i] == chars[i]
    ensures Marked(chars, d, i) == if Hi(d[i / 2]) >= 8 then ToUpper(chars[i]) else chars[i]
    ensures i + 1 < |chars| ==> Partial(chars, d, i)[i + 1] == chars[i + 1]
    ensures i + 1 < |chars| ==> Marked(chars, d, i + 1) == if Lo(d[i / 2]) >= 8 then ToUpper(chars[i + 1]) else chars[i + 1]
    ensures i + 1 < |chars| ==>
      Partial(chars, d, i + 2) == Partial(chars, d, i)[i := Marked(chars, d, i)][i + 1 := Marked(chars, d, i + 1)]
    ensures i + 1 == |chars| ==>
      Partial(chars, d, i + 2) == Partial(chars, d, i)[i := Marked(chars, d, i)]
  {
    assert (i + 1) / 2 == i / 2 && (i + 1) % 2 == 1;
  }

  /** `getChecksumAddress`: lower-case the digits, hash their character
      codes, then upper-case in place the digits whose hash nibble is 8 or
      more. */
  method GetChecksumAddress(h: HexString, sha3: seq<byte> -> Digest) returns (r: Result<string, ChecksumError>)
    ensures r == ChecksumAddress(h, sha3)
  {
    var lower := Lower(h.NoPrefix());
    var chars := new char[|lower|](j requires 0 <= j < |lower| => lower[j]);
    var hashed := sha3(CharCodes(lower));
    var ok := MarkDigits(chars, lower, hashed);
    if !ok {
      return Err(InvariantFailed);
    }
    r := Ok("0x" + chars[..]);
  }

  /** The loop of `getChecksumAddress`, two digits per round: the high nibble
      of hash byte `i / 2` decides digit `i`, its low nibble digit `i + 1`.
      It stops where the source's `invariant` throws. */
  method MarkDigits(chars: array<char>, ghost lower: string, hashed: Digest) returns (ok: bool)
    requires chars[..] == lower
    modifies chars
    ensures ok <==> !(|lower| > 64 || (|lower| % 2 == 1 && Nibble(hashed, |lower|) >= 8))
    ensures ok ==> |lower| <= 64 && chars[..] == Checksummed(lower, hashed)
  {
    var i := 0;
    assert chars[..] == Partial(lower, hashed, 0);
    while i < chars.Length
      invariant i % 2 == 0 && 0 <= i <= 64 && i <= chars.Length + 1
      invariant i == chars.Length + 1 ==> Lo(hashed[i / 2 - 1]) < 8
      invariant chars[..] == Partial(lower, hashed, i)
    {
      if i / 2 >= 32 {
        return false;
      }
      ghost var before := chars[..];
      var hiByte := hashed[i / 2];
      PartialStep(lower, hashed, i);
      ghost var m0 := Marked(lower, hashed, i);
      ghost var m1 := if i + 1 < |lower| then Marked(lower, hashed, i + 1) else ' ';
      if Hi(hiByte) >= 8 {
        chars[i] := ToUpper(chars[i]);
      }
      assert chars[..] == before[i := m0];
      if Lo(hiByte) >= 8 {
        if i + 1 >= chars.Length {
          assert Nibble(hashed, |lower|) >= 8 by {
            assert |lower| == i + 1 && |lower| / 2 == i / 2;
          }
          return false;
        }
        chars[i + 1] := ToUpper(chars[i + 1]);
      }
      assert i + 1 < chars.Length ==> chars[..] == before[i := m0][i + 1 := m1];
      assert i + 1 >= chars.Length ==> chars[..] == before[i := m0];
      i := i + 2;
    }
    assert |lower| % 2 == 1 ==> Nibble(hashed, |lower|) < 8 by {
      if |lower| % 2 == 1 {
        assert i == |lower| + 1 && |lower| / 2 == i / 2 - 1;
      }
    }
    assert chars[..] == Checksummed(lower, hashed);
    return true;
  }

  /** Exactly the long inputs and the odd inputs with a high last nibble are
      rejected; every even digit count up to 64 (an address) is accepted. */
  lemma ChecksumDefined(h: HexString, sha3: seq<byte> -> Digest)
    ensures |h.NoPrefix()| > 64 ==> ChecksumAddress(h, sha3).Err?
    ensures |h.NoPrefix()| <= 64 && |h.NoPrefix()| % 2 == 0 ==> ChecksumAddress(h, sha3).Ok?
  {}

  /** Only letter case changes: the result is as long as `hex()` and,
      lower-cased, equals `0x` followed by the lower-cased digits. */
  lemma ChecksumChangesCaseOnly(h: HexString, sha3: seq<byte> -> Digest)
    requires ChecksumAddress(h, sha3).Ok?
    ensures var r := ChecksumAddress(h, sha3).value;
      HasPrefix(r) && |r| == |h.Hex()| && Lower(r) == "0x" + Lower(h.NoPrefix())
  {
    var chars := Lower(h.NoPrefix());
    var d := DigitsDigest(h, sha3);
    var c := Checksummed(chars, d);
    assert Lower(c) == chars by {
      forall i | 0 <= i < |c|
        ensures Lower(c)[i] == chars[i]
      {
        CaseRoundTrip(h.NoPrefix()[i]);
      }
    }
    LowerConcat("0x", c);
  }

  /** Digit `i` of the result is upper-cased exactly when hash nibble `i` is
      8 or more, and is the lower-cased digit otherwise. */
  lemma ChecksumNibbleRule(h: HexString, sha3: seq<byte> -> Digest, i: nat)
    requires ChecksumAddress(h, sha3).Ok? && i < |h.NoPrefix()|
    ensures i < 64
    ensures var r := ChecksumAddress(h, sha3).value; var c := ToLower(h.NoPrefix()[i]);
      r[i + 2] == if Nibble(DigitsDigest(h, sha3), i) >= 8 then ToUpper(c) else c
  {}

  /** The checksum depends only on the lower-cased digits. */
  lemma ChecksumIgnoresCase(h: HexString, g: HexString, sha3: seq<byte> -> Digest)
    requires Lower(h.NoPrefix()) == Lower(g.NoPrefix())
    ensures ChecksumAddress(h, sha3) == ChecksumAddress(g, sha3)
  {}

  /** Checksumming a checksum spelling returns it unchanged. */
  lemma ChecksumIdempotent(h: HexString, sha3: seq<byte> -> Digest)
    requires ChecksumAddress(h, sha3).Ok?
    ensures ChecksumAddress(New(ChecksumAddress(h, sha3).value), sha3) == ChecksumAddress(h, sha3)
  {
    var r := ChecksumAddress(h, sha3).value;
    ChecksumChangesCaseOnly(h, sha3);
    var g := New(r);
    assert g.NoPrefix() == r[2..];
    assert Lower(g.NoPrefix()) == Lower(h.NoPrefix()) by {
      LowerConcat("0x", g.NoPrefix());
      assert Lower(r) == "0x" + Lower(g.NoPrefix());
    }
    ChecksumIgnoresCase(g, h, sha3);
  }
}
