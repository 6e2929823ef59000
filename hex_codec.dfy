/** The text conventions both hex-string packages rely on: the `0x` prefix,
    the removal of leading zero digits, ASCII case mapping, and the "hex"
    encoding of the `Buffer` library (two lower-case digits per byte out;
    digit pairs in, stopping at the first pair that is not two hex digits and
    ignoring an odd last digit). */
module HexCodec {
  import opened Common

  // ---------------------------------------------------------------------
  // The `0x` prefix

  /** `s.startsWith("0x")`. */
  predicate HasPrefix(s: string)
  {
    |s| >= 2 && s[0] == '0' && s[1] == 'x'
  }

  /** A string that starts with `0x`, the type of a hex string's contents. */
  type Prefixed = s: string | HasPrefix(s) witness "0x"

  /** What both `HexString` constructors store: the argument itself when it
      already starts with `0x`, otherwise the argument behind `0x`. */
  function WithPrefix(s: string): (r: Prefixed)
    ensures HasPrefix(s) ==> r == s
    ensures !HasPrefix(s) ==> r[2..] == s && |r| == |s| + 2
  {
    if HasPrefix(s) then s else "0x" + s
  }

  /** Prefixing twice is prefixing once. */
  lemma WithPrefixIdempotent(s: string)
    ensures WithPrefix(WithPrefix(s)) == WithPrefix(s)
  {}

  /** The prefix is added exactly when it is missing: the stored text ends
      with the argument, and is the argument when prefixed. */
  lemma WithPrefixSuffix(s: string)
    ensures s == WithPrefix(s)[|WithPrefix(s)| - |s|..]
    ensures WithPrefix(s) == s <==> HasPrefix(s)
  {
    if !HasPrefix(s) {
      assert WithPrefix(s)[2..] == s;
    }
  }

  // ---------------------------------------------------------------------
  // Leading zeros

  /** `replace(/^0*\/, "")`: drops every leading `0` digit. */
  function TrimLeadingZeros(s: string): (r: string)
    ensures |r| <= |s| && r == s[|s| - |r|..]
    ensures r == [] || r[0] != '0'
    ensures forall i :: 0 <= i < |s| - |r| ==> s[i] == '0'
    decreases |s|
  {
    if s != [] && s[0] == '0' then TrimLeadingZeros(s[1..]) else s
  }

  /** Trimming a trimmed string changes nothing. */
  lemma TrimIdempotent(s: string)
    ensures TrimLeadingZeros(TrimLeadingZeros(s)) == TrimLeadingZeros(s)
  {
    var r := TrimLeadingZeros(s);
    assert r == [] || r[0] != '0';
  }

  /** A string of zeros (or nothing) trims to the empty string, and only it. */
  lemma TrimAllZeros(s: string)
    ensures TrimLeadingZeros(s) == [] <==> forall i :: 0 <= i < |s| ==> s[i] == '0'
  {
    if forall i :: 0 <= i < |s| ==> s[i] == '0' {
      AllZerosTrimmed(s);
    }
  }

  lemma {:induction false} AllZerosTrimmed(s: string)
    requires forall i :: 0 <= i < |s| ==> s[i] == '0'
    ensures TrimLeadingZeros(s) == []
    decreases |s|
  {
    if s != [] {
      assert forall i :: 0 <= i < |s[1..]| ==> s[1..][i] == s[i + 1];
      AllZerosTrimmed(s[1..]);
    }
  }

  // ---------------------------------------------------------------------
  // ASCII case mapping

  /** `toLowerCase` on one ASCII character. */
  function ToLower(c: char): char
  {
    if 'A' <= c <= 'Z' then (c as int + 32) as char else c
  }

  /** `toUpperCase` on one ASCII character. */
  function ToUpper(c: char): char
  {
    if 'a' <= c <= 'z' then (c as int - 32) as char else c
  }

  /** Lower-casing an upper-cased character gives its lower-case form. */
  lemma CaseRoundTrip(c: char)
    ensures ToLower(ToUpper(c)) == ToLower(c)
    ensures ToLower(ToLower(c)) == ToLower(c)
  {}

  /** `toLowerCase` on a string, character by character. */
  function Lower(s: string): (r: string)
    ensures |r| == |s|
  {
    seq(|s|, i requires 0 <= i < |s| => ToLower(s[i]))
  }

  /** The character codes of `s`, each kept to its low eight bits as a
      `Uint8Array` stores them. */
  function CharCodes(s: string): (r: seq<byte>)
    ensures |r| == |s|
  {
    seq(|s|, i requires 0 <= i < |s| => ByteOf(s[i] as int % 256))
  }

  lemma LowerIdempotent(s: string)
    ensures Lower(Lower(s)) == Lower(s)
  {
    assert forall i :: 0 <= i < |s| ==> Lower(Lower(s))[i] == ToLower(ToLower(s[i]));
  }

  lemma LowerConcat(s: string, t: string)
    ensures Lower(s + t) == Lower(s) + Lower(t)
  {
    assert forall i :: 0 <= i < |s| ==> Lower(s + t)[i] == (Lower(s) + Lower(t))[i];
    assert forall i :: |s| <= i < |s| + |t| ==> Lower(s + t)[i] == Lower(t)[i - |s|];
  }

  // ---------------------------------------------------------------------
  // The `Buffer` "hex" encoding

  /** The lower-case digit for a nibble: `0`-`9`, then `a`-`f`. */
  function Digit(n: nat): (c: char)
    requires n < 16
  {
    if n < 10 then ('0' as int + n) as char else ('a' as int + n - 10) as char
  }

  /** The high and low nibble of a byte. */
  function Hi(x: byte): nat { x as int / 16 }
  function Lo(x: byte): nat { x as int % 16 }

  lemma Nibbles(x: byte)
    ensures Hi(x) < 16 && Lo(x) < 16 && Hi(x) * 16 + Lo(x) == x as int
  {}

  predicate IsHexDigit(c: char)
  {
    '0' <= c <= '9' || 'a' <= c <= 'f' || 'A' <= c <= 'F'
  }

  /** Every character of `s` is a hex digit (either case). */
  predicate AllHex(s: string)
  {
    forall i :: 0 <= i < |s| ==> IsHexDigit(s[i])
  }

  /** The value of one hex digit; the digit is its lower-case rendering. */
  function DigitValue(c: char): (n: nat)
    requires IsHexDigit(c)
    ensures n < 16 && Digit(n) == ToLower(c)
  {
    if c <= '9' then c as int - '0' as int
    else if c <= 'F' then c as int - 'A' as int + 10
    else c as int - 'a' as int + 10
  }

  /** A rendered digit is a lower-case hex digit that reads back as its
      nibble. */
  lemma DigitReadsBack(n: nat)
    requires n < 16
    ensures IsHexDigit(Digit(n)) && ToLower(Digit(n)) == Digit(n) && DigitValue(Digit(n)) == n
  {}

  /** The byte a pair of hex digits stands for, high digit first. */
  function PairByte(c0: char, c1: char): (x: byte)
    requires IsHexDigit(c0) && IsHexDigit(c1)
    ensures Hi(x) == DigitValue(c0) && Lo(x) == DigitValue(c1)
  {
    ByteOf(DigitValue(c0) * 16 + DigitValue(c1))
  }

  /** A byte is determined by its two nibbles. */
  lemma SameNibbles(x: byte, y: byte)
    requires Hi(x) == Hi(y) && Lo(x) == Lo(y)
    ensures x == y
  {
    Nibbles(x);
    Nibbles(y);
    NatOfByte(x as nat, y);
  }

  /** The two digits of a byte read back as that byte. */
  lemma PairReadsBack(x: byte)
    ensures IsHexDigit(Digit(Hi(x))) && IsHexDigit(Digit(Lo(x)))
    ensures PairByte(Digit(Hi(x)), Digit(Lo(x))) == x
  {
    Nibbles(x);
    DigitReadsBack(Hi(x));
    DigitReadsBack(Lo(x));
    SameNibbles(PairByte(Digit(Hi(x)), Digit(Lo(x))), x);
  }

  /** `buffer.toString("hex")`: each byte as two lower-case digits. */
  function EncodeHex(b: seq<byte>): (r: string)
    ensures |r| == 2 * |b|
    decreases |b|
  {
    if b == [] then []
    else [Digit(Hi(b[0])), Digit(Lo(b[0]))] + EncodeHex(b[1..])
  }

  /** `Buffer.from(s, "hex")`: one byte per pair of hex digits, stopping at
      the first pair that is incomplete or holds a non-digit. */
  function DecodeHex(s: string): (r: seq<byte>)
    ensures |r| <= |s| / 2
    decreases |s|
  {
    if |s| < 2 || !IsHexDigit(s[0]) || !IsHexDigit(s[1]) then []
    else [PairByte(s[0], s[1])] + DecodeHex(s[2..])
  }

  /** Byte `k` of the input is digits `2k` and `2k+1` of the encoding,
      high nibble first. */
  lemma {:induction false} EncodeHexAt(b: seq<byte>)
    ensures forall k :: 0 <= k < |b| ==>
      EncodeHex(b)[2 * k] == Digit(Hi(b[k])) &&
      EncodeHex(b)[2 * k + 1] == Digit(Lo(b[k]))
    decreases |b|
  {
    if b != [] {
      var rest := EncodeHex(b[1..]);
      EncodeHexAt(b[1..]);
      var r := EncodeHex(b);
      assert r == [Digit(Hi(b[0])), Digit(Lo(b[0]))] + rest;
      forall k | 1 <= k < |b|
        ensures r[2 * k] == Digit(Hi(b[k])) && r[2 * k + 1] == Digit(Lo(b[k]))
      {
        assert r[2 * k] == rest[2 * (k - 1)] && r[2 * k + 1] == rest[2 * (k - 1) + 1];
        assert b[1..][k - 1] == b[k];
      }
    }
  }

  /** The encoding consists of lower-case hex digits only. */
  lemma EncodeHexLower(b: seq<byte>)
    ensures AllHex(EncodeHex(b))
    ensures Lower(EncodeHex(b)) == EncodeHex(b)
  {
    EncodeHexAt(b);
    var r := EncodeHex(b);
    forall i | 0 <= i < |r|
      ensures IsHexDigit(r[i]) && ToLower(r[i]) == r[i]
    {
      var k := i / 2;
      Nibbles(b[k]);
      DigitReadsBack(Hi(b[k]));
      DigitReadsBack(Lo(b[k]));
      assert r[i] == Digit(Hi(b[k])) || r[i] == Digit(Lo(b[k])) by {
        assert i == 2 * k || i == 2 * k + 1;
      }
    }
  }

  /** The encoding never starts with `0x`, since its second character is a
      digit; so a `HexString` built from it always gains the prefix. */
  lemma EncodeHexUnprefixed(b: seq<byte>)
    ensures !HasPrefix(EncodeHex(b))
  {
    EncodeHexLower(b);
  }

  lemma EncodeHexCons(x: byte, rest: seq<byte>)
    ensures EncodeHex([x] + rest) == [Digit(Hi(x)), Digit(Lo(x))] + EncodeHex(rest)
  {
    assert ([x] + rest)[1..] == rest;
  }

  lemma DecodeHexCons(s: string)
    requires |s| >= 2 && IsHexDigit(s[0]) && IsHexDigit(s[1])
    ensures DecodeHex(s) == [PairByte(s[0], s[1])] + DecodeHex(s[2..])
  {}

  /** Decoding undoes encoding. */
  lemma {:induction false} DecodeEncode(b: seq<byte>)
    ensures DecodeHex(EncodeHex(b)) == b
    decreases |b|
  {
    if b != [] {
      var s := EncodeHex(b);
      assert s[0] == Digit(Hi(b[0])) && s[1] == Digit(Lo(b[0])) && s[2..] == EncodeHex(b[1..]);
      PairReadsBack(b[0]);
      DecodeHexCons(s);
      DecodeEncode(b[1..]);
    }
  }

  /** On hex digits decoding reads every complete pair; an odd last digit is
      ignored. */
  lemma {:induction false} DecodeHexLength(s: string)
    requires AllHex(s)
    ensures |DecodeHex(s)| == |s| / 2
    decreases |s|
  {
    if |s| >= 2 {
      assert AllHex(s[2..]) by {
        assert forall i :: 0 <= i < |s[2..]| ==> s[2..][i] == s[i + 2];
      }
      DecodeHexLength(s[2..]);
    }
  }

  /** Decoding ignores an odd last digit. */
  lemma {:induction false} DecodeHexOdd(s: string)
    requires |s| % 2 == 1
    ensures DecodeHex(s) == DecodeHex(s[..|s| - 1])
    decreases |s|
  {
    var t := s[..|s| - 1];
    if |s| >= 3 {
      assert t[0] == s[0] && t[1] == s[1] && t[2..] == s[2..][..|s[2..]| - 1];
      DecodeHexOdd(s[2..]);
    }
  }

  lemma LowerPair(s: string)
    requires |s| >= 2
    ensures Lower(s[..2]) == [ToLower(s[0]), ToLower(s[1])]
  {}

  /** A digit pair's byte encodes as the pair in lower case. */
  lemma PairEncodes(c0: char, c1: char, rest: seq<byte>)
    requires IsHexDigit(c0) && IsHexDigit(c1)
    ensures EncodeHex([PairByte(c0, c1)] + rest) == [ToLower(c0), ToLower(c1)] + EncodeHex(rest)
  {
    EncodeHexCons(PairByte(c0, c1), rest);
  }

  /** The first digit pair decodes to a byte that encodes as the pair in
      lower case. */
  lemma EncodeDecodeStep(s: string)
    requires |s| >= 2 && IsHexDigit(s[0]) && IsHexDigit(s[1])
    ensures EncodeHex(DecodeHex(s)) == Lower(s[..2]) + EncodeHex(DecodeHex(s[2..]))
  {
    DecodeHexCons(s);
    PairEncodes(s[0], s[1], DecodeHex(s[2..]));
    LowerPair(s);
  }

  /** Encoding the decoding of an even number of hex digits gives those
      digits in lower case. */
  lemma {:induction false} EncodeDecode(s: string)
    requires AllHex(s) && |s| % 2 == 0
    ensures EncodeHex(DecodeHex(s)) == Lower(s)
    decreases |s|
  {
    if |s| >= 2 {
      assert AllHex(s[2..]) by {
        assert forall i :: 0 <= i < |s[2..]| ==> s[2..][i] == s[i + 2];
      }
      EncodeDecode(s[2..]);
      EncodeDecodeStep(s);
      LowerConcat(s[..2], s[2..]);
      assert s[..2] + s[2..] == s;
    }
  }
}
