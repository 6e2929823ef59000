/** The byte layout of an Aptos multi-agent signing message: the salt's
    digest, a zero, the original message after its first 32 bytes, the
    number of secondary signers and their addresses. The SHA3-256 hasher and
    the accounts are inputs: `sha3` is the digest function and each signer is
    given by the bytes of its address. */
module SigningMessage {
  import opened Common
  import opened HexCodec
  import opened Leb128

  /** `SALT`. */
  const Salt := "APTOS::RawTransactionWithData"

  /** `flatMap` over the signers: their address bytes one after another. */
  function Flatten(parts: seq<seq<byte>>): (r: seq<byte>)
    ensures |r| == TotalLength(parts)
  {
    if parts == [] then [] else parts[0] + Flatten(parts[1..])
  }

  /** The summed lengths of `parts`. */
  function TotalLength(parts: seq<seq<byte>>): nat
  {
    if parts == [] then 0 else |parts[0]| + TotalLength(parts[1..])
  }

  /** `original.toUint8Array().slice(32)`: nothing when there are at most 32
      bytes. */
  function Body(original: seq<byte>): (r: seq<byte>)
    ensures |r| == if |original| <= 32 then 0 else |original| - 32
  {
    if |original| <= 32 then [] else original[32..]
  }

  /** `getMultiAgentSigningMessage`. A JavaScript array holds fewer than
      2^32 elements, so the signer count is a u32. */
  function MultiAgentSigningMessage(original: seq<byte>, signers: seq<seq<byte>>, sha3: seq<byte> -> Digest): seq<byte>
    requires |signers| < 0x1_0000_0000
  {
    sha3(CharCodes(Salt)) + Uleb128(0) + Body(original) + Uleb128(|signers| as bv32) + Flatten(signers)
  }

  /** Where each of five concatenated fields sits. */
  lemma Fields(a: seq<byte>, b: seq<byte>, c: seq<byte>, d: seq<byte>, e: seq<byte>)
    ensures var r := a + b + c + d + e;
      && |r| == |a| + |b| + |c| + |d| + |e|
      && r[..|a|] == a
      && r[|a|..|a| + |b|] == b
      && r[|a| + |b|..|a| + |b| + |c|] == c
      && r[|a| + |b| + |c|..] == d + e
      && r[|a| + |b| + |c|..|a| + |b| + |c| + |d|] == d
      && r[|a| + |b| + |c| + |d|..] == e
  {
    var r := a + b + c + d + e;
    assert r == a + (b + (c + (d + e)));
  }

  /** The layout, field by field: 32 digest bytes, the byte 0, the original
      bytes from index 32 on, the ULEB128 signer count (1 to 5 bytes), then the addresses; the length is the sum of
      those. */
  lemma MessageLayout(original: seq<byte>, signers: seq<seq<byte>>, sha3: seq<byte> -> Digest)
    requires |signers| < 0x1_0000_0000
    ensures var r := MultiAgentSigningMessage(original, signers, sha3);
      var d := |Body(original)|;
      var count := Uleb128(|signers| as bv32);
      && 1 <= |count| <= 5
      && |r| == 32 + 1 + d + |count| + TotalLength(signers)
      && r[..32] == sha3(CharCodes(Salt))
      && r[32] == 0
      && r[33..33 + d] == Body(original)
      && r[33 + d..33 + d + |count|] == count
      && r[33 + d + |count|..] == Flatten(signers)
  {
    var r := MultiAgentSigningMessage(original, signers, sha3);
    var salt, body, count, tail := sha3(CharCodes(Salt)), Body(original), Uleb128(|signers| as bv32), Flatten(signers);
    assert r == salt + [0] + body + count + tail by {
      assert Uleb128(0) == [0];
    }
    Fields(salt, [0], body, count, tail);
    assert 1 <= |count| <= 5 by {
      EncodingLength(|signers| as bv32);
    }
  }

  /** The signer count reads back with the package's own `decodeU32` as
      the number of signers `v` whenever it is below 2^31, whatever follows
      it. */
  lemma SignerCountDecodes(original: seq<byte>, signers: seq<seq<byte>>, sha3: seq<byte> -> Digest, v: bv32)
    requires v as int == |signers| && v < 0x8000_0000
    ensures var r := MultiAgentSigningMessage(original, signers, sha3);
      DecodeU32Spec(r[33 + |Body(original)|..]) == Ok(v)
  {
    var r := MultiAgentSigningMessage(original, signers, sha3);
    assert |signers| as bv32 == v;
    assert r[33 + |Body(original)|..] == Uleb128(v) + Flatten(signers) by {
      assert Uleb128(0) == [0];
      Fields(sha3(CharCodes(Salt)), Uleb128(0), Body(original), Uleb128(v), Flatten(signers));
    }
    RoundTrip(v, Flatten(signers));
  }

  /** The addresses appear in input order: signer `k`'s bytes start after
      those of the signers before it. */
  lemma {:induction false} FlattenOrder(parts: seq<seq<byte>>, k: nat)
    requires k < |parts|
    ensures TotalLength(parts[..k]) + |parts[k]| <= TotalLength(parts)
    ensures Flatten(parts)[TotalLength(parts[..k])..TotalLength(parts[..k]) + |parts[k]|] == parts[k]
    decreases k
  {
    if k == 0 {
      assert parts[..0] == [];
    } else {
      FlattenOrder(parts[1..], k - 1);
      assert parts[1..][..k - 1] == parts[..k][1..];
      assert parts[1..][k - 1] == parts[k];
    }
  }
}
