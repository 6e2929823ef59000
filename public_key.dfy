/** The ed25519 `PublicKey` of the `core` package: a big integer (a `BN`)
    checked on construction to fit in 32 bytes, written out as exactly 32
    big-endian bytes, and hashed into a Sui address. The integer is a `nat`;
    base64 decoding and SHA3-256 are function parameters. */
module PublicKeys {
  import opened Common
  import opened HexCodec
  import CoreHexString

  /** `PUBLIC_KEY_SIZE`. */
  const PublicKeySize: nat := 32

  function Pow256(k: nat): (r: nat)
    ensures r >= 1
  {
    if k == 0 then 1 else 256 * Pow256(k - 1)
  }

  /** `BN.byteLength()`: the bytes `n` needs; zero needs none. */
  function ByteLength(n: nat): nat
    decreases n
  {
    if n == 0 then 0 else 1 + ByteLength(n / 256)
  }

  /** The low `width` bytes of `n`, most significant first. */
  function BigEndian(n: nat, width: nat): (r: seq<byte>)
    ensures |r| == width
  {
    if width == 0 then [] else BigEndian(n / 256, width - 1) + [ByteOf(n % 256)]
  }

  /** `new BN(bytes)`: the bytes read as a big-endian number. */
  function ValueOf(b: seq<byte>): (n: nat)
    ensures n < Pow256(|b|)
    decreases |b|
  {
    if b == [] then 0
    else
      var v := ValueOf(b[..|b| - 1]);
      assert v * 256 + 255 < Pow256(|b|) by {
        assert v + 1 <= Pow256(|b| - 1);
        assert (v + 1) * 256 <= Pow256(|b| - 1) * 256;
      }
      v * 256 + b[|b| - 1] as nat
  }

  /** `toArrayLike(Buffer)` with no length: the minimal big-endian bytes,
      at least one. */
  function MinimalBytes(n: nat): seq<byte>
  {
    BigEndian(n, if ByteLength(n) == 0 then 1 else ByteLength(n))
  }

  function Zeros(k: nat): (r: seq<byte>)
    ensures |r| == k && forall i :: 0 <= i < k ==> r[i] == 0
  {
    seq(k, _ => 0)
  }

  // ---------------------------------------------------------------------
  // Big-endian conversion

  /** A number needs at most `k` bytes exactly when it is below 256^k. */
  lemma {:induction false} ByteLengthBound(n: nat, k: nat)
    ensures ByteLength(n) <= k <==> n < Pow256(k)
    decreases k
  {
    if k > 0 && n > 0 {
      ByteLengthBound(n / 256, k - 1);
    }
  }

  lemma DivMod256(v: nat, x: nat)
    requires x < 256
    ensures (v * 256 + x) / 256 == v && (v * 256 + x) % 256 == x
  {}

  lemma SplitLast(n: nat, w: nat)
    requires n < Pow256(w + 1)
    ensures n / 256 < Pow256(w) && n == (n / 256) * 256 + n % 256
  {}

  lemma ValueOfSnoc(p: seq<byte>, x: byte)
    ensures ValueOf(p + [x]) == ValueOf(p) * 256 + x as nat
  {
    assert (p + [x])[..|p|] == p;
  }

  /** Writing a number that fits and reading it back gives the number. */
  lemma {:induction false} ValueOfBigEndian(n: nat, width: nat)
    requires n < Pow256(width)
    ensures ValueOf(BigEndian(n, width)) == n
    decreases width
  {
    if width > 0 {
      SplitLast(n, width - 1);
      ValueOfBigEndian(n / 256, width - 1);
      ValueOfSnoc(BigEndian(n / 256, width - 1), ByteOf(n % 256));
    }
  }

  /** Reading bytes as a number and writing it at the same width gives the
      bytes back, leading zeros included. */
  lemma {:induction false} BigEndianOfValue(b: seq<byte>)
    ensures BigEndian(ValueOf(b), |b|) == b
    decreases |b|
  {
    if b != [] {
      var p, x := b[..|b| - 1], b[|b| - 1];
      assert b == p + [x];
      BigEndianOfValue(p);
      var v := ValueOf(p);
      ValueOfSnoc(p, x);
      DivMod256(v, x as nat);
      ByteOfByte(x);
    }
  }

  /** Zero bytes in front do not change the number: writing at a larger
      width pads on the left. */
  lemma {:induction false} PadLeft(n: nat, width: nat, k: nat)
    requires n < Pow256(width)
    ensures Zeros(k) + BigEndian(n, width) == BigEndian(n, width + k)
    decreases width
  {
    if width == 0 {
      ZerosBigEndian(k);
    } else {
      PadLeft(n / 256, width - 1, k);
      assert width - 1 + k == width + k - 1;
    }
  }

  lemma {:induction false} ZerosBigEndian(k: nat)
    ensures BigEndian(0, k) == Zeros(k)
  {
    if k > 0 {
      ZerosBigEndian(k - 1);
    }
  }

  // ---------------------------------------------------------------------
  // The key

  datatype PublicKey = PublicKey(bn: nat)

  /** `PublicKeyInitData`: a `{_bn}` object, a base64 string, bytes (a
      `Buffer`, a `Uint8Array` or an array of byte values), or a number. */
  datatype InitData = Data(value: nat) | Base64(text: string) | Bytes(b: seq<byte>) | Number(n: nat)

  datatype KeyError =
    | WrongLength(got: nat)  // "Invalid public key input. Expected 32 bytes, got ..."
    | InvalidInput           // "Invalid public key input"
    | OutOfRange             // `Buffer.copy` refuses a negative target offset
    | UnsafeNumber           // `new BN(n)` asserts that a number is below 2^53

  /** The bound `new BN` puts on a JavaScript number: 2^53. */
  const SafeNumberLimit: nat := 0x20_0000_0000_0000

  /** The size check of the constructor: more than 32 bytes throws. */
  function Checked(bn: nat): Result<PublicKey, KeyError>
  {
    if ByteLength(bn) > PublicKeySize then Err(InvalidInput) else Ok(PublicKey(bn))
  }

  /** `new PublicKey(value)`: a `{_bn}` object is adopted with no check; a
      string must decode to exactly 32 bytes; every other input is turned
      into its number (a JavaScript number must be below 2^53 for that) and
      must fit in 32 bytes. */
  function Construct(value: InitData, base64: string -> seq<byte>): Result<PublicKey, KeyError>
  {
    match value
    case Data(bn) => Ok(PublicKey(bn))
    case Base64(text) =>
      var buffer := base64(text);
      if |buffer| != 32 then Err(WrongLength(|buffer|)) else Checked(ValueOf(buffer))
    case Bytes(b) => Checked(ValueOf(b))
    case Number(n) => if n >= SafeNumberLimit then Err(UnsafeNumber) else Checked(n)
  }

  /** What `toBuffer` and `toBytes` return: the key as 32 big-endian bytes,
      or the error `Buffer.copy` throws for a key over 32 bytes (possible
      only for an adopted `{_bn}`). */
  function KeyBytes(key: PublicKey): Result<seq<byte>, KeyError>
  {
    if ByteLength(key.bn) > PublicKeySize then Err(OutOfRange) else Ok(BigEndian(key.bn, PublicKeySize))
  }

  /** `toBuffer`: the minimal bytes as they are when there are 32 of them,
      otherwise copied into the end of a zeroed 32-byte buffer. */
  method ToBuffer(key: PublicKey) returns (r: Result<seq<byte>, KeyError>)
    ensures r == KeyBytes(key)
  {
    var b := MinimalBytes(key.bn);
    if |b| == PublicKeySize {
      return Ok(b);
    }
    if |b| > PublicKeySize {
      return Err(OutOfRange);
    }
    var zeroPad := new byte[PublicKeySize](_ => 0);
    var start := PublicKeySize - |b|;
    for i := 0 to |b|
      invariant forall j :: 0 <= j < PublicKeySize ==> zeroPad[j] == if start <= j < start + i then b[j - start] else 0
    {
      zeroPad[start + i] := b[i];
    }
    assert zeroPad[..] == Zeros(start) + b;
    assert zeroPad[..] == BigEndian(key.bn, PublicKeySize) by {
      ByteLengthBound(key.bn, |b|);
      PadLeft(key.bn, |b|, start);
    }
    return Ok(zeroPad[..]);
  }

  /** `equals`: the two numbers are the same. */
  function Equals(key: PublicKey, other: PublicKey): bool
  {
    key.bn == other.bn
  }

  /** `toSuiAddress`: the hex text of the first 20 bytes of the SHA3-256
      digest of the key's 32 bytes. The digest's hex text, read back as a
      number and written as 32 bytes, is the digest itself. */
  function ToSuiAddress(key: PublicKey, sha3: seq<byte> -> Digest): (r: Result<CoreHexString.HexString, KeyError>)
    ensures r.Ok? <==> KeyBytes(key).Ok?
    ensures r.Ok? ==> r.value.Hex() == "0x" + EncodeHex(sha3(KeyBytes(key).value)[..20]) && |r.value.Hex()| == 42
  {
    var bytes :- KeyBytes(key);
    var digest := sha3(bytes);
    var publicKeyBytes := BigEndian(ValueOf(digest), 32);
    BigEndianOfValue(digest);
    Ok(CoreHexString.FromBuffer(publicKeyBytes[..20]))
  }

  // ---------------------------------------------------------------------
  // Properties

  lemma Pow256Seven()
    ensures Pow256(7) == 0x100_0000_0000_0000
  {}

  /** A number below 2^53 needs at most 7 bytes, so it always fits. */
  lemma NumberFits(n: nat)
    requires n < SafeNumberLimit
    ensures ByteLength(n) <= PublicKeySize && n < Pow256(32)
  {
    Pow256Seven();
    ByteLengthBound(n, 7);
    ByteLengthBound(n, 32);
  }

  /** Every key the constructor builds from bytes or a string fits in 32
      bytes; bytes are accepted exactly when their number is below 2^256, a
      string exactly when it decodes to 32 bytes, and a `{_bn}` is adopted
      unchecked. */
  lemma ConstructChecks(value: InitData, base64: string -> seq<byte>)
    ensures Construct(value, base64).Ok? && (value.Bytes? || value.Base64?) ==> Construct(value, base64).value.bn < Pow256(32)
    ensures value.Bytes? ==> (Construct(value, base64).Ok? <==> ValueOf(value.b) < Pow256(32))
    ensures value.Base64? ==> (Construct(value, base64).Ok? <==> |base64(value.text)| == 32)
    ensures value.Data? ==> Construct(value, base64) == Ok(PublicKey(value.value))
  {
    match value
    case Data(_) =>
    case Base64(text) => ByteLengthBound(ValueOf(base64(text)), 32);
    case Bytes(b) => ByteLengthBound(ValueOf(b), 32);
    case Number(_) =>
  }

  /** A number is accepted exactly when it is below 2^53, and the key it
      gives then fits in 32 bytes. */
  lemma ConstructNumber(n: nat, base64: string -> seq<byte>)
    ensures Construct(Number(n), base64).Ok? <==> n < SafeNumberLimit
    ensures Construct(Number(n), base64).Ok? ==> Construct(Number(n), base64).value.bn < Pow256(32)
  {
    if n < SafeNumberLimit {
      NumberFits(n);
    }
  }

  /** A key that fits is written as exactly 32 bytes that read back as the
      key's number. */
  lemma KeyBytesFixedWidth(key: PublicKey)
    ensures KeyBytes(key).Ok? <==> key.bn < Pow256(32)
    ensures KeyBytes(key).Ok? ==> |KeyBytes(key).value| == 32 && ValueOf(KeyBytes(key).value) == key.bn
  {
    ByteLengthBound(key.bn, 32);
    if key.bn < Pow256(32) {
      ValueOfBigEndian(key.bn, 32);
    }
  }

  /** Any 32 bytes, leading zeros included, come back from `toBytes` as they
      went into the constructor. */
  lemma BytesRoundTrip(b: seq<byte>, base64: string -> seq<byte>)
    requires |b| == 32
    ensures Construct(Bytes(b), base64).Ok?
    ensures KeyBytes(Construct(Bytes(b), base64).value) == Ok(b)
  {
    ByteLengthBound(ValueOf(b), 32);
    BigEndianOfValue(b);
  }

  /** Two keys that can be written out are equal exactly when their bytes
      are. */
  lemma EqualsIffSameBytes(key: PublicKey, other: PublicKey)
    requires KeyBytes(key).Ok? && KeyBytes(other).Ok?
    ensures Equals(key, other) <==> KeyBytes(key) == KeyBytes(other)
  {
    KeyBytesFixedWidth(key);
    KeyBytesFixedWidth(other);
  }
}
