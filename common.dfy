/** Values shared by every part of the model: bytes and the failure-compatible
    Option and Result wrappers that stand for the source's `undefined` returns
    and thrown errors. */
module Common {

  /** An element of a `Uint8Array` or `Buffer`. */
  type byte = bv8

  lemma NibbleOfNat(x: nat)
    requires x < 16
    ensures (x as bv4) as nat == x
  {}

  /** A byte put together from its two nibbles. */
  lemma Compose(h: bv4, l: bv4)
    ensures (((h as byte) << 4) | (l as byte)) as nat == h as nat * 16 + l as nat
  {}

  /** The byte holding a number below 256, built nibble by nibble. */
  function ByteOf(k: nat): (b: byte)
    requires k < 256
    ensures b as nat == k
  {
    var h, l := (k / 16) as bv4, (k % 16) as bv4;
    NibbleOfNat(k / 16);
    NibbleOfNat(k % 16);
    Compose(h, l);
    ((h as byte) << 4) | (l as byte)
  }

  /** A byte's number converts back to that byte. */
  lemma NatOfByte(k: nat, x: byte)
    requires k == x as nat
    ensures k as byte == x
  {}

  /** A byte rebuilt from its number is that byte. */
  lemma ByteOfByte(x: byte)
    ensures ByteOf(x as nat) == x
  {
    NatOfByte(x as nat, x);
    NatOfByte(x as nat, ByteOf(x as nat));
  }

  /** A SHA3-256 digest: 32 bytes. The hash itself is not modelled; the
      operations that use it take it as a function parameter. */
  type Digest = d: seq<byte> | |d| == 32 witness seq(32, _ => 0)

  datatype Option<+T> = None | Some(value: T)

  /** `Ok` is a normal return, `Err` a thrown `Error` carrying its reason. */
  datatype Result<+T, +E> = Ok(value: T) | Err(error: E) {
    predicate IsFailure() {
      Err?
    }

    function PropagateFailure<U>(): Result<U, E>
      requires Err?
    {
      Err(error)
    }

    function Extract(): T
      requires Ok?
    {
      value
    }
  }
}
