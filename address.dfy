/** `Address`, the subclass of the core `HexString` that stands for an
    account address. It adds no state and performs no normalisation: no
    lower-casing and no zero-trimming. */
module Addresses {
  import opened Common
  import opened HexCodec
  import CoreHexString

  /** `Address.ensure`: an `Address` is returned as it is; a string is
      wrapped as the constructor does; any other hex value becomes the
      `Address` with the same `hex()`. */
  function Ensure(m: CoreHexString.MaybeHexString): (a: CoreHexString.HexString)
    ensures a.Address?
    ensures m.Value? && m.h.Address? ==> a == m.h
    ensures m.Str? ==> a.Hex() == WithPrefix(m.s)
    ensures m.Value? ==> a.Hex() == m.h.Hex()
  {
    match m
    case Value(h) => if h.Address? then h else CoreHexString.Address(WithPrefix(h.Hex()))
    case Str(s) => CoreHexString.Address(WithPrefix(s))
  }

  /** `Address.fromBuffer` and `Address.fromUint8Array`. */
  function FromBuffer(b: seq<byte>): (a: CoreHexString.HexString)
    ensures a.Address? && a.Hex() == CoreHexString.FromBuffer(b).Hex()
  {
    Ensure(CoreHexString.Value(CoreHexString.FromBuffer(b)))
  }

  /** The record `toJSON` returns. */
  datatype AddressJson = AddressJson(typename: string, hex: string)

  /** `toJSON`: the type name `Address` and the text. */
  function ToJson(a: CoreHexString.HexString): (j: AddressJson)
    ensures j.typename == "Address" && HasPrefix(j.hex)
  {
    AddressJson("Address", a.Hex())
  }

  /** `ensure` on its own result changes nothing. */
  lemma EnsureIdempotent(m: CoreHexString.MaybeHexString)
    ensures Ensure(CoreHexString.Value(Ensure(m))) == Ensure(m)
  {}

  /** A string keeps its spelling: the digits of `ensure("0x" + d)` are `d`,
      with the same letter case and the same leading zeros. */
  lemma EnsureKeepsDigits(d: string)
    ensures Ensure(CoreHexString.Str("0x" + d)).NoPrefix() == d
    ensures Ensure(CoreHexString.Str(d)).NoPrefix() == d || HasPrefix(d)
  {}

  /** The address's bytes read back from its text. */
  lemma FromBufferRoundTrip(b: seq<byte>)
    ensures FromBuffer(b).ToBuffer() == b
  {
    DecodeEncode(b);
  }

  /** The `hex` of the JSON record names the same address again. */
  lemma JsonRoundTrip(a: CoreHexString.HexString)
    requires a.Address?
    ensures Ensure(CoreHexString.Str(ToJson(a).hex)) == a
  {}
}
