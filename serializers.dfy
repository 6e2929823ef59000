/** The `hexString` argument serializer of the `prelude` package. */
module Serializers {
  import opened HexCodec
  import CoreHexString

  /** `HexStringArg`: a string, or any object with a `hex()` method,
      represented by what that method returns. */
  datatype HexStringArg = Str(s: string) | Like(hex: string)

  /** `hexString`: the text of the argument, through the core
      `HexString.ensure`. */
  function SerializeHexString(arg: HexStringArg): (r: string)
    ensures HasPrefix(r)
    ensures var text := if arg.Str? then arg.s else arg.hex;
      (HasPrefix(text) ==> r == text) && (!HasPrefix(text) ==> r == "0x" + text)
  {
    var text := if arg.Str? then arg.s else arg.hex;
    CoreHexString.Ensure(CoreHexString.Str(text)).Hex()
  }

  /** Serializing a serialized value changes nothing. */
  lemma SerializeIdempotent(arg: HexStringArg)
    ensures SerializeHexString(Str(SerializeHexString(arg))) == SerializeHexString(arg)
  {}

  /** A core `HexString` (or `Address`) serializes to its own `hex()`. */
  lemma SerializeHexValue(h: CoreHexString.HexString)
    ensures SerializeHexString(Like(h.Hex())) == h.Hex()
  {}
}
