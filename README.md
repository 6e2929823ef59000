# moving-kit core, modelled in Dafny

This project models the value, parsing and serialising routines of the
moving-kit TypeScript packages and proves their properties. The routines are:

- the Move struct-tag tokenizer and parser (`parseMoveType`);
- the two `0x`-prefixed `HexString` value types, the `Address` subclass and
  the mixed-case checksum spelling of an address;
- the unsigned LEB128 u32 encoder and decoder;
- the byte layout of an Aptos multi-agent signing message;
- the 32-byte ed25519 `PublicKey` (size checks, big-endian padding, the Sui
  address);
- the `hexString` argument serializer and `mapN`.

Each source file is one Dafny module:

| file | module | source |
|---|---|---|
| `move_type.dfy` | `MoveTypes` | `packages/core/src/moveType.ts` |
| `hex_codec.dfy` | `HexCodec` | the text and `Buffer` "hex" conventions both hex-string packages share |
| `hexstring.dfy` | `Hexstring` | `packages/hexstring/src/index.ts` |
| `core_hexstring.dfy` | `CoreHexString` | `packages/core/src/hexString.ts` |
| `address.dfy` | `Addresses` | `packages/core/src/address.ts` |
| `leb128.dfy` | `Leb128` | `packages/leb128/src/index.ts` |
| `signing_message.dfy` | `SigningMessage` | `packages/aptos/src/signingMessage.ts` |
| `public_key.dfy` | `PublicKeys` | `packages/core/src/publicKey.ts` |
| `serializers.dfy` | `Serializers` | `packages/prelude/src/serializers.ts` |
| `misc.dfy` | `Misc` | `packages/core/src/misc.ts` |
| `common.dfy` | `Common` | bytes, `Option`, `Result` |

Code that works step by step is written as methods with loops. Each such
method is proved equal to a specification function:

- `Tokenize`, `ParseName` and `ParseArguments` against `Tokens` and `Parse`;
- `GetChecksumAddress` and `MarkDigits`, over an `array<char>` updated in
  place, against `ChecksumAddress`;
- `EncodeU32` and `DecodeU32` against `Uleb128` and `DecodeU32Spec`;
- `PublicKeys.ToBuffer`, which copies into a zeroed array, against `KeyBytes`.

The properties are then proved about those functions. Immutable classes
(`HexString`, `Address`, `PublicKey`) are datatypes. A thrown `Error` is the
`Err` case of a `Result`.

Bytes are `bv8`. The LEB128 code works on `bv32`, because the source relies
on JavaScript's 32-bit `>>>`, `&`, `|` and `<<`. Big integers (`BN`) are
`nat`.

SHA3-256 and base64 decoding are function parameters. `sha3` is any function
from bytes to 32 bytes, so every property holds whatever the hash is.

## Model

| member | source | states |
|---|---|---|
| MoveTypes.WordRun | packages/core/src/moveType.ts:20 | the `\w+` match is the longest prefix of word characters: all of it are word characters and the next one is not |
| MoveTypes.Tokenize | packages/core/src/moveType.ts:32-55 | the buffer loop, trying the patterns in `TOKENS` order and dropping one character when none matches, returns exactly `Tokens(fqn)` |
| MoveTypes.FirstMatch | packages/core/src/moveType.ts:36-50 | the first pattern that matches decides the token, and the buffer loses exactly the matched text |
| MoveTypes.NoMatch | packages/core/src/moveType.ts:52 | when no pattern matches, one character is dropped and no token is emitted |
| MoveTypes.IdentsAreWords | packages/core/src/moveType.ts:20-44 | every `IDENT` token carries a non-empty run of word characters |
| MoveTypes.SkippedCharacter | packages/core/src/moveType.ts:15-52 | a space, a lone `:` or any other character that starts no token contributes nothing |
| MoveTypes.SplitAt | packages/core/src/moveType.ts:86-101 | the argument split always has at least one part, and each part is no longer than the input |
| MoveTypes.ParseAll | packages/core/src/moveType.ts:95-101 | when every part parses, there is one type per part |
| MoveTypes.ParseName | packages/core/src/moveType.ts:57-115 | the method (header checks in source order, bracket checks, argument split, result) returns exactly `Parse(tokens)` |
| MoveTypes.ParseArguments | packages/core/src/moveType.ts:83-101 | the `forEach` over the inner tokens (depth first, then a comma at depth 0 ends a part, the last part parsed after the loop) returns exactly the parts of `SplitAt` parsed in order, and the first failure wins |
| MoveTypes.ParseMoveTypeMethod | packages/core/src/moveType.ts:117-120 | tokenize then parse equals `ParseMoveType` |
| MoveTypes.ParseAllSnoc | packages/core/src/moveType.ts:94-101 | parsing one more part keeps an earlier failure, else adds the new part's failure or result |
| MoveTypes.ParseAllPrefix | packages/core/src/moveType.ts:88-101 | parts parse left to right: a failing prefix fails the whole list with the same error, otherwise the results concatenate |
| MoveTypes.ParseAllEach | packages/core/src/moveType.ts:88-101 | parts that each parse give exactly the list of their results |
| MoveTypes.LexText | packages/core/src/moveType.ts:32-55 | tokenizing the written text of a printable token list gives that token list back |
| MoveTypes.PrintableType | packages/core/src/moveType.ts:15-21 | the tokens of a well-formed type can be written so that they lex back |
| MoveTypes.InsideType | packages/core/src/moveType.ts:86-93 | brackets in a type's tokens balance, and the depth never falls below its start inside them |
| MoveTypes.SplitInside | packages/core/src/moveType.ts:88-99 | a comma inside a nested generic does not split: a type's tokens stay one part |
| MoveTypes.SplitJoin | packages/core/src/moveType.ts:86-101 | splitting the comma-joined tokens of several types gives those types' tokens back, part by part |
| MoveTypes.ParseTypeTokens | packages/core/src/moveType.ts:57-115 | parsing the tokens of a well-formed type gives that type back |
| MoveTypes.ParseFullyQualifiedName | packages/core/src/moveType.spec.ts:162-177 | `parseMoveType(fullyQualifiedName(t)) == t` for every well-formed type, with `, ` between arguments |
| MoveTypes.ParseWellFormed | packages/core/src/moveType.ts:57-115 | a successful parse of tokens whose identifiers are words yields a well-formed type: word names, and type arguments present only when non-empty |
| MoveTypes.ParsedIsWellFormed | packages/core/src/moveType.ts:104-120 | every successful `parseMoveType` result is well formed, so the round trip covers every type the parser produces |
| MoveTypes.FullyQualifiedNameFormat | packages/core/src/moveType.spec.ts:162-177 | the written name is `address::identifier::name`, followed, when there are arguments, by their names in `<`…`>` separated by `, ` |
| MoveTypes.ParsesSimple | packages/core/src/moveType.spec.ts:5-15 | `address::identifier::name` with word components parses to a type with no `typeArguments` |
| MoveTypes.RejectsModuleOnly | packages/core/src/moveType.ts:59-64 | `0x1::Coin` fails with "expected namespace" |
| MoveTypes.RejectsEmptyGenerics | packages/core/src/moveType.ts:59-101 | `<>` leaves one empty part, which fails with "expected namespace" |
| MoveTypes.RejectsUnclosedGeneric | packages/core/src/moveType.ts:80-82 | a `<` that is never closed fails with "expected END_GENERIC" |
| HexCodec.WithPrefix | packages/hexstring/src/index.ts:44-50 | the stored text is the argument when it starts with `0x`, else `0x` followed by the argument |
| HexCodec.WithPrefixIdempotent | packages/core/src/hexString.ts:27-33 | prefixing an already prefixed text changes nothing |
| HexCodec.WithPrefixSuffix | packages/hexstring/src/index.ts:44-50 | the argument is always the tail of the stored text, and the text is unchanged exactly when it already had the prefix |
| HexCodec.TrimLeadingZeros | packages/hexstring/src/index.ts:29-31 | the result is a suffix of the input that does not start with `0`, and everything removed is `0` |
| HexCodec.TrimIdempotent | packages/hexstring/src/index.ts:29-31 | trimming twice is trimming once |
| HexCodec.TrimAllZeros | packages/hexstring/src/index.ts:29-31 | the result is empty exactly when the input is all `0` |
| HexCodec.CaseRoundTrip | packages/core/src/hexString.ts:61-81 | lower-casing an upper-cased character gives its lower-case form |
| HexCodec.LowerIdempotent | packages/hexstring/src/index.ts:74-76 | lower-casing twice is lower-casing once |
| HexCodec.LowerConcat | packages/hexstring/src/index.ts:74-76 | lower-casing works character by character over a concatenation |
| HexCodec.DigitValue | packages/hexstring/src/index.ts:100-102 | a hex digit's value is a nibble whose lower-case digit is the digit lower-cased |
| HexCodec.PairByte | packages/hexstring/src/index.ts:100-102 | a digit pair is the byte whose high nibble is the first digit and whose low nibble is the second |
| HexCodec.PairReadsBack | packages/hexstring/src/index.ts:52-102 | a byte's two rendered digits read back as that byte |
| HexCodec.EncodeHex | packages/hexstring/src/index.ts:52-54 | `buffer.toString("hex")` has two characters per byte |
| HexCodec.DecodeHex | packages/hexstring/src/index.ts:100-102 | `Buffer.from(s, "hex")` has at most one byte per two characters |
| HexCodec.EncodeHexAt | packages/hexstring/src/index.ts:52-54 | characters `2k` and `2k+1` are byte `k`'s high and low nibble digits |
| HexCodec.EncodeHexLower | packages/hexstring/src/index.ts:52-54 | the encoding is lower-case hex digits only |
| HexCodec.EncodeHexUnprefixed | packages/hexstring/src/index.ts:44-53 | the encoding never starts with `0x`, so `fromBuffer` always adds the prefix |
| HexCodec.DecodeEncode | packages/hexstring/src/index.ts:52-106 | decoding an encoding gives the bytes back |
| HexCodec.DecodeHexLength | packages/core/src/hexString.ts:52-54 | hex digits decode to one byte per complete pair |
| HexCodec.DecodeHexOdd | packages/core/src/hexString.ts:52-54 | an odd last digit is ignored |
| HexCodec.EncodeDecode | packages/hexstring/src/index.ts:52-102 | an even number of hex digits, decoded and re-encoded, gives the digits in lower case |
| Hexstring.HexString.LowerHex | packages/hexstring/src/index.ts:74-76 | `lowerHex` keeps the prefix and the length |
| Hexstring.HexString.NoPrefix | packages/hexstring/src/index.ts:78-80 | `hex() == "0x" + noPrefix()` |
| Hexstring.HexString.HexBytesNoPrefix | packages/hexstring/src/index.ts:94-98 | the result has even length, ends with the digits, and whatever is in front of them is `0` (one character at most) |
| Hexstring.New | packages/hexstring/src/index.ts:44-50 | `hex()` is the argument when prefixed, else `0x` + argument, whose digits are the argument |
| Hexstring.FromBuffer | packages/hexstring/src/index.ts:52-58 | `hex()` is `0x` followed by two lower-case digits per byte |
| Hexstring.Ensure | packages/hexstring/src/index.ts:60-68 | a `HexString` comes back as it is; a string or another object's `hex()` is wrapped |
| Hexstring.ToUint8ArrayLength | packages/hexstring/src/index.ts:94-106 | hex digits give `ceil(digits / 2)` bytes |
| Hexstring.HexIsPrefixedDigits | packages/hexstring/src/index.ts:70-80 | `hex()` starts with `0x` and is `0x` + `noPrefix()` |
| Hexstring.NewOfHex | packages/hexstring/src/index.ts:44-72 | re-wrapping `hex()` gives the same value |
| Hexstring.ShortStringIdempotent | packages/hexstring/src/index.ts:86-88 | re-wrapping and shortening a short string changes nothing |
| Hexstring.ShortStringZeros | packages/hexstring/src/index.ts:86-88 | the short string is `0x` exactly when every digit is `0` |
| Hexstring.BufferRoundTrip | packages/hexstring/src/index.ts:52-106 | `fromUint8Array(b).toUint8Array() == b` |
| Hexstring.OddDigitsPadded | packages/hexstring/src/index.ts:94-102 | an odd digit count decodes as if it had a leading `0`; for hex digits the first byte is the first digit's value alone, followed by the pairs of the remaining digits |
| Hexstring.EqualsEquivalence | packages/hexstring/src/index.ts:115-118 | `equals` is reflexive, symmetric and transitive |
| Hexstring.EqualsIgnoresCaseOnly | packages/hexstring/src/index.ts:115-118 | `equals` holds exactly when the lower-cased texts agree, so texts of different lengths are never equal, and a string compares as its wrapped value |
| Hexstring.EqualsUpToCase | packages/hexstring/src/index.ts:74-118 | spellings that differ only in case are equal |
| Hexstring.EqualsExamples | packages/hexstring/src/index.spec.ts:4-16 | `0x1234` equals itself; `0x000001234` and `0x1235` do not equal `0x1234` |
| Hexstring.ToUint8ArrayPairs | packages/hexstring/src/index.spec.ts:18-22 | four digits read as two bytes, high digit first, as `0x1234` gives `[0x12, 0x34]` |
| CoreHexString.HexString.NoPrefix | packages/core/src/hexString.ts:39-41 | `hex() == "0x" + noPrefix()` |
| CoreHexString.New | packages/core/src/hexString.ts:27-33 | the constructor adds `0x` only when it is missing |
| CoreHexString.Ensure | packages/core/src/hexString.ts:20-25 | a string is wrapped; any other argument comes back unchanged |
| CoreHexString.FromBuffer | packages/core/src/hexString.ts:12-18 | `hex()` is `0x` followed by two lower-case digits per byte |
| CoreHexString.ShortString | packages/core/src/hexString.ts:47-50 | shortening is idempotent under re-wrapping, and gives `0x` exactly when every digit is `0` |
| CoreHexString.BufferRoundTrip | packages/core/src/hexString.ts:12-58 | `fromUint8Array(b).toBuffer() == b` |
| CoreHexString.OddDigitDropped | packages/core/src/hexString.ts:52-54 | with no padding, an odd last digit is lost: `digits / 2` bytes |
| CoreHexString.Checksummed | packages/core/src/hexString.ts:70-85 | the checksum spelling is as long as the digits |
| CoreHexString.PartialStep | packages/core/src/hexString.ts:70-83 | one round marks characters `i` and `i+1`, so far untouched, by the high and low nibble of hash byte `i/2` |
| CoreHexString.GetChecksumAddress | packages/core/src/hexString.ts:60-86 | the method (lower-case, hash the character codes, upper-case in place) returns exactly `ChecksumAddress`, including the thrown `invariant` |
| CoreHexString.MarkDigits | packages/core/src/hexString.ts:70-84 | the loop succeeds exactly when there are at most 64 digits and no odd count with a high final nibble, and then leaves the array holding the checksum spelling |
| CoreHexString.ChecksumDefined | packages/core/src/hexString.ts:71-72 | more than 64 digits always throw, and any even count up to 64 succeeds |
| CoreHexString.ChecksumChangesCaseOnly | packages/core/src/hexString.ts:61-85 | the result is as long as `hex()` and, lower-cased, is `0x` + the lower-cased digits |
| CoreHexString.ChecksumNibbleRule | packages/core/src/hexString.ts:70-84 | digit `i` is upper-cased exactly when hash nibble `i` is 8 or more |
| CoreHexString.ChecksumIgnoresCase | packages/core/src/hexString.ts:61-68 | the checksum depends only on the lower-cased digits |
| CoreHexString.ChecksumIdempotent | packages/core/src/hexString.ts:60-86 | checksumming a checksum spelling returns it unchanged |
| Addresses.Ensure | packages/core/src/address.ts:10-18 | the result is an `Address`; an `Address` comes back as it is; a string is prefixed as by the constructor; another hex value keeps its `hex()` |
| Addresses.FromBuffer | packages/core/src/address.ts:20-26 | `Address.fromUint8Array(b).hex() == HexString.fromUint8Array(b).hex()` |
| Addresses.ToJson | packages/core/src/address.ts:28-33 | the record is `{__typename: "Address", hex}` with a prefixed `hex` |
| Addresses.EnsureIdempotent | packages/core/src/address.ts:10-13 | `ensure` of an `ensure` result changes nothing |
| Addresses.EnsureKeepsDigits | packages/core/src/address.ts:14-16 | the digits keep their case and leading zeros: there is no normalisation |
| Addresses.FromBufferRoundTrip | packages/core/src/address.ts:20-26 | an address built from bytes converts back to those bytes |
| Addresses.JsonRoundTrip | packages/core/src/address.ts:28-33 | `ensure(toJSON().hex)` gives the same address |
| Leb128.EncodeU32 | packages/leb128/src/index.ts:6-14 | the loop returns the 7-bit-group encoding, 1 to 5 bytes, every byte but the last with bit 0x80 and the last below 0x80 |
| Leb128.DecodeU32 | packages/leb128/src/index.ts:23-47 | the `for` loop returns exactly `DecodeU32Spec`, each round being `Step` |
| Leb128.EncodingLength | packages/leb128/src/index.ts:8-12 | one byte per needed 7-bit group, so 1 to 5 bytes |
| Leb128.EncodingShape | packages/leb128/src/index.ts:8-13 | continuation bits on all but the last byte; the last byte is zero only for the value 0 (the encoding is canonical) |
| Leb128.RoundTrip | packages/leb128/src/index.ts:6-47 | decoding an encoding followed by anything gives the value back below 2^31, and throws "Overflow" for values with bit 31 set |
| Leb128.UnterminatedInput | packages/leb128/src/index.ts:27-33 | input that ends on continuation bytes throws "index overflow" |
| Leb128.UnterminatedU32 | packages/leb128/src/index.ts:27-33 | up to four continuation bytes and nothing else throw "index overflow" |
| Leb128.ZeroDigitRejected | packages/leb128/src/index.ts:39-42 | a terminating zero byte after the first position throws "unexpected zero digit" |
| Leb128.TrailingZeroRejected | packages/leb128/src/index.ts:39-42 | a continuation byte followed by `0` is rejected |
| Leb128.TrailingBytesIgnored | packages/leb128/src/index.ts:43 | bytes after the terminator do not change the result |
| Leb128.ReadsAtMostFive | packages/leb128/src/index.ts:26 | only the first five bytes are read |
| Leb128.SixthByteOverflows | packages/leb128/src/index.ts:26-46 | five continuation bytes throw "Overflow" (the signed word goes negative, or the loop ends at line 46) without a sixth byte being read, and four alone throw "index overflow" |
| Leb128.HighBitRejected | packages/leb128/src/index.ts:35-38 | 2^31 encodes to `80 80 80 80 08`, which the decoder as written rejects with "Overflow" |
| Leb128.DroppedBitsAccepted | packages/leb128/src/index.ts:34-43 | `80 80 80 80 10` decodes to 0 as written, although the encoding of 0 is `00` |
| Leb128.IntendedRoundTrip | packages/leb128/src/index.ts:16-36 | the corrected decoder inverts the encoder on every u32 |
| Leb128.IntendedRejectsDroppedBits | packages/leb128/src/index.ts:16-36 | for every input of four continuation bytes and a fifth digit of 16 or more, the corrected decoder throws "Overflow" instead of dropping the high bits |
| SigningMessage.Flatten | packages/aptos/src/signingMessage.ts:30 | the concatenated addresses are as long as their lengths summed |
| SigningMessage.Body | packages/aptos/src/signingMessage.ts:28 | `slice(32)` is empty for 32 bytes or fewer, else 32 bytes shorter |
| SigningMessage.MessageLayout | packages/aptos/src/signingMessage.ts:22-31 | the message is 32 digest bytes, the byte 0, the original bytes from index 32, the 1 to 5 byte signer count, then the addresses, and its length is the sum |
| SigningMessage.SignerCountDecodes | packages/aptos/src/signingMessage.ts:29 | the signer count field decodes, with the package's own decoder, to the number of signers |
| SigningMessage.FlattenOrder | packages/aptos/src/signingMessage.ts:30 | signer `k`'s address bytes sit right after those of the signers before it |
| PublicKeys.BigEndian | packages/core/src/publicKey.ts:89-97 | a number written at a width has exactly that many bytes |
| PublicKeys.ValueOf | packages/core/src/publicKey.ts:55-57 | `k` bytes read as a number stay below 256^k |
| PublicKeys.ByteLengthBound | packages/core/src/publicKey.ts:59-61 | `byteLength() <= k` exactly when the number is below 256^k |
| PublicKeys.ValueOfBigEndian | packages/core/src/publicKey.ts:55-97 | a number that fits, written and read back, is unchanged |
| PublicKeys.BigEndianOfValue | packages/core/src/publicKey.ts:55-97 | bytes read as a number and written at their width come back, leading zeros included |
| PublicKeys.PadLeft | packages/core/src/publicKey.ts:94-96 | zero bytes in front are the same number written at a larger width |
| PublicKeys.ToBuffer | packages/core/src/publicKey.ts:89-97 | the method (minimal bytes, else copied into the end of a zeroed 32-byte buffer) returns exactly `KeyBytes`: 32 big-endian bytes, or the copy error |
| PublicKeys.ToSuiAddress | packages/core/src/publicKey.ts:109-115 | the address exists exactly when the key's bytes do, and is `0x` + the hex of the first 20 digest bytes, 42 characters |
| PublicKeys.ConstructChecks | packages/core/src/publicKey.ts:44-63 | a `{_bn}` is adopted unchecked; a string is accepted exactly when it decodes to 32 bytes; bytes exactly when their number is below 2^256; every key built from bytes or a string fits in 32 bytes |
| PublicKeys.ConstructNumber | packages/core/src/publicKey.ts:57-61 | a number is accepted exactly when it is below 2^53 (the bound `new BN` asserts), and the key then fits in 32 bytes |
| PublicKeys.KeyBytesFixedWidth | packages/core/src/publicKey.ts:82-97 | a key has bytes exactly when it is below 2^256, and then they are 32 bytes that read back as the key |
| PublicKeys.BytesRoundTrip | packages/core/src/publicKey.ts:57-97 | any 32 bytes, leading zeros included, come back from `toBytes` |
| PublicKeys.EqualsIffSameBytes | packages/core/src/publicKey.ts:68-97 | two writable keys are `equals` exactly when their bytes are the same |
| Serializers.SerializeHexString | packages/prelude/src/serializers.ts:10-13 | the result starts with `0x`; a prefixed text comes back unchanged, any other gets `0x` in front; an object is serialized from its `hex()` |
| Serializers.SerializeIdempotent | packages/prelude/src/serializers.ts:10-13 | serializing a serialized value changes nothing |
| Serializers.SerializeHexValue | packages/prelude/src/serializers.ts:11-12 | a core `HexString` serializes to its own `hex()` |
| Misc.NoneUndefined | packages/core/src/misc.ts:12 | `every(arg !== undefined)` holds exactly when no argument is `undefined` |
| Misc.NoneNull | packages/core/src/misc.ts:15 | `every(arg !== null)` holds exactly when no argument is `null` |
| Misc.Values | packages/core/src/misc.ts:18-22 | the unwrapped arguments, in order |
| Misc.MapN | packages/core/src/misc.ts:4-23 | `undefined` exactly when some argument is `undefined`; `null` exactly when some argument is `null` and none is `undefined`; a value exactly when every argument is present |
| Misc.MapNApplies | packages/core/src/misc.ts:18-22 | with every argument present, `fn` gets them all unwrapped and in order; with none, it is always called |
| Misc.UndefinedBeforeNull | packages/core/src/misc.ts:12-17 | `undefined` wins over `null`, wherever each appears |

## Left out

- I/O and foreign code:
  - SHA3-256 (`js-sha3`) and base64 decoding are function parameters.
  - The hasher's `create`/`update`/`digest` calls become one application of `sha3`.
  - `toString`, `toBase64` and `PublicKey.toString` are base64 encoding, which is left out.
- `BN` is a `nat`:
  - `byteLength`, `toArrayLike` and `toArray(undefined, 32)` are modelled as big-endian conversions.
  - Negative or fractional numbers given to the `PublicKey` constructor are not modelled.
  - bn.js is not part of this model. The one behaviour of it that the constructor depends on beyond big-endian reading, the assertion that a number is below 2^53, is written into `Construct` as the `UnsafeNumber` error.
  - An `Array<number>` input is taken as bytes.
- Case mapping covers ASCII only. `toLowerCase` and `toUpperCase` on other characters are not modelled.
- Non-hex characters:
  - Decoding stops at the first pair that is not two hex digits, which is Node's `Buffer` rule.
  - The `hexstring` package imports the `buffer` polyfill (`packages/hexstring/src/index.ts:3`), which reads each pair with `parseInt` and so turns `1g` into 0x01. That reading of pairs that are not two hex digits is not modelled.
- Immutable classes are datatypes, and `Address` is a variant of the core `HexString`.
  - Object identity is not modelled: "returns the same instance" is equality of values.
  - A `HexStringLike` other than a `HexString` is represented by its `hex()` text.
- `PublicKeys.Construct`: the constructor's one assignment to `_bn` is a function returning the key or the error. Nothing else updates the field.
- `Leb128.EncodeU32`: takes a u32. JavaScript's coercion of other numbers by `>>>` and `&` (`encodeU32(-1)`, or a value of 2^32 or more) is not modelled. Every caller passes a u32 (`packages/aptos/src/signingMessage.ts:27,29`).
- `Misc.MapN`: every argument has the same type, because TypeScript's tuple-typed spread has no Dafny counterpart.
- Tests of things the modelled code does not define are left out:
  - `address.spec.ts` expects zero-pad-insensitive `Address.equals`, but neither core `HexString` nor `Address` defines `equals`.
  - `misc.spec.ts` tests `zeroPadBuffer`.
  - The `MoveType` class and its `toJSON` used by `moveType.spec.ts` are not in the code.
- The literal tree cases of `moveType.spec.ts:17-159` are covered by `ParseFullyQualifiedName` and `FullyQualifiedNameFormat` for every well-formed type, not one by one. The same goes for the literal names of lines 162-177.
- `MoveTypes.ParseFullyQualifiedName`: the round trip is stated for types whose names are `\w+` words and whose argument lists are non-empty. These are exactly the results the parser can produce (`ParsedIsWellFormed`).
- The core `toShortString` of an all-zero value is `0x` (`packages/core/src/hexString.ts:47-50`).
- `Address.ensure` and the `Address` constructor keep the text as given, with no lower-casing or zero-trimming (`packages/core/src/address.ts:10-18`).
- `SigningMessage.MultiAgentSigningMessage` takes the original message as its bytes (`toUint8Array()`) and each signer as its address bytes. `Buffer.from(SALT)` is the salt's character codes, since the salt is ASCII.

## Findings

| source | as written | input that shows it | evidently intended | confidence | as-written member | corrected member |
|---|---|---|---|---|---|---|
| packages/leb128/src/index.ts:35-38 | `value \| (digit << shift)` is signed 32-bit, so a value with bit 31 set is negative and throws "Overflow" | `encodeU32(2**31)` = `80 80 80 80 08`, which `decodeU32` rejects | every u32 up to `MAX_UINT_32` decodes back | not executed | Leb128.HighBitRejected | Leb128.IntendedRoundTrip |
| packages/leb128/src/index.ts:34-35 | the fifth digit is shifted by 28, so its bits above bit 3 fall off the 32-bit word | `80 80 80 80 10` decodes to 0 | bits beyond 32 throw "Overflow" | not executed | Leb128.DroppedBitsAccepted | Leb128.IntendedRejectsDroppedBits |
