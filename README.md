# Deposit data root pipeline

This project models how the batch-deposit site (`site/src/App.tsx`) turns each
record of a deposit-data JSON file into a "deposit data root" string, and it
proves properties of that model in Dafny. The pipeline has four steps:

1. `toUint8Array` decodes each hex field. The regular expression `/../g` splits
   the string into two-character pieces, and `parseInt(_, 16)` parses each piece.
2. The SSZ container schema `pubkey: bytes48, withdrawal_credentials: bytes32,
   amount: uint64, signature: bytes96` serialises the record. The container has
   only fixed-size fields, so the result is the fields concatenated in
   declaration order, with the amount little-endian: 184 bytes in all.
3. `computeDepositDataRoot` takes the SHA-256 digest of those 184 bytes and
   writes it with `toHexString`. That gives two lowercase, zero-padded digits
   per byte, with no `0x` prefix.
4. The load handler maps every record through the decoders and then through
   `computeDepositDataRoot`.

Modules, each in its own file:

- `Results` (`results.dfy`): the single failure the model keeps, and the result and option types.
- `Bytes` (`bytes.dfy`): bytes and little-endian integer encoding.
- `Hex` (`hex.dfy`): `toUint8Array`, `toHexString` and the JavaScript
  primitives they are built from. Those are `toString(16)`, `padStart`,
  `join`, `match(/../g)`, `parseInt(_, 16)` and the `Uint8Array` conversion.
- `Ssz` (`ssz.dfy`): the fixed-size container rule, the `DepositData` schema,
  and its serialisation and inverse.
- `DepositRoot` (`deposit.dfy`): the root computation and the per-record mapping.

SHA-256 is a parameter `sha256: seq<byte> -> Digest`, where `Digest` is the
type of 32-byte sequences. Nothing else is assumed about it.

What the code does, and so what the model does:

- The root is a flat SHA-256 of the 184-byte serialisation. It is not an SSZ
  `hash_tree_root`.
- Hex output has no `0x` prefix.
- Decoding drops a trailing odd character rather than rejecting the string.
- Decoding fails only when `match` finds no pair. That happens for any string
  shorter than two characters, not only for the empty string.
- The file has no declared-root comparison, no batch-wide rejection other than
  the exception that aborts the `map`, no empty-batch check, no calldata
  packing and no amount totals.

One consequence is proved rather than assumed: hex encoding and decoding round-trip
for every non-empty byte sequence, but not for the empty one (`Hex.HexRoundTripEmpty`).

## Model

| member | source | states |
|---|---|---|
| `Bytes.LittleEndian` | site/src/App.tsx:11 | a `uint64` is written as `width` bytes, the first being the value modulo 256 |
| `Bytes.FromLittleEndian` | site/src/App.tsx:11 | the value of `k` little-endian bytes is below 256^k |
| `Bytes.FromLittleEndianOfLittleEndian` | site/src/App.tsx:11 | decoding the little-endian bytes of a value that fits gives the value back |
| `Bytes.LittleEndianOfFromLittleEndian` | site/src/App.tsx:11 | every byte string is the little-endian encoding, at its own width, of the value it denotes |
| `Bytes.LittleEndianInjective` | site/src/App.tsx:11 | distinct values below the bound have distinct encodings |
| `Hex.DigitValue` | site/src/App.tsx:18 | the value `parseInt(_, 16)` gives one digit, in either case, is below 16 |
| `Hex.DigitChar` | site/src/App.tsx:24 | the digit written for a value below 16 is a lowercase hex digit whose value is that number |
| `Hex.DigitCharOfValue` | site/src/App.tsx:18-24 | writing the value of any hex digit gives back that digit in lower case |
| `Hex.DigitsValueBound` | site/src/App.tsx:18 | the value of `k` digits, most significant first, is below 16^k |
| `Hex.ToRadix16` | site/src/App.tsx:24 | `n.toString(16)` is a non-empty lowercase numeral with no leading zero whose value is `n`; it has one digit iff n < 16, and two digits for 16 to 255 |
| `Hex.PadStart` | site/src/App.tsx:24 | `padStart` leaves a long enough string alone; otherwise it prefixes fill characters up to the width, and the original is the suffix |
| `Hex.ByteToHex` | site/src/App.tsx:24 | every byte is written as exactly two lowercase digits, high digit first, zero-padded, with no prefix |
| `Hex.JoinLength` | site/src/App.tsx:25 | `join("")` keeps every character: its length is the parts' lengths added up, and joining one more part appends it |
| `Hex.JoinPairs` | site/src/App.tsx:25 | joining two-character parts gives twice as many characters, with part i at positions 2i and 2i+1 |
| `Hex.ToHexString` | site/src/App.tsx:22-26 | the output is 2·\|b\| lowercase hex characters, and characters 2i and 2i+1 are the high and low digits of byte i |
| `Hex.Pairs` | site/src/App.tsx:18 | `/../g` yields \|s\|/2 matches, and match i is characters [2i, 2i+2) |
| `Hex.MatchPairs` | site/src/App.tsx:18 | `match` returns null exactly when the string has fewer than two characters, and otherwise the pairs |
| `Hex.ParseInt16` | site/src/App.tsx:18 | `parseInt(h, 16)` on a matched pair is 16·first + second, so below 256 |
| `Hex.ToUint8` | site/src/App.tsx:18 | the `Uint8Array` conversion keeps every value below 256 and never increases a value |
| `Hex.ToUint8Array` | site/src/App.tsx:17-19 | fails exactly when the string has fewer than two characters; otherwise gives \|s\|/2 bytes |
| `Hex.ToUint8ArrayBytes` | site/src/App.tsx:18 | byte i of the result is 16·digit(s[2i]) + digit(s[2i+1]) |
| `Hex.OddLengthIgnoresLast` | site/src/App.tsx:18 | a final unpaired character does not change the result |
| `Hex.HexExamples` | site/src/App.tsx:17-25 | [0x0a, 0xff] is written "0aff"; "0aF" decodes to [0x0a]; "f" has no pair and fails |
| `Hex.HexRoundTrip` | site/src/App.tsx:17-25 | decoding the hex of any non-empty byte sequence gives it back |
| `Hex.HexRoundTripEmpty` | site/src/App.tsx:17-25 | the empty byte sequence is written as "", and decoding "" fails |
| `Hex.HexNormalises` | site/src/App.tsx:17-25 | an even-length hex string of at least two digits decodes, and re-encoding gives the string in lower case |
| `Hex.ToHexStringInjective` | site/src/App.tsx:22-26 | distinct byte sequences have distinct hex |
| `Ssz.SerializeField` | site/src/App.tsx:9-12 | a `bytesN` field is copied verbatim; a `uintN` field is written in N/8 bytes that decode little-endian to the value |
| `Ssz.SerializeContainer` | site/src/App.tsx:7-14 | a fixed-size container serialises to as many bytes as its field sizes add up to |
| `Ssz.DepositDataTypeSize` | site/src/App.tsx:7-14 | the schema has the four fields pubkey, withdrawal_credentials, amount and signature, in that order, and their sizes add up to 184 bytes |
| `Ssz.WellFormed` | site/src/App.tsx:7-14 | a record is well formed exactly when each of its fields conforms to the schema's type for it |
| `Ssz.Serialize` | site/src/App.tsx:34 | a well-formed DepositData gives 184 bytes: pubkey at [0,48), withdrawal credentials at [48,80), amount little-endian at [80,88) (decoding back to the amount), signature at [88,184) |
| `Ssz.AmountOf32Ether` | site/src/App.tsx:49 | the amount of 32 ether in gwei that the loader expects is written as the eight bytes 00 40 59 73 07 00 00 00 |
| `Ssz.Deserialize` | site/src/App.tsx:7-14 | any 184 bytes read back as a record with the schema's field lengths and range |
| `Ssz.DeserializeSerialize` | site/src/App.tsx:34 | deserialising a serialisation gives the record back |
| `Ssz.SerializeDeserialize` | site/src/App.tsx:34 | every 184-byte string is the serialisation of the record it deserialises to |
| `Ssz.SerializeInjective` | site/src/App.tsx:34 | distinct well-formed records have distinct serialisations |
| `DepositRoot.ComputeDepositDataRoot` | site/src/App.tsx:28-36 | the root is 64 lowercase hex characters, and decoding it gives the SHA-256 digest of the serialisation |
| `DepositRoot.RootsEqualIffDigestsEqual` | site/src/App.tsx:35 | two records have equal roots iff their serialisations have equal digests |
| `DepositRoot.SameRootMeansCollisionOrSameRecord` | site/src/App.tsx:34-35 | two records share a root only if they are equal or their distinct serialisations collide under SHA-256 |
| `DepositRoot.DecodeRecord` | site/src/App.tsx:46-51 | decoding fails iff some hex field is shorter than two characters; otherwise each byte field holds one byte per pair of digits of its hex string, byte i being 16·digit(2i) + digit(2i+1), and the amount passes through |
| `DepositRoot.DecodeSerializable` | site/src/App.tsx:46-51 | a decodable record with the schema's sizes decodes to a well-formed DepositData |
| `DepositRoot.DecodeHexRecord` | site/src/App.tsx:46-51 | a record whose hex fields are the hex of a well-formed DepositData decodes to exactly that DepositData |
| `DepositRoot.DecodeRecords` | site/src/App.tsx:45-52 | the map fails iff some record has a hex field shorter than two characters; otherwise it gives one record per input, in order, and record i is what decoding input record i gives |
| `DepositRoot.DepositDataRoots` | site/src/App.tsx:53 | one 64-character lowercase root per record, in order, each decoding to that record's digest |
| `DepositRoot.ProcessDepositFile` | site/src/App.tsx:45-53 | the handler fails iff some record has a hex field shorter than two characters; otherwise it gives one root per record, in input order, and root i is the root of record i |
| `DepositRoot.ProcessOne` | site/src/App.tsx:45-53 | a one-record file whose record decodes to d yields exactly the root of d |
| `DepositRoot.ProcessHexRecord` | site/src/App.tsx:45-53 | end to end: a one-record file holding the hex of a well-formed DepositData is accepted and yields exactly that record's root |
| `DepositRoot.ShortFieldAppend` | site/src/App.tsx:45-52 | a concatenation holds a record with a short hex field iff one of its parts does |
| `DepositRoot.ProcessAppendFails` | site/src/App.tsx:45-53 | a concatenated file fails iff one of its parts fails |
| `DepositRoot.ProcessAppendRoots` | site/src/App.tsx:45-53 | the roots of a concatenated file are the roots of its parts, concatenated, so each record is processed independently |

## Left out

- The React component, JSX, `ConnectButton` and file input (site/src/App.tsx:38-85) are UI.
- `FileReader`, `readAsText` and the `load` listener (site/src/App.tsx:41-42, 57) are file I/O.
- `JSON.parse` (site/src/App.tsx:43) is replaced by a typed input. Each record is a `RawRecord` of three strings and an integer amount. `BigInt` of a non-integer is not modelled.
- `console.log(roots)` (site/src/App.tsx:55) is output only.
- `crypto.subtle.digest` is a parameter. Its asynchrony is not modelled: `roots` is a sequence of strings, not of promises.
- The internals of the `@chainsafe/ssz` library are not part of this model. The SSZ rule for fixed-size containers is written directly. The library's behaviour on wrong field lengths or an out-of-range amount cannot be seen.
- `Hex.ToUint8Array`: requires every character to be a hex digit (either case). It does not model `parseInt` on other characters: NaN becoming 0, accepted prefixes such as "1g", leading whitespace or signs. It also does not model line terminators, which `.` does not match.
- `DepositRoot.ComputeDepositDataRoot`: requires the field lengths and the amount range that the schema declares, because the library's rejection of other records is not visible.
- `DepositRoot.ProcessDepositFile`: requires every record that decodes to have the schema's sizes (`Serializable`), for the same reason.
- `DepositRoot.DepositDataRoots`: requires well-formed records, for the same reason.
- `Hex.ToUint8`: states only that values below 256 are kept and no value grows, not the full reduction modulo 256; `parseInt` of a matched pair is always below 256 (`Hex.ParseInt16`), so the reduction never applies in the model.
