# HD key export: a Dafny model

`server.js` is a small service. It derives a BIP32 node from a mnemonic and
exports it as an AirGap-style `crypto-hdkey` record, which is a CBOR map with
keys 3, 4, 6, 8 and 9. This project models the pure part of that service and
proves properties of it:

- `parsePath`: reads a derivation path such as `m/44'/60'/0'` into steps.
- `parentPathOf`: cuts the last `/`-piece off the raw path string.
- `u32FromHexBE`: decodes a fingerprint override with Node's lenient hex decoder.
- The 8-digit hex rendering of the two fingerprints in the response.
- `buildOriginTag304`: builds the tag-304 key-origin item.
- `fingerprintOf`: the first four bytes of the public key's hash160, read big-endian.
- The handler's record assembly, which covers:
  - the defaults of the request body;
  - the choice of parent path (immediate parent, or `m/44'/60'` in `m44h60h` mode);
  - the master node serving as parent `m`;
  - override precedence for both fingerprints;
  - the top-level map, filled in insertion order.

Modules, one per concern:

| module | file | contents |
|---|---|---|
| `Outcomes` | outcomes.dfy | `Option` and `Result`. A thrown `Error` is a `Failure` carrying its message. |
| `Bytes` | bytes.dfy | bytes, 32-bit values, `readUInt32BE` |
| `Text` | text.dfy | JavaScript `trim`, `split('/')` and `join('/')`, and decimal digits |
| `DerivationPath` | path.dfy | the path regex as a character recogniser, `parsePath`, `parentPathOf` |
| `HexOverride` | hex.dfy | `Buffer.from(s, 'hex')`, `u32FromHexBE`, `toString(16).padStart(8, '0')` |
| `Cbor` | cbor.dfy | CBOR values as an abstract tree (tags as in section 3.4 of RFC 8949), and JavaScript `Map.set` on an ordered entry list |
| `Origin` | origin.dfy | `buildOriginTag304` and a reader for the item it builds |
| `HdKeyExport` | handler.dfy | `fingerprintOf`, request defaults, parent selection, overrides, the record, and the response's path and hex fields |

The library calls are fields of a `Libs` value that callers supply. They are
SHA-256 and RIPEMD-160 from `crypto`, and `derivePath` from `bip32`, which
throws with its own message. The master node is an input.

Each producer has a partner lemma:

- `ParsePath` has a round-trip lemma with a renderer: `ParsePathText` parses `PathText`.
- `U32FromHexBE` has a round-trip lemma with `FpHex` (`FpHexRoundTrip`).
- `BuildOriginTag304` has a round-trip lemma with `DecodeOrigin` (`OriginRoundTrip`).
- The record has a round-trip lemma with `DecodeRecord` (`RecordRoundTrip`).
- `ReadUInt32BE` has a round-trip lemma with `U32ToBytesBE` (`ReadWriteU32`).

Behaviour of the code worth noting:

- **Override length.** An override is accepted when Node's hex decoder yields
  exactly four bytes, not when it is "exactly 8 hex characters".
  - The decoder stops at the first pair that is not two hex digits.
  - It drops an odd trailing digit.
  - So `281D1D2Bzz` and `281d1d2b0` are accepted, and `281d1d2b00` is refused
    (`OverrideExamples`, `OverrideAccepts`).
- **Error order.** Overrides are decoded after both derivations (lines 83, 88,
  93-94), so a derivation error wins over a malformed override
  (`GenerateErrors`).
- **Parent of `m`.** Both `m` and any one-step path have parent `m`. The master
  node then serves as the parent, with no derivation (lines 40 and 88).
- **Raw string.** `parentPathOf` works on the raw, untrimmed path string.
  The parent path keeps any leading white space: the parent of ` m/0'/1'` is
  ` m/0'`. That string is reported as `parentPath` and handed to `derivePath`
  (lines 86, 88, 117). How it parses is unchanged, because `parsePath` trims
  (`ParentPathSteps`).

## Model

| member | source | states |
|---|---|---|
| Bytes.ReadUInt32BE | server.js:26 | Writing the read value back big-endian gives exactly the first four bytes of the buffer. |
| Bytes.ReadWriteU32 | server.js:26 | Reading the big-endian bytes of any 32-bit value returns that value. |
| Text.Trim | server.js:29 | `trim()` removes white-space padding only: the input is the result with all-white-space strings in front and behind, and the result neither starts nor ends with white space. |
| Text.TrimDecomposition | server.js:29 | Every string is its `trim()` with white space in front and behind. |
| Text.TrimPadded | server.js:29 | `trim()` removes exactly the white-space padding around a text that starts and ends with a non-space character. |
| Text.Split | server.js:39 | `split('/')` (here and on line 31) gives one more piece than the string has `/` characters, and no piece contains `/`. `Join` puts the pieces back together (`JoinSplit`). |
| Text.SplitJoin | server.js:40 | `split('/')` gives back the slash-free pieces that `join('/')` put together. |
| Text.JoinSplit | server.js:40 | `join('/')` of `split('/')` is the original string. |
| Text.Join | server.js:40 | `join('/')` puts slash-free pieces together so that `split('/')` gives them back; the contract is stated by `SplitJoin` and `JoinSplit`. |
| Text.DecimalValue | server.js:33 | `parseInt(s, 10)` on a run of ASCII digits, as an exact natural number. It reads back the shortest rendering of every number: `DecimalDigits` ensures `DecimalValue(DecimalDigits(n)) == n`. |
| DerivationPath.MatchesPathRegex | server.js:30 | The regex `^m(\/\d+'?)*$` as a character-level recogniser. `RegexIffSplitForm` proves it accepts exactly the strings whose `split('/')` is `m` then `\d+'?` pieces. |
| DerivationPath.RegexIffSplitForm | server.js:30-31 | The regex `^m(\/\d+'?)*$` accepts a string exactly when its `split('/')` is `m` followed by `\d+'?` pieces. |
| DerivationPath.ParsePath | server.js:28-37 | Every failure carries the message `Invalid derivation path.`. |
| DerivationPath.ParsePathAccepts | server.js:29-30 | Parsing succeeds exactly when the trimmed input is `m` followed by `/`-separated `\d+'?` segments. Otherwise it throws the path message. |
| DerivationPath.ParsePathSteps | server.js:31-35 | There is one step per segment after `m`, in order. A step is hardened exactly when its segment ends in `'`. Its index is the decimal value of the segment's digits. |
| DerivationPath.ParsePathRejects | server.js:30 | `44/0`, `m/abc`, `m//0` and the empty string are rejected with the path message. |
| DerivationPath.ParsePathRoot | server.js:31 | `m` parses to no steps. |
| DerivationPath.ParsePathDefault | server.js:67 | The default path `m/44'/60'/0'` parses to hardened 44, 60 and 0. |
| DerivationPath.PaddingIgnored | server.js:29 | White space around a path does not change how it parses. |
| DerivationPath.DecodeSegment | server.js:32-35 | One `\d+'?` segment as a step: hardened exactly when it ends in `'`, index the decimal value of its digits. `SegmentTextDecodes` proves it inverts the canonical rendering of a step. |
| DerivationPath.SegmentTextDecodes | server.js:32-35 | The canonical text of a step is a valid segment, and it decodes back to that step. |
| DerivationPath.ParsePathText | server.js:28-37 | Parsing the BIP32 rendering `m/i['']/...` of any step list returns that list, so `parsePath` is onto all step lists. |
| DerivationPath.ParentPathOf | server.js:38-41 | With at most two `/`-pieces in the raw string the result is `m`. With more, the result's pieces are the input's minus the last, and the input is the result, a `/`, then the last piece. |
| DerivationPath.ParentPathSteps | server.js:38-41 | For any path `parsePath` accepts (padding included): the parent parses to the same steps minus the last one, and a path of at most one step has parent `m`. |
| DerivationPath.DefaultParentPath | server.js:86 | The parent of the default path `m/44'/60'/0'` is `m/44'/60'`. |
| DerivationPath.ParsePathAccountParent | server.js:87 | The fixed account parent `m/44'/60'` parses to hardened 44 and 60. |
| HexOverride.DecodeHex | server.js:44 | Hex decoding returns the longest run of complete hex pairs from the start. Each byte is the pair at its position, and no further complete pair follows. |
| HexOverride.U32FromHexBE | server.js:42-46 | Empty input means no override. The call throws the override message exactly when the decoded length is not 4. An accepted value is the first eight characters read as hex. |
| HexOverride.OverrideAccepts | server.js:42-46 | An override is accepted exactly when it is empty, or when its first eight characters are hex digits and characters 9-10 are not another hex pair. |
| HexOverride.OverrideExamples | server.js:42-46 | `""` gives no override and `zz` throws. `281d1d2b`, `281D1D2Bzz` and `281d1d2b0` give 0x281d1d2b. `281d1d2b00` throws. |
| HexOverride.LowerHex | server.js:118 | `toString(16)` is a non-empty run of lower-case hex digits whose value is the number, with no leading `0` unless the number is zero (the shortest form). |
| HexOverride.PadStart | server.js:118 | `padStart(w, '0')` leaves strings of width `w` or more alone. Shorter strings get `w - len` zeros in front. |
| HexOverride.FpHex | server.js:118-119 | A fingerprint renders as exactly eight lower-case hex digits whose value is the fingerprint. |
| HexOverride.FpHexRoundTrip | server.js:42-46 | Decoding the 8-digit rendering of any 32-bit value returns that value as an override. |
| Cbor.MapSet | server.js:56-58 | `Map.set` on a present key keeps the key order. On a new key it appends the key at the end. |
| Cbor.MapSetLookup | server.js:56-58 | After `set(k, v)`, looking up `k` gives `v` and every other key keeps its value. |
| Cbor.MapSetDistinct | server.js:56-58 | `Map.set` keeps keys pairwise distinct. |
| Cbor.MapSetAppend | server.js:100-105 | Setting a key not yet present appends exactly that entry. |
| Origin.Compact | server.js:52-55 | The compact array has length 2·n. Position 2i holds step i's index and position 2i+1 its hardened flag, in path order. |
| Origin.UncompactCompact | server.js:52-55 | The compact array reads back as the steps, so nothing is lost or reordered. |
| Origin.OriginValue | server.js:56-59 | The tag-304 item built by a fresh `Map`, `set(1, arr)`, `set(2, fp)`. Its layout is stated by `OriginValueLayout`, and `OriginRoundTrip` proves it decodes back to the steps and the fingerprint. |
| Origin.OriginValueLayout | server.js:56-59 | The item is tag 304 around a map with keys exactly [1, 2] in that order. Key 1 holds the compact array and key 2 the source fingerprint. |
| Origin.OriginRoundTrip | server.js:50-59 | The built item decodes to the steps and the source fingerprint. |
| Origin.BuildOriginTag304 | server.js:50-59 | It succeeds exactly when `parsePath` does, and otherwise fails with the path message. The result decodes to the parsed steps with the given master fingerprint. |
| HdKeyExport.Hash160 | server.js:20-23 | RIPEMD-160 of SHA-256 of the buffer, with both digests supplied as functions. `FingerprintOf` states how the fingerprint is taken from it. |
| HdKeyExport.FingerprintOf | server.js:24-27 | The fingerprint's big-endian bytes are the first four bytes of hash160 of the public key. |
| HdKeyExport.WithDefaults | server.js:64-73 | A missing body behaves as an empty one. Each absent field takes its default: path `m/44'/60'/0'`, empty overrides, mode `auto`. Each given field is kept as given. |
| HdKeyExport.ApplyOverride | server.js:95-96 | A non-null override replaces the computed fingerprint. Otherwise the computed value is kept. |
| HdKeyExport.Generate | server.js:82-105 | Generation succeeds exactly when all five steps succeed: the path check, the node derivation, the parent (master or derived), and the two override decodings. |
| HdKeyExport.GenerateErrors | server.js:82-94 | The first failing step decides the error, in source order. Path check, node derivation, parent derivation, master override, parent override. |
| HdKeyExport.TopRecord | server.js:100-105 | Every key is fresh when it is set, so the record is exactly five entries: 3 public key, 4 chain code, 6 origin, 8 parent fingerprint, 9 `AirGap - meta`, in that order. |
| HdKeyExport.TopRecordLayout | server.js:100-105 | The record's keys are exactly [3, 4, 6, 8, 9] in insertion order, and pairwise distinct. |
| HdKeyExport.TopRecordValues | server.js:100-105 | Looking up keys 3, 4, 6, 8 and 9 gives the key material, the origin, the parent fingerprint and the label. |
| HdKeyExport.RecordRoundTrip | server.js:99-105 | The record reads back as a crypto-hdkey with the node's key material, the decoded origin, the parent fingerprint and the label. |
| HdKeyExport.GenerateRecord | server.js:86-119 | Each effective fingerprint is its override, or the computed value when no override is given. The record decodes to the requested path's steps and those fingerprints. The paths are reported as resolved. Each hex field is exactly the eight-digit lower-case rendering of its fingerprint (`FpHex`), and decodes back to it. |
| HdKeyExport.ResolveParentPath | server.js:86-87 | Chooses the parent path: `m/44'/60'` in `m44h60h` mode, otherwise `parentPathOf` of the raw path. What the choice yields is stated by `ResolveParentPathSteps`. |
| HdKeyExport.ResolveParentPathSteps | server.js:86-87 | In `m44h60h` mode the parent is `m/44'/60'`, whatever the requested path. Otherwise it parses to the requested steps minus the last, and is `m` for at most one step. |
| HdKeyExport.AccountModeParentFingerprint | server.js:87-96 | In `m44h60h` mode with no parent override, the record's parent fingerprint is that of the node derived at `m/44'/60'`. |
| HdKeyExport.RootParentFingerprint | server.js:86-96 | For a path of at most one step, with no parent override, the parent fingerprint is the master's own. |
| HdKeyExport.ParentNode | server.js:88 | The parent node: the master itself for parent path `m`, otherwise `derivePath` of the parent path. That the `m` case consults no derivation is `RootParentNeedsNoDerivation`. |
| HdKeyExport.RootParentNeedsNoDerivation | server.js:88 | With parent path `m`, the response does not depend on what `derivePath` would do for any other path. |
| HdKeyExport.ParentOverrideIsLocal | server.js:93-105 | Changing only the parent override leaves the key material, origin, label, paths and master hex unchanged. |
| HdKeyExport.MasterOverrideIsLocal | server.js:93-105 | Changing only the master override leaves the key material, origin steps, parent fingerprint, label, paths and parent hex unchanged. |
| HdKeyExport.DefaultRequestExport | server.js:67-105 | An empty body, once both derivations succeed, exports the node at `m/44'/60'/0'` with parent path `m/44'/60'`. The origin holds hardened 44, 60, 0 and the master fingerprint, and the parent fingerprint is that of `m/44'/60'`. |

## Left out

- Express setup, static files, the JSON body limit, the listen call, the `ur` and `qrDataUrl` response fields and the JSON wrapping of the response (lines 5-18, 62, 114-115, 120-128). These are I/O. HTTP status codes are not modelled: a failure is its error message.
- Body fields that are not strings. `String(pathStr || '')` on non-strings, and `!hex8` on falsy values other than `""`, are not modelled, because the body fields are modelled as strings that are present or absent.
- The mnemonic normalisation, `bip39.validateMnemonic`, `mnemonicToSeed` and `bip32.fromSeed` (lines 75-79). These are calls into the `bip39` and `bip32` packages, outside this repository. The master node is an input.
- BIP32 derivation and secp256k1. `derivePath` is a supplied function, and its 31-bit index check lives inside the library.
- SHA-256 and RIPEMD-160 (lines 20-23). They are supplied functions with 32- and 20-byte results.
- `cbor.encode` (line 107). Only the value tree handed to it is modelled, because the byte encoding belongs to the library.
- The UR encoding, its upper-casing, the `qrScale` clamp and the QR image (lines 108-112). These are external libraries and float coercion.
- DerivationPath.ParsePath: an index is the exact natural value of its digits. JavaScript's `parseInt` rounds above 2^53 and gives `Infinity` for very long digit runs, which is the only way to reach `Invalid index in path.` (line 34). Neither is modelled.
- HexOverride.U32FromHexBE: `>>> 0` is the identity on values already below 2^32, so it is not modelled separately; the same holds on lines 26, 58, 104, 118 and 119.
