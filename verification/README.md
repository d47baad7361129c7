# Co-signing engine of the CatMarket trade client

The CatMarket command-line client asks the marketplace service for
partially-signed transaction templates (PSBTs) and per-template signing
instructions, signs the inputs it is told to sign, and sends the
signatures back as a matrix of hexadecimal strings. This project models
that co-signing engine: four functions that `src/tradeClient.ts` and
`src/client.ts` each carry in identical copies.

- `toXOnlyPubKeyBuf` drops the parity byte of a compressed public key
  (the BIP 340 x-only key).
- `serializeScript` puts a Bitcoin CompactSize length in front of a
  script. This is the `compact_size(size of s) || s` part of the TapLeaf
  hash in BIP 341, section "Script validation rules".
- `signPsbt` derives the raw and the BIP 86 tweaked signer once. It then
  walks the templates and their instructions in order, and signs one
  input per instruction:
  - by the script path, with the TapLeaf hash of the input's first leaf,
    when the input carries `tapLeafScript`;
  - by `signInput` otherwise.
- `extractSigs` builds one row of `""` per template, with one slot per
  input. Each instruction then writes the lowercase hexadecimal of the
  signature it reads back into the slot at its index.

Modules:

- `Bytes`: the byte type, little-endian integers and hexadecimal.
- `CompactSize`: the `varuint-bitcoin` encoding.
- `Taproot`: the x-only key, the script and leaf encodings, and symbolic
  tagged hashes and signers.
- `Psbt`: the parsed inputs, templates, instructions and errors.
- `Signing`: `signPsbt`.
- `Extraction`: `extractSigs`.
- `CoSign`: the two functions run back to back, as every order operation
  runs them.

Cryptography is symbolic:

- a tagged hash is the term `TaggedHash(tag, msg)`;
- the tweaked key pair is the term `Tweaked(key, TapTweak(key))`;
- the PSBT library's two signing routines are the two functions of a
  `Library` value passed in.

So the model records exactly which key and which hash message each
signing call receives. `SignPsbt` also returns a trace of those calls.

Each JavaScript TypeError the engine can raise is a named `Error`
constructor returned in a `Result`:

- a template without an instruction list;
- an instruction index with no input behind it;
- an empty `tapLeafScript` array;
- a missing `tapScriptSig` or `partialSig` list.

## Model

| member | source | states |
|---|---|---|
| `Taproot.XOnlyPubKey` | src/tradeClient.ts:22-24 | Putting the first byte back in front of the result rebuilds the key. A 33-byte compressed key gives 32 bytes. An empty buffer gives an empty one. Same as src/client.ts:24-26. |
| `CompactSize.EncodingLength` | src/tradeClient.ts:27 | `varuint.encodingLength` is always 1, 3, 5 or 9 bytes. |
| `CompactSize.Encode` | src/tradeClient.ts:27-29 | The encoding is exactly `EncodingLength(n)` bytes long. It is the single byte `n` below 0xfd. Otherwise it starts with the marker 0xfd (up to 0xffff), 0xfe (up to 0xffffffff) or 0xff. |
| `CompactSize.DecodeEncode` | src/tradeClient.ts:27-29 | Decoding the front of `Encode(n) ++ rest` gives back `n` and the prefix length, whatever follows. |
| `CompactSize.EncodeInjective` | src/tradeClient.ts:27-29 | Different script lengths get different prefixes. |
| `Taproot.SerializeScript` | src/tradeClient.ts:26-31 | The result is `EncodingLength(\|s\|) + \|s\|` bytes long. Its suffix after the prefix is exactly `s`. Its prefix decodes back to `\|s\|`. Same as src/client.ts:28-33. |
| `Taproot.ParseSerializeScript` | src/tradeClient.ts:26-31 | Parsing a serialized script, followed by anything, gives back the script and the number of bytes it took. |
| `Taproot.LeafPayload` | src/tradeClient.ts:54-57 | The TapLeaf message starts with the leaf version and has length 1 + prefix + script. |
| `Taproot.ParseLeafPayloadRoundTrip` | src/tradeClient.ts:54-57 | The TapLeaf message `[leafVersion] ++ serializeScript(script)` parses back to its leaf. Same as src/client.ts:57-60. |
| `Taproot.LeafPayloadInjective` | src/tradeClient.ts:54-57 | Two different leaves never give the same TapLeaf message. |
| `Taproot.LeafPayloadOpTrue` | src/tradeClient.ts:57 | Leaf version 0xc0 with script `51` gives the message `c0 01 51`. |
| `Taproot.TapTweak` | src/tradeClient.ts:40-42 | The tweak is the "TapTweak" tagged hash of the public key without its first byte. For a 33-byte key its message is 32 bytes. |
| `Taproot.TweakedSigner` | src/tradeClient.ts:39-42 | The tweaked signer is derived from the same key pair with `TapTweak(key)`. It is never the raw key pair. |
| `Signing.SelectSigner` | src/tradeClient.ts:51 | The raw key pair is chosen if and only if `disableTweakSigner` is `Some(true)`. Otherwise the tweaked signer is chosen. Same as src/client.ts:54. |
| `Signing.SignStep` | src/tradeClient.ts:50-63 | One instruction succeeds exactly when its input exists and does not hold an empty leaf list. The input at its index becomes what `signTaprootInput` returns when that input carries `tapLeafScript` (with the selected signer and its first leaf's TapLeaf hash), and what `signInput` returns otherwise. All other inputs and the number of inputs stay as they were. Same as src/client.ts:53-66. |
| `Signing.SignTemplate` | src/tradeClient.ts:49-64 | Signing a template keeps its input count and makes one call per instruction. |
| `Signing.SignTemplateFrame` | src/tradeClient.ts:49-64 | Inputs that no instruction names come out unchanged. |
| `Signing.SignTemplateSucceedsIff` | src/tradeClient.ts:49-64 | Signing a template succeeds if and only if every instruction names an existing input without an empty leaf list. |
| `Signing.SignTemplateTrace` | src/tradeClient.ts:49-64 | Call `j` is for instruction `j`, at its index, with the key it selects. It takes the script path if and only if the input carries `tapLeafScript`, and then uses the TapLeaf hash of the first leaf. |
| `Signing.SignAll` | src/tradeClient.ts:37-68 | On success there is an instruction list for every template, one signed template per template given, and as many calls as instructions. |
| `Signing.SignAllSucceedsIff` | src/tradeClient.ts:46-67 | `signPsbt` succeeds if and only if every template has its instructions and every instruction is signable. |
| `Signing.SignAllTemplates` | src/tradeClient.ts:46-67 | Returned template `i` holds exactly the inputs that the inner loop produced on template `i` with instructions `i` (`SignedTemplateAt`). Same as src/client.ts:48-70. |
| `Signing.SignAllFrame` | src/tradeClient.ts:46-67 | Returned template `i` has the input count of template `i` as given. Its inputs that no instruction names are unchanged. |
| `Signing.SignAllTrace` | src/tradeClient.ts:46-67 | The calls go template by template, in instruction order. Call `InstructionCount(i) + j` is the one instruction `j` of template `i` asks for (see `CallFor`). Same as src/client.ts:48-70. |
| `Signing.SignAllSigners` | src/tradeClient.ts:39-51 | The tweak is derived once: every call signs with the raw key pair or with the one tweaked signer built from its x-only key. Same as src/client.ts:41-54. |
| `Signing.SignInstructions` | src/tradeClient.ts:49-64 | The imperative inner loop returns exactly what `SignTemplate` describes, errors included. |
| `Signing.SignPsbt` | src/tradeClient.ts:37-68 | The imperative nested loops return exactly `SignAll`: the signed templates in input order with the trace, or the first error. |
| `Extraction.SignatureOf` | src/tradeClient.ts:79-85 | The signature is chosen by precedence: `tapKeySig`, then the first `tapScriptSig` when `tapLeafScript` is present, then the first `partialSig` signature (no bytes only if its field is missing). Reading fails if and only if the list it needs is absent or empty. Same as src/client.ts:82-88. |
| `Extraction.ExtractRow` | src/tradeClient.ts:75-87 | A row has exactly one slot per input. |
| `Extraction.ExtractAll` | src/tradeClient.ts:70-90 | On success there are as many rows as templates. |
| `Extraction.ExtractRowSucceedsIff` | src/tradeClient.ts:77-86 | A row is extracted if and only if every instruction names an existing input that holds a readable signature. |
| `Extraction.ExtractRowSlots` | src/tradeClient.ts:75-87 | Every slot that no instruction names stays `""`. Every named slot holds the hexadecimal of that input's signature, whatever the order or repetition of the indices, so the last write gives the same value. Same as src/client.ts:78-90. |
| `Extraction.ExtractAllSucceedsIff` | src/tradeClient.ts:74-88 | `extractSigs` succeeds if and only if every template has an instruction list and every instruction is readable. |
| `Extraction.ExtractAllMatrix` | src/tradeClient.ts:70-90 | The matrix has `\|psbts\|` rows. Row `i` matches template `i` slot for slot, as `RowMatches` states. Same as src/client.ts:73-93. |
| `Extraction.ExtractSigs` | src/tradeClient.ts:70-90 | The imperative nested loops return exactly `ExtractAll`. |
| `Bytes.Hex` | src/tradeClient.ts:86 | `toString('hex')` gives two lowercase hexadecimal characters per byte. |
| `Bytes.UnhexHex` | src/tradeClient.ts:86 | Reading the hexadecimal back gives the signature bytes. |
| `Bytes.HexInjective` | src/tradeClient.ts:86 | Different signatures give different strings. |
| `CoSign.CoSignMatrixShape` | src/tradeClient.ts:124-126 | After `signPsbt` then `extractSigs`, the matrix has one row per template received. Each row has one slot per input received. Every slot no instruction names is `""`. |

## Left out

- The `Client` class, its HTTP calls, the `Authorization` header and the `code !== 0` checks. They are network I/O (src/tradeClient.ts:92-276, src/client.ts:95-193).
- `main`, argument parsing, `dotenv` and the module-level key, URL and address settings. These are process plumbing.
- `getAddressFromPublicKey`. It only wraps `bitcore-lib-inquisition`.
- `console.info` and `console.debug` logging.
- `ECPair.fromWIF`. The decoded key pair is a parameter, known by its public key, so a malformed WIF is not modelled.
- SHA-256 tagged hashing, the EC tweak and Schnorr/ECDSA signing. They are symbolic terms, so a tweak that fails in `keyPair.tweak` is not modelled.
- `Psbt.fromHex`. Templates arrive parsed.
- How bitcoinjs-lib writes a signature into `tapKeySig`, `tapScriptSig` or `partialSig`. Its two signing routines are the two function fields of a `Library` value.
  - A `Library` function sees only the one input being signed, the signer and the leaf hash. Its result is written back at `args.index` only. This matches bitcoinjs-lib updating only the input it is asked to sign, but it is an assumption about the library. `Signing.SignStep`, `Signing.SignTemplateFrame` and `Signing.SignAllFrame` rest on it.
  - A real signature commits to the whole transaction (the other inputs and the outputs). A `Library` function cannot see those, so the model does not say what is signed.
  - So errors they raise (a key that does not match the input, a duplicate signature) are not modelled.
  - Whether the signature written is the one `extractSigs` later reads first is not modelled either.
- `Signing.SignAllTrace`, `Signing.SignAllSucceedsIff`, `Signing.SignTemplateTrace` and `Signing.SignTemplateSucceedsIff` assume the library leaves each input's `tapLeafScript` as it was (`PreservesLeaves`). The source decides the spend path on the input as it stands after earlier calls, and the model does too.
- In-place mutation of each freshly parsed PSBT is modelled as reassigning a sequence value. No other reference to that object exists in the source.
- `disableTweakSigner` is `Option<bool>`. Any other JSON value behaves like an absent flag (`=== true` fails), so it is not listed separately.
- Instruction indices are `nat`. A negative or fractional index would make `inputs[index]` undefined, just like the out-of-range case that is modelled.
- Scripts are at most 2^53 - 1 bytes (the `Buffer` type). `varuint-bitcoin` throws above that, and no JavaScript buffer is that long.

Two behaviours of `extractSigs` that the model keeps as written:

- `extractSigs` throws when the `tapScriptSig` or `partialSig` list it needs is absent or empty (src/tradeClient.ts:82, 84). The empty-bytes default applies only when `partialSig[0].signature` is missing (src/tradeClient.ts:84).
- `tapScriptSig` is read only when the input carries `tapLeafScript` or `tapKeySig`, and only when `tapKeySig` is absent (src/tradeClient.ts:81-82).
