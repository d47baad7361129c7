/**
 * The Taproot building blocks the co-signing engine computes itself:
 * the x-only public key (BIP 340), the CompactSize-prefixed script and
 * the TapLeaf payload (BIP 341, "Script validation rules"), and the
 * TapTweak that turns the raw key pair into the tweaked signer (BIP 86).
 *
 * Hashing and elliptic-curve arithmetic are not computed: a tagged hash is
 * the symbolic term `TaggedHash(tag, msg)` and a tweaked key pair is the
 * term `Tweaked(key, tweak)`, so the model records exactly which tag, which
 * message and which key each is derived from.
 */
module Taproot {
  import opened Wrappers
  import opened Bytes
  import CompactSize

  /** `toXOnlyPubKeyBuf`: the public key without its leading parity byte (`subarray(1)`). */
  function XOnlyPubKey(pubKey: seq<Byte>): (x: seq<Byte>)
    ensures |pubKey| > 0 ==> [pubKey[0]] + x == pubKey
    ensures |pubKey| == 0 ==> x == []
    ensures |pubKey| == 33 ==> |x| == 32
  {
    if |pubKey| == 0 then [] else pubKey[1..]
  }

  /** `serializeScript`: the script behind its CompactSize length. */
  function SerializeScript(s: Buffer): (r: seq<Byte>)
    ensures |r| == CompactSize.EncodingLength(|s|) + |s|
    ensures r[CompactSize.EncodingLength(|s|)..] == s
    ensures CompactSize.Decode(r) == Some((|s|, CompactSize.EncodingLength(|s|)))
  {
    CompactSize.DecodeEncode(|s|, s);
    CompactSize.Encode(|s|) + s
  }

  /**
   * Reads a length-prefixed script from the front of `b`: the script and
   * the number of bytes it took with its prefix.
   */
  function ParseScript(b: seq<Byte>): (r: Option<(Buffer, nat)>)
    ensures r.Some? ==> r.value.1 <= |b|
  {
    match CompactSize.Decode(b)
    case None => None
    case Some((len, k)) =>
      if |b| - k < len then None else Some((b[k..k + len], k + len))
  }

  lemma ParseSerializeScript(s: Buffer, rest: seq<Byte>)
    ensures ParseScript(SerializeScript(s) + rest) == Some((s, |SerializeScript(s)|))
  {
    var k := CompactSize.EncodingLength(|s|);
    var b := SerializeScript(s) + rest;
    assert SerializeScript(s) == CompactSize.Encode(|s|) + s;
    assert b == CompactSize.Encode(|s|) + (s + rest);
    CompactSize.DecodeEncode(|s|, s + rest);
    assert b[k..k + |s|] == s;
  }

  /** One entry of an input's `tapLeafScript`: a leaf script and its leaf version. */
  datatype Leaf = Leaf(leafVersion: Byte, script: Buffer)

  /** The message of the TapLeaf hash: `[leafVersion] ++ serializeScript(script)`. */
  function LeafPayload(leaf: Leaf): (r: seq<Byte>)
    ensures |r| == 1 + CompactSize.EncodingLength(|leaf.script|) + |leaf.script|
    ensures r[0] == leaf.leafVersion
  {
    [leaf.leafVersion] + SerializeScript(leaf.script)
  }

  /** Reads a whole TapLeaf payload back into its leaf. */
  function ParseLeafPayload(b: seq<Byte>): (r: Option<Leaf>)
  {
    if |b| == 0 then None
    else match ParseScript(b[1..])
      case Some((script, k)) => if k == |b| - 1 then Some(Leaf(b[0], script)) else None
      case None => None
  }

  lemma ParseLeafPayloadRoundTrip(leaf: Leaf)
    ensures ParseLeafPayload(LeafPayload(leaf)) == Some(leaf)
  {
    var p := LeafPayload(leaf);
    ParseSerializeScript(leaf.script, []);
    assert p[1..] == SerializeScript(leaf.script) + [];
  }

  /** Different leaves are committed to by different TapLeaf messages. */
  lemma LeafPayloadInjective(a: Leaf, b: Leaf)
    requires LeafPayload(a) == LeafPayload(b)
    ensures a == b
  {
    ParseLeafPayloadRoundTrip(a);
    ParseLeafPayloadRoundTrip(b);
  }

  /** The payload for leaf version 0xc0 and the one-byte script OP_TRUE (0x51). */
  lemma LeafPayloadOpTrue()
    ensures LeafPayload(Leaf(0xc0, [0x51])) == [0xc0, 0x01, 0x51]
  {
  }

  /** `bitcoin.crypto.taggedHash(tag, msg)`, SHA256(SHA256(tag) || SHA256(tag) || msg), as a term. */
  datatype Hash = TaggedHash(tag: string, msg: seq<Byte>)

  /** The hash of a script-path leaf. */
  function TapLeafHash(leaf: Leaf): Hash {
    TaggedHash("TapLeaf", LeafPayload(leaf))
  }

  /** The key pair decoded from the WIF secret, known by its compressed public key. */
  datatype KeyPair = KeyPair(publicKey: seq<Byte>)

  /** A signing key handed to the PSBT library: the raw key pair, or it tweaked by a scalar. */
  datatype Signer = Raw(key: KeyPair) | Tweaked(key: KeyPair, tweak: Hash)

  /** The TapTweak of a key pair: the tagged hash of its x-only public key. */
  function TapTweak(key: KeyPair): (h: Hash)
    ensures h.tag == "TapTweak"
    ensures |key.publicKey| > 0 ==> [key.publicKey[0]] + h.msg == key.publicKey
    ensures |key.publicKey| == 33 ==> |h.msg| == 32
  {
    TaggedHash("TapTweak", XOnlyPubKey(key.publicKey))
  }

  /** `keyPair.tweak(taggedHash('TapTweak', toXOnlyPubKeyBuf(keyPair.publicKey)))`. */
  function TweakedSigner(key: KeyPair): (t: Signer)
    ensures t != Raw(key) && t.key == key && t.Tweaked?
    ensures t.tweak == TapTweak(key)
  {
    Tweaked(key, TapTweak(key))
  }
}
