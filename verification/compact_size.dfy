/**
 * Bitcoin's CompactSize variable-length integer, as the `varuint-bitcoin`
 * package writes it (`encodingLength`, `encode`) and reads it (`decode`).
 * Values are JavaScript numbers, so both directions reject anything above
 * 2^53 - 1.
 */
module CompactSize {
  import opened Wrappers
  import opened Bytes

  /** `varuint.encodingLength(n)`: how many bytes `Encode(n)` occupies. */
  function EncodingLength(n: nat): (k: nat)
    requires n <= MaxSafeInteger
    ensures k in {1, 3, 5, 9}
  {
    if n < 0xfd then 1
    else if n <= 0xffff then 3
    else if n <= 0xffff_ffff then 5
    else 9
  }

  /**
   * `varuint.encode(n, buffer)`: one byte below 0xfd; otherwise a marker
   * byte 0xfd, 0xfe or 0xff followed by 2, 4 or 8 little-endian bytes.
   */
  function Encode(n: nat): (r: seq<Byte>)
    requires n <= MaxSafeInteger
    ensures |r| == EncodingLength(n)
    ensures n < 0xfd ==> r == [n]
    ensures n >= 0xfd ==> r[0] == (if n <= 0xffff then 0xfd else if n <= 0xffff_ffff then 0xfe else 0xff)
  {
    if n < 0xfd then [n]
    else if n <= 0xffff then [0xfd] + ToLittleEndian(n, 2)
    else if n <= 0xffff_ffff then [0xfe] + ToLittleEndian(n, 4)
    else [0xff] + ToLittleEndian(n, 8)
  }

  /**
   * `varuint.decode(b)`: the value at the front of `b` and how many bytes it
   * took; `None` where the library throws (too few bytes, or a value above
   * 2^53 - 1). Non-minimal encodings are accepted, as the library does.
   */
  function Decode(b: seq<Byte>): (r: Option<(nat, nat)>)
    ensures r.Some? ==> r.value.1 <= |b| && r.value.0 <= MaxSafeInteger
  {
    if |b| == 0 then None
    else if b[0] < 0xfd then Some((b[0], 1))
    else if b[0] == 0xfd then
      if |b| < 3 then None else Some((FromLittleEndian(b[1..3]), 3))
    else if b[0] == 0xfe then
      if |b| < 5 then None else Some((FromLittleEndian(b[1..5]), 5))
    else if |b| < 9 then None
    else
      var v := FromLittleEndian(b[1..9]);
      if v > MaxSafeInteger then None else Some((v, 9))
  }

  /** Decoding the front of an encoding gives back the value and the encoding's length. */
  lemma DecodeEncode(n: nat, rest: seq<Byte>)
    requires n <= MaxSafeInteger
    ensures Decode(Encode(n) + rest) == Some((n, EncodingLength(n)))
  {
    var e := Encode(n);
    var b := e + rest;
    var w := EncodingLength(n) - 1;
    if n >= 0xfd {
      assert b[1..w + 1] == e[1..] == ToLittleEndian(n, w);
      LittleEndianRoundTrip(n, w);
    }
  }

  /** Distinct lengths have distinct encodings. */
  lemma EncodeInjective(m: nat, n: nat)
    requires m <= MaxSafeInteger && n <= MaxSafeInteger
    requires Encode(m) == Encode(n)
    ensures m == n
  {
    DecodeEncode(m, []);
    DecodeEncode(n, []);
    assert Encode(m) + [] == Encode(m) && Encode(n) + [] == Encode(n);
  }
}
