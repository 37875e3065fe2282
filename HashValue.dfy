/**
 * The `Hash` class of the binding: an immutable 128-bit digest with its
 * integer, raw-byte and hexadecimal forms. The bytes are the value's
 * little-endian bytes (`u128::to_le_bytes`), and the hex text is those bytes
 * in the same order.
 */
module HashValue {
  import opened Wrappers
  import opened Bytes
  import opened Numerals
  import opened Errors
  import Hex

  const DIGEST_SIZE: nat := 16

  datatype Hash = Hash(value: U128)

  /** `Hash(value)` called from Python: the `int` must fit a `u128`. */
  function New(value: int): (r: Result<Hash, PyError>)
    ensures r.Success? <==> 0 <= value < U128_BOUND
    ensures r.Success? ==> Int(r.value) == value
    ensures r.Failure? ==> r.error == OverflowError("value")
  {
    if 0 <= value < U128_BOUND then Success(Hash(value)) else Failure(OverflowError("value"))
  }

  /** `digest()`: the 16 bytes of the value, least significant first. */
  function Digest(h: Hash): (r: seq<Byte>)
    ensures |r| == DIGEST_SIZE
    ensures forall i :: 0 <= i < DIGEST_SIZE ==> r[i] == (h.value / Pow256(i)) % 256
    ensures FromLe(r) == h.value
  {
    var r := LeBytes(h.value, DIGEST_SIZE);
    forall i | 0 <= i < DIGEST_SIZE ensures r[i] == (h.value / Pow256(i)) % 256 {
      LeBytesAt(h.value, DIGEST_SIZE, i);
    }
    Pow256Sixteen();
    FromLeLeBytes(h.value, DIGEST_SIZE);
    r
  }

  /** `hexdigest()`: two lowercase hex digits per digest byte, in digest order. */
  function HexDigest(h: Hash): (r: string)
    ensures |r| == 2 * DIGEST_SIZE
    ensures forall j :: 0 <= j < |r| ==> Hex.IsLowerHex(r[j])
    ensures forall i :: 0 <= i < DIGEST_SIZE ==> r[2 * i..2 * i + 2] == Hex.Pair(Digest(h)[i])
    ensures Hex.Decode(r) == Some(Digest(h))
  {
    Hex.DecodeEncode(Digest(h));
    Hex.Encode(Digest(h))
  }

  /** `__int__()`. */
  function Int(h: Hash): (r: nat)
    ensures r < U128_BOUND
  {
    h.value
  }

  /** `__bytes__()`: the same bytes as `digest()`. */
  function BytesOf(h: Hash): (r: seq<Byte>)
    ensures r == Digest(h)
  {
    Digest(h)
  }

  /** `__str__()`: the same text as `hexdigest()`. */
  function Str(h: Hash): (r: string)
    ensures r == HexDigest(h)
  {
    HexDigest(h)
  }

  const REPR_PREFIX: string := "Hash(value="

  /** `__repr__()`: the value in decimal. */
  function Repr(h: Hash): (r: string)
    ensures ReadRepr(r) == Some(h)
  {
    var r := REPR_PREFIX + Decimal(h.value) + ")";
    assert r[..|REPR_PREFIX|] == REPR_PREFIX && r[|REPR_PREFIX|..|r| - 1] == Decimal(h.value);
    r
  }

  /** Reads a `Hash(value=N)` text back. */
  function ReadRepr(s: string): Option<Hash> {
    if |s| > |REPR_PREFIX| && s[..|REPR_PREFIX|] == REPR_PREFIX && s[|s| - 1] == ')' then
      match Parse(s[|REPR_PREFIX|..|s| - 1], 10)
      case Some(n) => if n < U128_BOUND then Some(Hash(n)) else None
      case None => None
    else None
  }

  /** The constructor stores exactly the value `__int__` gives back. */
  lemma IntOfNew(value: int)
    requires 0 <= value < U128_BOUND
    ensures New(value) == Success(Hash(value)) && Int(New(value).value) == value
  {
  }

  /** Decoding the digest little-endian gives back the value, so distinct hashes have distinct digests. */
  lemma DigestInjective(a: Hash, b: Hash)
    ensures Digest(a) == Digest(b) <==> a == b
  {
  }

  /** Distinct hashes have distinct hex digests. */
  lemma HexDigestInjective(a: Hash, b: Hash)
    ensures HexDigest(a) == HexDigest(b) <==> a == b
  {
  }

  /** Characters `2i` and `2i + 1` of the hex digest are the high and low nibble of byte `i` of the value. */
  lemma HexDigestNibbles(h: Hash, i: nat)
    requires i < DIGEST_SIZE
    ensures DigitValue(HexDigest(h)[2 * i]) == Some((h.value / Pow256(i)) % 256 / 16)
    ensures DigitValue(HexDigest(h)[2 * i + 1]) == Some((h.value / Pow256(i)) % 256 % 16)
  {
  }

  /** The zero value renders as 32 zeros. */
  lemma ZeroHexDigest(h: Hash)
    requires h.value == 0
    ensures HexDigest(h) == "00000000000000000000000000000000"
  {
    LeBytesZero(DIGEST_SIZE);
    Hex.EncodeZeros(DIGEST_SIZE);
  }
}
