/**
 * Byte strings as hexadecimal text, as the `hex` crate's `encode` writes them
 * (two lowercase digits per byte, high nibble first, no separator) and its
 * `decode` reads them back (either letter case; odd length or a non-digit
 * is an error).
 */
module Hex {
  import opened Wrappers
  import opened Bytes
  import opened Numerals

  predicate IsLowerHex(c: char) {
    '0' <= c <= '9' || 'a' <= c <= 'f'
  }

  /** The two digits of one byte. */
  function Pair(b: Byte): (r: string)
    ensures |r| == 2 && IsLowerHex(r[0]) && IsLowerHex(r[1])
    ensures DigitValue(r[0]) == Some(b / 16) && DigitValue(r[1]) == Some(b % 16)
  {
    [DigitChar(b / 16), DigitChar(b % 16)]
  }

  function Encode(bs: seq<Byte>): (r: string)
    ensures |r| == 2 * |bs|
    ensures forall j :: 0 <= j < |r| ==> IsLowerHex(r[j])
    ensures forall i :: 0 <= i < |bs| ==> r[2 * i..2 * i + 2] == Pair(bs[i])
  {
    if bs == [] then []
    else
      var rest := Encode(bs[1..]);
      EncodeStep(bs, rest);
      Pair(bs[0]) + rest
  }

  lemma EncodeStep(bs: seq<Byte>, rest: string)
    requires bs != [] && |rest| == 2 * (|bs| - 1)
    requires forall j :: 0 <= j < |rest| ==> IsLowerHex(rest[j])
    requires forall i :: 0 <= i < |bs| - 1 ==> rest[2 * i..2 * i + 2] == Pair(bs[1..][i])
    ensures forall j :: 0 <= j < |Pair(bs[0]) + rest| ==> IsLowerHex((Pair(bs[0]) + rest)[j])
    ensures forall i :: 0 <= i < |bs| ==> (Pair(bs[0]) + rest)[2 * i..2 * i + 2] == Pair(bs[i])
  {
    var r := Pair(bs[0]) + rest;
    forall i | 0 <= i < |bs|
      ensures r[2 * i..2 * i + 2] == Pair(bs[i])
    {
      if i > 0 {
        assert r[2 * i..2 * i + 2] == rest[2 * (i - 1)..2 * (i - 1) + 2];
        assert bs[1..][i - 1] == bs[i];
      }
    }
  }

  lemma {:induction false} EncodeZeros(n: nat)
    ensures Encode(seq(n, _ => 0)) == seq(2 * n, _ => '0')
  {
    if n > 0 {
      var zeros := seq(n, _ => 0);
      assert zeros[1..] == seq(n - 1, _ => 0);
      EncodeZeros(n - 1);
      assert Pair(0) == "00";
    }
  }

  function Decode(s: string): (r: Option<seq<Byte>>)
    ensures r.Some? ==> 2 * |r.value| == |s|
  {
    if s == [] then Some([])
    else if |s| == 1 then None
    else
      match (DigitValue(s[0]), DigitValue(s[1]), Decode(s[2..]))
      case (Some(hi), Some(lo), Some(rest)) => Some([hi * 16 + lo] + rest)
      case _ => None
  }

  lemma {:induction false} DecodeEncode(bs: seq<Byte>)
    ensures Decode(Encode(bs)) == Some(bs)
  {
    if bs != [] {
      var s := Encode(bs);
      assert s == Pair(bs[0]) + Encode(bs[1..]);
      var p := Pair(bs[0]);
      assert s[0] == p[0] && s[1] == p[1] && s[2..] == Encode(bs[1..]);
      DecodeEncode(bs[1..]);
      assert (bs[0] / 16) * 16 + bs[0] % 16 == bs[0];
      assert [bs[0]] + bs[1..] == bs;
    }
  }

  /** Distinct byte strings have distinct hex text. */
  lemma EncodeInjective(a: seq<Byte>, b: seq<Byte>)
    ensures Encode(a) == Encode(b) <==> a == b
  {
    DecodeEncode(a);
    DecodeEncode(b);
  }
}
