/**
 * Fixed-width unsigned integers and their little-endian byte form, as Rust's
 * `u128::to_le_bytes` lays them out: byte 0 is the least significant.
 */
module Bytes {

  type Byte = b: int | 0 <= b < 256

  const U32_BOUND: nat := 0x1_0000_0000
  const U128_BOUND: nat := 0x1_0000_0000_0000_0000_0000_0000_0000_0000

  /** Rust's `u32`. */
  type U32 = v: int | 0 <= v < U32_BOUND

  /** Rust's `u128`. */
  type U128 = v: int | 0 <= v < U128_BOUND

  function Pow256(n: nat): (p: nat)
    ensures p >= 1
  {
    if n == 0 then 1 else 256 * Pow256(n - 1)
  }

  lemma Pow256Sixteen()
    ensures Pow256(16) == U128_BOUND
  {
    assert Pow256(4) == 0x1_0000_0000;
    assert Pow256(8) == 0x1_0000_0000_0000_0000;
    assert Pow256(12) == 0x1_0000_0000_0000_0000_0000_0000;
  }

  /** The `n` low-order bytes of `v`, least significant first. */
  function LeBytes(v: nat, n: nat): (r: seq<Byte>)
    ensures |r| == n
  {
    if n == 0 then [] else [v % 256] + LeBytes(v / 256, n - 1)
  }

  /** The number whose little-endian bytes are `s`. */
  function FromLe(s: seq<Byte>): (v: nat)
    ensures v < Pow256(|s|)
  {
    if s == [] then 0 else s[0] + 256 * FromLe(s[1..])
  }

  /** `a / b / c == a / (b * c)` for the divisors used here. */
  lemma DivDiv(a: nat, c: nat)
    requires c >= 1
    ensures a / 256 / c == a / (256 * c)
  {
    var q, r := a / 256, a % 256;
    var q2, r2 := q / c, q % c;
    assert a == 256 * (c * q2 + r2) + r;
    assert a == (256 * c) * q2 + (256 * r2 + r);
    assert 0 <= 256 * r2 + r < 256 * c by {
      assert r2 <= c - 1;
      assert 256 * r2 <= 256 * (c - 1);
    }
    DivUnique(a, 256 * c, q2, 256 * r2 + r);
  }

  lemma DivUnique(a: nat, b: nat, q: nat, r: nat)
    requires b >= 1 && r < b && a == b * q + r
    ensures a / b == q
  {
    var q', r' := a / b, a % b;
    assert a == b * q' + r';
    if q' < q {
      MulMonotone(b, q' + 1, q);
    } else if q' > q {
      MulMonotone(b, q + 1, q');
    }
  }

  lemma MulMonotone(b: nat, x: nat, y: nat)
    requires x <= y
    ensures b * x <= b * y
  {
  }

  /** Byte `i` of `LeBytes(v, n)` is digit `i` of `v` in base 256. */
  lemma {:induction false} LeBytesAt(v: nat, n: nat, i: nat)
    requires i < n
    ensures LeBytes(v, n)[i] == (v / Pow256(i)) % 256
  {
    if i > 0 {
      LeBytesAt(v / 256, n - 1, i - 1);
      DivDiv(v, Pow256(i - 1));
    }
  }

  lemma {:induction false} FromLeLeBytes(v: nat, n: nat)
    requires v < Pow256(n)
    ensures FromLe(LeBytes(v, n)) == v
  {
    if n > 0 {
      var s := LeBytes(v, n);
      assert s[1..] == LeBytes(v / 256, n - 1);
      FromLeLeBytes(v / 256, n - 1);
    }
  }

  lemma {:induction false} LeBytesFromLe(s: seq<Byte>)
    ensures LeBytes(FromLe(s), |s|) == s
  {
    if s != [] {
      var v := FromLe(s);
      assert v % 256 == s[0] && v / 256 == FromLe(s[1..]);
      LeBytesFromLe(s[1..]);
    }
  }

  lemma {:induction false} LeBytesZero(n: nat)
    ensures LeBytes(0, n) == seq(n, _ => 0)
  {
    if n > 0 {
      LeBytesZero(n - 1);
    }
  }

  /** Distinct values below `256^n` have distinct byte forms. */
  lemma LeBytesInjective(u: nat, v: nat, n: nat)
    requires u < Pow256(n) && v < Pow256(n)
    ensures LeBytes(u, n) == LeBytes(v, n) <==> u == v
  {
    FromLeLeBytes(u, n);
    FromLeLeBytes(v, n);
  }
}
