/** Rust's `u8` and the shift arithmetic the triangulator performs on it. */
module Bytes {
  /** An unsigned byte. Every operation on a `u8` must stay in range, as in a
      Rust debug build, where leaving the range panics. */
  newtype u8 = x: int | 0 <= x < 256

  /** `u8::MAX` */
  const U8_MAX: u8 := 255

  /** 2 to the power k. */
  function Pow2(k: nat): (p: nat)
    ensures p >= 1
  {
    if k == 0 then 1 else 2 * Pow2(k - 1)
  }

  /** `x >> k` on a `u8`: k halvings rounding down. A shift by 8 or more
      overflows in Rust, hence the bound on k. */
  function Shr(x: u8, k: nat): u8
    requires k < 8
  {
    if k == 0 then x else Shr(x / 2, k - 1)
  }

  /** `x >> k` is division by 2^k, rounding down. */
  lemma {:induction false} ShrIsDivision(x: u8, k: nat)
    requires k < 8
    ensures Shr(x, k) as int == x as int / Pow2(k)
  {
    if k > 0 {
      ShrIsDivision(x / 2, k - 1);
      HalveThenDivide(x as nat, Pow2(k - 1));
    }
  }

  /** Halving and then dividing by p is dividing by 2p. */
  lemma HalveThenDivide(x: nat, p: nat)
    requires p >= 1
    ensures (x / 2) / p == x / (2 * p)
  {
    var q, r := x / (2 * p), x % (2 * p);
    assert x == 2 * p * q + r && 0 <= r < 2 * p;
    assert x / 2 == p * q + r / 2;
    DivUnique(x / 2, p, q, r / 2);
  }

  /** Division is determined by quotient and remainder. */
  lemma DivUnique(a: int, p: int, q: int, s: int)
    requires p > 0 && 0 <= s < p && a == p * q + s
    ensures a / p == q
  {
    var q', s' := a / p, a % p;
    assert a == p * q' + s' && 0 <= s' < p;
    MulDifference(p, q, q');
    if q > q' {
      MulAtLeast(p, q - q');
    } else if q < q' {
      MulAtLeast(p, q' - q);
    }
  }

  lemma MulDifference(p: int, q: int, q': int)
    ensures p * q - p * q' == p * (q - q')
  {
  }

  lemma {:induction false} MulAtLeast(p: int, d: int)
    requires p > 0 && d >= 1
    ensures p * d >= p
  {
    if d > 1 {
      MulAtLeast(p, d - 1);
      assert p * d == p * (d - 1) + p;
    }
  }

  lemma {:induction false} Pow2Monotone(a: nat, b: nat)
    requires a <= b
    ensures Pow2(a) <= Pow2(b)
  {
    if a < b {
      Pow2Monotone(a, b - 1);
    }
  }

  /** A byte whose low m bits are all ones, shifted right by k, keeps m - k ones. */
  lemma {:induction false} ShrOnes(m: nat, k: nat)
    requires k <= m <= 8 && k < 8
    ensures 1 <= Pow2(m) <= 256 && Shr((Pow2(m) - 1) as u8, k) as int == Pow2(m - k) - 1
  {
    Pow2Monotone(m, 8);
    assert Pow2(8) == 256;
    if k > 0 {
      ShrOnes(m - 1, k - 1);
      assert ((Pow2(m) - 1) as u8) / 2 == (Pow2(m - 1) - 1) as u8;
    }
  }

  /** A non-zero byte below 2^n has a one among its low n bits. */
  lemma {:induction false} SomeBitSet(x: u8, n: nat)
    requires n <= 8 && 0 < x as int < Pow2(n)
    ensures exists i: nat :: i < n && Shr(x, i) % 2 == 1
  {
    if x % 2 == 1 {
      assert Shr(x, 0) % 2 == 1;
    } else {
      SomeBitSet(x / 2, n - 1);
      var i: nat :| i < n - 1 && Shr(x / 2, i) % 2 == 1;
      assert Shr(x, i + 1) == Shr(x / 2, i);
    }
  }

  /** A byte below 2^n whose low n bits are all ones is 2^n - 1. */
  lemma {:induction false} AllBitsSet(x: u8, n: nat)
    requires n <= 8 && x as int < Pow2(n)
    requires forall i: nat :: i < n ==> Shr(x, i) % 2 == 1
    ensures x as int == Pow2(n) - 1
  {
    if n > 0 {
      assert Shr(x, 0) % 2 == 1;
      forall i: nat | i < n - 1
        ensures Shr(x / 2, i) % 2 == 1
      {
        assert Shr(x, i + 1) == Shr(x / 2, i);
      }
      AllBitsSet(x / 2, n - 1);
    }
  }
}
