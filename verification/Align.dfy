// Rounding addresses up with bit masks.
module Align {
  import opened Bytes
  import P = Patches

  /** `a & b`. */
  function And(a: nat, b: nat): nat {
    if a == 0 then 0 else 2 * And(a / 2, b / 2) + if a % 2 == 1 && b % 2 == 1 then 1 else 0
  }

  /** `~x` of a `bfd_vma`. */
  function Not64(x: nat): nat
    requires x < TWO64
  {
    TWO64 - 1 - x
  }

  lemma W64Small(x: int)
    requires 0 <= x < TWO64
    ensures W64(x) == x
  {
  }

  /** `BFD_ALIGN`. */
  function BfdAlign(x: nat, boundary: nat): nat
    requires x < TWO64 && 0 < boundary < TWO64
  {
    if W64(x + boundary - 1) >= x then And(W64(x + (boundary - 1)), Not64(boundary - 1)) else TWO64 - 1
  }

  /** `align_power`. */
  function AlignPower(x: nat, k: nat): nat {
    And(W64(x + P.Pow2(k) - 1), W64(0 - P.Pow2(k)))
  }

  lemma {:induction false} HalfMod(a: nat, m: nat)
    requires m > 0
    ensures a % (2 * m) == 2 * (a / 2 % m) + a % 2
  {
    var q, r := a / 2 / m, a / 2 % m;
    assert a / 2 == q * m + r && a == 2 * (a / 2) + a % 2;
    assert a == 2 * m * q + (2 * r + a % 2) by {
      assert 2 * (q * m) == 2 * m * q;
    }
    P.ModOf(a, q, 2 * r + a % 2, 2 * m);
  }

  lemma {:induction false} AndZero(a: nat)
    ensures And(a, 0) == 0
  {
    if a > 0 {
      AndZero(a / 2);
    }
  }

  /** The low bits are a remainder, */
  lemma {:induction false} AndLow(a: nat, k: nat)
    ensures And(a, P.Pow2(k) - 1) == a % P.Pow2(k)
    decreases k
  {
    if k == 0 {
      AndZero(a);
    } else {
      var m := P.Pow2(k - 1);
      assert (2 * m - 1) / 2 == m - 1 && (2 * m - 1) % 2 == 1;
      AndLow(a / 2, k - 1);
      HalfMod(a, m);
    }
  }

  lemma AndEven(a: nat, c: nat)
    ensures And(a, 2 * c) == 2 * And(a / 2, c)
  {
    assert 2 * c / 2 == c && 2 * c % 2 == 0;
  }

  /** and the high ones what it leaves. */
  lemma {:induction false} AndHigh(a: nat, k: nat, n: nat)
    requires k <= n && a < P.Pow2(n)
    ensures P.Pow2(k) <= P.Pow2(n) && And(a, P.Pow2(n) - P.Pow2(k)) == a - a % P.Pow2(k)
    decreases k, 1
  {
    hide And;
    if k == 0 {
      AndLow(a, n);
      P.ModOf(a, 0, a, P.Pow2(n));
      P.ModOf(a, a, 0, 1);
    } else {
      HalfHigh(a, P.Pow2(k - 1), P.Pow2(n - 1), k, n);
    }
  }

  lemma {:induction false} HalfHigh(a: nat, m: nat, t: nat, k: nat, n: nat)
    requires 0 < k <= n && a < P.Pow2(n) && m == P.Pow2(k - 1) && t == P.Pow2(n - 1)
    ensures m <= t && And(a, 2 * t - 2 * m) == a - a % (2 * m)
    decreases k, 0
  {
    hide And;
    AndHigh(a / 2, k - 1, n - 1);
    AndEven(a, t - m);
    HalfMod(a, m);
    assert 2 * (t - m) == 2 * t - 2 * m;
  }

  lemma Pow2Is64()
    ensures P.Pow2(64) == TWO64
  {
    P.Pow2Is32();
    P.Pow2Adds(32, 32);
  }

  lemma Pow2Below64(k: nat)
    requires k < 64
    ensures P.Pow2(k) < TWO64 && TWO64 % P.Pow2(k) == 0
  {
    hide P.Pow2;
    Pow2Is64();
    P.Pow2Adds(k, 64 - k);
    Pow2Grows(64 - k);
    var a, b := P.Pow2(k), P.Pow2(64 - k);
    Doubles(a, b);
    P.ModOf(TWO64, b, 0, a);
  }

  lemma Doubles(a: nat, b: nat)
    requires b >= 2
    ensures a * b >= a + a
  {
    assert a * b == a * (b - 2) + a + a;
  }

  lemma Pow2Grows(k: nat)
    requires k > 0
    ensures P.Pow2(k) >= 2
  {
  }

  /** `r` is the least multiple of `m` that is not below `x`. */
  predicate LeastMultiple(x: int, m: int, r: int)
    requires m > 0
  {
    r % m == 0 && x <= r < x + m
  }

  lemma MaskIsLeast(x: nat, k: nat)
    requires k < 64 && x + P.Pow2(k) - 1 < TWO64
    ensures And(x + P.Pow2(k) - 1, TWO64 - P.Pow2(k)) < TWO64
    ensures LeastMultiple(x, P.Pow2(k), And(x + P.Pow2(k) - 1, TWO64 - P.Pow2(k)))
  {
    hide And;
    var m := P.Pow2(k);
    var y := x + m - 1;
    Pow2Is64();
    AndHigh(y, k, 64);
    assert y == m * (y / m) + y % m;
    P.ModOf(y - y % m, y / m, 0, m);
  }

  /** `BFD_ALIGN` to a power of two gives the least multiple that is not below the address, or the largest
      address if there is none. */
  lemma BfdAlignIsLeast(x: nat, k: nat)
    requires x < TWO64 && k < 64
    ensures 0 < P.Pow2(k) < TWO64
    ensures var r := BfdAlign(x, P.Pow2(k));
      if x + P.Pow2(k) - 1 < TWO64 then LeastMultiple(x, P.Pow2(k), r) && r < TWO64 else r == TWO64 - 1
  {
    hide And, P.Pow2, LeastMultiple;
    Pow2Below64(k);
    if x + P.Pow2(k) - 1 < TWO64 {
      MaskIsLeast(x, k);
      W64Small(x + P.Pow2(k) - 1);
    } else {
      P.ModOf(x + P.Pow2(k) - 1, 1, x + P.Pow2(k) - 1 - TWO64, TWO64);
    }
  }

  /** `align_power` is the same but for addresses near the end, where it wraps to 0. */
  lemma AlignPowerIsLeast(x: nat, k: nat)
    requires x < TWO64 && k < 64
    ensures var r := AlignPower(x, k);
      if x + P.Pow2(k) - 1 < TWO64 then LeastMultiple(x, P.Pow2(k), r) && r < TWO64 else r == 0
  {
    hide And, P.Pow2;
    Pow2Below64(k);
    var m: int := P.Pow2(k);
    P.ModOf(0 - m, -1, TWO64 - m, TWO64);
    if x + m - 1 < TWO64 {
      MaskIsLeast(x, k);
    } else {
      MaskOfWrapped(x + m - 1 - TWO64, k);
      P.ModOf(x + m - 1, 1, x + m - 1 - TWO64, TWO64);
    }
  }

  lemma MaskOfWrapped(y: nat, k: nat)
    requires k < 64 && y < P.Pow2(k) <= TWO64
    ensures And(y, TWO64 - P.Pow2(k)) == 0
  {
    hide And;
    Pow2Is64();
    AndHigh(y, k, 64);
    P.ModOf(y, 0, y, P.Pow2(k));
  }
}
