/** Exact decimal numbers and their conversion to the ledger's 18-decimal
    fixed-point unit (ether to wei). No floating point is involved. */
module Decimals {
  import opened Wrappers
  import opened Digits

  /** The number `m × 10^e`. Several representations denote one number;
      `Normalize` picks the canonical one. */
  datatype Decimal = Decimal(m: int, e: int)

  const Zero := Decimal(0, 0)

  /** Fractional digits of the ledger's unit: 1 ether is 10^18 wei. */
  const EtherDecimals: nat := 18

  function Abs(x: int): nat {
    if x < 0 then -x else x
  }

  function Negate(d: Decimal): Decimal {
    Decimal(-d.m, d.e)
  }

  /** Zero is written `0 × 10^0`; any other number has no trailing zero digit. */
  predicate Canonical(d: Decimal) {
    if d.m == 0 then d.e == 0 else d.m % 10 != 0
  }

  lemma MulAtLeast(x: int, p: int)
    ensures x >= 1 && p >= 1 ==> x * p >= p
  {
  }

  lemma MulCancel(a: int, b: int, p: int)
    ensures p >= 1 && a * p == b * p ==> a == b
  {
    MulAtLeast(a - b, p);
    MulAtLeast(b - a, p);
    assert (a - b) * p == a * p - b * p;
    assert (b - a) * p == b * p - a * p;
  }

  /** Euclidean division is determined by its quotient/remainder equation. */
  lemma DivModUnique(a: int, p: int, q: int, r: int)
    requires p > 0 && 0 <= r < p && a == q * p + r
    ensures a / p == q && a % p == r
  {
    var q0, r0 := a / p, a % p;
    assert a == q0 * p + r0;
    MulAtLeast(q - q0, p);
    MulAtLeast(q0 - q, p);
    assert (q - q0) * p == q * p - q0 * p;
    assert (q0 - q) * p == q0 * p - q * p;
  }

  /** Strips trailing zeros off the mantissa: `d`'s mantissa is the result's
      mantissa followed by `r.e - d.e` zeros, so both denote one number. */
  function Normalize(d: Decimal): (r: Decimal)
    ensures Canonical(r)
    ensures r.m == 0 <==> d.m == 0
    ensures r.m > 0 <==> d.m > 0
    ensures d.m != 0 ==> r.e >= d.e && d.m == r.m * Pow10(r.e - d.e)
    decreases Abs(d.m)
  {
    if d.m == 0 then Zero
    else if d.m % 10 != 0 then d
    else
      var q := d.m / 10;
      var r := Normalize(Decimal(q, d.e + 1));
      assert d.m == r.m * Pow10(r.e - d.e) by {
        assert Pow10(r.e - d.e) == 10 * Pow10(r.e - (d.e + 1));
        assert r.m * (10 * Pow10(r.e - (d.e + 1))) == 10 * (r.m * Pow10(r.e - (d.e + 1)));
      }
      r
  }

  /** `w` is exactly `d × 10^18`. */
  predicate ScaledToWei(d: Decimal, w: int) {
    var x := d.e + EtherDecimals;
    if x >= 0 then w == d.m * Pow10(x) else w * Pow10(-x) == d.m
  }

  lemma {:induction false} ScaledToWeiUnique(d: Decimal, w1: int, w2: int)
    requires ScaledToWei(d, w1) && ScaledToWei(d, w2)
    ensures w1 == w2
  {
    var x := d.e + EtherDecimals;
    MulCancel(w1, w2, Pow10(Abs(x)));
  }

  lemma ScaledIsDivisible(d: Decimal)
    requires d.e + EtherDecimals < 0
    ensures forall w :: ScaledToWei(d, w) ==> d.m % Pow10(-(d.e + EtherDecimals)) == 0
  {
    forall w | ScaledToWei(d, w) {
      DivModUnique(d.m, Pow10(-(d.e + EtherDecimals)), w, 0);
    }
  }

  /** The amount in wei of `d` ether: the integer `d × 10^18`, or None when
      `d` has a non-zero digit beyond the 18th decimal place. */
  function Wei(d: Decimal): (r: Option<int>)
    ensures r.Some? ==> ScaledToWei(d, r.value)
    ensures r.None? ==> forall w :: !ScaledToWei(d, w)
    ensures r.Some? ==> (r.value > 0 <==> d.m > 0) && (r.value < 0 <==> d.m < 0)
  {
    var x := d.e + EtherDecimals;
    if x >= 0 then
      SignOfProduct(d.m, Pow10(x));
      Some(d.m * Pow10(x))
    else
      var p := Pow10(-x);
      ScaledIsDivisible(d);
      if d.m % p == 0 then
        assert (d.m / p) * p == d.m;
        SignOfProduct(d.m / p, p);
        Some(d.m / p)
      else
        None
  }

  /** Multiplying by a positive factor keeps the sign. */
  lemma SignOfProduct(w: int, p: int)
    ensures p >= 1 ==> (w * p > 0 <==> w > 0) && (w * p < 0 <==> w < 0)
  {
    MulAtLeast(w, p);
    MulAtLeast(-w, p);
    assert (-w) * p == -(w * p);
  }

  /** A value with a result-defining relation gets the same `Wei` as any
      other representation related to the same integers. */
  lemma WeiRespectsScaling(a: Decimal, b: Decimal)
    requires forall w :: ScaledToWei(a, w) <==> ScaledToWei(b, w)
    ensures Wei(a) == Wei(b)
  {
    if Wei(a).Some? {
      assert ScaledToWei(b, Wei(a).value);
      ScaledToWeiUnique(b, Wei(a).value, Wei(b).value);
    }
  }

  /** One trailing zero moved from the mantissa into the exponent leaves the
      wei amount unchanged. */
  lemma ScaledShift(q: int, e: int, w: int)
    ensures ScaledToWei(Decimal(10 * q, e), w) <==> ScaledToWei(Decimal(q, e + 1), w)
  {
    var x := e + EtherDecimals;
    if x >= 0 {
      assert Pow10(x + 1) == 10 * Pow10(x);
      assert (10 * q) * Pow10(x) == q * (10 * Pow10(x));
    } else if x < -1 {
      var p := Pow10(-x - 1);
      assert Pow10(-x) == 10 * p;
      assert w * (10 * p) == 10 * (w * p);
    }
  }

  lemma {:induction false} ScaledShiftMany(q: int, j: nat, e: int, w: int)
    ensures ScaledToWei(Decimal(q * Pow10(j), e), w) <==> ScaledToWei(Decimal(q, e + j), w)
  {
    if j > 0 {
      var q' := q * Pow10(j - 1);
      assert q * Pow10(j) == 10 * q' by {
        assert q * (10 * Pow10(j - 1)) == 10 * (q * Pow10(j - 1));
      }
      ScaledShift(q', e, w);
      ScaledShiftMany(q, j - 1, e + 1, w);
    }
  }

  /** Normalising never changes the wei amount. */
  lemma WeiOfNormalize(d: Decimal)
    ensures Wei(Normalize(d)) == Wei(d)
  {
    var r := Normalize(d);
    if d.m == 0 {
      forall w ensures ScaledToWei(d, w) <==> ScaledToWei(r, w) {
        var x := d.e + EtherDecimals;
        MulCancel(w, 0, Pow10(Abs(x)));
      }
    } else {
      forall w ensures ScaledToWei(d, w) <==> ScaledToWei(r, w) {
        ScaledShiftMany(r.m, r.e - d.e, d.e, w);
      }
    }
    WeiRespectsScaling(d, r);
  }

  lemma NormalizeTen(q: int, e: int)
    ensures Normalize(Decimal(10 * q, e)) == Normalize(Decimal(q, e + 1))
  {
    if q != 0 {
      assert (10 * q) % 10 == 0 && (10 * q) / 10 == q;
    }
  }

  lemma {:induction false} NormalizeShift(q: int, j: nat, e: int)
    ensures Normalize(Decimal(q * Pow10(j), e)) == Normalize(Decimal(q, e + j))
  {
    if j > 0 {
      var q' := q * Pow10(j - 1);
      assert q * Pow10(j) == 10 * q' by {
        assert q * (10 * Pow10(j - 1)) == 10 * (q * Pow10(j - 1));
      }
      NormalizeTen(q', e);
      NormalizeShift(q, j - 1, e + 1);
      assert Decimal(q * Pow10(j), e) == Decimal(10 * q', e);
    } else {
      assert q * Pow10(j) == q;
    }
  }

  lemma {:induction false} NormalizeNegate(d: Decimal)
    ensures Normalize(Negate(d)) == Negate(Normalize(d))
    decreases Abs(d.m)
  {
    if d.m != 0 {
      var q, r := d.m / 10, d.m % 10;
      if r == 0 {
        DivModUnique(-d.m, 10, -q, 0);
        NormalizeNegate(Decimal(q, d.e + 1));
      } else {
        DivModUnique(-d.m, 10, -q - 1, 10 - r);
      }
    }
  }

  lemma NormalizeCanonical(c: Decimal)
    requires Canonical(c)
    ensures Normalize(c) == c
  {
  }
}
