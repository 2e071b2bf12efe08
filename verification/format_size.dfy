/**
 The integer part of `formatSize`: sizes below 1024 are printed as plain bytes;
 larger sizes are divided by the largest power of 1024 not above them, and the
 exponent picks the prefix letter from "KMGTPE". The one-decimal rendering of
 the quotient is not modelled.
 */
module FormatSize {
  import opened Types

  const Base: int64 := 1024

  /** The prefix letters, indexed by the exponent the loop reaches. */
  const Prefixes := "KMGTPE"

  function Pow1024(k: nat): (p: nat)
    ensures p >= 1
  {
    if k == 0 then 1 else 1024 * Pow1024(k - 1)
  }

  /** The unit chosen for a size: plain bytes, or a divisor `div` and its prefix. */
  datatype Scale = Bytes(count: int64) | Scaled(div: int64, exp: nat, prefix: char)

  /**
   What the choice means, independently of how the loop finds it: a scaled
   size lies between `div` and 1024 times `div`, and `div` is 1024 to the
   power `exp + 1`.
   */
  predicate Fits(size: int64, u: Scale)
  {
    match u
    case Bytes(c) => size < Base && c == size
    case Scaled(div, exp, prefix) =>
      && Base <= size
      && exp < |Prefixes|
      && prefix == Prefixes[exp]
      && div as int == Pow1024(exp + 1)
      && Pow1024(exp + 1) <= size as int < Pow1024(exp + 2)
  }

  lemma {:induction false} Pow1024Monotone(i: nat, j: nat)
    requires i <= j
    ensures Pow1024(i) <= Pow1024(j)
    decreases j
  {
    if i < j {
      Pow1024Monotone(i, j - 1);
    }
  }

  lemma MulMonotone(x: int, y: int, d: int)
    requires x <= y && d >= 0
    ensures x * d <= y * d
  {
  }

  /** Euclidean division by a positive divisor: quotient times divisor plus a remainder below the divisor. */
  lemma DivMod(a: int, d: int)
    requires d > 0
    ensures a == (a / d) * d + a % d && 0 <= a % d < d
  {
  }

  lemma DivUnique(a: int, d: int, q: int, r: int)
    requires d > 0 && a == q * d + r && 0 <= r < d
    ensures a / d == q
  {
    var q' := a / d;
    DivMod(a, d);
    if q' < q {
      assert (q' + 1) * d == q' * d + d;
      MulMonotone(q' + 1, q, d);
    } else if q' > q {
      assert (q + 1) * d == q * d + d;
      MulMonotone(q + 1, q', d);
    }
  }

  /** Nested division by positive divisors is division by their product. */
  lemma DivDiv(a: int, b: int, c: int)
    requires a >= 0 && b > 0 && c > 0
    ensures a / b / c == a / (b * c)
  {
    var q := a / b;
    var q2 := q / c;
    DivMod(a, b);
    DivMod(q, c);
    var r := (q % c) * b + a % b;
    assert q * b == q2 * (b * c) + (q % c) * b by {
      assert q == q2 * c + q % c;
      assert (q2 * c + q % c) * b == q2 * c * b + (q % c) * b;
      assert q2 * c * b == q2 * (b * c);
    }
    assert r < b * c by {
      MulMonotone(q % c, c - 1, b);
      assert (c - 1) * b == b * c - b;
    }
    assert 0 <= r by {
      MulMonotone(0, q % c, b);
    }
    DivUnique(a, b * c, q2, r);
  }

  lemma Pow1024Beyond(k: nat)
    requires k >= 7
    ensures Pow1024(k) >= 0x40_0000_0000_0000_0000
  {
    Pow1024Monotone(7, k);
  }

  /** The largest power of 1024 an int64 can reach is 1024^6: 1024^7 is 2^70. */
  lemma Int64Exponent(k: nat, size: int64)
    requires Pow1024(k) <= size as int
    ensures k <= 6
  {
    if k > 6 {
      Pow1024Beyond(k);
    }
  }

  /**
   `formatSize`'s choice of unit. For sizes of 1024 and more the loop keeps
   `div == 1024^(exp+1)` and `n == size / div`; it multiplies `div` by 1024
   while the quotient is still 1024 or more, so `div` never exceeds the size
   and never overflows, and the exponent stays inside "KMGTPE".
   */
  method SelectScale(size: int64) returns (u: Scale)
    ensures Fits(size, u)
    ensures size < Base <==> u.Bytes?
    ensures u.Scaled? ==> 0 <= u.exp <= 5 && 1 <= size / u.div < Base
  {
    if size < Base {
      return Bytes(size);
    }
    var div: int64 := Base;
    var exp: nat := 0;
    var n: int64 := size / Base;
    while n >= Base
      invariant 1 <= n
      invariant div as int == Pow1024(exp + 1)
      invariant n as int == size as int / div as int
      invariant div <= size
      decreases n
    {
      DivMod(size as int, div as int);
      MulMonotone(1024, n as int, div as int);
      DivDiv(size as int, div as int, 1024);
      div := div * Base;
      exp := exp + 1;
      n := n / Base;
    }
    DivMod(size as int, div as int);
    MulMonotone(n as int + 1, 1024, div as int);
    Int64Exponent(exp + 1, size);
    return Scaled(div, exp, Prefixes[exp]);
  }

  /** A size admits exactly one unit, so `Fits` determines the result of `SelectScale`. */
  lemma FitsUnique(size: int64, u: Scale, v: Scale)
    requires Fits(size, u) && Fits(size, v)
    ensures u == v
  {
    if u.Scaled? && v.Scaled? && u.exp != v.exp {
      if u.exp < v.exp {
        Pow1024Monotone(u.exp + 2, v.exp + 1);
      } else {
        Pow1024Monotone(v.exp + 2, u.exp + 1);
      }
    }
  }

  /** 1023 bytes stay in bytes, 1024 bytes are one kilobyte, 1048576 bytes are one megabyte. */
  lemma Boundaries()
    ensures Fits(1023, Bytes(1023))
    ensures Fits(1024, Scaled(1024, 0, 'K'))
    ensures Fits(1048576, Scaled(1048576, 1, 'M'))
  {
    assert Pow1024(1) == 1024;
    assert Pow1024(2) == 1048576;
    assert Pow1024(3) == 1073741824;
  }
}
