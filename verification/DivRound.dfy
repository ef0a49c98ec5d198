/** DIV_ROUND_CLOSEST and DIV_ROUND_CLOSEST_ULL of hal_stddef.h.

  The signed macro is taken on unbounded integers: in C it is defined exactly when x + d/2 or
  x - d/2, whichever it computes, does not overflow, and then the value is the same.  The unsigned
  ones wrap around, which is modelled. */
module DivRound {
  import opened Bits

  function Abs(x: int): nat {
    if x < 0 then -x else x
  }

  /** C's division, which truncates towards zero. */
  function CDiv(a: int, b: int): int
    requires b != 0
  {
    if (a < 0) == (b < 0) then Abs(a) / Abs(b) else -(Abs(a) / Abs(b))
  }

  /** DIV_ROUND_CLOSEST with both operands signed. */
  function DivRoundClosest(x: int, d: int): int
    requires d != 0
  {
    if (x > 0) == (d > 0) then CDiv(x + CDiv(d, 2), d) else CDiv(x - CDiv(d, 2), d)
  }

  /** DIV_ROUND_CLOSEST with unsigned operands of `width` bits, and DIV_ROUND_CLOSEST_ULL, where
    the width is 64: the sum is cut to the width. */
  function DivRoundUnsigned(width: nat, x: nat, d: nat): nat
    requires d > 0
  {
    ((x + d / 2) % Pow2(width)) / d
  }

  // ----- rounding, without reference to how it is computed

  /** q is a quotient nearest to x/d. */
  predicate Nearest(x: int, d: int, q: int) {
    2 * Abs(x - q * d) <= Abs(d)
  }

  /** q is the quotient nearest to x/d; of two equally near ones, the one further from zero. */
  predicate Rounded(x: int, d: int, q: int) {
    Nearest(x, d, q) && (2 * Abs(x - q * d) == Abs(d) ==> Abs(q * d) > Abs(x))
  }

  /** The signed macro by magnitude and sign. */
  lemma {:induction false} ByMagnitude(x: int, d: int)
    requires d != 0
    ensures DivRoundClosest(x, d)
         == if (x < 0) == (d < 0) then (Abs(x) + Abs(d) / 2) / Abs(d) else -((Abs(x) + Abs(d) / 2) / Abs(d))
  {
    assert CDiv(d, 2) == if d > 0 then Abs(d) / 2 else -(Abs(d) / 2);
    if x == 0 {
      DivModUnique(Abs(d) / 2, Abs(d), 0, Abs(d) / 2);
    }
  }

  lemma {:induction false} RoundedMagnitude(a: nat, m: nat)
    requires m > 0
    ensures Rounded(a, m, (a + m / 2) / m)
  {
    var q, r := (a + m / 2) / m, (a + m / 2) % m;
    assert a + m / 2 == q * m + r;
  }

  lemma {:induction false} SignedProduct(q: int, d: int)
    ensures (-q) * d == -(q * d) && q * (-d) == -(q * d) && (-q) * (-d) == q * d
  {
  }

  lemma {:induction false} RoundedSigns(x: int, d: int, q: int)
    ensures Rounded(-x, d, -q) == Rounded(x, d, q)
    ensures Rounded(x, -d, -q) == Rounded(x, d, q)
  {
    SignedProduct(q, d);
  }

  lemma {:induction false} FarApart(p: int, q: int, d: int)
    requires p != q && d != 0
    ensures Abs(p * d - q * d) >= Abs(d)
  {
    SignedProduct(p, d);
    SignedProduct(q, d);
    if p < q {
      MulGrows(p, q, Abs(d));
    } else {
      MulGrows(q, p, Abs(d));
    }
  }

  /** x does not lie halfway between two products that are both further from zero than x. */
  lemma {:induction false} NotBothTies(x: int, d: int, p: int, q: int)
    requires d != 0 && Rounded(x, d, p) && Rounded(x, d, q)
    ensures Abs(p * d - q * d) != Abs(d)
  {
    ProductOfSmall(p, d);
    ProductOfSmall(q, d);
  }

  lemma {:induction false} ProductOfSmall(p: int, d: int)
    requires d != 0
    ensures p * d == 0 || Abs(p * d) >= Abs(d)
  {
    if p != 0 {
      FarApart(p, 0, d);
    }
  }

  lemma {:induction false} RoundedIsUnique(x: int, d: int, p: int, q: int)
    requires d != 0 && Rounded(x, d, p) && Rounded(x, d, q)
    ensures p == q
  {
    if p != q {
      FarApart(p, q, d);
      NotBothTies(x, d, p, q);
    }
  }

  /** The signed macro rounds to nearest with ties away from zero, for every sign of x and d: it
    returns q if and only if q is the rounded quotient. */
  lemma {:induction false} DivRoundExact(x: int, d: int, q: int)
    requires d != 0
    ensures DivRoundClosest(x, d) == q <==> Rounded(x, d, q)
  {
    var r := DivRoundClosest(x, d);
    ByMagnitude(x, d);
    var a: int, b: int := Abs(x), Abs(d);
    var m: int := (a + b / 2) / b;
    RoundedMagnitude(a, b);
    RoundedSigns(a, b, m);
    RoundedSigns(-a, b, -m);
    assert Rounded(x, d, r);
    if Rounded(x, d, q) {
      RoundedIsUnique(x, d, r, q);
    }
  }

  lemma {:induction false} DivRoundOdd(x: int, d: int)
    requires d != 0
    ensures DivRoundClosest(-x, d) == -DivRoundClosest(x, d)
    ensures DivRoundClosest(x, -d) == -DivRoundClosest(x, d)
  {
    var q := DivRoundClosest(x, d);
    DivRoundExact(x, d, q);
    RoundedSigns(x, d, q);
    DivRoundExact(-x, d, -q);
    DivRoundExact(x, -d, -q);
  }

  lemma {:induction false} DivRoundMonotone(x: int, y: int, d: int)
    requires d > 0 && x <= y
    ensures DivRoundClosest(x, d) <= DivRoundClosest(y, d)
  {
    var p, q := DivRoundClosest(x, d), DivRoundClosest(y, d);
    DivRoundExact(x, d, p);
    DivRoundExact(y, d, q);
    if q < p {
      MulGrows(q, p, d);
      assert x == y;
    }
  }

  /** The unsigned macros round to nearest exactly when the sum x + d/2 does not wrap around. */
  lemma {:induction false} UnsignedExact(width: nat, x: nat, d: nat)
    requires 0 < d < Pow2(width) && x < Pow2(width)
    ensures Rounded(x, d, DivRoundUnsigned(width, x, d)) <==> x + d / 2 < Pow2(width)
  {
    var sum, limit := x + d / 2, Pow2(width);
    if sum < limit {
      DivModUnique(sum, limit, 0, sum);
      RoundedMagnitude(x, d);
    } else {
      DivModUnique(sum, limit, 1, sum - limit);
      DivModUnique(sum - limit, d, 0, sum - limit);
    }
  }

  /** For example (2^32-1)/2 is rounded to 0 on 32 bits. */
  lemma {:induction false} LargestHalved()
    ensures DivRoundUnsigned(32, 0xFFFF_FFFF, 2) == 0 && !Rounded(0xFFFF_FFFF, 2, 0)
  {
    Pow2At32();
  }
}
