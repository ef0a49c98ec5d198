/** C's bitwise operators on unsigned words of any width, as functions on natural numbers.

  Every operator is defined by recursion on the binary representation, and every operator has
  one lemma saying what each bit of its result is.  Two words are equal as soon as their bits
  are (`Extensional`), which is how all facts about masks and fields are proved. */
module Bits {

  function Pow2(n: nat): (p: nat)
    ensures p > 0
  {
    if n == 0 then 1 else 2 * Pow2(n - 1)
  }

  /** Bit i of w, bit 0 being the least significant. */
  predicate Bit(w: nat, i: nat)
    decreases i, w
  {
    if i == 0 then w % 2 == 1 else Bit(w / 2, i - 1)
  }

  /** C's a & b. */
  function And(a: nat, b: nat): nat
    decreases a, b
  {
    if a == 0 then 0
    else 2 * And(a / 2, b / 2) + (if a % 2 == 1 && b % 2 == 1 then 1 else 0)
  }

  /** C's a | b. */
  function Or(a: nat, b: nat): nat
    decreases a + b
  {
    if a + b == 0 then 0
    else 2 * Or(a / 2, b / 2) + (if a % 2 == 1 || b % 2 == 1 then 1 else 0)
  }

  /** C's ~a on a word of `width` bits. */
  function Not(width: nat, a: nat): nat
    decreases width, a
  {
    if width == 0 then 0 else 2 * Not(width - 1, a / 2) + (if a % 2 == 1 then 0 else 1)
  }

  /** The low `width` bits of a: what C keeps when a value is stored in such a word. */
  function Trunc(width: nat, a: nat): nat
    decreases width, a
  {
    if width == 0 then 0 else 2 * Trunc(width - 1, a / 2) + a % 2
  }

  /** a << n before the result is cut to the width of its type. */
  function Shl(a: nat, n: nat): nat
    decreases n, a
  {
    if n == 0 then a else 2 * Shl(a, n - 1)
  }

  /** a >> n of an unsigned word. */
  function Shr(a: nat, n: nat): nat
    decreases n, a
  {
    if n == 0 then a else Shr(a / 2, n - 1)
  }

  /** (1 << n) - 1. */
  function Ones(n: nat): nat
  {
    ShlPositive(1, n);
    Shl(1, n) - 1
  }

  lemma {:induction false} ShlPositive(a: nat, n: nat)
    requires a > 0
    ensures Shl(a, n) > 0
  {
    if n > 0 {
      ShlPositive(a, n - 1);
    }
  }

  // ----- what each bit of a result is

  lemma {:induction false} BitOfZero(i: nat)
    ensures !Bit(0, i)
  {
    if i > 0 {
      BitOfZero(i - 1);
    }
  }

  lemma {:induction false} BitOfAnd(a: nat, b: nat, i: nat)
    ensures Bit(And(a, b), i) == (Bit(a, i) && Bit(b, i))
    decreases i
  {
    if a == 0 {
      BitOfZero(i);
    } else if i > 0 {
      BitOfAnd(a / 2, b / 2, i - 1);
    }
  }

  lemma {:induction false} BitOfOr(a: nat, b: nat, i: nat)
    ensures Bit(Or(a, b), i) == (Bit(a, i) || Bit(b, i))
    decreases i
  {
    if a + b == 0 {
      BitOfZero(i);
    } else if i > 0 {
      BitOfOr(a / 2, b / 2, i - 1);
    }
  }

  lemma {:induction false} BitOfNot(width: nat, a: nat, i: nat)
    ensures Bit(Not(width, a), i) == (i < width && !Bit(a, i))
    decreases i
  {
    if width == 0 {
      BitOfZero(i);
    } else if i > 0 {
      BitOfNot(width - 1, a / 2, i - 1);
    }
  }

  lemma {:induction false} BitOfTrunc(width: nat, a: nat, i: nat)
    ensures Bit(Trunc(width, a), i) == (i < width && Bit(a, i))
    decreases i
  {
    if width == 0 {
      BitOfZero(i);
    } else if i > 0 {
      BitOfTrunc(width - 1, a / 2, i - 1);
    }
  }

  lemma {:induction false} BitOfShl(a: nat, n: nat, i: nat)
    ensures Bit(Shl(a, n), i) == (i >= n && Bit(a, i - n))
    decreases n
  {
    if n > 0 && i > 0 {
      BitOfShl(a, n - 1, i - 1);
    }
  }

  lemma {:induction false} BitOfShr(a: nat, n: nat, i: nat)
    ensures Bit(Shr(a, n), i) == Bit(a, i + n)
    decreases n
  {
    if n > 0 {
      BitOfShr(a / 2, n - 1, i);
    }
  }

  lemma {:induction false} BitOfOnes(n: nat, i: nat)
    ensures Bit(Ones(n), i) == (i < n)
    decreases n
  {
    if n == 0 {
      BitOfZero(i);
    } else {
      ShlPositive(1, n - 1);
      assert Ones(n) == 2 * Ones(n - 1) + 1;
      if i > 0 {
        BitOfOnes(n - 1, i - 1);
      }
    }
  }

  // ----- a word is its bits

  lemma {:induction false} NonzeroHasBit(a: nat) returns (i: nat)
    requires a > 0
    ensures Bit(a, i)
    decreases a
  {
    if a % 2 == 1 {
      i := 0;
    } else {
      var j := NonzeroHasBit(a / 2);
      i := j + 1;
    }
  }

  lemma {:induction false} Extensional(a: nat, b: nat)
    requires forall i: nat :: Bit(a, i) == Bit(b, i)
    ensures a == b
    decreases a
  {
    assert Bit(a, 0) == Bit(b, 0);
    if a == 0 {
      if b > 0 {
        var i := NonzeroHasBit(b);
        BitOfZero(i);
      }
    } else if b == 0 {
      var i := NonzeroHasBit(a);
      BitOfZero(i);
    } else {
      forall i: nat
        ensures Bit(a / 2, i) == Bit(b / 2, i)
      {
        assert Bit(a, i + 1) == Bit(b, i + 1);
      }
      Extensional(a / 2, b / 2);
    }
  }

  lemma {:induction false} BitsAbove(a: nat, width: nat, i: nat)
    requires a < Pow2(width) && i >= width
    ensures !Bit(a, i)
    decreases width
  {
    if width == 0 {
      BitOfZero(i);
    } else {
      BitsAbove(a / 2, width - 1, i - 1);
    }
  }

  lemma {:induction false} BoundFromBits(a: nat, width: nat)
    requires forall i: nat :: i >= width ==> !Bit(a, i)
    ensures a < Pow2(width)
    decreases width
  {
    if width == 0 {
      if a > 0 {
        var i := NonzeroHasBit(a);
      }
    } else {
      forall i: nat | i >= width - 1
        ensures !Bit(a / 2, i)
      {
        assert !Bit(a, i + 1);
      }
      BoundFromBits(a / 2, width - 1);
    }
  }

  // ----- the same operators as arithmetic

  lemma {:induction false} Pow2Add(m: nat, n: nat)
    ensures Pow2(m + n) == Pow2(m) * Pow2(n)
    decreases m
  {
    if m > 0 {
      Pow2Add(m - 1, n);
    }
  }

  lemma {:induction false} MulAtLeast(a: nat, b: nat)
    requires b > 0
    ensures a * b >= a
  {
    assert a * (b - 1) >= 0;
  }

  lemma {:induction false} Pow2Order(m: nat, n: nat)
    requires m <= n
    ensures Pow2(m) <= Pow2(n)
  {
    Pow2Add(m, n - m);
    MulAtLeast(Pow2(m), Pow2(n - m));
  }

  lemma {:induction false} TopOnes(width: nat, bits: nat)
    requires bits < width
    ensures (Pow2(width - bits) - 1) * Pow2(bits) == Pow2(width) - Pow2(bits)
  {
    Pow2Add(width - bits, bits);
  }

  lemma {:induction false} ShlIsMul(a: nat, n: nat)
    ensures Shl(a, n) == a * Pow2(n)
  {
    if n > 0 {
      ShlIsMul(a, n - 1);
    }
  }

  lemma {:induction false} OnesIsPow2(n: nat)
    ensures Ones(n) == Pow2(n) - 1
  {
    ShlIsMul(1, n);
  }

  /** Quotient and remainder are unique. */
  lemma {:induction false} DivModUnique(a: int, d: int, q: int, r: int)
    requires d > 0 && 0 <= r < d && a == q * d + r
    ensures a / d == q && a % d == r
  {
    var q', r' := a / d, a % d;
    assert q' * d + r' == q * d + r;
    if q' > q {
      MulGrows(q, q', d);
    } else if q' < q {
      MulGrows(q', q, d);
    }
  }

  lemma {:induction false} MulGrows(x: int, y: int, d: int)
    requires x < y && d > 0
    ensures x * d + d <= y * d
    decreases y - x
  {
    if y == x + 1 {
      assert y * d == x * d + d;
    } else {
      MulGrows(x, y - 1, d);
      assert y * d == (y - 1) * d + d;
    }
  }

  lemma {:induction false} MulMonotone(x: int, y: int, d: nat)
    requires x <= y
    ensures x * d <= y * d
  {
    if x < y && d > 0 {
      MulGrows(x, y, d);
    }
  }

  lemma {:induction false} ShrIsDiv(a: nat, n: nat)
    ensures Shr(a, n) == a / Pow2(n)
    decreases n
  {
    if n > 0 {
      ShrIsDiv(a / 2, n - 1);
      HalveDivMod(a, Pow2(n - 1));
    }
  }

  lemma {:induction false} TruncIsMod(width: nat, a: nat)
    ensures Trunc(width, a) == a % Pow2(width)
    decreases width
  {
    if width > 0 {
      TruncIsMod(width - 1, a / 2);
      HalveDivMod(a, Pow2(width - 1));
    }
  }

  lemma {:induction false} HalveDivMod(a: nat, p: nat)
    requires p > 0
    ensures a / (2 * p) == (a / 2) / p
    ensures a % (2 * p) == 2 * ((a / 2) % p) + a % 2
  {
    var q, r := (a / 2) / p, (a / 2) % p;
    assert a == q * (2 * p) + (2 * r + a % 2);
    DivModUnique(a, 2 * p, q, 2 * r + a % 2);
  }

  lemma {:induction false} OrOfDisjoint(a: nat, b: nat, n: nat)
    requires a % Pow2(n) == 0 && b < Pow2(n)
    ensures Or(a, b) == a + b
    decreases n
  {
    if n == 0 {
      OrZero(a);
    } else {
      HalveDivMod(a, Pow2(n - 1));
      OrOfDisjoint(a / 2, b / 2, n - 1);
    }
  }

  lemma {:induction false} OrZero(a: nat)
    ensures Or(a, 0) == a
    decreases a
  {
    if a > 0 {
      OrZero(a / 2);
    }
  }

  lemma {:induction false} TruncFits(width: nat, a: nat)
    ensures Trunc(width, a) < Pow2(width)
    ensures a < Pow2(width) ==> Trunc(width, a) == a
    decreases width
  {
    if width > 0 {
      TruncFits(width - 1, a / 2);
    }
  }

  lemma {:induction false} Pow2At16()
    ensures Pow2(8) == 0x100 && Pow2(16) == 0x1_0000
  {
    assert Pow2(8) == 0x100;
    Pow2Add(8, 8);
  }

  lemma {:induction false} Pow2At32()
    ensures Pow2(32) == 0x1_0000_0000
  {
    Pow2At16();
    Pow2Add(16, 16);
  }

  lemma {:induction false} Powers()
    ensures Pow2(0) == 1 && Pow2(1) == 2 && Pow2(2) == 4 && Pow2(3) == 8 && Pow2(4) == 0x10 && Pow2(5) == 0x20
    ensures Pow2(6) == 0x40 && Pow2(7) == 0x80 && Pow2(8) == 0x100 && Pow2(10) == 0x400
    ensures Pow2(15) == 0x8000 && Pow2(16) == 0x1_0000 && Pow2(20) == 0x10_0000 && Pow2(24) == 0x100_0000
    ensures Pow2(28) == 0x1000_0000 && Pow2(32) == 0x1_0000_0000
  {
    Pow2At32();
    Pow2At16();
    assert Pow2(4) == 0x10;
    assert Pow2(16) == 2 * Pow2(15);
    Pow2Add(8, 2);
    Pow2Add(16, 4);
    Pow2Add(16, 8);
    Pow2Add(24, 4);
  }
}
