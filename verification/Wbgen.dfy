/** The wbgen2 register-access macros, over words of `width` bits: 32 for WBGEN2_GEN_*, whose
  arithmetic is done on C's int and uint32_t, and 64 for the WBGEN2_DSP_* variants.

  A 32-bit mask is an int in C and is converted to uint32_t when it meets the register, which
  is what cutting it to 32 bits says.  The int variants shift 1 left by the field's size, so
  they are only defined for sizes up to 30 (`Fields.Field.Valid`). */
module Wbgen {
  import opened Bits

  /** WBGEN2_GEN_MASK and WBGEN2_DSP_GEN_MASK. */
  function Mask(width: nat, offset: nat, size: nat): nat {
    Trunc(width, Shl(Ones(size), offset))
  }

  /** WBGEN2_GEN_WRITE and WBGEN2_DSP_GEN_WRITE. */
  function Write(width: nat, value: nat, offset: nat, size: nat): nat {
    Trunc(width, Shl(And(value, Ones(size)), offset))
  }

  /** WBGEN2_GEN_READ and WBGEN2_DSP_GEN_READ. */
  function Read(reg: nat, offset: nat, size: nat): nat {
    And(Shr(reg, offset), Ones(size))
  }

  /** WBGEN2_SIGN_EXTEND and WBGEN2_DSP_SIGN_EXTEND; `bits` is the position of the sign bit. */
  function SignExtend(width: nat, value: nat, bits: nat): nat {
    Or(if And(value, Shl(1, bits)) != 0 then Not(width, Ones(bits)) else 0, value)
  }

  /** The number that a word of `width` bits stands for in two's complement. */
  function Signed(width: nat, word: nat): int
    requires width > 0
  {
    if word < Pow2(width - 1) then word else word - Pow2(width)
  }

  // ----- which bits the macros select

  lemma {:induction false} BitOfMask(width: nat, offset: nat, size: nat, i: nat)
    ensures Bit(Mask(width, offset, size), i) == (i < width && offset <= i < offset + size)
  {
    BitOfTrunc(width, Shl(Ones(size), offset), i);
    BitOfShl(Ones(size), offset, i);
    if i >= offset {
      BitOfOnes(size, i - offset);
    }
  }

  lemma {:induction false} BitOfWrite(width: nat, value: nat, offset: nat, size: nat, i: nat)
    ensures Bit(Write(width, value, offset, size), i)
         == (i < width && offset <= i < offset + size && Bit(value, i - offset))
  {
    BitOfTrunc(width, Shl(And(value, Ones(size)), offset), i);
    BitOfShl(And(value, Ones(size)), offset, i);
    if i >= offset {
      BitOfAnd(value, Ones(size), i - offset);
      BitOfOnes(size, i - offset);
    }
  }

  lemma {:induction false} BitOfRead(reg: nat, offset: nat, size: nat, i: nat)
    ensures Bit(Read(reg, offset, size), i) == (i < size && Bit(reg, i + offset))
  {
    BitOfAnd(Shr(reg, offset), Ones(size), i);
    BitOfOnes(size, i);
    BitOfShr(reg, offset, i);
  }

  // ----- the macros as arithmetic

  lemma {:induction false} AndOnes(a: nat, n: nat)
    ensures And(a, Ones(n)) == Trunc(n, a)
  {
    forall i: nat
      ensures Bit(And(a, Ones(n)), i) == Bit(Trunc(n, a), i)
    {
      BitOfAnd(a, Ones(n), i);
      BitOfOnes(n, i);
      BitOfTrunc(n, a, i);
    }
    Extensional(And(a, Ones(n)), Trunc(n, a));
  }

  lemma {:induction false} ReadIsDivMod(reg: nat, offset: nat, size: nat)
    ensures Read(reg, offset, size) == (reg / Pow2(offset)) % Pow2(size)
  {
    AndOnes(Shr(reg, offset), size);
    TruncIsMod(size, Shr(reg, offset));
    ShrIsDiv(reg, offset);
  }

  lemma {:induction false} WriteIsModMul(width: nat, value: nat, offset: nat, size: nat)
    requires offset + size <= width
    ensures Write(width, value, offset, size) == (value % Pow2(size)) * Pow2(offset)
  {
    var v := And(value, Ones(size));
    AndOnes(value, size);
    TruncIsMod(size, value);
    ShlIsMul(v, offset);
    Pow2Add(size, offset);
    Pow2Order(offset + size, width);
    MulGrows(v, Pow2(size), Pow2(offset));
    TruncFits(width, Shl(v, offset));
  }

  /** On a field that fits a 32-bit register the 64-bit macros agree with the 32-bit ones, also
    where the mask is complemented and the result stored back in 32 bits. */
  lemma {:induction false} WidthsAgree(value: nat, offset: nat, size: nat)
    requires offset + size <= 32
    ensures Mask(64, offset, size) == Mask(32, offset, size)
    ensures Write(64, value, offset, size) == Write(32, value, offset, size)
    ensures Trunc(32, Not(64, Mask(64, offset, size))) == Not(32, Mask(32, offset, size))
  {
    var m64, m32 := Mask(64, offset, size), Mask(32, offset, size);
    forall i: nat
      ensures Bit(m64, i) == Bit(m32, i)
      ensures Bit(Write(64, value, offset, size), i) == Bit(Write(32, value, offset, size), i)
      ensures Bit(Trunc(32, Not(64, m64)), i) == Bit(Not(32, m32), i)
    {
      BitOfMask(64, offset, size, i);
      BitOfMask(32, offset, size, i);
      BitOfWrite(64, value, offset, size, i);
      BitOfWrite(32, value, offset, size, i);
      BitOfTrunc(32, Not(64, m64), i);
      BitOfNot(64, m64, i);
      BitOfNot(32, m32, i);
    }
    Extensional(m64, m32);
    Extensional(Write(64, value, offset, size), Write(32, value, offset, size));
    Extensional(Trunc(32, Not(64, m64)), Not(32, m32));
  }

  // ----- sign extension

  lemma {:induction false} TestBit(value: nat, bits: nat)
    ensures And(value, Shl(1, bits)) != 0 <==> Bit(value, bits)
  {
    var a := And(value, Shl(1, bits));
    BitOfAnd(value, Shl(1, bits), bits);
    BitOfShl(1, bits, bits);
    if a == 0 {
      BitOfZero(bits);
    } else {
      var i := NonzeroHasBit(a);
      BitOfAnd(value, Shl(1, bits), i);
      BitOfShl(1, bits, i);
      if i > bits {
        assert Bit(1, i - bits) == Bit(0, i - bits - 1);
        BitOfZero(i - bits - 1);
      }
    }
  }

  lemma {:induction false} BitOfSignExtend(width: nat, value: nat, bits: nat, i: nat)
    requires i < width
    ensures Bit(SignExtend(width, value, bits), i)
         == (Bit(value, i) || (i >= bits && Bit(value, bits)))
  {
    TestBit(value, bits);
    BitOfOr(if Bit(value, bits) then Not(width, Ones(bits)) else 0, value, i);
    BitOfNot(width, Ones(bits), i);
    BitOfOnes(bits, i);
    BitOfZero(i);
  }

  /** The sign extension of the low bits+1 bits of a word: the reference the macro is held to. */
  function Extended(width: nat, value: nat, bits: nat): nat
    requires bits < width
  {
    if Bit(value, bits) then Trunc(bits, value) + (Pow2(width - bits) - 1) * Pow2(bits)
    else Trunc(bits, value)
  }

  lemma {:induction false} BitOfExtended(width: nat, value: nat, bits: nat, i: nat)
    requires bits < width
    ensures Bit(Extended(width, value, bits), i)
         == (i < width && (if i < bits then Bit(value, i) else Bit(value, bits)))
  {
    hide Bit, Trunc, Shl, Or, Ones, Pow2;
    var low := Trunc(bits, value);
    BitOfTrunc(bits, value, i);
    if Bit(value, bits) {
      OnesIsPow2(width - bits);
      var high := Shl(Ones(width - bits), bits);
      ShlIsMul(Ones(width - bits), bits);
      TruncFits(bits, value);
      DivModUnique(high, Pow2(bits), Ones(width - bits), 0);
      OrOfDisjoint(high, low, bits);
      BitOfOr(high, low, i);
      BitOfShl(Ones(width - bits), bits, i);
      if i >= bits {
        BitOfOnes(width - bits, i - bits);
      }
    }
  }

  /** The macro extends the sign of the low bits+1 bits exactly when no stray bit is left above
    the sign bit of a non-negative field. */
  lemma {:induction false} SignExtendExact(width: nat, value: nat, bits: nat)
    requires bits < width && value < Pow2(width)
    ensures SignExtend(width, value, bits) == Extended(width, value, bits)
        <==> (Bit(value, bits) || value < Pow2(bits + 1))
  {
    var x, e := SignExtend(width, value, bits), Extended(width, value, bits);
    if Bit(value, bits) || value < Pow2(bits + 1) {
      forall i: nat
        ensures Bit(x, i) == Bit(e, i)
      {
        BitOfExtended(width, value, bits, i);
        if i < width {
          BitOfSignExtend(width, value, bits, i);
        } else {
          SignExtendAbove(width, value, bits, i);
        }
        if i > bits && !Bit(value, bits) {
          BitsAbove(value, bits + 1, i);
        }
      }
      Extensional(x, e);
    } else {
      forall i: nat | i >= bits + 1 && x == e
        ensures !Bit(value, i)
      {
        if i < width {
          BitOfSignExtend(width, value, bits, i);
          BitOfExtended(width, value, bits, i);
        } else {
          BitsAbove(value, width, i);
        }
      }
      if x == e {
        BoundFromBits(value, bits + 1);
      }
    }
  }

  /** For example a stray bit 2 above a clear sign bit 1 is kept. */
  lemma {:induction false} StrayBitKept()
    ensures SignExtend(32, 4, 1) == 4 && Extended(32, 4, 1) == 0
  {
    assert And(4, Shl(1, 1)) == 0;
    assert Or(0, 4) == 4;
    assert !Bit(4, 1) && Trunc(1, 4) == 0;
  }

  lemma {:induction false} SignExtendAbove(width: nat, value: nat, bits: nat, i: nat)
    requires value < Pow2(width) && i >= width
    ensures !Bit(SignExtend(width, value, bits), i)
  {
    TestBit(value, bits);
    BitOfOr(if Bit(value, bits) then Not(width, Ones(bits)) else 0, value, i);
    BitOfNot(width, Ones(bits), i);
    BitOfZero(i);
    BitsAbove(value, width, i);
  }

  /** On a field of bits+1 bits the macro keeps the number the field stands for in two's
    complement. */
  lemma {:induction false} SignExtendKeepsNumber(width: nat, value: nat, bits: nat)
    requires bits < width && value < Pow2(bits + 1)
    ensures Signed(width, SignExtend(width, value, bits)) == Signed(bits + 1, value)
  {
    Pow2Order(bits, width - 1);
    SignExtendExact(width, value, bits);
    SignBit(value, bits);
    TruncFits(bits, value);
    TopOnes(width, bits);
  }

  lemma {:induction false} SignBit(value: nat, bits: nat)
    requires value < Pow2(bits + 1)
    ensures Bit(value, bits) == (value >= Pow2(bits))
    ensures value == Trunc(bits, value) + (if Bit(value, bits) then Pow2(bits) else 0)
    decreases bits
  {
    if bits > 0 {
      SignBit(value / 2, bits - 1);
    }
  }
}
