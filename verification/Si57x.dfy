/** The three numbers that set a Si57x oscillator, HS_DIV (3 bits), N1 (7 bits) and RFREQ (38
  bits), in their two encodings: six byte registers of the chip, and three words of the AFC timing
  core.  Both are put together with the W macros of their headers and taken apart with the R
  macros. */
module Si57x {
  import opened Bits
  import opened Wbgen

  datatype Dividers = Dividers(hs: nat, n1: nat, rfreq: nat) {
    predicate Valid() {
      hs < 0x8 && n1 < 0x80 && rfreq < 0x40_0000_0000
    }
  }

  /** Registers 7 to 12 of the chip. */
  datatype ChipRegs = ChipRegs(hsN1: nat, n1Rfreq0: nat, rfreq1: nat, rfreq2: nat, rfreq3: nat, rfreq4: nat) {
    predicate Valid() {
      hsN1 < 0x100 && n1Rfreq0 < 0x100 && rfreq1 < 0x100 && rfreq2 < 0x100 && rfreq3 < 0x100 && rfreq4 < 0x100
    }
  }

  /** RFREQ[37-20], RFREQ[19-0], and N1 with HS_DIV, of either oscillator of the timing core. */
  datatype TimingRegs = TimingRegs(rfreqHi: nat, rfreqLo: nat, n1Div: nat) {
    predicate Valid() {
      rfreqHi < 0x4_0000 && rfreqLo < 0x10_0000 && n1Div < 0x400
    }
  }

  function ToChip(d: Dividers): ChipRegs {
    ChipRegs(
      Or(Write(32, d.hs, 5, 3), Write(32, Shr(d.n1, 2), 0, 5)),
      Or(Write(32, d.n1, 6, 2), Write(32, Shr(d.rfreq, 32), 0, 6)),
      Write(32, Shr(d.rfreq, 24), 0, 8),
      Write(32, Shr(d.rfreq, 16), 0, 8),
      Write(32, Shr(d.rfreq, 8), 0, 8),
      Write(32, d.rfreq, 0, 8))
  }

  function FromChip(r: ChipRegs): Dividers {
    Dividers(
      Read(r.hsN1, 5, 3),
      Or(Shl(Read(r.hsN1, 0, 5), 2), Read(r.n1Rfreq0, 6, 2)),
      Or(Shl(Read(r.n1Rfreq0, 0, 6), 32),
         Or(Shl(Read(r.rfreq1, 0, 8), 24),
            Or(Shl(Read(r.rfreq2, 0, 8), 16),
               Or(Shl(Read(r.rfreq3, 0, 8), 8), Read(r.rfreq4, 0, 8))))))
  }

  function ToTiming(d: Dividers): TimingRegs {
    TimingRegs(Shr(d.rfreq, 20), And(d.rfreq, Ones(20)), Or(Write(32, d.hs, 7, 3), Write(32, d.n1, 0, 7)))
  }

  function FromTiming(t: TimingRegs): Dividers {
    Dividers(Read(t.n1Div, 7, 3), Read(t.n1Div, 0, 7), Or(Shl(t.rfreqHi, 20), t.rfreqLo))
  }

  // ----- the encodings as arithmetic

  /** a << n. */
  lemma {:induction false} ShrBy(x: nat, n: nat, p: nat)
    requires p == Pow2(n)
    ensures Shr(x, n) == x / p
  {
    ShrIsDiv(x, n);
  }

  /** A number placed above another one. */
  lemma {:induction false} OrAbove(a: nat, n: nat, b: nat, p: nat)
    requires p == Pow2(n) && b < p
    ensures Or(a * p, b) == a * p + b
  {
    DivModUnique(a * p, p, a, 0);
    OrOfDisjoint(a * p, b, n);
  }

  /** a << n | b, when b fits below. */
  lemma {:induction false} OrShl(a: nat, n: nat, b: nat, p: nat)
    requires p == Pow2(n) && b < p
    ensures Or(Shl(a, n), b) == a * p + b
  {
    ShlIsMul(a, n);
    OrAbove(a, n, b, p);
  }

  /** Two neighbouring fields written into one register. */
  lemma {:induction false} OrOfWrites(high: nat, offset: nat, size: nat, low: nat, p: nat, q: nat)
    requires offset + size <= 32 && p == Pow2(offset) && q == Pow2(size)
    ensures Or(Write(32, high, offset, size), Write(32, low, 0, offset)) == (high % q) * p + low % p
  {
    hide Write, Or;
    WriteIsModMul(32, high, offset, size);
    WriteIsModMul(32, low, 0, offset);
    OrAbove(high % q, offset, low % p, p);
  }

  lemma {:induction false} WriteByte(x: nat)
    ensures Write(32, x, 0, 8) == x % 0x100
  {
    hide *;
    Powers();
    WriteIsModMul(32, x, 0, 8);
  }

  /** Two neighbouring fields read from one register of no other fields. */
  lemma {:induction false} ReadsOf(r: nat, offset: nat, size: nat, p: nat, q: nat)
    requires p == Pow2(offset) && q == Pow2(size) && r < q * p
    ensures Read(r, offset, size) == r / p
    ensures Read(r, 0, offset) == r % p
  {
    hide *;
    LowBits(r, offset, p);
    var high := r / p;
    QuotientBelow(r, p, q);
    ModSmall(high, q);
    ReadHigh(r, offset, size, p, q, high);
  }

  lemma {:induction false} ReadHigh(r: nat, offset: nat, size: nat, p: nat, q: nat, high: nat)
    requires p == Pow2(offset) && q == Pow2(size) && high == r / p && high % q == high
    ensures Read(r, offset, size) == high
  {
    hide *;
    ReadIsDivMod(r, offset, size);
  }

  lemma {:induction false} LowBits(x: nat, n: nat, p: nat)
    requires p == Pow2(n)
    ensures And(x, Ones(n)) == Read(x, 0, n) == x % p
  {
    AndOnes(x, n);
    TruncIsMod(n, x);
  }

  lemma {:induction false} QuotientBelow(r: nat, p: nat, q: nat)
    requires p > 0 && r < q * p
    ensures r / p < q
  {
    if r / p > q {
      MulGrows(q, r / p, p);
    }
  }

  lemma {:induction false} ModSmall(x: nat, q: nat)
    requires x < q
    ensures x % q == x
  {
    DivModUnique(x, q, 0, x);
  }

  lemma {:induction false} ToChipHsN1(d: Dividers)
    requires d.Valid()
    ensures ToChip(d).hsN1 == d.hs * 0x20 + d.n1 / 4
  {
    Powers();
    ShrBy(d.n1, 2, 4);
    ModSmall(d.hs, 8);
    ModSmall(d.n1 / 4, 0x20);
    OrOfWrites(d.hs, 5, 3, Shr(d.n1, 2), 0x20, 8);
  }

  lemma {:induction false} ToChipN1Rfreq0(d: Dividers)
    requires d.Valid()
    ensures ToChip(d).n1Rfreq0 == (d.n1 % 4) * 0x40 + d.rfreq / 0x1_0000_0000
  {
    Powers();
    ShrBy(d.rfreq, 32, 0x1_0000_0000);
    ModSmall(d.rfreq / 0x1_0000_0000, 0x40);
    OrOfWrites(d.n1, 6, 2, Shr(d.rfreq, 32), 0x40, 4);
  }

  lemma {:induction false} ToChipRfreq(d: Dividers)
    ensures var r := ToChip(d);
            && r.rfreq1 == d.rfreq / 0x100_0000 % 0x100
            && r.rfreq2 == d.rfreq / 0x1_0000 % 0x100
            && r.rfreq3 == d.rfreq / 0x100 % 0x100
            && r.rfreq4 == d.rfreq % 0x100
  {
    Powers();
    ShrBy(d.rfreq, 24, 0x100_0000);
    ShrBy(d.rfreq, 16, 0x1_0000);
    ShrBy(d.rfreq, 8, 0x100);
    WriteByte(Shr(d.rfreq, 24));
    WriteByte(Shr(d.rfreq, 16));
    WriteByte(Shr(d.rfreq, 8));
    WriteByte(d.rfreq);
  }

  lemma {:induction false} FromChipHsN1(r: ChipRegs)
    requires r.Valid()
    ensures FromChip(r).hs == r.hsN1 / 0x20
    ensures FromChip(r).n1 == (r.hsN1 % 0x20) * 4 + r.n1Rfreq0 / 0x40
  {
    Powers();
    ReadsOf(r.hsN1, 5, 3, 0x20, 8);
    ReadsOf(r.n1Rfreq0, 6, 2, 0x40, 4);
    OrShl(r.hsN1 % 0x20, 2, r.n1Rfreq0 / 0x40, 4);
  }

  lemma {:induction false} FromChipRfreq(r: ChipRegs)
    requires r.Valid()
    ensures FromChip(r).rfreq
         == (r.n1Rfreq0 % 0x40) * 0x1_0000_0000
            + r.rfreq1 * 0x100_0000 + r.rfreq2 * 0x1_0000 + r.rfreq3 * 0x100 + r.rfreq4
  {
    Powers();
    ReadsOf(r.n1Rfreq0, 6, 2, 0x40, 4);
    ReadsOf(r.rfreq1, 0, 8, 1, 0x100);
    ReadsOf(r.rfreq2, 0, 8, 1, 0x100);
    ReadsOf(r.rfreq3, 0, 8, 1, 0x100);
    ReadsOf(r.rfreq4, 0, 8, 1, 0x100);
    JoinBytes(r.n1Rfreq0 % 0x40, r.rfreq1, r.rfreq2, r.rfreq3, r.rfreq4);
  }

  lemma {:induction false} JoinBytes(a: nat, b: nat, c: nat, d: nat, e: nat)
    requires b < 0x100 && c < 0x100 && d < 0x100 && e < 0x100
    ensures Or(Shl(a, 32), Or(Shl(b, 24), Or(Shl(c, 16), Or(Shl(d, 8), e))))
         == a * 0x1_0000_0000 + b * 0x100_0000 + c * 0x1_0000 + d * 0x100 + e
  {
    Powers();
    OrShl(d, 8, e, 0x100);
    OrShl(c, 16, d * 0x100 + e, 0x1_0000);
    OrShl(b, 24, c * 0x1_0000 + d * 0x100 + e, 0x100_0000);
    OrShl(a, 32, b * 0x100_0000 + c * 0x1_0000 + d * 0x100 + e, 0x1_0000_0000);
  }

  lemma {:induction false} ToTimingValue(d: Dividers)
    requires d.Valid()
    ensures ToTiming(d) == TimingRegs(d.rfreq / 0x10_0000, d.rfreq % 0x10_0000, d.hs * 0x80 + d.n1)
  {
    Powers();
    ShrBy(d.rfreq, 20, 0x10_0000);
    LowBits(d.rfreq, 20, 0x10_0000);
    ModSmall(d.hs, 8);
    ModSmall(d.n1, 0x80);
    OrOfWrites(d.hs, 7, 3, d.n1, 0x80, 8);
  }

  lemma {:induction false} FromTimingValue(t: TimingRegs)
    requires t.Valid()
    ensures FromTiming(t) == Dividers(t.n1Div / 0x80, t.n1Div % 0x80, t.rfreqHi * 0x10_0000 + t.rfreqLo)
  {
    Powers();
    ReadsOf(t.n1Div, 7, 3, 0x80, 8);
    OrShl(t.rfreqHi, 20, t.rfreqLo, 0x10_0000);
  }

  /** A number is made of its bytes. */
  lemma {:induction false} BytesOf(x: nat)
    ensures x / 0x1_0000_0000 * 0x1_0000_0000 + x / 0x100_0000 % 0x100 * 0x100_0000
            + x / 0x1_0000 % 0x100 * 0x1_0000 + x / 0x100 % 0x100 * 0x100 + x % 0x100 == x
  {
    NextByte(x, 0x100);
    NextByte(x, 0x1_0000);
    NextByte(x, 0x100_0000);
  }

  lemma {:induction false} NextByte(x: nat, m: nat)
    requires m > 0
    ensures x / m == x / (m * 0x100) * 0x100 + x / m % 0x100
  {
    var q, r := x / m / 0x100, x / m % 0x100;
    var low := r * m + x % m;
    MulGrows(r, 0x100, m);
    assert x == (q * 0x100 + r) * m + x % m;
    assert (q * 0x100 + r) * m == q * (m * 0x100) + r * m;
    DivModUnique(x, m * 0x100, q, low);
  }

  /** A number is given by its bytes in only one way. */
  lemma {:induction false} BytesUnique(a: nat, b: nat, c: nat, d: nat, e: nat)
    requires a < 0x40 && b < 0x100 && c < 0x100 && d < 0x100 && e < 0x100
    ensures var x := a * 0x1_0000_0000 + b * 0x100_0000 + c * 0x1_0000 + d * 0x100 + e;
            && x < 0x40_0000_0000
            && x / 0x1_0000_0000 == a
            && x / 0x100_0000 % 0x100 == b
            && x / 0x1_0000 % 0x100 == c
            && x / 0x100 % 0x100 == d
            && x % 0x100 == e
  {
    var x := a * 0x1_0000_0000 + b * 0x100_0000 + c * 0x1_0000 + d * 0x100 + e;
    DivModUnique(x, 0x1_0000_0000, a, b * 0x100_0000 + c * 0x1_0000 + d * 0x100 + e);
    DivModUnique(x, 0x100_0000, a * 0x100 + b, c * 0x1_0000 + d * 0x100 + e);
    DivModUnique(x, 0x1_0000, a * 0x1_0000 + b * 0x100 + c, d * 0x100 + e);
    DivModUnique(x, 0x100, a * 0x100_0000 + b * 0x1_0000 + c * 0x100 + d, e);
    DivModUnique(a * 0x100 + b, 0x100, a, b);
    DivModUnique(a * 0x1_0000 + b * 0x100 + c, 0x100, a * 0x100 + b, c);
    DivModUnique(a * 0x100_0000 + b * 0x1_0000 + c * 0x100 + d, 0x100, a * 0x1_0000 + b * 0x100 + c, d);
  }

  /** N1 is split 5 to 2 over two bytes. */
  lemma {:induction false} N1Parts(high: nat, low: nat)
    requires high < 0x100 && low < 0x100
    ensures var n1 := (high % 0x20) * 4 + low / 0x40;
            && n1 < 0x80 && high / 0x20 < 8
            && (high / 0x20) * 0x20 + n1 / 4 == high
            && (n1 % 4) * 0x40 + low % 0x40 == low
  {
    DivModUnique((high % 0x20) * 4 + low / 0x40, 4, high % 0x20, low / 0x40);
  }

  /** And joined from them. */
  lemma {:induction false} N1Joined(hs: nat, n1: nat, top: nat)
    requires n1 < 0x80 && top < 0x40
    ensures var high, low := hs * 0x20 + n1 / 4, (n1 % 4) * 0x40 + top;
            && high / 0x20 == hs && (high % 0x20) * 4 + low / 0x40 == n1 && low % 0x40 == top
  {
    DivModUnique(hs * 0x20 + n1 / 4, 0x20, hs, n1 / 4);
    DivModUnique((n1 % 4) * 0x40 + top, 0x40, n1 % 4, top);
  }

  // ----- both encodings are bijections

  lemma {:induction false} ChipRoundTrip(d: Dividers)
    requires d.Valid()
    ensures ToChip(d).Valid() && FromChip(ToChip(d)) == d
  {
    hide ToChip, FromChip;
    var r := ToChip(d);
    ToChipHsN1(d);
    ToChipN1Rfreq0(d);
    ToChipRfreq(d);
    FromChipHsN1(r);
    FromChipRfreq(r);
    N1Joined(d.hs, d.n1, d.rfreq / 0x1_0000_0000);
    BytesOf(d.rfreq);
  }

  lemma {:induction false} ChipRoundTripBack(r: ChipRegs)
    requires r.Valid()
    ensures FromChip(r).Valid() && ToChip(FromChip(r)) == r
  {
    hide ToChip, FromChip;
    var d := FromChip(r);
    FromChipHsN1(r);
    FromChipRfreq(r);
    N1Parts(r.hsN1, r.n1Rfreq0);
    BytesUnique(r.n1Rfreq0 % 0x40, r.rfreq1, r.rfreq2, r.rfreq3, r.rfreq4);
    ToChipHsN1(d);
    ToChipN1Rfreq0(d);
    ToChipRfreq(d);
  }

  lemma {:induction false} TimingRoundTrip(d: Dividers)
    requires d.Valid()
    ensures ToTiming(d).Valid() && FromTiming(ToTiming(d)) == d
  {
    hide ToTiming, FromTiming;
    ToTimingValue(d);
    TimingParts(d);
    FromTimingValue(ToTiming(d));
  }

  lemma {:induction false} TimingParts(d: Dividers)
    requires d.Valid()
    ensures d.rfreq / 0x10_0000 < 0x4_0000 && d.rfreq % 0x10_0000 < 0x10_0000
    ensures d.rfreq / 0x10_0000 * 0x10_0000 + d.rfreq % 0x10_0000 == d.rfreq
    ensures (d.hs * 0x80 + d.n1) / 0x80 == d.hs && (d.hs * 0x80 + d.n1) % 0x80 == d.n1
  {
    DivModUnique(d.hs * 0x80 + d.n1, 0x80, d.hs, d.n1);
  }

  lemma {:induction false} TimingRoundTripBack(t: TimingRegs)
    requires t.Valid()
    ensures FromTiming(t).Valid() && ToTiming(FromTiming(t)) == t
  {
    hide ToTiming, FromTiming;
    FromTimingValue(t);
    DivModUnique(t.rfreqHi * 0x10_0000 + t.rfreqLo, 0x10_0000, t.rfreqHi, t.rfreqLo);
    ToTimingValue(FromTiming(t));
  }

  /** So one encoding translates into the other and back without loss, from either side. */
  lemma {:induction false} TranslationIsLossless(r: ChipRegs, t: TimingRegs)
    requires r.Valid() && t.Valid()
    ensures ToTiming(FromChip(r)).Valid() && ToChip(FromTiming(ToTiming(FromChip(r)))) == r
    ensures ToChip(FromTiming(t)).Valid() && ToTiming(FromChip(ToChip(FromTiming(t)))) == t
  {
    ChipRoundTripBack(r);
    TimingRoundTrip(FromChip(r));
    TimingRoundTripBack(t);
    ChipRoundTrip(FromTiming(t));
  }

  /** The header also names the halves of register 9, RFREQ_31_28 at shift 0 and RFREQ_27_24 at
    shift 4.  In the byte that ToChip writes they are the other way round: the mask named 31_28
    selects bits 27 to 24, and it selects what its name says exactly when those four bits of RFREQ
    are the same as the four above them. */
  lemma {:induction false} NibbleNamesAreSwapped(d: Dividers)
    requires d.Valid()
    ensures var r9, bits27, bits31 := ToChip(d).rfreq1, d.rfreq / 0x100_0000 % 0x10, d.rfreq / 0x1000_0000 % 0x10;
            && Read(r9, 0, 4) == bits27
            && Read(r9, 4, 4) == bits31
            && (Read(r9, 0, 4) == bits31 <==> d.rfreq / 0x100_0000 % 0x100 == 0x11 * bits31)
  {
    ToChipRfreq(d);
    HalvesOfByte(d.rfreq, ToChip(d).rfreq1);
    Powers();
    Halves(d.rfreq / 0x100_0000, ToChip(d).rfreq1);
    DivDiv(d.rfreq);
  }

  /** With RFREQ 2^24, which has bit 24 set and bit 28 clear, the mask named 31_28 finds a 1. */
  lemma {:induction false} NibbleOfBit24()
    ensures Read(ToChip(Dividers(0, 0, 0x100_0000)).rfreq1, 0, 4) == 1
    ensures 0x100_0000 / 0x1000_0000 % 0x10 == 0
  {
    hide ToChip, Read;
    NibbleNamesAreSwapped(Dividers(0, 0, 0x100_0000));
  }

  lemma {:induction false} HalvesOfByte(x: nat, byte: nat)
    requires byte == x / 0x100_0000 % 0x100
    ensures Read(byte, 0, 4) == x / 0x100_0000 % 0x10
    ensures Read(byte, 4, 4) == x / 0x1000_0000 % 0x10
  {
    Powers();
    Halves(x / 0x100_0000, byte);
    ReadsOf(byte, 4, 4, 0x10, 0x10);
    DivDiv(x);
  }

  lemma {:induction false} Halves(y: nat, byte: nat)
    requires byte == y % 0x100
    ensures byte % 0x10 == y % 0x10 && byte / 0x10 == y / 0x10 % 0x10
  {
  }

  lemma {:induction false} DivDiv(x: nat)
    ensures x / 0x100_0000 / 0x10 == x / 0x1000_0000
  {
    var y := x / 0x100_0000;
    DivModUnique(x, 0x1000_0000, y / 0x10, y % 0x10 * 0x100_0000 + x % 0x100_0000);
  }

  // ----- the divider values of the driver

  /** The driver's HS_DIV and N1 are the divisors themselves, not the raw fields: HS_DIV is 4 more
    than its field and N1 is 1 more. */
  datatype Settings = Settings(hsDiv: nat, n1: nat, rfreq: nat) {
    predicate Valid() {
      4 <= hsDiv < 12 && 1 <= n1 <= 0x80 && rfreq < 0x40_0000_0000
    }
  }

  /** C's n & ~1. */
  function ClearLowestBit(n: nat): nat {
    And(n, Not(32, 1))
  }

  lemma {:induction false} LowestBitCleared(n: nat)
    requires n < 0x1_0000_0000
    ensures ClearLowestBit(n) == n - n % 2
  {
    hide And, Not, Pow2;
    Pow2At32();
    forall i: nat
      ensures Bit(ClearLowestBit(n), i) == Bit(n - n % 2, i)
    {
      BitOfAnd(n, Not(32, 1), i);
      BitOfNot(32, 1, i);
      if i > 0 {
        BitOfZero(i - 1);
      }
      if i >= 32 {
        BitsAbove(n, 32, i);
      }
    }
    Extensional(ClearLowestBit(n), n - n % 2);
  }

  /** The driver takes an odd N1 above 1 for the even one below. */
  function Evened(n1: nat): nat {
    if n1 > 1 then ClearLowestBit(n1) else n1
  }

  /** The raw N1 after a raw N1 was read and written back. */
  function RawWritten(raw: nat): nat {
    if raw == 0 || raw % 2 == 1 then raw else raw - 1
  }

  lemma {:induction false} EvenedValue(raw: nat)
    requires raw < 0x80
    ensures Evened(raw + 1) == RawWritten(raw) + 1
  {
    hide ClearLowestBit;
    LowestBitCleared(raw + 1);
  }

  /** What the driver makes of the registers. */
  function GetDivs(r: ChipRegs): Settings {
    Settings(
      Read(r.hsN1, 5, 3) + 4,
      Evened(Shl(Read(r.hsN1, 0, 5), 2) + Read(r.n1Rfreq0, 6, 2) + 1),
      Shl(Shl(Shl(Shl(Read(r.n1Rfreq0, 0, 6), 8) + Read(r.rfreq1, 0, 8), 8) + Read(r.rfreq2, 0, 8), 8)
          + Read(r.rfreq3, 0, 8), 8) + Read(r.rfreq4, 0, 8))
  }

  /** What it writes for settings. */
  function SetDivs(s: Settings): ChipRegs {
    ToChip(Dividers(Less(s.hsDiv, 4), Less(s.n1, 1), s.rfreq))
  }

  /** a - b on C's unsigned int. */
  function Less(a: nat, b: nat): nat {
    (a - b) % 0x1_0000_0000
  }

  lemma {:induction false} ShlBy8(a: nat)
    ensures Shl(a, 8) == a * 0x100
  {
    hide *;
    Powers();
    ShlIsMul(a, 8);
  }

  lemma {:induction false} ShiftBytes(a: nat, b: nat, c: nat, d: nat, e: nat)
    ensures Shl(Shl(Shl(Shl(a, 8) + b, 8) + c, 8) + d, 8) + e
         == a * 0x1_0000_0000 + b * 0x100_0000 + c * 0x1_0000 + d * 0x100 + e
  {
    hide *;
    ShlBy8(a);
    ShlBy8(a * 0x100 + b);
    ShlBy8((a * 0x100 + b) * 0x100 + c);
    ShlBy8(((a * 0x100 + b) * 0x100 + c) * 0x100 + d);
  }

  lemma {:induction false} ReadFits(reg: nat, offset: nat, size: nat, q: nat)
    requires q == Pow2(size)
    ensures Read(reg, offset, size) < q
  {
    hide *;
    ReadIsDivMod(reg, offset, size);
  }

  lemma {:induction false} GetDivsN1(r: ChipRegs)
    requires FromChip(r).n1 < 0x80
    ensures GetDivs(r).n1 == RawWritten(FromChip(r).n1) + 1
  {
    hide Read, Shl, Or, Pow2, Evened, RawWritten;
    Powers();
    var high, low := Read(r.hsN1, 0, 5), Read(r.n1Rfreq0, 6, 2);
    ReadFits(r.n1Rfreq0, 6, 2, 4);
    OrShl(high, 2, low, 4);
    ShlBy2(high);
    EvenedValue(FromChip(r).n1);
  }

  lemma {:induction false} GetDivsRfreq(r: ChipRegs)
    ensures GetDivs(r).rfreq == FromChip(r).rfreq
  {
    hide Read, Shl, Or, Pow2, Evened;
    Powers();
    ReadFits(r.rfreq1, 0, 8, 0x100);
    ReadFits(r.rfreq2, 0, 8, 0x100);
    ReadFits(r.rfreq3, 0, 8, 0x100);
    ReadFits(r.rfreq4, 0, 8, 0x100);
    var a, b, c := Read(r.n1Rfreq0, 0, 6), Read(r.rfreq1, 0, 8), Read(r.rfreq2, 0, 8);
    var d, e := Read(r.rfreq3, 0, 8), Read(r.rfreq4, 0, 8);
    JoinBytes(a, b, c, d, e);
    ShiftBytes(a, b, c, d, e);
  }

  /** The driver's reading against the raw fields. */
  lemma {:induction false} GetDivsValue(r: ChipRegs)
    requires r.Valid()
    ensures var d := FromChip(r);
            d.Valid() && GetDivs(r) == Settings(d.hs + 4, RawWritten(d.n1) + 1, d.rfreq)
  {
    ChipRoundTripBack(r);
    GetDivsN1(r);
    GetDivsRfreq(r);
    hide Read, Shl, Or, Evened, RawWritten, ToChip, ChipRegs.Valid, Dividers.Valid;
  }

  lemma {:induction false} ShlBy2(a: nat)
    ensures Shl(a, 2) == a * 4
  {
    hide *;
    Powers();
    ShlIsMul(a, 2);
  }

  lemma {:induction false} WrittenBack(r: ChipRegs)
    requires r.Valid()
    ensures GetDivs(r).Valid()
    ensures FromChip(SetDivs(GetDivs(r))) == FromChip(r).(n1 := RawWritten(FromChip(r).n1))
  {
    hide GetDivs, ToChip, FromChip, ChipRegs.Valid;
    GetDivsValue(r);
    var d := FromChip(r);
    ChipRoundTrip(d.(n1 := RawWritten(d.n1)));
  }

  lemma {:induction false} SettingsOf(d: Dividers, s: Settings)
    requires d.Valid() && s == Settings(d.hs + 4, d.n1 + 1, d.rfreq)
    ensures SetDivs(s) == ToChip(d)
  {
    hide ToChip;
  }

  /** Writing back what was read leaves the registers as they were exactly when the raw N1 is 0 or
    odd; any other raw N1 becomes one less. */
  lemma {:induction false} WriteBackExact(r: ChipRegs)
    requires r.Valid()
    ensures GetDivs(r).Valid()
    ensures SetDivs(GetDivs(r)) == r <==> FromChip(r).n1 == 0 || FromChip(r).n1 % 2 == 1
    ensures FromChip(SetDivs(GetDivs(r))) == FromChip(r).(n1 := RawWritten(FromChip(r).n1))
  {
    hide GetDivs, ToChip, FromChip, ChipRegs.Valid, Dividers.Valid, Settings.Valid;
    WrittenBack(r);
    ChipRoundTripBack(r);
    GetDivsValue(r);
    var d := FromChip(r);
    assert d.(n1 := RawWritten(d.n1)) == d <==> RawWritten(d.n1) == d.n1;
    if RawWritten(d.n1) == d.n1 {
      SettingsOf(d, GetDivs(r));
    }
  }

  /** For example a raw N1 of 2 is written back as 1. */
  lemma {:induction false} WriteBackOfTwo()
    ensures var r := ToChip(Dividers(0, 2, 0)); GetDivs(r).Valid() && FromChip(SetDivs(GetDivs(r))) == Dividers(0, 1, 0)
  {
    hide GetDivs, SetDivs, ToChip, FromChip, Evened;
    ChipRoundTrip(Dividers(0, 2, 0));
    WrittenBack(ToChip(Dividers(0, 2, 0)));
  }

  /** Settings are read back as they were written exactly when N1 is 1 or even, as the search for
    dividers chooses it. */
  lemma {:induction false} SettingsReadBackExact(s: Settings)
    requires s.Valid()
    ensures SetDivs(s).Valid()
    ensures GetDivs(SetDivs(s)) == s <==> s.n1 == 1 || s.n1 % 2 == 0
  {
    hide GetDivs, ToChip, FromChip, ChipRegs.Valid;
    ChipRoundTrip(Dividers(s.hsDiv - 4, s.n1 - 1, s.rfreq));
    GetDivsValue(SetDivs(s));
  }
}
