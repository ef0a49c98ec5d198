/** reformat_fofb_packet.py: the decomposition of one FOFB packet, given as four integers per line. */
module Fofb {
  import opened Bits
  import opened Fields
  import opened Wbgen

  const INT32_SIGN_BIT := 0x8000_0000

  /** x & (1 << 31) is not 0, for a Python integer: a negative one has all its high bits set. */
  predicate SignBitSet(x: int) {
    (x / INT32_SIGN_BIT) % 2 == 1
  }

  /** conv_int32_to_uint32. */
  function ToUint32(x: int): int {
    if SignBitSet(x) then x + WORD_LIMIT else x
  }

  datatype Packet = Packet(
    tfCntr16: nat, tfStart: nat, bpmId: nat,
    xHigh: nat, xLow: nat, yHigh: nat, yLow: nat,
    tfCntr32: nat)
  {
    predicate Valid() {
      && tfCntr16 < 0x1_0000 && tfStart < 2 && bpmId < 0x8000
      && xHigh < 0x1_0000 && xLow < 0x1_0000 && yHigh < 0x1_0000 && yLow < 0x1_0000
      && tfCntr32 < WORD_LIMIT
    }

    /** The four words that the fields come from. */
    function Words(): (nat, nat, nat, nat) {
      (tfCntr32, yHigh * 0x1_0000 + yLow, xHigh * 0x1_0000 + xLow,
       tfCntr16 * 0x1_0000 + tfStart * 0x8000 + bpmId)
    }
  }

  /** The fields that the script prints for four converted integers. */
  function Decompose(a0: nat, a1: nat, a2: nat, a3: nat): Packet {
    Packet(
      Shr(And(a3, 0xFFFF_0000), 16), Shr(And(a3, 0x8000), 15), And(a3, 0x7FFF),
      Shr(And(a2, 0xFFFF_0000), 16), And(a2, 0xFFFF),
      Shr(And(a1, 0xFFFF_0000), 16), And(a1, 0xFFFF),
      a0)
  }

  predicate IsInt32(x: int) {
    -INT32_SIGN_BIT <= x < INT32_SIGN_BIT
  }

  /** The conversion gives the congruent number in [0, 2^32) exactly for the int32 numbers: an input
    that is already unsigned and has bit 31 set comes out too large. */
  lemma {:induction false} ToUint32Exact(x: int)
    ensures ToUint32(x) == x % WORD_LIMIT <==> IsInt32(x)
  {
  }

  /** For example 2^31, the smallest such input, becomes 2^31 + 2^32. */
  lemma {:induction false} SmallestTooLarge()
    ensures ToUint32(0x8000_0000) == 0x1_8000_0000 && 0x8000_0000 % WORD_LIMIT == 0x8000_0000
  {
  }

  /** (a & mask) >> offset is the macro that reads the field. */
  lemma {:induction false} MaskedIsRead(a: nat, mask: nat, offset: nat, size: nat)
    requires mask == Shl(Ones(size), offset)
    ensures Shr(And(a, mask), offset) == Read(a, offset, size)
  {
    forall i: nat
      ensures Bit(Shr(And(a, mask), offset), i) == Bit(Read(a, offset, size), i)
    {
      BitOfShr(And(a, mask), offset, i);
      BitOfAnd(a, mask, i + offset);
      BitOfShl(Ones(size), offset, i + offset);
      BitOfOnes(size, i);
      BitOfRead(a, offset, size, i);
    }
    Extensional(Shr(And(a, mask), offset), Read(a, offset, size));
  }

  lemma {:induction false} MaskedIsDivMod(a: nat, mask: nat, offset: nat, size: nat, p: nat, q: nat)
    requires p == Pow2(offset) && q == Pow2(size) && mask == (q - 1) * p
    ensures Shr(And(a, mask), offset) == (a / p) % q
  {
    hide *;
    OnesIsPow2(size);
    ShlIsMul(Ones(size), offset);
    MaskedIsRead(a, mask, offset, size);
    ReadIsDivMod(a, offset, size);
  }

  lemma {:induction false} HighHalf(a: nat)
    ensures Shr(And(a, 0xFFFF_0000), 16) == a / 0x1_0000 % 0x1_0000
  {
    hide Shr, And;
    Powers();
    MaskedIsDivMod(a, 0xFFFF_0000, 16, 16, 0x1_0000, 0x1_0000);
  }

  lemma {:induction false} LowHalf(a: nat)
    ensures And(a, 0xFFFF) == a % 0x1_0000
  {
    hide And;
    Powers();
    MaskedIsDivMod(a, 0xFFFF, 0, 16, 1, 0x1_0000);
  }

  lemma {:induction false} StartAndId(a: nat)
    ensures Shr(And(a, 0x8000), 15) == a / 0x8000 % 2
    ensures And(a, 0x7FFF) == a % 0x8000
  {
    hide And;
    Powers();
    MaskedIsDivMod(a, 0x8000, 15, 1, 0x8000, 2);
    MaskedIsDivMod(a, 0x7FFF, 0, 15, 1, 0x8000);
  }

  lemma {:induction false} DecomposeValue(a0: nat, a1: nat, a2: nat, a3: nat)
    ensures Decompose(a0, a1, a2, a3)
         == Packet(a3 / 0x1_0000 % 0x1_0000, a3 / 0x8000 % 2, a3 % 0x8000,
                   a2 / 0x1_0000 % 0x1_0000, a2 % 0x1_0000,
                   a1 / 0x1_0000 % 0x1_0000, a1 % 0x1_0000, a0)
  {
    hide Shr, And;
    HighHalf(a3);
    StartAndId(a3);
    HighHalf(a2);
    LowHalf(a2);
    HighHalf(a1);
    LowHalf(a1);
  }

  lemma {:induction false} JoinParts(a: Word)
    ensures a / 0x1_0000 % 0x1_0000 * 0x1_0000 + a % 0x1_0000 == a
    ensures a / 0x1_0000 % 0x1_0000 * 0x1_0000 + a / 0x8000 % 2 * 0x8000 + a % 0x8000 == a
  {
    assert a / 0x1_0000 % 0x1_0000 == a / 0x1_0000;
    DivModUnique(a % 0x1_0000, 0x8000, a / 0x8000 % 2, a % 0x8000);
  }

  lemma {:induction false} SplitHalves(high: nat, low: nat)
    requires high < 0x1_0000 && low < 0x1_0000
    ensures var a := high * 0x1_0000 + low; a / 0x1_0000 % 0x1_0000 == high && a % 0x1_0000 == low
  {
    DivModUnique(high * 0x1_0000 + low, 0x1_0000, high, low);
  }

  lemma {:induction false} SplitStartAndId(high: nat, start: nat, id: nat)
    requires high < 0x1_0000 && start < 2 && id < 0x8000
    ensures var a := high * 0x1_0000 + start * 0x8000 + id;
            a / 0x1_0000 % 0x1_0000 == high && a / 0x8000 % 2 == start && a % 0x8000 == id
  {
    SplitHalves(high, start * 0x8000 + id);
    DivModUnique(high * 0x1_0000 + start * 0x8000 + id, 0x8000, high * 2 + start, id);
  }

  /** Nothing of the four words is lost... */
  lemma {:induction false} DecomposeIsLossless(a0: Word, a1: Word, a2: Word, a3: Word)
    ensures Decompose(a0, a1, a2, a3).Valid() && Decompose(a0, a1, a2, a3).Words() == (a0, a1, a2, a3)
  {
    hide Decompose;
    DecomposeValue(a0, a1, a2, a3);
    JoinParts(a1);
    JoinParts(a2);
    JoinParts(a3);
  }

  /** ...and every combination of fields comes from four words. */
  lemma {:induction false} DecomposeIsOnto(p: Packet)
    requires p.Valid()
    ensures var (w0, w1, w2, w3) := p.Words(); Decompose(w0, w1, w2, w3) == p
  {
    hide Decompose;
    var (w0, w1, w2, w3) := p.Words();
    DecomposeValue(w0, w1, w2, w3);
    SplitHalves(p.yHigh, p.yLow);
    SplitHalves(p.xHigh, p.xLow);
    SplitStartAndId(p.tfCntr16, p.tfStart, p.bpmId);
  }

  lemma {:induction false} SignedOfUint32(x: int)
    requires IsInt32(x)
    ensures 0 <= ToUint32(x) < WORD_LIMIT && Signed(32, ToUint32(x)) == x
  {
    Pow2At32();
    assert Pow2(32) == 2 * Pow2(31);
  }

  /** So a line of four int32 numbers can be rebuilt from the fields printed for it: their words,
    read as two's complement, are the numbers. */
  lemma {:induction false} PacketIsLossless(x0: int, x1: int, x2: int, x3: int)
    requires IsInt32(x0) && IsInt32(x1) && IsInt32(x2) && IsInt32(x3)
    ensures ToUint32(x0) >= 0 && ToUint32(x1) >= 0 && ToUint32(x2) >= 0 && ToUint32(x3) >= 0
    ensures var w := Decompose(ToUint32(x0), ToUint32(x1), ToUint32(x2), ToUint32(x3)).Words();
            Signed(32, w.0) == x0 && Signed(32, w.1) == x1 && Signed(32, w.2) == x2 && Signed(32, w.3) == x3
  {
    hide *;
    SignedOfUint32(x0);
    SignedOfUint32(x1);
    SignedOfUint32(x2);
    SignedOfUint32(x3);
    DecomposeIsLossless(ToUint32(x0), ToUint32(x1), ToUint32(x2), ToUint32(x3));
  }
}
