/** Real register layouts, as instances of the general field theorems. */
module Registers {
  import Bits
  import opened Fields

  function Span(offset: nat, size: nat): Field {
    Field(offset, size, false, false)
  }

  function Flag(offset: nat): Field {
    Field(offset, 1, true, false)
  }

  function DspBits(offset: nat, size: nat): Field {
    Field(offset, size, false, true)
  }

  function DspFlag(offset: nat): Field {
    Field(offset, 1, true, true)
  }

  const ACQ_CTL := [Flag(0), Flag(1), Span(2, 14), Flag(16), Span(17, 15)]

  const ACQ_STA := [Span(0, 3), Flag(3), Span(4, 4), Flag(8), Flag(9), Span(10, 6), Flag(16), Span(17, 15)]

  const ACQ_TRIG_CFG := [Flag(0), Flag(1), Flag(2), Flag(3), Span(4, 5), Span(9, 23)]

  const ACQ_SHOTS := [Span(0, 16), Flag(16), Span(17, 15)]

  const ACQ_CHAN_CTL := [Span(0, 5), Span(5, 3), Span(8, 5), Span(13, 3), Span(16, 5), Span(21, 11)]

  const POS_TBT_TAG := [DspFlag(0), DspBits(1, 16), DspFlag(17), DspBits(18, 14)]

  const POS_MONIT_AMP := [DspBits(0, 32)]

  const LAYOUTS := [ACQ_CTL, ACQ_STA, ACQ_TRIG_CFG, ACQ_SHOTS, ACQ_CHAN_CTL, POS_TBT_TAG, POS_MONIT_AMP]

  lemma {:induction false} LayoutsTile(r: nat)
    requires r < |LAYOUTS|
    ensures Tiles(LAYOUTS[r])
  {
  }

  /** Every one of these registers is tiled by its fields: they are disjoint, and writing the
    decoded fields over any word gives the register back. */
  lemma {:induction false} LayoutsRoundTrip(r: nat, word: Word, other: Word)
    requires r < |LAYOUTS|
    ensures AllValid(LAYOUTS[r]) && PairwiseDisjoint(LAYOUTS[r])
    ensures WriteAll(other, DecodeAll(word, LAYOUTS[r])) == word
  {
    LayoutsTile(r);
    DecodeThenEncode(word, other, LAYOUTS[r]);
  }

  /** The switching tag register has holes at bits 1 to 7 and 23 to 31: its fields alone do not
    determine it. */
  const POS_SW_TAG := [DspFlag(0), DspFlag(8), DspBits(9, 14)]

  lemma {:induction false} SwTagLosesHoles()
    ensures AllValid(POS_SW_TAG) && PairwiseDisjoint(POS_SW_TAG)
    ensures WriteAll(0, DecodeAll(2, POS_SW_TAG)) != 2
  {
    RebuiltBit(2, 0, POS_SW_TAG, 1);
    assert Bits.Bit(2, 1) && !Bits.Bit(0, 1);
  }
}
