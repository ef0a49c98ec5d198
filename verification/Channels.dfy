/** Registers that exist once per channel: which commands are refused, and when the registers of
  different channels are really different registers. */
module Channels {
  import opened Bits
  import opened Fields
  import opened Prelude
  import opened RwParam

  /** A command for a channel that is out of range causes no bus traffic and returns -RW_INV; any
    other return value means that the command was executed on its own channel. */
  lemma {:induction false} ChannelCommandDiscipline(respond: Responses, bus: Bus, c: ChannelCommand)
    requires c.target.param.Valid()
    ensures var out := ExecuteChannel(respond, bus, c);
            && (out.ret == -RW_INV <==> c.target.OutOfRange(c.chan))
            && (out.ret == -RW_INV ==> out.bus == bus && out.reply == None)
            && (out.ret != -RW_INV ==>
                  out == Execute(respond, bus, Command(c.target.On(c.chan), c.rw, c.value)))
  {
    if !c.target.OutOfRange(c.chan) {
      CommandDiscipline(respond, bus, Command(c.target.On(c.chan), c.rw, c.value));
    }
  }

  /** For channel 24 of 24 it returns -3. */
  lemma {:induction false} Channel24IsRefused(respond: Responses, bus: Bus, c: ChannelCommand)
    requires c.target.param.Valid() && c.target.channels == 24 && c.chan == 24
    ensures ExecuteChannel(respond, bus, c).ret == -3
  {
  }

  /** Channels 0 to channels-1 are let through and no others, exactly when there is at least one
    channel: with channels == 0 the bound wraps around and every channel is let through. */
  lemma {:induction false} RangeCheckExact(t: ChannelParam)
    ensures (forall chan: Word :: t.OutOfRange(chan) <==> chan >= t.channels) <==> t.channels >= 1
    ensures t.channels == 0 ==> forall chan: Word :: !t.OutOfRange(chan)
  {
    if t.channels == 0 {
      assert !t.OutOfRange(0);
    }
  }

  /** The address of register `reg` of a channel. */
  function AddressOf(base: nat, stride: Word, chan: Word, reg: nat): nat {
    (base + (chan * stride) % WORD_LIMIT + reg) % ADDRESS_LIMIT
  }

  lemma {:induction false} AddressOfParam(t: ChannelParam, chan: Word)
    ensures t.On(chan).Address() == AddressOf(t.param.base, t.stride, chan, t.param.reg)
  {
  }

  /** It lies chan strides and reg bytes above the base, when nothing wraps around. */
  lemma {:induction false} AddressExact(t: ChannelParam, chan: Word)
    requires chan * t.stride < WORD_LIMIT && t.param.base + chan * t.stride + t.param.reg < ADDRESS_LIMIT
    ensures t.On(chan).Address() == t.param.base + chan * t.stride + t.param.reg
  {
    var offset := chan * t.stride;
    DivModUnique(offset, WORD_LIMIT, 0, offset);
  }

  /** No register of one channel is a register of another, nor another register of the same one. */
  ghost predicate DistinctRegisters(base: nat, stride: Word, channels: Word) {
    forall c: Word, d: Word, r: nat, q: nat ::
      (c < channels && d < channels && r < stride && q < stride
       && AddressOf(base, stride, c, r) == AddressOf(base, stride, d, q)
       ==> c == d && r == q)
  }

  lemma {:induction false} ModInjective(base: nat, x: nat, y: nat)
    requires x < ADDRESS_LIMIT && y < ADDRESS_LIMIT
    requires (base + x) % ADDRESS_LIMIT == (base + y) % ADDRESS_LIMIT
    ensures x == y
  {
  }

  lemma {:induction false} OffsetBelow(chan: Word, stride: Word, channels: Word)
    requires chan < channels && (channels - 1) * stride < WORD_LIMIT
    ensures (chan * stride) % WORD_LIMIT == chan * stride
  {
    if chan < channels - 1 && stride > 0 {
      MulGrows(chan, channels - 1, stride);
    }
    DivModUnique(chan * stride, WORD_LIMIT, 0, chan * stride);
  }

  /** The first channel whose offset does not fit uint32_t lands inside channel 0. */
  lemma {:induction false} WrappedChannel(base: nat, stride: Word, channels: Word) returns (c: Word, r: nat)
    requires stride > 0 && channels > 0 && (channels - 1) * stride >= WORD_LIMIT
    ensures 0 < c < channels && r < stride
    ensures AddressOf(base, stride, c, 0) == AddressOf(base, stride, 0, r)
  {
    var q, m := WORD_LIMIT / stride, WORD_LIMIT % stride;
    assert WORD_LIMIT == q * stride + m;
    var first := if m == 0 then q else q + 1;
    r := if m == 0 then 0 else stride - m;
    assert first * stride == WORD_LIMIT + r;
    if first >= channels {
      MulGrows(channels - 1, first, stride);
    }
    c := first;
  }

  /** The registers of the channels are all distinct exactly when the offset of the last channel
    still fits uint32_t. */
  lemma {:induction false} DistinctRegistersExact(base: nat, stride: Word, channels: Word)
    requires stride > 0 && channels > 0
    ensures DistinctRegisters(base, stride, channels) <==> (channels - 1) * stride < WORD_LIMIT
  {
    if (channels - 1) * stride < WORD_LIMIT {
      forall c: Word, d: Word, r: nat, q: nat
        | c < channels && d < channels && r < stride && q < stride
          && AddressOf(base, stride, c, r) == AddressOf(base, stride, d, q)
        ensures c == d && r == q
      {
        OffsetBelow(c, stride, channels);
        OffsetBelow(d, stride, channels);
        ModInjective(base, c * stride + r, d * stride + q);
        DivModUnique(c * stride + r, stride, c, r);
        DivModUnique(d * stride + q, stride, d, q);
      }
    } else {
      var c, r := WrappedChannel(base, stride, channels);
    }
  }

  /** The bus address is the device's base or-ed to the address of a register.  For a base aligned
    above the registers that is the sum. */
  lemma {:induction false} AlignedBaseAdds(deviceBase: nat, bits: nat, x: nat)
    requires deviceBase % Pow2(bits) == 0 && x < Pow2(bits)
    ensures Or(deviceBase, x) == deviceBase + x
  {
    OrOfDisjoint(deviceBase, x, bits);
  }

  /** Different registers of the 2^bits at a base have different bus addresses. */
  ghost predicate BaseKeepsApart(deviceBase: nat, bits: nat) {
    forall x: nat, y: nat ::
      x < Pow2(bits) && y < Pow2(bits) && Or(deviceBase, x) == Or(deviceBase, y) ==> x == y
  }

  /** A base that is not aligned has a bit among those of the registers. */
  lemma {:induction false} UnalignedHasBit(deviceBase: nat, bits: nat) returns (i: nat)
    requires deviceBase % Pow2(bits) != 0
    ensures i < bits && Bit(deviceBase, i)
  {
    TruncIsMod(bits, deviceBase);
    i := NonzeroHasBit(Trunc(bits, deviceBase));
    BitOfTrunc(bits, deviceBase, i);
  }

  /** Or-ing a bit that is there already changes nothing. */
  lemma {:induction false} OrOfOwnBit(a: nat, i: nat)
    requires Bit(a, i)
    ensures Or(a, Pow2(i)) == a
  {
    ShlIsMul(1, i);
    forall j: nat
      ensures Bit(Or(a, Pow2(i)), j) == Bit(a, j)
    {
      BitOfOr(a, Pow2(i), j);
      BitOfShl(1, i, j);
      if j > i {
        BitOfZero(j - i - 1);
      }
    }
    Extensional(Or(a, Pow2(i)), a);
  }

  /** A base keeps its registers apart exactly when it is aligned above them. */
  lemma {:induction false} BaseKeepsApartExact(deviceBase: nat, bits: nat)
    ensures BaseKeepsApart(deviceBase, bits) <==> deviceBase % Pow2(bits) == 0
  {
    if deviceBase % Pow2(bits) == 0 {
      forall x: nat, y: nat | x < Pow2(bits) && y < Pow2(bits) && Or(deviceBase, x) == Or(deviceBase, y)
        ensures x == y
      {
        AlignedBaseAdds(deviceBase, bits, x);
        AlignedBaseAdds(deviceBase, bits, y);
      }
    } else {
      var i := UnalignedHasBit(deviceBase, bits);
      OrOfOwnBit(deviceBase, i);
      OrZero(deviceBase);
      Pow2Order(i + 1, bits);
      assert Or(deviceBase, Pow2(i)) == Or(deviceBase, 0);
    }
  }

  /** For example, with a base of 4 the registers 0 and 4 are one. */
  lemma {:induction false} UnalignedBaseMerges()
    ensures Or(4, 0) == Or(4, 4)
  {
  }

  /** A command on one channel never changes a register of another channel. */
  lemma {:induction false} OtherChannelsUntouched(
      respond: Responses, bus: Bus, c: ChannelCommand, other: Word, reg: nat)
    requires c.target.param.Valid() && c.target.channels > 0 && c.target.param.reg < c.target.stride
    requires (c.target.channels - 1) * c.target.stride < WORD_LIMIT
    requires other < c.target.channels && other != c.chan && reg < c.target.stride
    ensures var addr := AddressOf(c.target.param.base, c.target.stride, other, reg);
            At(ExecuteChannel(respond, bus, c).bus.mem, addr) == At(bus.mem, addr)
  {
    hide Execute, ExecuteChannel;
    var t := c.target;
    ChannelCommandDiscipline(respond, bus, c);
    if !t.OutOfRange(c.chan) {
      RangeCheckExact(t);
      CommandDiscipline(respond, bus, Command(t.On(c.chan), c.rw, c.value));
      DistinctRegistersExact(t.param.base, t.stride, t.channels);
      AddressOfParam(t, c.chan);
    }
  }
}
