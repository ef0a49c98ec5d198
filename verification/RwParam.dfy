/** The register-access engine of rw_param.h: every device parameter is read and written through
  two 32-bit bus messages that may fall short.

  `Bus` and the functions over it say what each macro does to the registers and to the bus;
  class `Device` carries the macros themselves, statement by statement, and is proved against
  those functions; the lemmas at the end are what callers may rely on. */
module RwParam {
  import opened Bits
  import opened Fields
  import opened Prelude
  import Wbgen

  const RW_OK := 0
  const RW_USR_ERR := 2
  const RW_INV := 3
  const RW_READ_EAGAIN := 4
  const RW_WRITE_EAGAIN := 5
  const PARAM_OK := 0
  const PARAM_ERR := 1

  /** sizeof(uint32_t): a bus transfer is complete when it reports this many bytes. */
  const FULL := 4

  const ADDRESS_LIMIT: nat := 0x1_0000_0000_0000_0000

  // ----- the bus

  datatype BusOp = ReadOp(addr: nat) | WriteOp(addr: nat, data: Word)

  /** How one bus transaction ends: the byte count it reports and, when that is not FULL, the
    word it leaves behind (in the caller's variable for a read, in the register for a write). */
  datatype Transfer = Transfer(count: int, data: Word)

  /** The k-th transaction on a device ends as respond(k). */
  type Responses = nat -> Transfer

  /** The registers, and every transaction issued so far. */
  datatype Bus = Bus(mem: map<nat, Word>, log: seq<BusOp>)

  function At(mem: map<nat, Word>, addr: nat): Word {
    if addr in mem then mem[addr] else 0
  }

  /** What a read gives its caller. */
  function Received(mem: map<nat, Word>, addr: nat, t: Transfer): Transfer {
    if t.count == FULL then Transfer(FULL, At(mem, addr)) else t
  }

  /** What a write leaves in the register. */
  function Left(data: Word, t: Transfer): Word {
    if t.count == FULL then data else t.data
  }

  function BusRead(respond: Responses, bus: Bus, addr: nat): (Bus, Transfer) {
    (bus.(log := bus.log + [ReadOp(addr)]), Received(bus.mem, addr, respond(|bus.log|)))
  }

  function BusWrite(respond: Responses, bus: Bus, addr: nat, data: Word): (Bus, int) {
    var t := respond(|bus.log|);
    (Bus(bus.mem[addr := Left(data, t)], bus.log + [WriteOp(addr, data)]), t.count)
  }

  // ----- parameters and commands

  /** The compile-time arguments of a SET_GET_PARAM: where the field is, how a value is checked
    before it is written and formatted after it is read. */
  datatype Param = Param(
    base: nat,
    reg: nat,
    field: Field,
    min: Option<Word>,
    max: Option<Word>,
    limits: (Word, Word, Word) -> Word,
    check: Option<Word -> int>,
    format: Option<Word -> Word>,
    clear: bool)
  {
    /** CLR_FIELD on a single bit does not compile. */
    predicate Valid() {
      field.Valid() && !(clear && field.single)
    }

    function Address(): nat {
      (base + reg) % ADDRESS_LIMIT
    }

    /** The limits are checked only when both of them are given. */
    predicate Accepts(value: Word) {
      && (min.Some? && max.Some? ==> limits(value, min.value, max.value) == PARAM_OK)
      && (check.Some? ==> check.value(value) == PARAM_OK)
    }

    function NewWord(word: Word, value: Word): Word {
      if clear then ClearWord(word, field) else SetWord(word, field, value)
    }

    function Format(value: Word): Word {
      if format.Some? then format.value(value) else value
    }

    /** What the field holds once the value has been set. */
    function Stored(value: Word): nat {
      if clear then 0 else field.Norm(value)
    }

    function Where(): Slot {
      Slot(Address(), field)
    }
  }

  /** A field of a register at an address. */
  datatype Slot = Slot(addr: nat, field: Field)

  /** The message of SET_GET_PARAM: rw is 1 to read and 0 to write. */
  datatype Command = Command(param: Param, rw: Word, value: Word)

  /** What a client sees of a command: the return value, and the word put in its reply buffer. */
  datatype Answer = Answer(ret: int, reply: Option<Word>)

  /** The effect of a command: the registers and bus after it, and the answer. */
  datatype Outcome = Outcome(bus: Bus, ret: int, reply: Option<Word>) {
    function Seen(): Answer {
      Answer(ret, reply)
    }
  }

  function Extract(word: Word, f: Field): Word
    requires f.Valid()
  {
    DecodeFitsWord(word, f);
    Decode(word, f)
  }

  function Get(respond: Responses, bus: Bus, p: Param): (Bus, int, Word)
    requires p.Valid()
  {
    var (bus', t) := BusRead(respond, bus, p.Address());
    (bus', if t.count == FULL then RW_OK else RW_READ_EAGAIN, p.Format(Extract(t.data, p.field)))
  }

  function Set(respond: Responses, bus: Bus, p: Param, value: Word): (Bus, int)
    requires p.Valid()
  {
    if !p.Accepts(value) then (bus, RW_USR_ERR)
    else
      var (bus1, t) := BusRead(respond, bus, p.Address());
      var (bus2, count) := BusWrite(respond, bus1, p.Address(), p.NewWord(t.data, value));
      (bus2, if t.count == FULL && count == FULL then RW_OK else RW_WRITE_EAGAIN)
  }

  function Execute(respond: Responses, bus: Bus, c: Command): Outcome
    requires c.param.Valid()
  {
    if c.rw != 0 then
      var (bus', err, value) := Get(respond, bus, c.param);
      if err != RW_OK then Outcome(bus', -err, None) else Outcome(bus', FULL, Some(value))
    else
      var (bus', err) := Set(respond, bus, c.param, c.value);
      Outcome(bus', -err, None)
  }

  /** The compile-time arguments of a SET_GET_PARAM_CHANNEL: the same field once per channel, the
    registers of successive channels `stride` bytes apart. */
  datatype ChannelParam = ChannelParam(param: Param, stride: Word, channels: Word) {

    /** chan*chan_offset is computed on uint32_t. */
    function On(chan: Word): Param {
      param.(base := param.base + (chan * stride) % WORD_LIMIT)
    }

    /** chan > chan_num-1, on uint32_t. */
    predicate OutOfRange(chan: Word) {
      chan > (channels - 1) % WORD_LIMIT
    }
  }

  datatype ChannelCommand = ChannelCommand(target: ChannelParam, rw: Word, chan: Word, value: Word)

  function ExecuteChannel(respond: Responses, bus: Bus, c: ChannelCommand): Outcome
    requires c.target.param.Valid()
  {
    if c.target.OutOfRange(c.chan) then Outcome(bus, -RW_INV, None)
    else Execute(respond, bus, Command(c.target.On(c.chan), c.rw, c.value))
  }

  // ----- the macros

  /** The caller's reply buffer, `ret`. */
  class Reply {
    var word: Word
  }

  class Device {
    const respond: Responses
    var mem: map<nat, Word>
    var log: seq<BusOp>

    constructor (respond: Responses, mem: map<nat, Word>)
      ensures this.respond == respond && State() == Bus(mem, [])
    {
      this.respond := respond;
      this.mem := mem;
      log := [];
    }

    function State(): Bus
      reads this
    {
      Bus(mem, log)
    }

    method Read32(addr: nat) returns (count: int, data: Word)
      modifies this
      ensures (State(), Transfer(count, data)) == BusRead(respond, old(State()), addr)
    {
      var t := respond(|log|);
      log := log + [ReadOp(addr)];
      count := t.count;
      data := if count == FULL then At(mem, addr) else t.data;
    }

    method Write32(addr: nat, data: Word) returns (count: int)
      modifies this
      ensures (State(), count) == BusWrite(respond, old(State()), addr, data)
    {
      var t := respond(|log|);
      log := log + [WriteOp(addr, data)];
      count := t.count;
      mem := mem[addr := if count == FULL then data else t.data];
    }

    /** GET_PARAM_GEN. */
    method GetParam(p: Param) returns (err: int, variable: Word)
      requires p.Valid()
      modifies this
      ensures (State(), err, variable) == Get(respond, old(State()), p)
      ensures mem == old(mem)
    {
      err := RW_OK;
      var count, value := Read32(p.Address());
      if count != FULL {
        err := RW_READ_EAGAIN;
      }
      value := Extract(value, p.field);
      if p.format.Some? {
        value := p.format.value(value);
      }
      variable := value;
    }

    /** SET_PARAM_GEN.  A short read is noticed, but the write goes ahead with whatever the read
      left in the variable. */
    method SetParam(p: Param, value: Word) returns (err: int)
      requires p.Valid()
      modifies this
      ensures (State(), err) == Set(respond, old(State()), p, value)
      ensures forall a: nat :: a != p.Address() ==> At(mem, a) == old(At(mem, a))
      ensures err == RW_USR_ERR ==> mem == old(mem) && log == old(log)
      ensures err == RW_USR_ERR <==>
              || (p.min.Some? && p.max.Some? && p.limits(value, p.min.value, p.max.value) != PARAM_OK)
              || (p.check.Some? && p.check.value(value) != PARAM_OK)
      ensures err == RW_OK ==> Decode(At(mem, p.Address()), p.field) == p.Stored(value)
    {
      err := RW_OK;
      if (p.min.Some? && p.max.Some? ==> p.limits(value, p.min.value, p.max.value) == PARAM_OK)
         && (p.check.Some? ==> p.check.value(value) == PARAM_OK) {
        var count, writeValue := Read32(p.Address());
        if count != FULL {
          err := RW_WRITE_EAGAIN;
        }
        NewWordDecodes(p, writeValue, value);
        writeValue := p.NewWord(writeValue, value);
        count := Write32(p.Address(), writeValue);
        if count != FULL {
          err := RW_WRITE_EAGAIN;
        }
      } else {
        err := RW_USR_ERR;
      }
    }

    /** SET_GET_PARAM_GEN. */
    method SetGetParam(c: Command, reply: Reply) returns (ret: int)
      requires c.param.Valid()
      modifies this, reply
      ensures Execute(respond, old(State()), c) == Outcome(State(), ret, if ret > 0 then Some(reply.word) else None)
      ensures ret <= 0 ==> reply.word == old(reply.word)
    {
      if c.rw != 0 {
        var err, value := GetParam(c.param);
        if err != RW_OK {
          return -err;
        } else {
          reply.word := value;
          return FULL;
        }
      } else {
        var err := SetParam(c.param, c.value);
        return -err;
      }
    }

    /** SET_GET_PARAM_CHANNEL_GEN. */
    method SetGetParamChannel(c: ChannelCommand, reply: Reply) returns (ret: int)
      requires c.target.param.Valid()
      modifies this, reply
      ensures ExecuteChannel(respond, old(State()), c)
           == Outcome(State(), ret, if ret > 0 then Some(reply.word) else None)
      ensures ret <= 0 ==> reply.word == old(reply.word)
    {
      if c.target.OutOfRange(c.chan) {
        return -RW_INV;
      }
      ret := SetGetParam(Command(c.target.On(c.chan), c.rw, c.value), reply);
    }
  }

  // ----- what a caller may rely on

  /** SET stores a value as if by SetWord, whether the field is set or cleared. */
  lemma {:induction false} NewWordIsSetWord(p: Param, word: Word, value: Word)
    requires p.Valid()
    ensures p.NewWord(word, value) == SetWord(word, p.field, if p.clear then 0 else value)
    ensures p.Stored(value) == p.field.Norm(if p.clear then 0 else value)
  {
    if p.clear {
      ClearIsSetZero(word, p.field);
      NormIsMod(p.field, 0);
    }
  }

  lemma {:induction false} NewWordDecodes(p: Param, word: Word, value: Word)
    requires p.Valid()
    ensures Decode(p.NewWord(word, value), p.field) == p.Stored(value)
  {
    NewWordIsSetWord(p, word, value);
    GetOfSet(word, p.field, if p.clear then 0 else value);
  }

  lemma {:induction false} NewWordFrame(p: Param, word: Word, value: Word, g: Field)
    requires p.Valid() && g.Valid() && Disjoint(p.field, g)
    ensures Decode(p.NewWord(word, value), g) == Decode(word, g)
  {
    NewWordIsSetWord(p, word, value);
    GetOfOther(word, p.field, if p.clear then 0 else value, g);
  }

  /** The transactions that a command adds to the bus log. */
  function Traffic(before: Bus, after: Bus): seq<BusOp>
    requires |before.log| <= |after.log|
  {
    after.log[|before.log|..]
  }

  /** When a SET succeeds, and what it does then: exactly the complete read-modify-write of the
    commanded field, all other fields of the register and all other registers unchanged. */
  lemma {:induction false} SetSucceeds(respond: Responses, bus: Bus, p: Param, value: Word)
    requires p.Valid()
    ensures Set(respond, bus, p, value).1 == RW_OK
        <==> p.Accepts(value) && respond(|bus.log|).count == FULL && respond(|bus.log| + 1).count == FULL
    ensures Set(respond, bus, p, value).1 == RW_OK ==>
              var mem' := Set(respond, bus, p, value).0.mem;
              && Decode(At(mem', p.Address()), p.field) == p.Stored(value)
              && (forall g: Field :: g.Valid() && Disjoint(p.field, g) ==>
                    Decode(At(mem', p.Address()), g) == Decode(At(bus.mem, p.Address()), g))
              && (forall a: nat :: a != p.Address() ==> At(mem', a) == At(bus.mem, a))
  {
    var before := At(bus.mem, p.Address());
    NewWordDecodes(p, before, value);
    forall g: Field | g.Valid() && Disjoint(p.field, g)
      ensures Decode(p.NewWord(before, value), g) == Decode(before, g)
    {
      NewWordFrame(p, before, value, g);
    }
  }

  /** check_param_limits. */
  function CheckLimits(value: Word, min: Word, max: Word): Word {
    if value < min || value > max then PARAM_ERR else PARAM_OK
  }

  /** With complete transfers a SET is done when the value lies within the limits, if both of them are
    given, and passes the check, if there is one, and is refused otherwise; it leaves 0 in a field
    that it clears, whether the value is not 0 in a single bit, and the value modulo 2^size in
    any other field. */
  lemma {:induction false} SetWithinLimits(respond: Responses, bus: Bus, p: Param, value: Word)
    requires p.Valid() && p.limits == CheckLimits
    requires respond(|bus.log|).count == FULL && respond(|bus.log| + 1).count == FULL
    ensures var (after, err) := Set(respond, bus, p, value);
            var content := Decode(At(after.mem, p.Address()), p.field);
            var legal := (p.min.Some? && p.max.Some? ==> p.min.value <= value <= p.max.value)
                         && (p.check.None? || p.check.value(value) == PARAM_OK);
            && err == (if legal then RW_OK else RW_USR_ERR)
            && (legal ==>
                  content == if p.clear || value == 0 then 0
                             else if p.field.single then 1
                             else value % Pow2(p.field.size))
  {
    SetSucceeds(respond, bus, p, value);
    NormIsMod(p.field, value);
    hide Decode, SetWord, ClearWord, Field.Norm;
    if value == 0 {
      DivModUnique(0, Pow2(p.field.size), 0, 0);
    }
  }

  /** A direction bit, with limits 0 and 1. */
  const PARAM_DIR := Param(0, 0, Field(0, 1, true, false), Some(0), Some(1), CheckLimits, None, None, false)

  lemma {:induction false} DirectionIsSet(respond: Responses, bus: Bus, value: Word)
    requires respond(|bus.log|).count == FULL && respond(|bus.log| + 1).count == FULL
    ensures Set(respond, bus, PARAM_DIR, value).1 == if value == 0 || value == 1 then RW_OK else RW_USR_ERR
  {
    SetWithinLimits(respond, bus, PARAM_DIR, value);
  }

  /** The error discipline of a command, whatever the bus does: a rejected value causes no bus
    traffic, traffic is one read, for an accepted SET followed by one write, of the commanded
    address only, a GET never changes a register, and only a successful GET fills the reply. */
  lemma {:induction false} CommandDiscipline(respond: Responses, bus: Bus, c: Command)
    requires c.param.Valid()
    ensures var out, addr := Execute(respond, bus, c), c.param.Address();
            && bus.log <= out.bus.log
            && (out.ret > 0 <==> c.rw != 0 && respond(|bus.log|).count == FULL)
            && (out.ret > 0 <==> out.reply.Some?)
            && out.ret in {FULL, -RW_OK, -RW_USR_ERR, -RW_READ_EAGAIN, -RW_WRITE_EAGAIN}
            && (out.ret == -RW_READ_EAGAIN <==> c.rw != 0 && respond(|bus.log|).count != FULL)
            && (out.ret == -RW_USR_ERR <==> c.rw == 0 && !c.param.Accepts(c.value))
            && (out.ret == -RW_WRITE_EAGAIN <==>
                  c.rw == 0 && c.param.Accepts(c.value)
                  && !(respond(|bus.log|).count == FULL && respond(|bus.log| + 1).count == FULL))
            && (out.ret == -RW_USR_ERR ==> out.bus == bus)
            && (c.rw != 0 ==> out.bus.mem == bus.mem && Traffic(bus, out.bus) == [ReadOp(addr)])
            && (c.rw == 0 && out.ret != -RW_USR_ERR ==>
                  exists data :: Traffic(bus, out.bus) == [ReadOp(addr), WriteOp(addr, data)])
            && (forall a: nat :: a != addr ==> At(out.bus.mem, a) == At(bus.mem, a))
  {
    var out, addr := Execute(respond, bus, c), c.param.Address();
    if c.rw == 0 && c.param.Accepts(c.value) {
      var (bus1, t) := BusRead(respond, bus, addr);
      assert Traffic(bus, out.bus) == [ReadOp(addr), WriteOp(addr, c.param.NewWord(t.data, c.value))];
    }
  }

  /** A SET that is done leaves the new word in the register and nothing else. */
  lemma {:induction false} SetWrites(respond: Responses, bus: Bus, p: Param, value: Word)
    requires p.Valid() && p.Accepts(value)
    requires respond(|bus.log|).count == FULL && respond(|bus.log| + 1).count == FULL
    ensures var addr := p.Address();
            Execute(respond, bus, Command(p, 0, value)).bus.mem
            == bus.mem[addr := p.NewWord(At(bus.mem, addr), value)]
  {
    hide SetWord, ClearWord;
  }

  /** The numbers that go back to a client: 4 for a GET and 0 for a SET that is done, -2 for a refused
    value, -4 for an incomplete GET and -5 for an incomplete SET. */
  lemma {:induction false} AnswersInNumbers(respond: Responses, bus: Bus, c: Command)
    requires c.param.Valid()
    ensures var ret, n := Execute(respond, bus, c).ret, |bus.log|;
            if c.rw != 0 then ret == if respond(n).count == 4 then 4 else -4
            else if !c.param.Accepts(c.value) then ret == -2
            else ret == if respond(n).count == 4 && respond(n + 1).count == 4 then 0 else -5
  {
    CommandDiscipline(respond, bus, c);
    hide Execute;
  }

  /** A successful GET replies with the formatted content of the field. */
  lemma {:induction false} GetReplies(respond: Responses, bus: Bus, c: Command)
    requires c.param.Valid() && c.rw != 0 && respond(|bus.log|).count == FULL
    ensures var content := Decode(At(bus.mem, c.param.Address()), c.param.field);
            && content < WORD_LIMIT
            && Execute(respond, bus, c).reply == Some(c.param.Format(content))
  {
    DecodeFitsWord(At(bus.mem, c.param.Address()), c.param.field);
    hide Decode;
  }

  /** With a format function that is the function of the content, and the content itself without one. */
  lemma {:induction false} GetFormats(respond: Responses, bus: Bus, c: Command)
    requires c.param.Valid() && c.rw != 0 && respond(|bus.log|).count == FULL
    ensures var content, p := Decode(At(bus.mem, c.param.Address()), c.param.field), c.param;
            && content < WORD_LIMIT
            && (p.format.None? ==> Execute(respond, bus, c).reply == Some(content))
            && (p.format.Some? ==> Execute(respond, bus, c).reply == Some(p.format.value(content)))
  {
    GetReplies(respond, bus, c);
    hide Decode, Execute;
  }

  /** The format of an ADC data register: the sign of its 16 bits is extended. */
  function AdcFormat(data: Word): Word {
    Store32(Wbgen.SignExtend(32, data, 15))
  }

  /** So a GET of such a register gives its 16 bits as a signed number. */
  lemma {:induction false} AdcDataIsSigned(respond: Responses, bus: Bus, c: Command)
    requires c.param.Valid() && c.rw != 0 && respond(|bus.log|).count == FULL
    requires c.param.field == Field(0, 32, false, true) && c.param.format == Some(AdcFormat)
    requires At(bus.mem, c.param.Address()) < 0x1_0000
    ensures var reply := Execute(respond, bus, c).reply;
            reply.Some? && Wbgen.Signed(32, reply.value) == Wbgen.Signed(16, At(bus.mem, c.param.Address()))
  {
    var word := At(bus.mem, c.param.Address());
    GetFormats(respond, bus, c);
    WholeWord(word);
    hide *;
    Powers();
    Wbgen.SignExtendKeepsNumber(32, word, 15);
    SignExtendFits(word);
  }

  lemma {:induction false} WholeWord(word: Word)
    ensures Decode(word, Field(0, 32, false, true)) == word
  {
    hide Decode;
    DecodeIsDivMod(word, Field(0, 32, false, true));
    Powers();
    DivModUnique(word, Pow2(32), 0, word);
  }

  lemma {:induction false} SignExtendFits(word: Word)
    ensures AdcFormat(word) == Wbgen.SignExtend(32, word, 15)
  {
    hide Wbgen.SignExtend, Trunc, Bit;
    Powers();
    forall i: nat | i >= 32
      ensures !Bit(Wbgen.SignExtend(32, word, 15), i)
    {
      Wbgen.SignExtendAbove(32, word, 15, i);
    }
    BoundFromBits(Wbgen.SignExtend(32, word, 15), 32);
    TruncFits(32, Wbgen.SignExtend(32, word, 15));
  }

  /** A SET whose read fell short still writes the register.  If that write completes, the field
    does take the value although the SET reports RW_WRITE_EAGAIN, and the rest of the register is
    preserved exactly when the word left behind by the short read happened to agree with it. */
  lemma {:induction false} ShortReadStillWrites(respond: Responses, bus: Bus, p: Param, value: Word)
    requires p.Valid() && p.Accepts(value)
    requires respond(|bus.log|).count != FULL && respond(|bus.log| + 1).count == FULL
    ensures var (bus', err) := Set(respond, bus, p, value);
            var before, after := At(bus.mem, p.Address()), At(bus'.mem, p.Address());
            && err == RW_WRITE_EAGAIN
            && Decode(after, p.field) == p.Stored(value)
            && (AgreeOutside(before, after, p.field)
                <==> AgreeOutside(before, respond(|bus.log|).data, p.field))
  {
    var left := respond(|bus.log|).data;
    NewWordDecodes(p, left, value);
    NewWordIsSetWord(p, left, value);
    forall i: nat | !p.field.Covers(i)
      ensures Bit(p.NewWord(left, value), i) == Bit(left, i)
    {
      BitOfSetWord(left, p.field, if p.clear then 0 else value, i);
    }
  }

  /** For the registers around the field to survive every possible bus behaviour of a given read
    count, that read must have been complete. */
  lemma {:induction false} NeighboursSafeIff(bus: Bus, p: Param, value: Word, g: Field, count: int)
    requires p.Valid() && p.Accepts(value) && g.Valid() && Disjoint(p.field, g)
    ensures count == FULL
        <==> forall respond: Responses ::
               respond(|bus.log|).count == count && respond(|bus.log| + 1).count == FULL ==>
                 Decode(At(Set(respond, bus, p, value).0.mem, p.Address()), g)
                 == Decode(At(bus.mem, p.Address()), g)
  {
    var before := At(bus.mem, p.Address());
    if count == FULL {
      NewWordFrame(p, before, value, g);
    } else {
      // a short read that leaves the neighbour's lowest bit inverted
      var flipped := SetWord(before, g, if Decode(before, g) == 0 then 1 else 0);
      var respond: Responses := k => if k == |bus.log| then Transfer(count, flipped) else Transfer(FULL, 0);
      NewWordFrame(p, flipped, value, g);
      GetOfSet(before, g, if Decode(before, g) == 0 then 1 else 0);
      NormOfOne(g);
      assert Decode(At(Set(respond, bus, p, value).0.mem, p.Address()), g) != Decode(before, g);
    }
  }

  lemma {:induction false} NormOfOne(g: Field)
    requires g.Valid()
    ensures g.Norm(1) == 1 && g.Norm(0) == 0
  {
    NormIsMod(g, 1);
    NormIsMod(g, 0);
    Pow2Order(1, g.size);
  }

  /** A bus whose first transaction moves no byte and leaves 0 behind. */
  const FIRST_CUT: Responses := k => if k == 0 then Transfer(0, 0) else Transfer(FULL, 0)

  const BIT0 := Field(0, 1, true, false)
  const BIT1 := Field(1, 1, true, false)
  const PARAM_BIT0 := Param(0, 0, BIT0, None, None, (v, lo, hi) => 0, None, None, false)

  /** So a failed SET does not leave the register as it was: here a SET of bit 0 is cut short and
    the neighbouring bit 1, which was set, is lost. */
  lemma {:induction false} ShortReadLosesNeighbour()
    ensures var bus := Bus(map[0 := 2], []);
            var (after, err) := Set(FIRST_CUT, bus, PARAM_BIT0, 1);
            && err == RW_WRITE_EAGAIN
            && Decode(At(bus.mem, 0), BIT1) == 1 && Decode(At(after.mem, 0), BIT1) == 0
  {
    hide Decode, SetWord;
    assert PARAM_BIT0.Address() == 0;
    NewWordFrame(PARAM_BIT0, 0, 1, BIT1);
    DecodeBit1();
  }

  lemma {:induction false} DecodeBit1()
    ensures Decode(2, BIT1) == 1 && Decode(0, BIT1) == 0
  {
    DecodeIsDivMod(2, BIT1);
    DecodeIsDivMod(0, BIT1);
  }
}
