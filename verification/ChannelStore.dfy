/** Whole runs of channel commands on one block of registers: with complete transfers the words of
  the block behave as a store with one independent cell per channel and field. */
module ChannelStore {
  import opened Channels
  import opened Fields
  import opened Prelude
  import opened RwParam

  /** Registers that exist once per channel. */
  datatype Block = Block(base: nat, stride: Word, channels: Word) {

    /** The offset of the last channel fits uint32_t. */
    predicate Fits() {
      stride > 0 && channels > 0 && (channels - 1) * stride < WORD_LIMIT
    }

    predicate Has(t: ChannelParam) {
      && t.param.Valid()
      && t.param.base == base && t.stride == stride && t.channels == channels
      && t.param.reg < stride
    }
  }

  /** A field of a register of a block. */
  datatype Place = Place(reg: nat, field: Field)

  datatype Cell = Cell(chan: Word, place: Place)

  type Store = map<Cell, nat>

  function PlaceOf(t: ChannelParam): Place {
    Place(t.param.reg, t.param.field)
  }

  /** The registers lie within the stride, and the fields of one register do not overlap. */
  ghost predicate Layout(b: Block, places: set<Place>) {
    && (forall x :: x in places ==> x.field.Valid() && x.reg < b.stride)
    && (forall x, y :: x in places && y in places ==> x == y || x.reg != y.reg || Disjoint(x.field, y.field))
  }

  ghost predicate Uses(cs: seq<ChannelCommand>, b: Block, places: set<Place>) {
    forall k :: 0 <= k < |cs| ==> b.Has(cs[k].target) && PlaceOf(cs[k].target) in places
  }

  ghost predicate Complete(respond: Responses) {
    forall i: nat :: respond(i).count == FULL
  }

  // ----- the simple store

  function StoreStep(store: Store, c: ChannelCommand): Store {
    if c.rw == 0 && c.chan < c.target.channels && c.target.param.Accepts(c.value)
    then store[Cell(c.chan, PlaceOf(c.target)) := c.target.param.Stored(c.value)]
    else store
  }

  function StoreAfter(store: Store, cs: seq<ChannelCommand>): Store {
    if cs == [] then store else StoreStep(StoreAfter(store, cs[..|cs| - 1]), cs[|cs| - 1])
  }

  // ----- the registers

  function RunChannels(respond: Responses, bus: Bus, cs: seq<ChannelCommand>): (r: (Bus, seq<Outcome>))
    requires forall k :: 0 <= k < |cs| ==> cs[k].target.param.Valid()
    ensures |r.1| == |cs|
  {
    if cs == [] then (bus, [])
    else
      var n := |cs| - 1;
      var (bus', outs) := RunChannels(respond, bus, cs[..n]);
      var out := ExecuteChannel(respond, bus', cs[n]);
      (out.bus, outs + [out])
  }

  /** What the registers hold in a cell. */
  function Content(mem: map<nat, Word>, b: Block, x: Cell): nat {
    Decode(At(mem, AddressOf(b.base, b.stride, x.chan, x.place.reg)), x.place.field)
  }

  /** Every cell holds what the store says, or else what it held at first. */
  ghost predicate Holds(mem: map<nat, Word>, store: Store, first: map<nat, Word>, b: Block, places: set<Place>) {
    forall x: Cell :: x.chan < b.channels && x.place in places ==>
                        Content(mem, b, x) == if x in store then store[x] else Content(first, b, x)
  }

  /** Cells of different channels or registers lie in different words. */
  lemma {:induction false} WordsApart(b: Block, x: Cell, y: Cell)
    requires b.Fits() && x.chan < b.channels && y.chan < b.channels
    requires x.place.reg < b.stride && y.place.reg < b.stride
    requires AddressOf(b.base, b.stride, x.chan, x.place.reg) == AddressOf(b.base, b.stride, y.chan, y.place.reg)
    ensures x.chan == y.chan && x.place.reg == y.place.reg
  {
    DistinctRegistersExact(b.base, b.stride, b.channels);
  }

  /** An accepted SET changes its own cell and no other. */
  lemma {:induction false} SetOneCell(
      respond: Responses, bus: Bus, c: ChannelCommand, b: Block, places: set<Place>, y: Cell)
    requires b.Fits() && Layout(b, places) && Complete(respond)
    requires b.Has(c.target) && PlaceOf(c.target) in places && c.chan < b.channels
    requires c.rw == 0 && c.target.param.Accepts(c.value)
    requires y.chan < b.channels && y.place in places
    ensures var x := Cell(c.chan, PlaceOf(c.target));
            Content(ExecuteChannel(respond, bus, c).bus.mem, b, y)
            == if y == x then c.target.param.Stored(c.value) else Content(bus.mem, b, y)
  {
    var x, p := Cell(c.chan, PlaceOf(c.target)), c.target.On(c.chan);
    RangeCheckExact(c.target);
    AddressOfParam(c.target, c.chan);
    SetSucceeds(respond, bus, p, c.value);
    hide Decode, AddressOf, SetWord, ClearWord;
    if AddressOf(b.base, b.stride, y.chan, y.place.reg) == p.Address() {
      WordsApart(b, x, y);
      assert y == x || Disjoint(x.place.field, y.place.field);
    }
  }

  lemma {:induction false} HoldsStep(
      respond: Responses, bus: Bus, store: Store, first: map<nat, Word>, c: ChannelCommand, b: Block,
      places: set<Place>)
    requires b.Fits() && Layout(b, places) && Complete(respond)
    requires b.Has(c.target) && PlaceOf(c.target) in places
    requires Holds(bus.mem, store, first, b, places)
    ensures Holds(ExecuteChannel(respond, bus, c).bus.mem, StoreStep(store, c), first, b, places)
  {
    var mem', store' := ExecuteChannel(respond, bus, c).bus.mem, StoreStep(store, c);
    RangeCheckExact(c.target);
    if c.rw == 0 && c.chan < b.channels && c.target.param.Accepts(c.value) {
      forall y: Cell | y.chan < b.channels && y.place in places
        ensures Content(mem', b, y) == if y in store' then store'[y] else Content(first, b, y)
      {
        SetOneCell(respond, bus, c, b, places, y);
      }
    } else {
      ChannelCommandDiscipline(respond, bus, c);
      CommandDiscipline(respond, bus, Command(c.target.On(c.chan), c.rw, c.value));
    }
  }

  /** Refinement: after any run of channel commands every cell of the block holds the last value
    accepted for it, or what it held before the run. */
  lemma {:induction false} StoreRefined(
      respond: Responses, bus: Bus, cs: seq<ChannelCommand>, b: Block, places: set<Place>)
    requires b.Fits() && Layout(b, places) && Complete(respond)
    requires Uses(cs, b, places)
    ensures Holds(RunChannels(respond, bus, cs).0.mem, StoreAfter(map[], cs), bus.mem, b, places)
    decreases |cs|
  {
    hide Content, ExecuteChannel, StoreStep;
    if cs != [] {
      var n := |cs| - 1;
      StoreRefined(respond, bus, cs[..n], b, places);
      HoldsStep(respond, RunChannels(respond, bus, cs[..n]).0, StoreAfter(map[], cs[..n]), bus.mem, cs[n], b, places);
    }
  }

  lemma {:induction false} RunChannelsAt(respond: Responses, bus: Bus, cs: seq<ChannelCommand>, k: nat)
    requires (forall j :: 0 <= j < |cs| ==> cs[j].target.param.Valid()) && k < |cs|
    ensures RunChannels(respond, bus, cs).1[k] == ExecuteChannel(respond, RunChannels(respond, bus, cs[..k]).0, cs[k])
    decreases |cs|
  {
    hide ExecuteChannel;
    var n := |cs| - 1;
    if k < n {
      assert cs[..n][..k] == cs[..k];
      RunChannelsAt(respond, bus, cs[..n], k);
    }
  }

  /** The answer that the simple store gives to a command. */
  function Answer(store: Store, c: ChannelCommand, initially: nat): (int, Option<nat>) {
    var x := Cell(c.chan, PlaceOf(c.target));
    if c.chan >= c.target.channels then (-RW_INV, None)
    else if c.rw != 0 then (FULL, Some(if x in store then store[x] else initially))
    else if c.target.param.Accepts(c.value) then (-RW_OK, None)
    else (-RW_USR_ERR, None)
  }

  /** And every command of the run is answered as the store would answer it, up to the format
    function of the parameter. */
  lemma {:induction false} AnswersRefined(
      respond: Responses, bus: Bus, cs: seq<ChannelCommand>, b: Block, places: set<Place>, k: nat)
    requires b.Fits() && Layout(b, places) && Complete(respond)
    requires Uses(cs, b, places) && k < |cs|
    ensures var (c, out) := (cs[k], RunChannels(respond, bus, cs).1[k]);
            var initially := Content(bus.mem, b, Cell(c.chan, PlaceOf(c.target)));
            var (ret, value) := Answer(StoreAfter(map[], cs[..k]), c, initially);
            && out.ret == ret
            && out.reply.Some? == value.Some?
            && (value.Some? ==> value.value < WORD_LIMIT && out.reply.value == c.target.param.Format(value.value))
  {
    var c, mid := cs[k], RunChannels(respond, bus, cs[..k]).0;
    var x, p := Cell(c.chan, PlaceOf(c.target)), c.target.On(c.chan);
    RunChannelsAt(respond, bus, cs, k);
    StoreRefined(respond, bus, cs[..k], b, places);
    RangeCheckExact(c.target);
    AddressOfParam(c.target, c.chan);
    ChannelCommandDiscipline(respond, mid, c);
    CommandDiscipline(respond, mid, Command(p, c.rw, c.value));
    if c.rw != 0 {
      GetReplies(respond, mid, Command(p, c.rw, c.value));
    }
    hide Decode, RunChannels, StoreAfter, Execute, ExecuteChannel, Set;
  }
}
