/** The trigger utility: reading the channel range from the command line and programming the
  selected settings on every channel of the range.

  A client call is taken to be the channel command it sends: a set succeeds when the command
  returns -RW_OK, a get when it fills the reply. */
module TriggerLoop {
  import opened Channels
  import opened Fields
  import opened Prelude
  import opened RwParam

  // ----- the channel range

  /** The -c option: absent, "n", "[lo:hi]", or anything else. */
  datatype ChannelArg = Default | One(n: Word) | Range(lo: Word, hi: Word) | Malformed

  const DFLT_CHAN_NUM: Word := 0

  /** x + 1 on uint32_t. */
  function Increment(x: Word): Word {
    (x + 1) % WORD_LIMIT
  }

  function SelectedRange(arg: ChannelArg): Option<(Word, Word)> {
    match arg
    case Default => Some((DFLT_CHAN_NUM, DFLT_CHAN_NUM + 1))
    case One(n) => if Increment(n) < n then None else Some((n, Increment(n)))
    case Range(lo, hi) => if Increment(hi) < lo then None else Some((lo, Increment(hi)))
    case Malformed => None
  }

  /** The option code of main: the range is [chanMin, chanMax). */
  method SelectChannels(arg: ChannelArg) returns (ok: bool, chanMin: Word, chanMax: Word)
    ensures SelectedRange(arg) == if ok then Some((chanMin, chanMax)) else None
    ensures ok ==> chanMin <= chanMax
  {
    chanMin, chanMax := 0, 0;
    match arg {
      case Default =>
        chanMin := DFLT_CHAN_NUM;
        chanMax := chanMin + 1;
        return true, chanMin, chanMax;
      case Malformed =>
        return false, 0, 0;
      case One(n) =>
        chanMin := n;
        chanMax := Increment(chanMin);
      case Range(lo, hi) =>
        chanMin, chanMax := lo, hi;
        chanMax := Increment(chanMax);
    }
    ok := !(chanMax < chanMin);
  }

  predicate Visits(range: (Word, Word), c: Word) {
    range.0 <= c < range.1
  }

  /** Without the option exactly channel 0 is visited. */
  lemma {:induction false} DefaultVisitsFirst(c: Word)
    ensures SelectedRange(Default).Some?
    ensures Visits(SelectedRange(Default).value, c) <==> c == 0
  {
  }

  /** An option of another form is refused. */
  lemma {:induction false} MalformedIsRefused()
    ensures SelectedRange(Malformed) == None
  {
  }

  /** A single channel is visited alone; only the largest uint32_t is refused. */
  lemma {:induction false} OneVisitsExactly(n: Word, c: Word)
    ensures SelectedRange(One(n)).Some? <==> n != WORD_LIMIT - 1
    ensures SelectedRange(One(n)).Some? ==> (Visits(SelectedRange(One(n)).value, c) <==> c == n)
  {
  }

  /** The range is accepted if and only if it is ascending, and then visits lo to hi. */
  ghost predicate KeepsPromise(lo: Word, hi: Word) {
    var range := SelectedRange(Range(lo, hi));
    && (range.Some? <==> lo <= hi)
    && (range.Some? ==> forall c: Word :: Visits(range.value, c) <==> lo <= c <= hi)
  }

  /** The ascending-range check does what it says except for two families of ranges: one that ends
    at the largest uint32_t, and one that descends by exactly one, which is accepted as empty. */
  lemma {:induction false} RangePromiseExact(lo: Word, hi: Word)
    ensures KeepsPromise(lo, hi) <==> hi != WORD_LIMIT - 1 && lo != hi + 1
  {
    var range := SelectedRange(Range(lo, hi));
    if hi == WORD_LIMIT - 1 && range.Some? {
      assert !Visits(range.value, hi);
    }
  }

  lemma {:induction false} DescendingByOneIsAccepted()
    ensures SelectedRange(Range(5, 4)) == Some((5, 5))
  {
  }

  // ----- the settings

  /** Set a field and read it back, or read a counter. */
  datatype Action = Program(target: ChannelParam, value: Word) | Count(target: ChannelParam)

  ghost predicate AllValid(acts: seq<Action>) {
    forall j :: 0 <= j < |acts| ==> acts[j].target.param.Valid()
  }

  function Address(act: Action, chan: Word): nat {
    act.target.On(chan).Address()
  }

  // ----- the registers that the settings ask for

  type Memory = map<nat, Word>

  function AfterAction(mem: Memory, act: Action, chan: Word): Memory {
    if act.Count? then mem
    else mem[Address(act, chan) := act.target.param.NewWord(At(mem, Address(act, chan)), act.value)]
  }

  function AfterActions(mem: Memory, acts: seq<Action>, chan: Word): Memory {
    if acts == [] then mem
    else AfterAction(AfterActions(mem, acts[..|acts| - 1], chan), acts[|acts| - 1], chan)
  }

  function AfterChannels(mem: Memory, acts: seq<Action>, chanMin: Word, chanMax: Word): Memory
    decreases chanMax
  {
    if chanMax <= chanMin then mem
    else AfterActions(AfterChannels(mem, acts, chanMin, chanMax - 1), acts, chanMax - 1)
  }

  ghost predicate SameExceptAt(m: Memory, n: Memory, addr: nat) {
    forall a: nat :: a != addr ==> At(m, a) == At(n, a)
  }

  // ----- the bus traffic that the settings cause

  datatype Access = Reads(addr: nat) | Writes(addr: nat)

  function Accesses(log: seq<BusOp>): seq<Access> {
    seq(|log|, i requires 0 <= i < |log| => if log[i].ReadOp? then Reads(log[i].addr) else Writes(log[i].addr))
  }

  predicate Extends(after: seq<BusOp>, before: seq<BusOp>, more: seq<Access>) {
    Accesses(after) == Accesses(before) + more
  }

  lemma {:induction false} ExtendTwice(a: seq<BusOp>, b: seq<BusOp>, c: seq<BusOp>, x: seq<Access>, y: seq<Access>)
    requires Extends(b, a, x) && Extends(c, b, y)
    ensures Extends(c, a, x + y)
  {
  }

  function ActionAccesses(act: Action, chan: Word): seq<Access> {
    var addr := Address(act, chan);
    if act.Count? then [Reads(addr)] else [Reads(addr), Writes(addr), Reads(addr)]
  }

  function ActionsAccesses(acts: seq<Action>, chan: Word): seq<Access> {
    if acts == [] then []
    else ActionsAccesses(acts[..|acts| - 1], chan) + ActionAccesses(acts[|acts| - 1], chan)
  }

  function ChannelsAccesses(acts: seq<Action>, chanMin: Word, chanMax: Word): seq<Access>
    decreases chanMax
  {
    if chanMax <= chanMin then []
    else ChannelsAccesses(acts, chanMin, chanMax - 1) + ActionsAccesses(acts, chanMax - 1)
  }

  lemma {:induction false} TrafficExtends(before: Bus, after: Bus)
    requires before.log <= after.log
    ensures Extends(after.log, before.log, Accesses(Traffic(before, after)))
  {
  }

  // ----- the program

  /** The channel exists and a value to be set is accepted. */
  predicate Able(act: Action, chan: Word) {
    && !act.target.OutOfRange(chan)
    && (act.Program? ==> act.target.param.Accepts(act.value))
  }

  ghost predicate AbleUpTo(acts: seq<Action>, chan: Word, n: nat)
    requires n <= |acts|
  {
    forall j :: 0 <= j < n ==> Able(acts[j], chan)
  }

  ghost predicate AbleOn(acts: seq<Action>, chanMin: Word, chanMax: Word) {
    forall c: Word :: chanMin <= c < chanMax ==> AbleUpTo(acts, c, |acts|)
  }

  ghost predicate Complete(respond: Responses) {
    forall k: nat :: respond(k).count == FULL
  }

  lemma {:induction false} SetIsDone(respond: Responses, bus: Bus, act: Action, chan: Word)
    requires act.Program? && act.target.param.Valid() && act.target.param.Accepts(act.value)
    requires respond(|bus.log|).count == FULL && respond(|bus.log| + 1).count == FULL
    ensures Execute(respond, bus, Command(act.target.On(chan), 0, act.value)).bus.mem
         == AfterAction(bus.mem, act, chan)
  {
    hide Execute, SetWord, ClearWord;
    SetWrites(respond, bus, act.target.On(chan), act.value);
  }

  lemma {:induction false} SameOnChannel(t: ChannelParam, chan: Word, value: Word)
    ensures t.On(chan).Accepts(value) <==> t.param.Accepts(value)
    ensures t.On(chan).Valid() <==> t.param.Valid()
  {
  }

  /** One setting on one channel.  It succeeds exactly when it can be done and the transfers of the
    set, or of the read of a counter, are complete; reading the setting back does not matter.  When
    it fails, at most its own register has changed. */
  method RunAction(dev: Device, reply: Reply, act: Action, chan: Word) returns (ok: bool)
    requires act.target.param.Valid()
    modifies dev, reply
    ensures ok ==> dev.mem == AfterAction(old(dev.mem), act, chan) && !act.target.OutOfRange(chan)
    ensures var addr := Address(act, chan);
            ok ==> Extends(dev.log, old(dev.log),
                           if act.Count? then [Reads(addr)] else [Reads(addr), Writes(addr), Reads(addr)])
    ensures !ok ==> SameExceptAt(dev.mem, old(dev.mem), Address(act, chan))
    ensures !ok && (act.Count? || act.target.OutOfRange(chan)) ==> dev.mem == old(dev.mem)
    ensures var n := |old(dev.log)|;
            ok <==> Able(act, chan)
                    && dev.respond(n).count == FULL
                    && (act.Program? ==> dev.respond(n + 1).count == FULL)
  {
    hide Execute, ExecuteChannel, Param.NewWord, Param.Accepts, Param.Valid;
    ghost var addr, before := Address(act, chan), dev.State();
    SameOnChannel(act.target, chan, if act.Program? then act.value else 0);
    if act.Count? {
      var c := ChannelCommand(act.target, 1, chan, 0);
      ChannelCommandDiscipline(dev.respond, before, c);
      CommandDiscipline(dev.respond, before, Command(act.target.On(chan), 1, 0));
      var ret := dev.SetGetParamChannel(c, reply);
      ok := ret > 0;
      TrafficExtends(before, dev.State());
    } else {
      var c := ChannelCommand(act.target, 0, chan, act.value);
      ChannelCommandDiscipline(dev.respond, before, c);
      CommandDiscipline(dev.respond, before, Command(act.target.On(chan), 0, act.value));
      var ret := dev.SetGetParamChannel(c, reply);
      if ret != -RW_OK {
        return false;
      }
      ok := true;
      SetIsDone(dev.respond, before, act, chan);
      ghost var between := dev.State();
      TrafficExtends(before, between);
      ChannelCommandDiscipline(dev.respond, between, ChannelCommand(act.target, 1, chan, 0));
      CommandDiscipline(dev.respond, between, Command(act.target.On(chan), 1, 0));
      var _ := dev.SetGetParamChannel(ChannelCommand(act.target, 1, chan, 0), reply);
      TrafficExtends(between, dev.State());
      ExtendTwice(before.log, between.log, dev.log, [Reads(addr), Writes(addr)], [Reads(addr)]);
    }
  }

  /** The options handled for one channel. */
  method ProgramChannel(dev: Device, reply: Reply, acts: seq<Action>, chan: Word) returns (ok: bool, failed: nat)
    requires AllValid(acts)
    modifies dev, reply
    ensures ok ==> dev.mem == AfterActions(old(dev.mem), acts, chan)
    ensures ok ==> Extends(dev.log, old(dev.log), ActionsAccesses(acts, chan))
    ensures !ok ==>
              && failed < |acts|
              && var done := AfterActions(old(dev.mem), acts[..failed], chan);
                 SameExceptAt(dev.mem, done, Address(acts[failed], chan))
    ensures ok ==> AbleUpTo(acts, chan, |acts|)
    ensures Complete(dev.respond) && !ok ==> AbleUpTo(acts, chan, failed) && !Able(acts[failed], chan)
  {
    hide Able, AfterAction, Accesses;
    failed := 0;
    while failed < |acts|
      invariant failed <= |acts| && AbleUpTo(acts, chan, failed)
      invariant dev.mem == AfterActions(old(dev.mem), acts[..failed], chan)
      invariant Extends(dev.log, old(dev.log), ActionsAccesses(acts[..failed], chan))
    {
      ghost var log := dev.log;
      ok := RunAction(dev, reply, acts[failed], chan);
      if !ok {
        return;
      }
      assert acts[..failed + 1][..failed] == acts[..failed];
      var done, more := ActionsAccesses(acts[..failed], chan), ActionAccesses(acts[failed], chan);
      ExtendTwice(old(dev.log), log, dev.log, done, more);
      failed := failed + 1;
    }
    assert acts[..failed] == acts;
    ok := true;
  }

  /** The loop of main over the channels.  On success every channel of the range has had every
    setting, in order and once, and nothing else was accessed.  On a failure of action `failed` on
    channel `at`, the channels before it are complete, those after it untouched, and on the
    channel itself only the register of the failed action is in doubt.  With complete transfers it
    succeeds exactly when every action can be done on every channel, and otherwise fails at the
    first one that cannot. */
  method ProgramChannels(dev: Device, reply: Reply, acts: seq<Action>, chanMin: Word, chanMax: Word)
    returns (ok: bool, at: Word, failed: nat)
    requires AllValid(acts) && chanMin <= chanMax
    modifies dev, reply
    ensures ok ==> dev.mem == AfterChannels(old(dev.mem), acts, chanMin, chanMax)
    ensures ok ==> Extends(dev.log, old(dev.log), ChannelsAccesses(acts, chanMin, chanMax))
    ensures !ok ==>
              && chanMin <= at < chanMax && failed < |acts|
              && var done := AfterActions(AfterChannels(old(dev.mem), acts, chanMin, at), acts[..failed], at);
                 SameExceptAt(dev.mem, done, Address(acts[failed], at))
    ensures ok ==> AbleOn(acts, chanMin, chanMax)
    ensures Complete(dev.respond) ==>
              && (ok <==> AbleOn(acts, chanMin, chanMax))
              && (!ok ==> AbleOn(acts, chanMin, at) && AbleUpTo(acts, at, failed) && !Able(acts[failed], at))
  {
    hide Able, Address, AfterActions, ActionsAccesses, Accesses;
    at, failed := chanMin, 0;
    while at < chanMax
      invariant chanMin <= at <= chanMax && AbleOn(acts, chanMin, at)
      invariant dev.mem == AfterChannels(old(dev.mem), acts, chanMin, at)
      invariant Extends(dev.log, old(dev.log), ChannelsAccesses(acts, chanMin, at))
    {
      ghost var log := dev.log;
      ok, failed := ProgramChannel(dev, reply, acts, at);
      if !ok {
        assert Complete(dev.respond) ==> !AbleUpTo(acts, at, |acts|);
        return;
      }
      ExtendTwice(old(dev.log), log, dev.log, ChannelsAccesses(acts, chanMin, at), ActionsAccesses(acts, at));
      at := at + 1;
    }
    ok := true;
  }

  // ----- what the registers then hold

  /** The settings do not get in each other's way: whenever two of them meet in a register, they
    set disjoint fields of it, and no setting meets itself on another channel. */
  ghost predicate Independent(acts: seq<Action>, chanMin: Word, chanMax: Word) {
    forall i, j, c: Word, d: Word ::
      (0 <= i < |acts| && 0 <= j < |acts| && chanMin <= c < chanMax && chanMin <= d < chanMax
       && acts[i].Program? && acts[j].Program?
       && Address(acts[i], c) == Address(acts[j], d)
       ==> (i == j && c == d) || Disjoint(acts[i].target.param.field, acts[j].target.param.field))
  }

  /** No setting of the range touches field g of the register at addr. */
  ghost predicate Spared(acts: seq<Action>, chan: Word, addr: nat, g: Field) {
    forall j :: 0 <= j < |acts| && acts[j].Program? && Address(acts[j], chan) == addr ==>
                  Disjoint(acts[j].target.param.field, g)
  }

  lemma {:induction false} AfterActionFrame(mem: Memory, act: Action, chan: Word, addr: nat, g: Field)
    requires act.target.param.Valid() && g.Valid()
    requires act.Program? && Address(act, chan) == addr ==> Disjoint(act.target.param.field, g)
    ensures Decode(At(AfterAction(mem, act, chan), addr), g) == Decode(At(mem, addr), g)
  {
    if act.Program? && Address(act, chan) == addr {
      NewWordFrame(act.target.param, At(mem, addr), act.value, g);
    }
  }

  lemma {:induction false} AfterActionsFrame(mem: Memory, acts: seq<Action>, chan: Word, addr: nat, g: Field)
    requires AllValid(acts) && g.Valid() && Spared(acts, chan, addr, g)
    ensures Decode(At(AfterActions(mem, acts, chan), addr), g) == Decode(At(mem, addr), g)
    decreases |acts|
  {
    if acts != [] {
      var n := |acts| - 1;
      AfterActionsFrame(mem, acts[..n], chan, addr, g);
      AfterActionFrame(AfterActions(mem, acts[..n], chan), acts[n], chan, addr, g);
    }
  }

  lemma {:induction false} AfterActionsSets(mem: Memory, acts: seq<Action>, chan: Word, j: nat)
    requires AllValid(acts) && chan + 1 < WORD_LIMIT && Independent(acts, chan, chan + 1)
    requires j < |acts| && acts[j].Program?
    ensures Decode(At(AfterActions(mem, acts, chan), Address(acts[j], chan)), acts[j].target.param.field)
         == acts[j].target.param.Stored(acts[j].value)
    decreases |acts|
  {
    var n := |acts| - 1;
    var before := AfterActions(mem, acts[..n], chan);
    if j == n {
      NewWordDecodes(acts[n].target.param, At(before, Address(acts[n], chan)), acts[n].value);
    } else {
      AfterActionsSets(mem, acts[..n], chan, j);
      AfterActionFrame(before, acts[n], chan, Address(acts[j], chan), acts[j].target.param.field);
    }
  }

  /** Every field that no setting names keeps its value, in every register. */
  lemma {:induction false} AfterChannelsFrame(
      mem: Memory, acts: seq<Action>, chanMin: Word, chanMax: Word, addr: nat, g: Field)
    requires AllValid(acts) && g.Valid()
    requires forall c: Word :: chanMin <= c < chanMax ==> Spared(acts, c, addr, g)
    ensures Decode(At(AfterChannels(mem, acts, chanMin, chanMax), addr), g) == Decode(At(mem, addr), g)
    decreases chanMax
  {
    if chanMin < chanMax {
      AfterChannelsFrame(mem, acts, chanMin, chanMax - 1, addr, g);
      AfterActionsFrame(AfterChannels(mem, acts, chanMin, chanMax - 1), acts, chanMax - 1, addr, g);
    }
  }

  /** Every channel of the range has every selected setting. */
  lemma {:induction false} AfterChannelsSets(
      mem: Memory, acts: seq<Action>, chanMin: Word, chanMax: Word, chan: Word, j: nat)
    requires AllValid(acts) && Independent(acts, chanMin, chanMax) && chanMin <= chan < chanMax
    requires j < |acts| && acts[j].Program?
    ensures Decode(At(AfterChannels(mem, acts, chanMin, chanMax), Address(acts[j], chan)), acts[j].target.param.field)
         == acts[j].target.param.Stored(acts[j].value)
    decreases chanMax
  {
    var last := chanMax - 1;
    var before := AfterChannels(mem, acts, chanMin, last);
    if chan == last {
      AfterActionsSets(before, acts, chan, j);
    } else {
      AfterChannelsSets(mem, acts, chanMin, last, chan, j);
      AfterActionsFrame(before, acts, last, Address(acts[j], chan), acts[j].target.param.field);
    }
  }

  /** Settings of one register block of equally spaced channels are independent as soon as they
    name disjoint fields and the channel offsets fit uint32_t. */
  lemma {:induction false} SameBlockIndependent(
      acts: seq<Action>, base: nat, stride: Word, chanMin: Word, chanMax: Word)
    requires stride > 0 && (chanMax > 0 ==> (chanMax - 1) * stride < WORD_LIMIT)
    requires forall i :: 0 <= i < |acts| ==>
               && acts[i].target.param.base == base
               && acts[i].target.stride == stride
               && acts[i].target.param.reg < stride
    requires forall i, j :: 0 <= i < j < |acts| && acts[i].target.param.reg == acts[j].target.param.reg ==>
               Disjoint(acts[i].target.param.field, acts[j].target.param.field)
    ensures Independent(acts, chanMin, chanMax)
  {
    forall i, j, c: Word, d: Word
      | 0 <= i < |acts| && 0 <= j < |acts| && chanMin <= c < chanMax && chanMin <= d < chanMax
        && acts[i].Program? && acts[j].Program?
        && Address(acts[i], c) == Address(acts[j], d)
      ensures (i == j && c == d) || Disjoint(acts[i].target.param.field, acts[j].target.param.field)
    {
      DistinctRegistersExact(base, stride, chanMax);
      AddressOfParam(acts[i].target, c);
      AddressOfParam(acts[j].target, d);
    }
  }
}
