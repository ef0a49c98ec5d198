/** The options of the trigger utility on the registers of a real board: four settings in the trigger
  multiplexer, four settings and two counters in the trigger interface. */
module TriggerBoard {
  import Bits
  import opened Channels
  import opened Fields
  import opened Prelude
  import opened Registers
  import opened RwParam
  import opened TriggerLoop

  // ----- the options

  /** The parameters behind the options, in the order in which main handles them. */
  datatype Services = Services(
    rcvSrc: ChannelParam, rcvSel: ChannelParam, rcvCount: ChannelParam,
    transmSrc: ChannelParam, transmSel: ChannelParam, transmCount: ChannelParam,
    rcvLen: ChannelParam, trnLen: ChannelParam, dir: ChannelParam, dirPol: ChannelParam)

  /** The options given. */
  datatype Request = Request(
    rcvSrc: Option<Word>, rcvSel: Option<Word>, rcvCount: bool,
    transmSrc: Option<Word>, transmSel: Option<Word>, transmCount: bool,
    rcvLen: Option<Word>, trnLen: Option<Word>, dir: Option<Word>, dirPol: Option<Word>)

  const STANZAS: nat := 10

  function Target(s: Services, k: nat): ChannelParam
    requires k < STANZAS
  {
    match k
    case 0 => s.rcvSrc
    case 1 => s.rcvSel
    case 2 => s.rcvCount
    case 3 => s.transmSrc
    case 4 => s.transmSel
    case 5 => s.transmCount
    case 6 => s.rcvLen
    case 7 => s.trnLen
    case 8 => s.dir
    case 9 => s.dirPol
  }

  function ProgramIf(target: ChannelParam, value: Option<Word>): seq<Action> {
    if value.Some? then [Program(target, value.value)] else []
  }

  function CountIf(target: ChannelParam, selected: bool): seq<Action> {
    if selected then [Count(target)] else []
  }

  /** The k-th `if` in the loop of main. */
  function Stanza(s: Services, r: Request, k: nat): seq<Action>
    requires k < STANZAS
  {
    match k
    case 0 => ProgramIf(s.rcvSrc, r.rcvSrc)
    case 1 => ProgramIf(s.rcvSel, r.rcvSel)
    case 2 => CountIf(s.rcvCount, r.rcvCount)
    case 3 => ProgramIf(s.transmSrc, r.transmSrc)
    case 4 => ProgramIf(s.transmSel, r.transmSel)
    case 5 => CountIf(s.transmCount, r.transmCount)
    case 6 => ProgramIf(s.rcvLen, r.rcvLen)
    case 7 => ProgramIf(s.trnLen, r.trnLen)
    case 8 => ProgramIf(s.dir, r.dir)
    case 9 => ProgramIf(s.dirPol, r.dirPol)
  }

  function SelectedUpTo(s: Services, r: Request, k: nat): seq<Action>
    requires k <= STANZAS
  {
    if k == 0 then [] else SelectedUpTo(s, r, k - 1) + Stanza(s, r, k - 1)
  }

  function Selected(s: Services, r: Request): seq<Action> {
    SelectedUpTo(s, r, STANZAS)
  }

  /** The settings that the options ask for. */
  ghost predicate AskedFor(s: Services, r: Request, target: ChannelParam, value: Word) {
    || (target == s.rcvSrc && r.rcvSrc == Some(value))
    || (target == s.rcvSel && r.rcvSel == Some(value))
    || (target == s.transmSrc && r.transmSrc == Some(value))
    || (target == s.transmSel && r.transmSel == Some(value))
    || (target == s.rcvLen && r.rcvLen == Some(value))
    || (target == s.trnLen && r.trnLen == Some(value))
    || (target == s.dir && r.dir == Some(value))
    || (target == s.dirPol && r.dirPol == Some(value))
  }

  lemma {:induction false} StanzaTarget(s: Services, r: Request, k: nat, x: Action)
    requires k < STANZAS && x in Stanza(s, r, k)
    ensures x.target == Target(s, k) && Stanza(s, r, k) == [x]
    ensures x.Program? ==> AskedFor(s, r, x.target, x.value)
  {
  }

  lemma {:induction false} StanzaOf(s: Services, r: Request, target: ChannelParam, value: Word) returns (k: nat)
    requires AskedFor(s, r, target, value)
    ensures k < STANZAS && Program(target, value) in Stanza(s, r, k)
  {
    if target == s.rcvSrc && r.rcvSrc == Some(value) {
      k := 0;
    } else if target == s.rcvSel && r.rcvSel == Some(value) {
      k := 1;
    } else if target == s.transmSrc && r.transmSrc == Some(value) {
      k := 3;
    } else if target == s.transmSel && r.transmSel == Some(value) {
      k := 4;
    } else if target == s.rcvLen && r.rcvLen == Some(value) {
      k := 6;
    } else if target == s.trnLen && r.trnLen == Some(value) {
      k := 7;
    } else if target == s.dir && r.dir == Some(value) {
      k := 8;
    } else {
      k := 9;
    }
  }

  lemma {:induction false} InSelectedUpTo(s: Services, r: Request, n: nat, x: Action)
    requires n <= STANZAS
    ensures x in SelectedUpTo(s, r, n) <==> exists k :: 0 <= k < n && x in Stanza(s, r, k)
    decreases n
  {
    hide Stanza;
    if n > 0 {
      InSelectedUpTo(s, r, n - 1, x);
    }
  }

  /** The actions are the settings asked for, and reads of counters. */
  lemma {:induction false} SelectedExact(s: Services, r: Request, target: ChannelParam, value: Word)
    ensures Program(target, value) in Selected(s, r) <==> AskedFor(s, r, target, value)
  {
    hide Stanza, AskedFor, SelectedUpTo;
    var x := Program(target, value);
    InSelectedUpTo(s, r, STANZAS, x);
    if x in Selected(s, r) {
      var k :| 0 <= k < STANZAS && x in Stanza(s, r, k);
      StanzaTarget(s, r, k, x);
    }
    if AskedFor(s, r, target, value) {
      var k := StanzaOf(s, r, target, value);
    }
  }

  /** The counters asked for. */
  ghost predicate CountedFor(s: Services, r: Request, target: ChannelParam) {
    || (target == s.rcvCount && r.rcvCount)
    || (target == s.transmCount && r.transmCount)
  }

  lemma {:induction false} StanzaCounts(s: Services, r: Request, k: nat, target: ChannelParam)
    requires k < STANZAS
    ensures Count(target) in Stanza(s, r, k) <==>
              || (k == 2 && target == s.rcvCount && r.rcvCount)
              || (k == 5 && target == s.transmCount && r.transmCount)
  {
  }

  /** The counters read are exactly those asked for. */
  lemma {:induction false} CountedExact(s: Services, r: Request, target: ChannelParam)
    ensures Count(target) in Selected(s, r) <==> CountedFor(s, r, target)
  {
    hide Stanza, SelectedUpTo;
    InSelectedUpTo(s, r, STANZAS, Count(target));
    forall k: nat | k < STANZAS
      ensures Count(target) in Stanza(s, r, k) <==>
                || (k == 2 && target == s.rcvCount && r.rcvCount)
                || (k == 5 && target == s.transmCount && r.transmCount)
    {
      StanzaCounts(s, r, k, target);
    }
    assert CountedFor(s, r, target) ==> Count(target) in Stanza(s, r, 2) || Count(target) in Stanza(s, r, 5);
  }

  /** Stanzas of one action each. */
  lemma {:induction false} InOneByOne(s: Services, r: Request, acts: seq<Action>, n: nat)
    requires n <= STANZAS == |acts| && forall k :: 0 <= k < STANZAS ==> Stanza(s, r, k) == [acts[k]]
    ensures SelectedUpTo(s, r, n) == acts[..n]
    decreases n
  {
    hide Stanza;
    if n > 0 {
      InOneByOne(s, r, acts, n - 1);
      assert acts[..n - 1] + [acts[n - 1]] == acts[..n];
    }
  }

  /** With all options given the actions are these, in this order. */
  lemma {:induction false} AllInOrder(
      s: Services, a: Word, b: Word, c: Word, d: Word, e: Word, f: Word, g: Word, h: Word)
    ensures var r := Request(Some(a), Some(b), true, Some(c), Some(d), true, Some(e), Some(f), Some(g), Some(h));
            Selected(s, r)
            == [Program(s.rcvSrc, a), Program(s.rcvSel, b), Count(s.rcvCount),
                Program(s.transmSrc, c), Program(s.transmSel, d), Count(s.transmCount),
                Program(s.rcvLen, e), Program(s.trnLen, f), Program(s.dir, g), Program(s.dirPol, h)]
  {
    hide SelectedUpTo;
    var r := Request(Some(a), Some(b), true, Some(c), Some(d), true, Some(e), Some(f), Some(g), Some(h));
    var acts := [Program(s.rcvSrc, a), Program(s.rcvSel, b), Count(s.rcvCount),
                 Program(s.transmSrc, c), Program(s.transmSel, d), Count(s.transmCount),
                 Program(s.rcvLen, e), Program(s.trnLen, f), Program(s.dir, g), Program(s.dirPol, h)];
    forall k | 0 <= k < STANZAS
      ensures Stanza(s, r, k) == [acts[k]]
    {
    }
    hide Stanza, SelectedUpTo;
    InOneByOne(s, r, acts, STANZAS);
    assert acts[..STANZAS] == acts;
  }

  /** Options left out leave the order of the others as it is. */
  lemma {:induction false} OrderIsThatOfAll(s: Services, r: Request, i: nat, j: nat)
    requires i < j < |Selected(s, r)|
    ensures var acts := Selected(s, r);
            exists k, l :: 0 <= k < l < STANZAS && acts[i] in Stanza(s, r, k) && acts[j] in Stanza(s, r, l)
  {
    hide Stanza;
    InOrder(s, r, STANZAS, i, j);
  }

  lemma {:induction false} AtMostOne(s: Services, r: Request, k: nat)
    requires k < STANZAS
    ensures |Stanza(s, r, k)| <= 1
  {
  }

  lemma {:induction false} InOrder(s: Services, r: Request, n: nat, i: nat, j: nat)
    requires n <= STANZAS && i < j < |SelectedUpTo(s, r, n)|
    ensures var acts := SelectedUpTo(s, r, n);
            exists k, l :: 0 <= k < l < n && acts[i] in Stanza(s, r, k) && acts[j] in Stanza(s, r, l)
    decreases n
  {
    hide Stanza;
    var acts, before := SelectedUpTo(s, r, n), SelectedUpTo(s, r, n - 1);
    AtMostOne(s, r, n - 1);
    if j < |before| {
      InOrder(s, r, n - 1, i, j);
    } else {
      assert acts[i] == before[i];
      InSelectedUpTo(s, r, n - 1, acts[i]);
      assert acts[j] in Stanza(s, r, n - 1);
    }
  }

  /** Every option given takes effect on every channel of the range. */
  lemma {:induction false} RequestIsProgrammed(
      mem: Memory, s: Services, r: Request, chanMin: Word, chanMax: Word, chan: Word, target: ChannelParam, value: Word)
    requires TriggerLoop.AllValid(Selected(s, r)) && Independent(Selected(s, r), chanMin, chanMax)
    requires chanMin <= chan < chanMax && AskedFor(s, r, target, value)
    ensures var after := AfterChannels(mem, Selected(s, r), chanMin, chanMax);
            Decode(At(after, target.On(chan).Address()), target.param.field) == target.param.Stored(value)
  {
    SelectedExact(s, r, target, value);
    hide Selected, AskedFor, AfterChannels, Decode;
    var acts := Selected(s, r);
    var j :| 0 <= j < |acts| && acts[j] == Program(target, value);
    AfterChannelsSets(mem, acts, chanMin, chanMax, chan, j);
  }

  // ----- the board

  const CHANNELS: Word := 24
  const MUX_STRIDE: Word := 8
  const IFACE_STRIDE: Word := 12

  /** Where a parameter lies: in which of the two cores, in which register of a channel, and in
    which field of that. */
  datatype Place = Place(onMux: bool, reg: nat, field: Field)

  const PLACES: seq<Place> := [
    Place(true, 0, Flag(0)), Place(true, 0, Span(8, 8)), Place(false, 8, Span(0, 16)),
    Place(true, 0, Flag(16)), Place(true, 0, Span(24, 8)), Place(false, 8, Span(16, 16)),
    Place(false, 4, Span(0, 8)), Place(false, 4, Span(8, 8)), Place(false, 0, Flag(0)), Place(false, 0, Flag(1))]

  predicate AtPlace(t: ChannelParam, p: Place, mux: nat, iface: nat) {
    && t.param.Valid()
    && t.param.base == (if p.onMux then mux else iface)
    && t.param.reg == p.reg && t.param.field == p.field
    && t.stride == (if p.onMux then MUX_STRIDE else IFACE_STRIDE)
    && t.channels == CHANNELS
  }

  /** The two cores do not overlap. */
  predicate CoresApart(mux: nat, iface: nat) {
    && mux + CHANNELS * MUX_STRIDE <= ADDRESS_LIMIT
    && iface + CHANNELS * IFACE_STRIDE <= ADDRESS_LIMIT
    && (mux + CHANNELS * MUX_STRIDE <= iface || iface + CHANNELS * IFACE_STRIDE <= mux)
  }

  ghost predicate OnBoard(s: Services, mux: nat, iface: nat) {
    CoresApart(mux, iface) && forall k :: 0 <= k < STANZAS ==> AtPlace(Target(s, k), PLACES[k], mux, iface)
  }

  lemma {:induction false} PlacesDisjoint(i: nat, j: nat)
    requires i < STANZAS && j < STANZAS && i != j
    requires PLACES[i].onMux == PLACES[j].onMux && PLACES[i].reg == PLACES[j].reg
    ensures Disjoint(PLACES[i].field, PLACES[j].field)
  {
  }

  lemma {:induction false} PlaceInStride(k: nat)
    requires k < STANZAS
    ensures PLACES[k].reg < if PLACES[k].onMux then MUX_STRIDE else IFACE_STRIDE
  {
  }

  /** Where the register of a place lies. */
  lemma {:induction false} AddressAtPlace(t: ChannelParam, k: nat, mux: nat, iface: nat, chan: Word)
    requires k < STANZAS && AtPlace(t, PLACES[k], mux, iface) && CoresApart(mux, iface) && chan < CHANNELS
    ensures var addr := t.On(chan).Address();
            if PLACES[k].onMux then mux <= addr < mux + CHANNELS * MUX_STRIDE
            else iface <= addr < iface + CHANNELS * IFACE_STRIDE
  {
    PlaceInStride(k);
    assert |PLACES| == STANZAS;
    hide PLACES, Param.Valid;
    AddressOfParam(t, chan);
    InBlock(t.param.base, t.stride, t.param.reg, chan);
  }

  lemma {:induction false} InBlock(base: nat, stride: Word, reg: nat, chan: Word)
    requires stride in {MUX_STRIDE, IFACE_STRIDE} && reg < stride && chan < CHANNELS
    requires base + CHANNELS * stride <= ADDRESS_LIMIT
    ensures base <= AddressOf(base, stride, chan, reg) < base + CHANNELS * stride
  {
    var offset := chan * stride;
    assert offset + reg < CHANNELS * stride;
    Bits.DivModUnique(offset, WORD_LIMIT, 0, offset);
    Bits.DivModUnique(base + offset + reg, ADDRESS_LIMIT, 0, base + offset + reg);
  }

  lemma {:induction false} SameCore(t: ChannelParam, u: ChannelParam, c: Word, d: Word)
    requires t.param.base == u.param.base && t.stride == u.stride && t.channels == u.channels == CHANNELS
    requires 0 < t.stride <= IFACE_STRIDE && t.param.reg < t.stride && u.param.reg < t.stride
    requires c < CHANNELS && d < CHANNELS && t.On(c).Address() == u.On(d).Address()
    ensures c == d && t.param.reg == u.param.reg
  {
    DistinctRegistersExact(t.param.base, t.stride, CHANNELS);
    AddressOfParam(t, c);
    AddressOfParam(u, d);
  }

  /** Two parameters of the board meet in a register only on one channel and in disjoint fields. */
  lemma {:induction false} Meet(s: Services, mux: nat, iface: nat, i: nat, c: Word, j: nat, d: Word)
    requires OnBoard(s, mux, iface) && i < STANZAS && j < STANZAS && c < CHANNELS && d < CHANNELS
    requires Target(s, i).On(c).Address() == Target(s, j).On(d).Address()
    ensures c == d
    ensures i == j || Disjoint(Target(s, i).param.field, Target(s, j).param.field)
  {
    assert |PLACES| == STANZAS;
    hide Target, PLACES, Disjoint, Field.Valid;
    var t, u := Target(s, i), Target(s, j);
    assert AtPlace(t, PLACES[i], mux, iface) && AtPlace(u, PLACES[j], mux, iface);
    AddressAtPlace(t, i, mux, iface, c);
    AddressAtPlace(u, j, mux, iface, d);
    PlaceInStride(i);
    PlaceInStride(j);
    SameCore(t, u, c, d);
    if i != j {
      PlacesDisjoint(i, j);
    }
  }

  /** An action of a later stanza does not get in the way of those before it, nor of itself. */
  lemma {:induction false} NextApart(
      s: Services, r: Request, mux: nat, iface: nat, chanMin: Word, chanMax: Word, n: nat, x: Action)
    requires OnBoard(s, mux, iface) && chanMax <= CHANNELS && n < STANZAS && x in Stanza(s, r, n)
    ensures forall i, c: Word, d: Word ::
              (0 <= i < |SelectedUpTo(s, r, n)| && chanMin <= c < chanMax && chanMin <= d < chanMax
               && Address(SelectedUpTo(s, r, n)[i], c) == Address(x, d)
               ==> Disjoint(SelectedUpTo(s, r, n)[i].target.param.field, x.target.param.field))
    ensures forall c: Word, d: Word ::
              (chanMin <= c < chanMax && chanMin <= d < chanMax && Address(x, c) == Address(x, d) ==> c == d)
  {
    hide OnBoard, Stanza, Target, Disjoint, SelectedUpTo;
    var before := SelectedUpTo(s, r, n);
    StanzaTarget(s, r, n, x);
    forall i, c: Word, d: Word
      | 0 <= i < |before| && chanMin <= c < chanMax && chanMin <= d < chanMax
        && Address(before[i], c) == Address(x, d)
      ensures Disjoint(before[i].target.param.field, x.target.param.field)
    {
      InSelectedUpTo(s, r, n, before[i]);
      var k :| 0 <= k < n && before[i] in Stanza(s, r, k);
      StanzaTarget(s, r, k, before[i]);
      Meet(s, mux, iface, k, c, n, d);
    }
    forall c: Word, d: Word
      | chanMin <= c < chanMax && chanMin <= d < chanMax && Address(x, c) == Address(x, d)
      ensures c == d
    {
      Meet(s, mux, iface, n, c, n, d);
    }
  }

  lemma {:induction false} TargetValid(s: Services, mux: nat, iface: nat, k: nat)
    requires OnBoard(s, mux, iface) && k < STANZAS
    ensures Target(s, k).param.Valid()
  {
    assert |PLACES| == STANZAS;
    hide PLACES, Target, Param.Valid;
    assert AtPlace(Target(s, k), PLACES[k], mux, iface);
  }

  /** The actions of the first n stanzas do not get in each other's way. */
  lemma {:induction false} UpToIndependent(
      s: Services, r: Request, mux: nat, iface: nat, chanMin: Word, chanMax: Word, n: nat)
    requires OnBoard(s, mux, iface) && chanMax <= CHANNELS && n <= STANZAS
    ensures TriggerLoop.AllValid(SelectedUpTo(s, r, n)) && Independent(SelectedUpTo(s, r, n), chanMin, chanMax)
    decreases n
  {
    hide OnBoard, Stanza, Target, Disjoint, Address, Param.Valid;
    if n > 0 {
      UpToIndependent(s, r, mux, iface, chanMin, chanMax, n - 1);
      var before := SelectedUpTo(s, r, n - 1);
      if Stanza(s, r, n - 1) == [] {
        assert SelectedUpTo(s, r, n) == before;
      } else {
        var x := Stanza(s, r, n - 1)[0];
        StanzaTarget(s, r, n - 1, x);
        TargetValid(s, mux, iface, n - 1);
        assert SelectedUpTo(s, r, n) == before + [x];
        NextApart(s, r, mux, iface, chanMin, chanMax, n - 1, x);
        IndependentAppend(before, x, chanMin, chanMax);
      }
    }
  }

  lemma {:induction false} IndependentAppend(before: seq<Action>, x: Action, chanMin: Word, chanMax: Word)
    requires TriggerLoop.AllValid(before) && x.target.param.Valid() && Independent(before, chanMin, chanMax)
    requires forall i, c: Word, d: Word ::
               (0 <= i < |before| && chanMin <= c < chanMax && chanMin <= d < chanMax
                && Address(before[i], c) == Address(x, d)
                ==> Disjoint(before[i].target.param.field, x.target.param.field))
    requires forall c: Word, d: Word ::
               (chanMin <= c < chanMax && chanMin <= d < chanMax && Address(x, c) == Address(x, d) ==> c == d)
    ensures TriggerLoop.AllValid(before + [x]) && Independent(before + [x], chanMin, chanMax)
  {
    hide Address;
  }

  /** On a board every request can be programmed over any range: every option given ends as asked
    on every channel of the range. */
  lemma {:induction false} BoardIsProgrammed(
      mem: Memory, s: Services, r: Request, mux: nat, iface: nat,
      chanMin: Word, chanMax: Word, chan: Word, target: ChannelParam, value: Word)
    requires OnBoard(s, mux, iface) && chanMin <= chan < chanMax <= CHANNELS
    requires AskedFor(s, r, target, value)
    ensures var after := AfterChannels(mem, Selected(s, r), chanMin, chanMax);
            Decode(At(after, target.On(chan).Address()), target.param.field) == target.param.Stored(value)
  {
    UpToIndependent(s, r, mux, iface, chanMin, chanMax, STANZAS);
    hide AskedFor, AfterChannels, Decode, OnBoard, SelectedUpTo;
    RequestIsProgrammed(mem, s, r, chanMin, chanMax, chan, target, value);
  }

  /** And the field behind an option that is not given, or on a channel outside the range, keeps its
    value. */
  lemma {:induction false} BoardKeepsTheRest(
      mem: Memory, s: Services, r: Request, mux: nat, iface: nat, chanMin: Word, chanMax: Word, chan: Word, k: nat)
    requires OnBoard(s, mux, iface) && chanMax <= CHANNELS && chan < CHANNELS && k < STANZAS
    requires Stanza(s, r, k) == [] || !(chanMin <= chan < chanMax)
    ensures var t := Target(s, k);
            Decode(At(AfterChannels(mem, Selected(s, r), chanMin, chanMax), t.On(chan).Address()), t.param.field)
            == Decode(At(mem, t.On(chan).Address()), t.param.field)
  {
    var acts, t := Selected(s, r), Target(s, k);
    UpToIndependent(s, r, mux, iface, chanMin, chanMax, STANZAS);
    assert AtPlace(t, PLACES[k], mux, iface);
    hide Stanza, Target, SelectedUpTo, AfterChannels, Decode, OnBoard, Independent, Disjoint;
    forall c: Word, j
      | chanMin <= c < chanMax && 0 <= j < |acts| && acts[j].Program? && Address(acts[j], c) == t.On(chan).Address()
      ensures Disjoint(acts[j].target.param.field, t.param.field)
    {
      InSelectedUpTo(s, r, STANZAS, acts[j]);
      var i :| 0 <= i < STANZAS && acts[j] in Stanza(s, r, i);
      StanzaTarget(s, r, i, acts[j]);
      Meet(s, mux, iface, i, c, k, chan);
    }
    AfterChannelsFrame(mem, acts, chanMin, chanMax, t.On(chan).Address(), t.param.field);
  }
}
