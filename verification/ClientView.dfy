/** Whole runs of register commands, seen by their clients.

  A client that watches only the commands it sends and the return values it gets keeps a `View`:
  a value for every field it knows.  It forgets every field of a register when a SET of that
  register returns -RW_WRITE_EAGAIN.  For every run, over every layout of disjoint fields and
  under every behaviour of the bus, the view is what the registers hold: the word-level
  read-modify-write engine refines a store of independent fields. */
module ClientView {
  import opened Fields
  import opened Prelude
  import opened RwParam

  type View = map<Slot, nat>

  predicate Separate(s: Slot, t: Slot) {
    s == t || s.addr != t.addr || Disjoint(s.field, t.field)
  }

  /** The fields that a set of slots names do not overlap. */
  ghost predicate Layout(slots: set<Slot>) {
    && (forall s :: s in slots ==> s.field.Valid())
    && (forall s, t :: s in slots && t in slots ==> Separate(s, t))
  }

  ghost predicate Uses(cs: seq<Command>, slots: set<Slot>) {
    forall k :: 0 <= k < |cs| ==> cs[k].param.Valid() && cs[k].param.Where() in slots
  }

  ghost predicate Sound(view: View, mem: map<nat, Word>) {
    forall s :: s in view ==> view[s] == Decode(At(mem, s.addr), s.field)
  }

  /** What a client makes of the reply to one command. */
  function Observe(view: View, c: Command, out: Answer): View {
    var slot := c.param.Where();
    if c.rw != 0 then
      if out.reply.Some? && c.param.format.None? then view[slot := out.reply.value] else view
    else if out.ret == -RW_OK then view[slot := c.param.Stored(c.value)]
    else if out.ret == -RW_WRITE_EAGAIN then map s | s in view && s.addr != slot.addr :: view[s]
    else view
  }

  /** A sequence of commands served one after the other. */
  function Run(respond: Responses, bus: Bus, cs: seq<Command>): (r: (Bus, seq<Outcome>))
    requires forall k :: 0 <= k < |cs| ==> cs[k].param.Valid()
    ensures |r.1| == |cs|
  {
    if cs == [] then (bus, [])
    else
      var n := |cs| - 1;
      var (bus', outs) := Run(respond, bus, cs[..n]);
      var out := Execute(respond, bus', cs[n]);
      (out.bus, outs + [out])
  }

  lemma {:induction false} RunSnoc(respond: Responses, bus: Bus, cs: seq<Command>, c: Command)
    requires (forall k :: 0 <= k < |cs| ==> cs[k].param.Valid()) && c.param.Valid()
    ensures forall k :: 0 <= k < |cs + [c]| ==> (cs + [c])[k].param.Valid()
    ensures var (bus', outs) := Run(respond, bus, cs);
            var out := Execute(respond, bus', c);
            Run(respond, bus, cs + [c]) == (out.bus, outs + [out])
  {
    hide Execute;
    assert (cs + [c])[..|cs|] == cs;
  }

  function ObserveAll(view: View, cs: seq<Command>, outs: seq<Outcome>): View
    requires |cs| == |outs|
  {
    if cs == [] then view
    else
      var n := |cs| - 1;
      Observe(ObserveAll(view, cs[..n], outs[..n]), cs[n], outs[n].Seen())
  }

  lemma {:induction false} RunPrefix(respond: Responses, bus: Bus, cs: seq<Command>, k: nat)
    requires (forall j :: 0 <= j < |cs| ==> cs[j].param.Valid()) && k <= |cs|
    ensures Run(respond, bus, cs[..k]).1 == Run(respond, bus, cs).1[..k]
    decreases |cs|
  {
    hide Execute;
    if k < |cs| {
      var n := |cs| - 1;
      assert cs[..n][..k] == cs[..k];
      RunPrefix(respond, bus, cs[..n], k);
    } else {
      assert cs[..k] == cs;
    }
  }

  lemma {:induction false} RunAt(respond: Responses, bus: Bus, cs: seq<Command>, k: nat)
    requires (forall j :: 0 <= j < |cs| ==> cs[j].param.Valid()) && k < |cs|
    ensures Run(respond, bus, cs).1[k] == Execute(respond, Run(respond, bus, cs[..k]).0, cs[k])
    decreases |cs|
  {
    hide Execute;
    var n := |cs| - 1;
    if k < n {
      assert cs[..n][..k] == cs[..k];
      RunAt(respond, bus, cs[..n], k);
    }
  }

  /** One command keeps the view sound, whatever the bus does. */
  lemma {:induction false} ObserveSound(respond: Responses, bus: Bus, view: View, c: Command, slots: set<Slot>)
    requires Layout(slots) && view.Keys <= slots
    requires c.param.Valid() && c.param.Where() in slots
    requires Sound(view, bus.mem)
    ensures var out := Execute(respond, bus, c);
            var view' := Observe(view, c, out.Seen());
            Sound(view', out.bus.mem) && view'.Keys <= slots
  {
    var out, p := Execute(respond, bus, c), c.param;
    var view' := Observe(view, c, out.Seen());
    CommandDiscipline(respond, bus, c);
    if c.rw == 0 {
      SetSucceeds(respond, bus, p, c.value);
      forall s | s in view'
        ensures view'[s] == Decode(At(out.bus.mem, s.addr), s.field)
      {
        if s != p.Where() {
          assert s in slots && Separate(p.Where(), s);
        }
      }
    }
  }

  /** Refinement over whole runs: the view is sound after any run. */
  lemma {:induction false} ViewSound(respond: Responses, bus: Bus, view: View, cs: seq<Command>, slots: set<Slot>)
    requires Layout(slots) && view.Keys <= slots && Uses(cs, slots)
    requires Sound(view, bus.mem)
    ensures var (bus', outs) := Run(respond, bus, cs);
            && Sound(ObserveAll(view, cs, outs), bus'.mem)
            && ObserveAll(view, cs, outs).Keys <= slots
    decreases |cs|
  {
    if cs != [] {
      var n := |cs| - 1;
      ViewSound(respond, bus, view, cs[..n], slots);
      var (mid, outs) := Run(respond, bus, cs[..n]);
      RunPrefix(respond, bus, cs, n);
      ObserveSound(respond, mid, ObserveAll(view, cs[..n], outs), cs[n], slots);
    }
  }

  /** A client starts knowing nothing or what the registers hold; every GET of a field it knows
    that succeeds returns what the client knew, through the parameter's format function. */
  lemma {:induction false} GetReturnsView(
      respond: Responses, bus: Bus, view: View, cs: seq<Command>, slots: set<Slot>, k: nat)
    requires Layout(slots) && view.Keys <= slots && Uses(cs, slots)
    requires Sound(view, bus.mem)
    requires k < |cs| && cs[k].rw != 0
    ensures var outs := Run(respond, bus, cs).1;
            var known := ObserveAll(view, cs[..k], outs[..k]);
            var p := cs[k].param;
            outs[k].ret == FULL && p.Where() in known ==>
              known[p.Where()] < WORD_LIMIT && outs[k].reply == Some(p.Format(known[p.Where()]))
  {
    RunPrefix(respond, bus, cs, k);
    RunAt(respond, bus, cs, k);
    ViewSound(respond, bus, view, cs[..k], slots);
    var p, mid := cs[k].param, Run(respond, bus, cs[..k]).0;
    CommandDiscipline(respond, mid, cs[k]);
    if respond(|mid.log|).count == FULL {
      GetReplies(respond, mid, cs[k]);
    }
    hide Execute, Run, Decode;
  }

  // ----- without incomplete writes: every GET returns the last accepted SET

  /** The value left in a slot by the last SET of it that succeeded. */
  function LastStored(cs: seq<Command>, outs: seq<Outcome>, slot: Slot): Option<nat>
    requires |cs| == |outs|
  {
    if cs == [] then None
    else
      var n := |cs| - 1;
      if cs[n].rw == 0 && outs[n].ret == -RW_OK && cs[n].param.Where() == slot
      then Some(cs[n].param.Stored(cs[n].value))
      else LastStored(cs[..n], outs[..n], slot)
  }

  /** No SET of this register has been reported incomplete. */
  ghost predicate NoIncompleteSet(cs: seq<Command>, outs: seq<Outcome>, addr: nat)
    requires |cs| == |outs|
  {
    forall k :: 0 <= k < |cs| && cs[k].rw == 0 && cs[k].param.Address() == addr ==>
                  outs[k].ret != -RW_WRITE_EAGAIN
  }

  lemma {:induction false} SlotHoldsLastStored(
      respond: Responses, bus: Bus, cs: seq<Command>, slots: set<Slot>, slot: Slot)
    requires Layout(slots) && Uses(cs, slots) && slot in slots
    requires NoIncompleteSet(cs, Run(respond, bus, cs).1, slot.addr)
    ensures var (bus', outs) := Run(respond, bus, cs);
            Decode(At(bus'.mem, slot.addr), slot.field)
            == match LastStored(cs, outs, slot)
               case Some(v) => v
               case None => Decode(At(bus.mem, slot.addr), slot.field)
    decreases |cs|
  {
    if cs != [] {
      var n := |cs| - 1;
      RunPrefix(respond, bus, cs, n);
      var (mid, outs) := Run(respond, bus, cs[..n]);
      forall k | 0 <= k < n && cs[..n][k].rw == 0 && cs[..n][k].param.Address() == slot.addr
        ensures outs[k].ret != -RW_WRITE_EAGAIN
      {
        assert cs[k] == cs[..n][k] && Run(respond, bus, cs).1[k] == outs[k];
      }
      SlotHoldsLastStored(respond, bus, cs[..n], slots, slot);
      var c := cs[n];
      assert c.param.Where() in slots && Separate(c.param.Where(), slot);
      CommandDiscipline(respond, mid, c);
      if c.rw == 0 {
        SetSucceeds(respond, mid, c.param, c.value);
      }
    }
  }

  /** In every run, a successful GET of a field returns the value left by the last successful SET
    of that field, or its initial content when there was none, provided that no SET of the
    register was cut short in between. */
  lemma {:induction false} GetReturnsLastSet(respond: Responses, bus: Bus, cs: seq<Command>, slots: set<Slot>, k: nat)
    requires Layout(slots) && Uses(cs, slots) && k < |cs| && cs[k].rw != 0
    requires NoIncompleteSet(cs[..k], Run(respond, bus, cs[..k]).1, cs[k].param.Address())
    ensures var p, outs := cs[k].param, Run(respond, bus, cs).1;
            var value := match LastStored(cs[..k], outs[..k], p.Where())
                         case Some(v) => v
                         case None => Decode(At(bus.mem, p.Address()), p.field);
            outs[k].ret == FULL ==> value < WORD_LIMIT && outs[k].reply == Some(p.Format(value))
  {
    RunPrefix(respond, bus, cs, k);
    RunAt(respond, bus, cs, k);
    var p, mid := cs[k].param, Run(respond, bus, cs[..k]).0;
    assert Uses(cs[..k], slots);
    SlotHoldsLastStored(respond, bus, cs[..k], slots, p.Where());
    CommandDiscipline(respond, mid, cs[k]);
    if respond(|mid.log|).count == FULL {
      GetReplies(respond, mid, cs[k]);
    }
    hide Execute, Run, Decode;
  }

  /** When every transfer is complete, every GET succeeds, a SET succeeds exactly when its value is
    accepted, and no SET is reported incomplete. */
  lemma {:induction false} CompleteTransfers(respond: Responses, bus: Bus, cs: seq<Command>, k: nat)
    requires forall i: nat :: respond(i).count == FULL
    requires (forall j :: 0 <= j < |cs| ==> cs[j].param.Valid()) && k < |cs|
    ensures Run(respond, bus, cs).1[k].ret
         == if cs[k].rw != 0 then FULL
            else if cs[k].param.Accepts(cs[k].value) then -RW_OK
            else -RW_USR_ERR
  {
    RunAt(respond, bus, cs, k);
    var mid := Run(respond, bus, cs[..k]).0;
    CommandDiscipline(respond, mid, cs[k]);
    SetSucceeds(respond, mid, cs[k].param, cs[k].value);
  }
}
