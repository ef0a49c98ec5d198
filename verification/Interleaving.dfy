/** Commands of concurrent actors.

  A SET is two bus messages, and the device serves one message at a time, so the read and the
  write of one actor can be separated by messages of others.  `Run` is such an interleaving, in
  which every transfer may fall short; `Serial` is the same messages with every SET done in one
  piece at the moment of its write. */
module Interleaving {
  import opened Bits
  import opened ClientView
  import opened Fields
  import opened Prelude
  import opened RwParam

  type Actor = nat

  const COMPLETE := Transfer(FULL, 0)

  /** The read message of a SET, the write message that ends it, and the single message of a GET,
    each with how its transfer ends. */
  datatype Event =
    | ReadFor(actor: Actor, param: Param, value: Word, transfer: Transfer)
    | WriteOf(actor: Actor, transfer: Transfer)
    | GetBy(actor: Actor, param: Param, transfer: Transfer)

  /** A SET under way, with what its read gave. */
  datatype Pending = Pending(param: Param, value: Word, read: Transfer)

  /** `answers` are those of the completed commands, in the order of completion. */
  datatype System = System(mem: map<nat, Word>, pending: map<Actor, Pending>, answers: seq<Answer>)

  function Start(mem: map<nat, Word>): System {
    System(mem, map[], [])
  }

  function GetAnswer(p: Param, read: Transfer): Answer
    requires p.Valid()
  {
    if read.count == FULL then Answer(FULL, Some(p.Format(Extract(read.data, p.field))))
    else Answer(-RW_READ_EAGAIN, None)
  }

  function SetAnswer(read: Transfer, write: Transfer): Answer {
    Answer(if read.count == FULL && write.count == FULL then -RW_OK else -RW_WRITE_EAGAIN, None)
  }

  /** Each actor is one thread: it ends a SET before it does anything else.  A SET with a rejected
    value sends no message. */
  predicate Enabled(s: System, e: Event) {
    match e
    case ReadFor(a, p, v, _) => a !in s.pending && p.Valid() && p.Accepts(v)
    case WriteOf(a, _) => a in s.pending
    case GetBy(a, p, _) => a !in s.pending && p.Valid()
  }

  function Step(s: System, e: Event): System {
    match e
    case ReadFor(a, p, v, t) => s.(pending := s.pending[a := Pending(p, v, Received(s.mem, p.Address(), t))])
    case GetBy(_, p, t) =>
      if !p.Valid() then s
      else s.(answers := s.answers + [GetAnswer(p, Received(s.mem, p.Address(), t))])
    case WriteOf(a, t) =>
      if a !in s.pending then s
      else
        var w := s.pending[a];
        System(s.mem[w.param.Address() := Left(w.param.NewWord(w.read.data, w.value), t)],
               s.pending - {a},
               s.answers + [SetAnswer(w.read, t)])
  }

  function Run(s: System, es: seq<Event>): System {
    if es == [] then s else Step(Run(s, es[..|es| - 1]), es[|es| - 1])
  }

  ghost predicate Legal(s: System, es: seq<Event>) {
    forall k :: 0 <= k < |es| ==> Enabled(Run(s, es[..k]), es[k])
  }

  // ----- the serial execution in order of completion

  datatype Asked = Asked(command: Command, read: Transfer)

  /** `done` are the commands completed, `senders` who sent them, and `transfers` how the bus
    transactions end that they cause when they are executed one after the other. */
  datatype SerialSystem = SerialSystem(
    mem: map<nat, Word>, asked: map<Actor, Asked>, done: seq<Command>, senders: seq<Actor>, transfers: seq<Transfer>)

  function SerialStep(s: SerialSystem, e: Event): SerialSystem {
    match e
    case ReadFor(a, p, v, t) => s.(asked := s.asked[a := Asked(Command(p, 0, v), t)])
    case GetBy(a, p, t) =>
      if !p.Valid() then s
      else s.(done := s.done + [Command(p, 1, 0)], senders := s.senders + [a], transfers := s.transfers + [t])
    case WriteOf(a, t) =>
      if a !in s.asked then s
      else
        var c, read := s.asked[a].command, s.asked[a].read;
        var addr := c.param.Address();
        SerialSystem(s.mem[addr := Left(c.param.NewWord(Received(s.mem, addr, read).data, c.value), t)],
                     s.asked - {a}, s.done + [c], s.senders + [a], s.transfers + [read, t])
  }

  function Serial(mem: map<nat, Word>, es: seq<Event>): SerialSystem {
    if es == [] then SerialSystem(mem, map[], [], [], [])
    else SerialStep(Serial(mem, es[..|es| - 1]), es[|es| - 1])
  }

  /** The transactions of a device end as listed. */
  ghost predicate Follows(respond: Responses, transfers: seq<Transfer>) {
    forall k :: 0 <= k < |transfers| ==> respond(k) == transfers[k]
  }

  function Seen(outs: seq<Outcome>): (r: seq<Answer>)
    ensures |r| == |outs| && forall k :: 0 <= k < |outs| ==> r[k] == outs[k].Seen()
  {
    seq(|outs|, k requires 0 <= k < |outs| => outs[k].Seen())
  }

  ghost predicate AllValid(cs: seq<Command>) {
    forall k :: 0 <= k < |cs| ==> cs[k].param.Valid()
  }

  /** The SETs asked for are ones that the engine accepts. */
  ghost predicate Acceptable(s: SerialSystem) {
    && (forall a :: a in s.asked ==>
          var c := s.asked[a].command; c.rw == 0 && c.param.Valid() && c.param.Accepts(c.value))
    && AllValid(s.done) && |s.senders| == |s.done|
  }

  /** What the engine makes of the serial commands on a device: the same registers, and a bus log of
    as many transactions as are listed. */
  ghost predicate DoneByEngine(respond: Responses, mem: map<nat, Word>, s: SerialSystem)
    requires Acceptable(s)
  {
    var bus := ClientView.Run(respond, Bus(mem, []), s.done).0;
    bus.mem == s.mem && |bus.log| == |s.transfers|
  }

  /** A SET that is accepted, transfer by transfer. */
  lemma {:induction false} EngineSets(respond: Responses, bus: Bus, c: Command, read: Transfer, write: Transfer)
    requires c.param.Valid() && c.rw == 0 && c.param.Accepts(c.value)
    requires respond(|bus.log|) == read && respond(|bus.log| + 1) == write
    ensures var out, addr := Execute(respond, bus, c), c.param.Address();
            && out.bus.mem == bus.mem[addr := Left(c.param.NewWord(Received(bus.mem, addr, read).data, c.value), write)]
            && |out.bus.log| == |bus.log| + 2
            && out.Seen() == SetAnswer(read, write)
  {
    hide SetWord, ClearWord;
  }

  lemma {:induction false} EngineGets(respond: Responses, bus: Bus, c: Command, read: Transfer)
    requires c.param.Valid() && c.rw != 0 && respond(|bus.log|) == read
    ensures var out := Execute(respond, bus, c);
            && out.bus.mem == bus.mem && |out.bus.log| == |bus.log| + 1
            && out.Seen() == GetAnswer(c.param, Received(bus.mem, c.param.Address(), read))
  {
    hide Extract;
  }

  /** One more command of the serial execution is one more step of the engine. */
  lemma {:induction false} EngineStep(respond: Responses, mem: map<nat, Word>, s: SerialSystem, e: Event)
    requires Acceptable(s) && DoneByEngine(respond, mem, s)
    requires e.WriteOf? ==> e.actor in s.asked
    requires e.GetBy? ==> e.param.Valid()
    requires e.ReadFor? ==> e.param.Valid() && e.param.Accepts(e.value)
    requires Follows(respond, SerialStep(s, e).transfers)
    ensures Acceptable(SerialStep(s, e)) && DoneByEngine(respond, mem, SerialStep(s, e))
  {
    hide Execute, ClientView.Run, Param.Valid, Param.Accepts, Param.Address, Param.NewWord, Received, Left;
    var s', m, bus := SerialStep(s, e), |s.transfers|, ClientView.Run(respond, Bus(mem, []), s.done).0;
    if e.WriteOf? {
      var asked := s.asked[e.actor];
      assert respond(m) == s'.transfers[m] && respond(m + 1) == s'.transfers[m + 1];
      EngineSets(respond, bus, asked.command, asked.read, e.transfer);
      ClientView.RunSnoc(respond, Bus(mem, []), s.done, asked.command);
    } else if e.GetBy? {
      assert respond(m) == s'.transfers[m];
      EngineGets(respond, bus, Command(e.param, 1, 0), e.transfer);
      ClientView.RunSnoc(respond, Bus(mem, []), s.done, Command(e.param, 1, 0));
    }
  }

  lemma {:induction false} LegalPrefix(s: System, es: seq<Event>, k: nat)
    requires Legal(s, es) && k <= |es|
    ensures Legal(s, es[..k])
  {
    forall j | 0 <= j < k
      ensures Enabled(Run(s, es[..k][..j]), es[..k][j])
    {
      assert es[..k][..j] == es[..j];
    }
  }

  lemma {:induction false} TransfersGrow(s: SerialSystem, e: Event)
    ensures s.transfers <= SerialStep(s, e).transfers
  {
  }

  /** Serial is what the register engine does with the same commands one after the other. */
  lemma {:induction false} SerialIsEngine(respond: Responses, mem: map<nat, Word>, es: seq<Event>)
    requires Legal(Start(mem), es) && Follows(respond, Serial(mem, es).transfers)
    ensures Acceptable(Serial(mem, es)) && DoneByEngine(respond, mem, Serial(mem, es))
    decreases |es|
  {
    hide Acceptable, DoneByEngine, SerialStep, Step;
    if es == [] {
      EngineStart(respond, mem);
    } else {
      var n := |es| - 1;
      TransfersGrow(Serial(mem, es[..n]), es[n]);
      LegalPrefix(Start(mem), es, n);
      SerialIsEngine(respond, mem, es[..n]);
      assert Enabled(Run(Start(mem), es[..n]), es[n]);
      SameRequests(mem, es[..n]);
      EngineStep(respond, mem, Serial(mem, es[..n]), es[n]);
    }
  }

  lemma {:induction false} EngineStart(respond: Responses, mem: map<nat, Word>)
    ensures Acceptable(Serial(mem, [])) && DoneByEngine(respond, mem, Serial(mem, []))
  {
  }

  // ----- when an interleaving is serial

  /** The same SETs are under way in both executions. */
  ghost predicate SamePending(s: System, t: SerialSystem) {
    && s.pending.Keys == t.asked.Keys
    && forall a :: a in s.pending ==>
         var w := s.pending[a];
         && w.param.Valid()
         && t.asked[a].command == Command(w.param, 0, w.value)
         && t.asked[a].read.count == w.read.count
         && (w.read.count != FULL ==> t.asked[a].read == w.read)
  }

  lemma {:induction false} SameRequestsStep(s: System, t: SerialSystem, e: Event)
    requires SamePending(s, t) && Enabled(s, e)
    ensures SamePending(Step(s, e), SerialStep(t, e))
  {
  }

  lemma {:induction false} SameRequests(mem: map<nat, Word>, es: seq<Event>)
    requires Legal(Start(mem), es)
    ensures SamePending(Run(Start(mem), es), Serial(mem, es))
    decreases |es|
  {
    if es != [] {
      hide SamePending, Step, SerialStep;
      var n := |es| - 1;
      LegalPrefix(Start(mem), es, n);
      SameRequests(mem, es[..n]);
      assert Enabled(Run(Start(mem), es[..n]), es[n]);
      SameRequestsStep(Run(Start(mem), es[..n]), Serial(mem, es[..n]), es[n]);
    } else {
      NothingPending(mem);
    }
  }

  lemma {:induction false} NothingPending(mem: map<nat, Word>)
    ensures SamePending(Start(mem), Serial(mem, []))
  {
  }

  /** A complete write about to happen was computed from a complete read of a word that is still
    right outside the field being set, or from the leftover of a short read. */
  ghost predicate FreshWrite(s: System, e: Event) {
    e.WriteOf? && e.transfer.count == FULL && e.actor in s.pending && s.pending[e.actor].read.count == FULL ==>
      var w := s.pending[e.actor];
      AgreeOutside(w.read.data, At(s.mem, w.param.Address()), w.param.field)
  }

  /** Two complete writes of one register agree exactly when the words they were computed from do. */
  lemma {:induction false} SameWrite(mem: map<nat, Word>, p: Param, v: Word, stale: Word, now: Word)
    requires p.Valid()
    ensures mem[p.Address() := p.NewWord(stale, v)] == mem[p.Address() := p.NewWord(now, v)]
        <==> AgreeOutside(stale, now, p.field)
  {
    var addr := p.Address();
    NewWordIsSetWord(p, stale, v);
    NewWordIsSetWord(p, now, v);
    StaleReadHarmless(stale, now, p.field, if p.clear then 0 else v);
    assert mem[addr := p.NewWord(stale, v)][addr] == p.NewWord(stale, v);
    assert mem[addr := p.NewWord(now, v)][addr] == p.NewWord(now, v);
  }

  lemma {:induction false} StepInLockstep(s: System, t: SerialSystem, e: Event)
    requires SamePending(s, t) && s.mem == t.mem && Enabled(s, e)
    ensures Step(s, e).mem == SerialStep(t, e).mem <==> FreshWrite(s, e)
  {
    hide AgreeOutside;
    if e.WriteOf? {
      var w := s.pending[e.actor];
      SameWrite(s.mem, w.param, w.value, w.read.data, At(s.mem, w.param.Address()));
    }
  }

  ghost predicate InStep(mem: map<nat, Word>, es: seq<Event>) {
    forall k :: 0 <= k <= |es| ==> Run(Start(mem), es[..k]).mem == Serial(mem, es[..k]).mem
  }

  ghost predicate AllFresh(mem: map<nat, Word>, es: seq<Event>) {
    forall k :: 0 <= k < |es| ==> FreshWrite(Run(Start(mem), es[..k]), es[k])
  }

  /** The lockstep of one event, in a run. */
  lemma {:induction false} NextInLockstep(mem: map<nat, Word>, es: seq<Event>, n: nat)
    requires Legal(Start(mem), es) && n < |es|
    requires Run(Start(mem), es[..n]).mem == Serial(mem, es[..n]).mem
    ensures Run(Start(mem), es[..n + 1]).mem == Serial(mem, es[..n + 1]).mem
        <==> FreshWrite(Run(Start(mem), es[..n]), es[n])
  {
    hide SamePending, FreshWrite, Step, SerialStep;
    assert es[..n + 1][..n] == es[..n];
    assert Enabled(Run(Start(mem), es[..n]), es[n]);
    LegalPrefix(Start(mem), es, n);
    SameRequests(mem, es[..n]);
    StepInLockstep(Run(Start(mem), es[..n]), Serial(mem, es[..n]), es[n]);
  }

  lemma {:induction false} FreshKeepsStep(mem: map<nat, Word>, es: seq<Event>, k: nat)
    requires Legal(Start(mem), es) && AllFresh(mem, es) && k <= |es|
    ensures Run(Start(mem), es[..k]).mem == Serial(mem, es[..k]).mem
    decreases k
  {
    if k > 0 {
      FreshKeepsStep(mem, es, k - 1);
      NextInLockstep(mem, es, k - 1);
    }
  }

  /** An interleaving keeps in step with the serial execution, event by event, exactly when every
    write was fresh. */
  lemma {:induction false} SerialExactlyWhenFresh(mem: map<nat, Word>, es: seq<Event>)
    requires Legal(Start(mem), es)
    ensures InStep(mem, es) <==> AllFresh(mem, es)
  {
    if InStep(mem, es) {
      forall k | 0 <= k < |es|
        ensures FreshWrite(Run(Start(mem), es[..k]), es[k])
      {
        NextInLockstep(mem, es, k);
      }
    }
    if AllFresh(mem, es) {
      forall k | 0 <= k <= |es|
        ensures Run(Start(mem), es[..k]).mem == Serial(mem, es[..k]).mem
      {
        FreshKeepsStep(mem, es, k);
      }
    }
  }

  // ----- what the actors are told

  /** The answers of the interleaving are those of the engine. */
  ghost predicate SameAnswers(respond: Responses, mem: map<nat, Word>, s: System, t: SerialSystem)
    requires AllValid(t.done)
  {
    s.answers == Seen(ClientView.Run(respond, Bus(mem, []), t.done).1)
  }

  lemma {:induction false} SeenSnoc(outs: seq<Outcome>, out: Outcome)
    ensures Seen(outs + [out]) == Seen(outs) + [out.Seen()]
  {
  }

  lemma {:induction false} AnswerToWrite(respond: Responses, mem: map<nat, Word>, s: System, t: SerialSystem, e: Event)
    requires SamePending(s, t) && s.mem == t.mem && Enabled(s, e) && e.WriteOf?
    requires Acceptable(t) && DoneByEngine(respond, mem, t) && SameAnswers(respond, mem, s, t)
    requires Follows(respond, SerialStep(t, e).transfers) && AllValid(SerialStep(t, e).done)
    ensures SameAnswers(respond, mem, Step(s, e), SerialStep(t, e))
  {
    hide Execute, ClientView.Run, GetAnswer, SetAnswer, Received, Left, Seen,
      Param.Accepts, Param.Address, Param.NewWord;
    var t', m := SerialStep(t, e), |t.transfers|;
    var (bus, outs) := ClientView.Run(respond, Bus(mem, []), t.done);
    var asked := t.asked[e.actor];
    assert respond(m) == t'.transfers[m] && respond(m + 1) == t'.transfers[m + 1];
    EngineSets(respond, bus, asked.command, asked.read, e.transfer);
    ClientView.RunSnoc(respond, Bus(mem, []), t.done, asked.command);
    SeenSnoc(outs, Execute(respond, bus, asked.command));
    SameCounts(asked.read, s.pending[e.actor].read, e.transfer);
  }

  lemma {:induction false} AnswerToGet(respond: Responses, mem: map<nat, Word>, s: System, t: SerialSystem, e: Event)
    requires SamePending(s, t) && s.mem == t.mem && Enabled(s, e) && e.GetBy?
    requires Acceptable(t) && DoneByEngine(respond, mem, t) && SameAnswers(respond, mem, s, t)
    requires Follows(respond, SerialStep(t, e).transfers) && AllValid(SerialStep(t, e).done)
    ensures SameAnswers(respond, mem, Step(s, e), SerialStep(t, e))
  {
    hide Execute, ClientView.Run, GetAnswer, SetAnswer, Received, Left, Seen,
      Param.Accepts, Param.Address, Param.NewWord;
    var t', m := SerialStep(t, e), |t.transfers|;
    var (bus, outs) := ClientView.Run(respond, Bus(mem, []), t.done);
    assert respond(m) == t'.transfers[m];
    EngineGets(respond, bus, Command(e.param, 1, 0), e.transfer);
    ClientView.RunSnoc(respond, Bus(mem, []), t.done, Command(e.param, 1, 0));
    SeenSnoc(outs, Execute(respond, bus, Command(e.param, 1, 0)));
  }

  lemma {:induction false} AnswerStep(respond: Responses, mem: map<nat, Word>, s: System, t: SerialSystem, e: Event)
    requires SamePending(s, t) && s.mem == t.mem && Enabled(s, e)
    requires Acceptable(t) && DoneByEngine(respond, mem, t) && SameAnswers(respond, mem, s, t)
    requires Follows(respond, SerialStep(t, e).transfers) && AllValid(SerialStep(t, e).done)
    ensures SameAnswers(respond, mem, Step(s, e), SerialStep(t, e))
  {
    if e.WriteOf? {
      AnswerToWrite(respond, mem, s, t, e);
    } else if e.GetBy? {
      AnswerToGet(respond, mem, s, t, e);
    } else {
      hide ClientView.Run, SamePending, Follows;
    }
  }

  lemma {:induction false} SameCounts(read: Transfer, other: Transfer, write: Transfer)
    requires read.count == other.count
    ensures SetAnswer(read, write) == SetAnswer(other, write)
  {
  }

  /** In step with the serial execution, the actors get the answers that the engine gives there. */
  lemma {:induction false} AnswersInStep(respond: Responses, mem: map<nat, Word>, es: seq<Event>)
    requires Legal(Start(mem), es) && InStep(mem, es) && Follows(respond, Serial(mem, es).transfers)
    ensures Acceptable(Serial(mem, es))
    ensures SameAnswers(respond, mem, Run(Start(mem), es), Serial(mem, es))
    decreases |es|
  {
    hide Step, SerialStep, SamePending, DoneByEngine, SameAnswers, InStep, Acceptable;
    SerialIsEngine(respond, mem, es);
    if es == [] {
      AnswersStart(respond, mem);
    } else {
      var n := |es| - 1;
      TransfersGrow(Serial(mem, es[..n]), es[n]);
      LegalPrefix(Start(mem), es, n);
      InStepPrefix(mem, es, n);
      AnswersInStep(respond, mem, es[..n]);
      SerialIsEngine(respond, mem, es[..n]);
      SameRequests(mem, es[..n]);
      assert Enabled(Run(Start(mem), es[..n]), es[n]);
      DoneIsValid(Serial(mem, es));
      AnswerStep(respond, mem, Run(Start(mem), es[..n]), Serial(mem, es[..n]), es[n]);
    }
  }

  lemma {:induction false} DoneIsValid(t: SerialSystem)
    requires Acceptable(t)
    ensures AllValid(t.done)
  {
  }

  lemma {:induction false} AnswersStart(respond: Responses, mem: map<nat, Word>)
    ensures SameAnswers(respond, mem, Start(mem), Serial(mem, []))
  {
  }

  lemma {:induction false} InStepPrefix(mem: map<nat, Word>, es: seq<Event>, n: nat)
    requires InStep(mem, es) && n <= |es|
    ensures InStep(mem, es[..n]) && Run(Start(mem), es[..n]).mem == Serial(mem, es[..n]).mem
  {
    hide Run, Serial;
    forall k | 0 <= k <= n
      ensures Run(Start(mem), es[..n][..k]).mem == Serial(mem, es[..n][..k]).mem
    {
      assert es[..n][..k] == es[..k];
    }
  }

  // ----- actors that keep out of each other's way

  /** The register a SET under way is about. */
  function Target(s: System, a: Actor): Option<nat> {
    if a in s.pending then Some(s.pending[a].param.Address()) else None
  }

  /** The actor of event w does nothing from event m up to w. */
  ghost predicate Quiet(es: seq<Event>, m: nat, w: nat)
    requires w < |es|
  {
    forall j :: m <= j < w ==> es[j].actor != es[w].actor
  }

  /** Between the read and the write of a SET no other actor writes the same register. */
  ghost predicate InterferenceFree(s: System, es: seq<Event>) {
    forall m, w ::
      (0 <= m < w < |es| && es[m].WriteOf? && es[w].WriteOf? && Quiet(es, m, w)
       ==> Target(Run(s, es[..m]), es[m].actor) != Target(Run(s, es[..m]), es[w].actor))
  }

  /** A SET under way is not affected by an event of another actor that does not write its register. */
  lemma {:induction false} OthersKeepPending(s: System, e: Event, a: Actor)
    requires Enabled(s, e) && e.actor != a
    requires e.WriteOf? ==> Target(s, e.actor) != Target(s, a)
    ensures a in s.pending <==> a in Step(s, e).pending
    ensures a in s.pending ==>
              && Step(s, e).pending[a] == s.pending[a]
              && var addr := s.pending[a].param.Address(); At(Step(s, e).mem, addr) == At(s.mem, addr)
  {
  }

  /** What a SET has read is what its register holds. */
  ghost predicate Current(s: System, a: Actor) {
    a in s.pending && s.pending[a].read.count == FULL ==>
      s.pending[a].read.data == At(s.mem, s.pending[a].param.Address())
  }

  lemma {:induction false} ReadIsCurrent(s: System, e: Event)
    requires Enabled(s, e)
    ensures Current(Step(s, e), e.actor)
  {
  }

  /** Going back from a write to the read of the same SET: the register has not changed. */
  lemma {:induction false} RegisterUntouched(mem: map<nat, Word>, es: seq<Event>, w: nat, m: nat)
    requires Legal(Start(mem), es) && InterferenceFree(Start(mem), es)
    requires m <= w < |es| && es[w].WriteOf? && Quiet(es, m, w)
    ensures Current(Run(Start(mem), es[..m]), es[w].actor)
    decreases m
  {
    hide Step;
    var s0, a := Start(mem), es[w].actor;
    if m > 0 {
      var e, before := es[m - 1], Run(s0, es[..m - 1]);
      assert es[..m][..m - 1] == es[..m - 1];
      assert Enabled(before, e);
      if e.actor != a {
        assert Quiet(es, m - 1, w);
        OthersKeepPending(before, e, a);
        RegisterUntouched(mem, es, w, m - 1);
      } else {
        ReadIsCurrent(before, e);
      }
    }
  }

  /** The registers and all answers are those of the engine when it executes the commands one after
    the other, in the order in which they were completed. */
  ghost predicate Serialised(respond: Responses, mem: map<nat, Word>, es: seq<Event>) {
    var t := Serial(mem, es);
    && AllValid(t.done)
    && var (bus, outs) := ClientView.Run(respond, Bus(mem, []), t.done);
       Run(Start(mem), es).mem == bus.mem && Run(Start(mem), es).answers == Seen(outs)
  }

  /** An interleaving without interference keeps in step with the serial execution. */
  lemma {:induction false} InterferenceFreeInStep(mem: map<nat, Word>, es: seq<Event>)
    requires Legal(Start(mem), es) && InterferenceFree(Start(mem), es)
    ensures InStep(mem, es)
  {
    forall w | 0 <= w < |es|
      ensures FreshWrite(Run(Start(mem), es[..w]), es[w])
    {
      assert Enabled(Run(Start(mem), es[..w]), es[w]);
      if es[w].WriteOf? {
        RegisterUntouched(mem, es, w, w);
      }
    }
    SerialExactlyWhenFresh(mem, es);
  }

  /** Serialisability: an interleaving without interference is serialised at every moment, whatever
    the transfers do. */
  lemma {:induction false} InterferenceFreeIsSerial(respond: Responses, mem: map<nat, Word>, es: seq<Event>, k: nat)
    requires Legal(Start(mem), es) && InterferenceFree(Start(mem), es) && k <= |es|
    requires Follows(respond, Serial(mem, es[..k]).transfers)
    ensures Serialised(respond, mem, es[..k])
  {
    InterferenceFreeInStep(mem, es);
    LegalPrefix(Start(mem), es, k);
    InStepPrefix(mem, es, k);
    SerialIsEngine(respond, mem, es[..k]);
    AnswersInStep(respond, mem, es[..k]);
  }

  /** Every actor writes within its own window of addresses, and the windows do not overlap. */
  ghost predicate OwnWindows(es: seq<Event>, window: Actor -> iset<nat>) {
    && (forall k :: 0 <= k < |es| && es[k].ReadFor? ==> es[k].param.Address() in window(es[k].actor))
    && (forall a, b :: a != b ==> window(a) !! window(b))
  }

  lemma {:induction false} TargetsInWindow(mem: map<nat, Word>, es: seq<Event>, window: Actor -> iset<nat>)
    requires OwnWindows(es, window)
    ensures forall a :: a in Run(Start(mem), es).pending ==>
              Run(Start(mem), es).pending[a].param.Address() in window(a)
    decreases |es|
  {
    hide Left, Received, Param.NewWord, GetAnswer, SetAnswer;
    if es != [] {
      var n := |es| - 1;
      assert forall k :: 0 <= k < n ==> es[..n][k] == es[k];
      TargetsInWindow(mem, es[..n], window);
    }
  }

  lemma {:induction false} WindowsDoNotInterfere(mem: map<nat, Word>, es: seq<Event>, window: Actor -> iset<nat>)
    requires Legal(Start(mem), es) && OwnWindows(es, window)
    ensures InterferenceFree(Start(mem), es)
  {
    var s0 := Start(mem);
    forall m, w | 0 <= m < w < |es| && es[m].WriteOf? && es[w].WriteOf? && Quiet(es, m, w)
      ensures Target(Run(s0, es[..m]), es[m].actor) != Target(Run(s0, es[..m]), es[w].actor)
    {
      assert Enabled(Run(s0, es[..m]), es[m]);
      assert forall j :: 0 <= j < m ==> es[..m][j] == es[j];
      TargetsInWindow(mem, es[..m], window);
      var a, b := es[m].actor, es[w].actor;
      assert a != b && window(a) !! window(b);
    }
  }

  /** All runs of actors with disjoint address windows are serialisable, in the registers, in the
    values that GETs return and in the results of SETs, also when transfers fall short. */
  lemma {:induction false} DisjointWindowsAreSerial(
      respond: Responses, mem: map<nat, Word>, es: seq<Event>, window: Actor -> iset<nat>, k: nat)
    requires Legal(Start(mem), es) && OwnWindows(es, window) && k <= |es|
    requires Follows(respond, Serial(mem, es[..k]).transfers)
    ensures Serialised(respond, mem, es[..k])
  {
    WindowsDoNotInterfere(mem, es, window);
    InterferenceFreeIsSerial(respond, mem, es, k);
  }

  // ----- what each actor knows

  /** The layouts of the actors lie in disjoint windows. */
  ghost predicate Apart(window: Actor -> iset<nat>, slots: Actor -> set<Slot>) {
    && (forall a, b :: a != b ==> window(a) !! window(b))
    && (forall a :: Layout(slots(a)))
    && (forall a, s :: s in slots(a) ==> s.addr in window(a))
  }

  /** The commands of every actor are on fields of its own layout. */
  ghost predicate OwnLayouts(es: seq<Event>, slots: Actor -> set<Slot>) {
    forall k :: 0 <= k < |es| && !es[k].WriteOf? ==> es[k].param.Where() in slots(es[k].actor)
  }

  /** A device whose transactions end as listed. */
  function Recorded(transfers: seq<Transfer>): (respond: Responses)
    ensures Follows(respond, transfers)
  {
    (i: nat) => if 0 <= i < |transfers| then transfers[i] else COMPLETE
  }

  /** The view that an actor, knowing nothing at first, has from its own commands and answers. */
  function OwnView(cs: seq<Command>, senders: seq<Actor>, answers: seq<Answer>, a: Actor): View
    requires |cs| == |senders| == |answers|
  {
    if cs == [] then map[]
    else
      var n := |cs| - 1;
      var before := OwnView(cs[..n], senders[..n], answers[..n], a);
      if senders[n] == a then Observe(before, cs[n], answers[n]) else before
  }

  /** The serial commands are on fields of the layouts of their senders. */
  ghost predicate InLayouts(t: SerialSystem, slots: Actor -> set<Slot>) {
    && |t.done| == |t.senders|
    && (forall k :: 0 <= k < |t.done| ==> t.done[k].param.Where() in slots(t.senders[k]))
    && (forall a :: a in t.asked ==> t.asked[a].command.param.Where() in slots(a))
  }

  lemma {:induction false} SerialInLayouts(
      mem: map<nat, Word>, es: seq<Event>, slots: Actor -> set<Slot>)
    requires OwnLayouts(es, slots)
    ensures InLayouts(Serial(mem, es), slots)
    decreases |es|
  {
    if es != [] {
      var n := |es| - 1;
      assert forall k :: 0 <= k < n ==> es[..n][k] == es[k];
      SerialInLayouts(mem, es[..n], slots);
    }
  }

  /** A command of another actor leaves the own view sound. */
  lemma {:induction false} OthersKeepView(
      respond: Responses, bus: Bus, c: Command, b: Actor, a: Actor, view: View,
      window: Actor -> iset<nat>, slots: Actor -> set<Slot>)
    requires Apart(window, slots) && a != b
    requires c.param.Valid() && c.param.Where() in slots(b) && view.Keys <= slots(a)
    requires Sound(view, bus.mem)
    ensures Sound(view, Execute(respond, bus, c).bus.mem)
  {
    CommandDiscipline(respond, bus, c);
    hide Execute, Decode;
    forall s | s in view
      ensures s.addr != c.param.Address()
    {
      assert s in slots(a);
      assert c.param.Where().addr == c.param.Address();
    }
  }

  lemma {:induction false} OwnViewStep(
      respond: Responses, bus: Bus, c: Command, b: Actor, a: Actor, view: View,
      window: Actor -> iset<nat>, slots: Actor -> set<Slot>)
    requires Apart(window, slots) && c.param.Valid() && c.param.Where() in slots(b)
    requires Sound(view, bus.mem) && view.Keys <= slots(a)
    ensures var out := Execute(respond, bus, c);
            var view' := if b == a then Observe(view, c, out.Seen()) else view;
            Sound(view', out.bus.mem) && view'.Keys <= slots(a)
  {
    hide Execute, Observe, Sound, Layout, Param.Valid;
    if b == a {
      ClientView.ObserveSound(respond, bus, view, c, slots(a));
    } else {
      OthersKeepView(respond, bus, c, b, a, view, window, slots);
    }
  }

  lemma {:induction false} OwnViewSnoc(
      cs: seq<Command>, senders: seq<Actor>, answers: seq<Answer>, c: Command, b: Actor, x: Answer, a: Actor)
    requires |cs| == |senders| == |answers|
    ensures var view := OwnView(cs, senders, answers, a);
            OwnView(cs + [c], senders + [b], answers + [x], a) == if b == a then Observe(view, c, x) else view
  {
    hide Observe;
    assert (cs + [c])[..|cs|] == cs && (senders + [b])[..|cs|] == senders && (answers + [x])[..|cs|] == answers;
  }

  /** The view from a run of commands is sound, and of the own layout. */
  ghost predicate OwnSound(
      respond: Responses, mem: map<nat, Word>, cs: seq<Command>, senders: seq<Actor>,
      slots: Actor -> set<Slot>, a: Actor)
    requires AllValid(cs) && |cs| == |senders|
  {
    var (bus, outs) := ClientView.Run(respond, Bus(mem, []), cs);
    var view := OwnView(cs, senders, Seen(outs), a);
    Sound(view, bus.mem) && view.Keys <= slots(a)
  }

  lemma {:induction false} OwnSoundSnoc(
      respond: Responses, mem: map<nat, Word>, cs: seq<Command>, senders: seq<Actor>, c: Command, b: Actor,
      window: Actor -> iset<nat>, slots: Actor -> set<Slot>, a: Actor)
    requires Apart(window, slots) && AllValid(cs) && |cs| == |senders|
    requires c.param.Valid() && c.param.Where() in slots(b) && AllValid(cs + [c])
    requires OwnSound(respond, mem, cs, senders, slots, a)
    ensures OwnSound(respond, mem, cs + [c], senders + [b], slots, a)
  {
    hide Execute, ClientView.Run, Observe, OwnView, Sound, Apart, Param.Valid, Param.Where, Seen;
    var (mid, outs) := ClientView.Run(respond, Bus(mem, []), cs);
    var out := Execute(respond, mid, c);
    ClientView.RunSnoc(respond, Bus(mem, []), cs, c);
    SeenSnoc(outs, out);
    OwnViewSnoc(cs, senders, Seen(outs), c, b, out.Seen(), a);
    OwnViewStep(respond, mid, c, b, a, OwnView(cs, senders, Seen(outs), a), window, slots);
  }

  lemma {:induction false} OwnViewSound(
      respond: Responses, mem: map<nat, Word>, cs: seq<Command>, senders: seq<Actor>,
      window: Actor -> iset<nat>, slots: Actor -> set<Slot>, a: Actor)
    requires Apart(window, slots) && AllValid(cs) && |cs| == |senders|
    requires forall k :: 0 <= k < |cs| ==> cs[k].param.Where() in slots(senders[k])
    ensures OwnSound(respond, mem, cs, senders, slots, a)
    decreases |cs|
  {
    hide OwnSound, Apart, Param.Valid, Param.Where;
    if cs != [] {
      var n := |cs| - 1;
      OwnViewSound(respond, mem, cs[..n], senders[..n], window, slots, a);
      assert cs[..n] + [cs[n]] == cs && senders[..n] + [senders[n]] == senders;
      OwnSoundSnoc(respond, mem, cs[..n], senders[..n], cs[n], senders[n], window, slots, a);
    } else {
      NothingKnown(respond, mem, slots, a);
    }
  }

  lemma {:induction false} NothingKnown(respond: Responses, mem: map<nat, Word>, slots: Actor -> set<Slot>, a: Actor)
    ensures OwnSound(respond, mem, [], [], slots, a)
  {
  }

  /** Beside other actors in disjoint windows, and whatever the transfers do, what an actor infers
    from its own commands and answers is what the registers hold. */
  lemma {:induction false} ViewsStaySound(
      mem: map<nat, Word>, es: seq<Event>, window: Actor -> iset<nat>, slots: Actor -> set<Slot>, a: Actor, k: nat)
    requires Legal(Start(mem), es) && Apart(window, slots) && OwnLayouts(es, slots) && k <= |es|
    ensures var s, t := Run(Start(mem), es[..k]), Serial(mem, es[..k]);
            && |t.done| == |t.senders| == |s.answers|
            && Sound(OwnView(t.done, t.senders, s.answers, a), s.mem)
  {
    var t := Serial(mem, es[..k]);
    var respond := Recorded(t.transfers);
    assert OwnWindows(es, window) by {
      assert forall j :: 0 <= j < |es| && es[j].ReadFor? ==> es[j].param.Where() in slots(es[j].actor);
    }
    DisjointWindowsAreSerial(respond, mem, es, window, k);
    assert forall j :: 0 <= j < k ==> es[..k][j] == es[j];
    SerialInLayouts(mem, es[..k], slots);
    OwnViewSound(respond, mem, t.done, t.senders, window, slots, a);
    hide OwnView, Sound, Serial, Run, ClientView.Run;
  }

  /** So a successful GET of a field that the actor knows returns what the actor knows. */
  lemma {:induction false} GetReturnsOwnView(
      mem: map<nat, Word>, es: seq<Event>, window: Actor -> iset<nat>, slots: Actor -> set<Slot>, k: nat)
    requires Legal(Start(mem), es) && Apart(window, slots) && OwnLayouts(es, slots)
    requires k < |es| && es[k].GetBy? && es[k].transfer.count == FULL
    ensures var s, t, p := Run(Start(mem), es[..k]), Serial(mem, es[..k]), es[k].param;
            && |t.done| == |t.senders| == |s.answers| && p.Valid()
            && var view := OwnView(t.done, t.senders, s.answers, es[k].actor);
               p.Where() in view ==>
                 && view[p.Where()] < WORD_LIMIT
                 && Step(s, es[k]).answers == s.answers + [Answer(FULL, Some(p.Format(view[p.Where()])))]
  {
    var s, p := Run(Start(mem), es[..k]), es[k].param;
    ViewsStaySound(mem, es, window, slots, es[k].actor, k);
    assert Enabled(s, es[k]);
    DecodeFitsWord(At(s.mem, p.Address()), p.field);
    hide Decode, OwnView;
  }

  function RunFour(s: System, a: Event, b: Event, c: Event, d: Event): (r: System)
    ensures r == Run(s, [a, b, c, d])
  {
    assert [a][..0] == [] && [a, b][..1] == [a] && [a, b, c][..2] == [a, b] && [a, b, c, d][..3] == [a, b, c];
    assert Run(s, [a]) == Step(s, a);
    assert Run(s, [a, b]) == Step(Run(s, [a]), b);
    Step(Step(Step(Step(s, a), b), c), d)
  }

  function SerialFour(mem: map<nat, Word>, a: Event, b: Event, c: Event, d: Event): (r: SerialSystem)
    ensures r == Serial(mem, [a, b, c, d])
  {
    assert [a][..0] == [] && [a, b][..1] == [a] && [a, b, c][..2] == [a, b] && [a, b, c, d][..3] == [a, b, c];
    assert Serial(mem, [a]) == SerialStep(SerialSystem(mem, map[], [], [], []), a);
    assert Serial(mem, [a, b]) == SerialStep(Serial(mem, [a]), b);
    SerialStep(SerialStep(SerialStep(SerialStep(SerialSystem(mem, map[], [], [], []), a), b), c), d)
  }

  /** Two SETs that overlap: both read before either writes. */
  function Overlap(i: Actor, p: Param, v: Word, j: Actor, q: Param, u: Word): seq<Event> {
    [ReadFor(i, p, v, COMPLETE), ReadFor(j, q, u, COMPLETE), WriteOf(i, COMPLETE), WriteOf(j, COMPLETE)]
  }

  lemma {:induction false} OverlapIsLegal(mem: map<nat, Word>, i: Actor, p: Param, v: Word, j: Actor, q: Param, u: Word)
    requires i != j && p.Valid() && q.Valid() && p.Accepts(v) && q.Accepts(u)
    ensures Legal(Start(mem), Overlap(i, p, v, j, q, u))
  {
    var es := Overlap(i, p, v, j, q, u);
    hide Param.Valid, Param.Accepts, Param.Address, Param.NewWord;
    assert es[..0] == [] && es[..1] == [es[0]] && es[..2] == [es[0], es[1]] && es[..3] == [es[0], es[1], es[2]];
    assert [es[0]][..0] == [] && [es[0], es[1]][..1] == [es[0]] && [es[0], es[1], es[2]][..2] == [es[0], es[1]];
    var s1 := Step(Start(mem), es[0]);
    var s2 := Step(s1, es[1]);
    assert Run(Start(mem), es[..1]) == s1;
    assert Run(Start(mem), es[..2]) == s2;
    assert Run(Start(mem), es[..3]) == Step(s2, es[2]);
  }

  /** Without that, an update is lost: when two actors set disjoint fields of one register and both
    read before either writes, the register ends as the serial execution leaves it exactly when
    the first SET did not change anything. */
  lemma {:induction false} LostUpdate(mem: map<nat, Word>, i: Actor, p: Param, v: Word, j: Actor, q: Param, u: Word)
    requires i != j && p.Valid() && q.Valid()
    requires p.Address() == q.Address() && Disjoint(p.field, q.field)
    ensures var es, addr := Overlap(i, p, v, j, q, u), p.Address();
            At(Run(Start(mem), es).mem, addr) == At(Serial(mem, es).mem, addr)
            <==> Decode(At(mem, addr), p.field) == p.Stored(v)
  {
    hide Decode, SetWord, ClearWord;
    var es := Overlap(i, p, v, j, q, u);
    var s := RunFour(Start(mem), es[0], es[1], es[2], es[3]);
    var t := SerialFour(mem, es[0], es[1], es[2], es[3]);
    LostUpdateWord(At(mem, p.Address()), p, v, q, u);
  }

  const PARAM_BIT1 := PARAM_BIT0.(field := BIT1)

  /** For example, actor 0 sets bit 0 and actor 1 sets bit 1 of an empty register: bit 0 is lost. */
  lemma {:induction false} LostBit()
    ensures var es := Overlap(0, PARAM_BIT0, 1, 1, PARAM_BIT1, 1);
            && Legal(Start(map[]), es)
            && Decode(At(Run(Start(map[]), es).mem, 0), BIT0) == 0
            && Decode(At(Serial(map[], es).mem, 0), BIT0) == 1
  {
    hide Decode, SetWord, ClearWord;
    OverlapIsLegal(map[], 0, PARAM_BIT0, 1, 1, PARAM_BIT1, 1);
    var es := Overlap(0, PARAM_BIT0, 1, 1, PARAM_BIT1, 1);
    var s := RunFour(Start(map[]), es[0], es[1], es[2], es[3]);
    var t := SerialFour(map[], es[0], es[1], es[2], es[3]);
    NewWordFrame(PARAM_BIT1, 0, 1, BIT0);
    NewWordDecodes(PARAM_BIT0, 0, 1);
    NewWordFrame(PARAM_BIT1, PARAM_BIT0.NewWord(0, 1), 1, BIT0);
    DecodeBit0();
  }

  lemma {:induction false} DecodeBit0()
    ensures Decode(0, BIT0) == 0
  {
    DecodeIsDivMod(0, BIT0);
  }

  lemma {:induction false} LostUpdateWord(before: Word, p: Param, v: Word, q: Param, u: Word)
    requires p.Valid() && q.Valid() && Disjoint(p.field, q.field)
    ensures q.NewWord(before, u) == q.NewWord(p.NewWord(before, v), u)
        <==> Decode(before, p.field) == p.Stored(v)
  {
    var first := p.NewWord(before, v);
    NewWordFrame(q, before, u, p.field);
    NewWordFrame(q, first, u, p.field);
    NewWordDecodes(p, before, v);
    if Decode(before, p.field) == p.Stored(v) {
      SettingSameValue(before, p, v);
    }
  }

  /** Setting a field to what it already holds changes nothing. */
  lemma {:induction false} SettingSameValue(word: Word, p: Param, v: Word)
    requires p.Valid() && Decode(word, p.field) == p.Stored(v)
    ensures p.NewWord(word, v) == word
  {
    var f, v' := p.field, if p.clear then 0 else v;
    NewWordIsSetWord(p, word, v);
    forall i: nat
      ensures Bit(SetWord(word, f, v'), i) == Bit(word, i)
    {
      BitOfSetWord(word, f, v', i);
      if f.Covers(i) {
        BitOfDecode(word, f, i - f.offset);
      }
    }
    Extensional(SetWord(word, f, v'), word);
  }
}
