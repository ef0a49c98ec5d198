/** Requests for acquisitions: which ones the driver accepts, whether what it then sets up can be read
  back, and what a client gets that asks for an acquisition and its curve in one call. */
module AcqRequest {
  import opened AcqBlocks
  import opened AcqCurve
  import opened Bits
  import opened Fields
  import opened Prelude
  import Wbgen

  const ACQ_OK := 0
  const ACQ_NUM_SAMPLES_OOR := 2
  const ACQ_NOT_COMPLETED := 3
  const ACQ_NUM_CHAN_OOR := 5
  const ACQ_TRIG_TYPE := 7
  const ACQ_FC_FULL := 8

  /** DDR3_PAYLOAD_SIZE: what the FPGA writes at once, in bytes. */
  const PAYLOAD: nat := 32

  datatype Request = Request(chan: Word, pre: Word, post: Word, shots: Word)

  /** What the driver keeps of the last acquisition on a channel. */
  datatype Params = Params(pre: Word, post: Word, preAligned: Word, postAligned: Word, shots: Word, trigger: Word)

  /** The state of the acquisition core. */
  datatype Status = Idle | Busy | Overflow

  /** The properties of a channel as the driver sets them up. */
  predicate ValidChannel(ch: Channel) {
    && ch.start < ch.end <= MEMORY_SIZE
    && 0 < ch.sampleSize <= PAYLOAD && BLOCK_SIZE % ch.sampleSize == 0
    && ch.maxSamples == MaxSamples(ch.start, ch.end, ch.sampleSize)
  }

  function MaxSamples(start: nat, end: nat, sampleSize: nat): int
    requires sampleSize > 0
  {
    if end - sampleSize > start then (end - sampleSize - start) / sampleSize else 0
  }

  function AcquisitionOf(ch: Channel, p: Params): Acquisition {
    Acquisition(ch, p.pre, p.post, p.preAligned, p.postAligned, p.shots, p.trigger)
  }

  // ----- which requests are accepted, and what is set up for them

  /** The answer to a request; with `skip` the trigger is skipped. */
  function Verdict(channels: seq<Channel>, ram: Word, r: Request, status: Status, skip: bool): int {
    if status.Overflow? then -ACQ_FC_FULL
    else if !status.Idle? then -ACQ_NOT_COMPLETED
    else if r.chan >= |channels| then -ACQ_NUM_CHAN_OOR
    else if r.shots < 1 then -ACQ_NUM_CHAN_OOR
    else if (r.pre + r.post) % WORD_LIMIT > (if r.shots == 1 then channels[r.chan].maxSamples else ram)
    then -ACQ_NUM_SAMPLES_OOR
    else if skip && r.post > 0 then -ACQ_TRIG_TYPE
    else -ACQ_OK
  }

  /** A single shot asks for more samples than the channel holds, or several for more per shot than the
    memory for several shots does; the sum is taken on uint32_t. */
  predicate TooMany(maxSamples: int, ram: Word, r: Request) {
    || (r.shots == 1 && (r.pre + r.post) % WORD_LIMIT > maxSamples)
    || (r.shots > 1 && (r.pre + r.post) % WORD_LIMIT > ram)
  }

  /** The numbers that go back to a client. */
  lemma {:induction false} AnswersInNumbers(
      channels: seq<Channel>, ram: Word, r: Request, status: Status, skip: bool)
    ensures var verdict := Verdict(channels, ram, r, status, skip);
            match status
            case Overflow => verdict == -8
            case Busy => verdict == -3
            case Idle =>
              if r.chan >= |channels| || r.shots == 0 then verdict == -5
              else if TooMany(channels[r.chan].maxSamples, ram, r) then verdict == -2
              else verdict == if skip && r.post > 0 then -7 else 0
  {
  }

  /** A channel holds n samples when one more fits its memory. */
  lemma {:induction false} MaxSamplesExact(start: nat, end: nat, sampleSize: nat, n: nat)
    requires 0 < sampleSize && start + sampleSize < end
    ensures n <= MaxSamples(start, end, sampleSize) <==> (n + 1) * sampleSize <= end - start
  {
    var room := end - sampleSize - start;
    var q := room / sampleSize;
    assert room == q * sampleSize + room % sampleSize;
    OneMoreSample(n, sampleSize);
    if n <= q {
      MulMonotone(n, q, sampleSize);
    } else {
      MulGrows(q, n, sampleSize);
    }
  }

  lemma {:induction false} OneMoreSample(n: int, d: int)
    ensures (n + 1) * d == n * d + d
  {
  }

  /** What the limit is for: the samples of an accepted single shot fit the memory of the channel. */
  lemma {:induction false} AcceptedShotFits(channels: seq<Channel>, ram: Word, r: Request, status: Status, skip: bool)
    requires Verdict(channels, ram, r, status, skip) == -ACQ_OK && r.shots == 1
    requires ValidChannel(channels[r.chan]) && 0 < r.pre + r.post < WORD_LIMIT
    ensures var ch := channels[r.chan];
            (r.pre + r.post) * ch.sampleSize + ch.sampleSize <= ch.end - ch.start
  {
    var ch, n := channels[r.chan], r.pre + r.post;
    DivModUnique(n, WORD_LIMIT, 0, n);
    hide ValidChannel, Verdict;
    MaxSamplesOfOne(ch, n);
    OneMoreSample(n, ch.sampleSize);
  }

  lemma {:induction false} MaxSamplesOfOne(ch: Channel, n: nat)
    requires ValidChannel(ch) && 0 < n <= ch.maxSamples
    ensures (n + 1) * ch.sampleSize <= ch.end - ch.start
  {
    MaxSamplesExact(ch.start, ch.end, ch.sampleSize, n);
  }

  /** The samples taken, on uint32_t. */
  function Aligned32(samples: Word, ch: Channel, optional: bool): Word
    requires ValidChannel(ch)
  {
    AlignmentPositive(ch);
    Aligned(samples, PAYLOAD / ch.sampleSize, optional) % WORD_LIMIT
  }

  function ParamsFor(ch: Channel, r: Request, skip: bool, trigger: Word): Params
    requires ValidChannel(ch)
  {
    Params(r.pre, r.post, Aligned32(r.pre, ch, false), Aligned32(r.post, ch, skip), r.shots, trigger)
  }

  lemma {:induction false} AlignmentPositive(ch: Channel)
    requires ValidChannel(ch)
    ensures 0 < PAYLOAD / ch.sampleSize <= PAYLOAD
  {
    var q := PAYLOAD / ch.sampleSize;
    assert PAYLOAD == q * ch.sampleSize + PAYLOAD % ch.sampleSize;
    if q < 1 {
      MulMonotone(q, 0, ch.sampleSize);
    }
    if q > PAYLOAD {
      MulGrows(PAYLOAD, q, ch.sampleSize);
      MulMonotone(1, ch.sampleSize, PAYLOAD);
    }
  }

  /** What is set up for a request: as asked for, and on either side of the trigger the least multiple of
    the alignment that holds it; before the trigger, and after it unless it is skipped, at least one
    alignment. */
  lemma {:induction false} SetUpLeast(ch: Channel, r: Request, skip: bool, trigger: Word)
    requires ValidChannel(ch) && r.pre < 0x8000_0000 && r.post < 0x8000_0000
    ensures var p, k := ParamsFor(ch, r, skip, trigger), PAYLOAD / ch.sampleSize;
            && p.pre == r.pre && p.post == r.post && p.shots == r.shots && p.trigger == trigger
            && 0 < k
            && p.preAligned % k == 0 && p.postAligned % k == 0
            && (if r.pre == 0 then p.preAligned == k else r.pre <= p.preAligned < r.pre + k)
            && (if r.post == 0 then p.postAligned == (if skip then 0 else k)
                else r.post <= p.postAligned < r.post + k)
  {
    AlignmentPositive(ch);
    var k := PAYLOAD / ch.sampleSize;
    AlignedExact(r.pre, k, false);
    AlignedExact(r.post, k, skip);
    hide Aligned, MaxSamples;
    DivModUnique(Aligned(r.pre, k, false), WORD_LIMIT, 0, Aligned(r.pre, k, false));
    DivModUnique(Aligned(r.post, k, skip), WORD_LIMIT, 0, Aligned(r.post, k, skip));
  }

  /** The bytes that the FPGA takes for a request, in exact arithmetic. */
  function BytesTaken(ch: Channel, r: Request, skip: bool): int
    requires ValidChannel(ch)
  {
    AlignmentPositive(ch);
    var k := PAYLOAD / ch.sampleSize;
    r.shots * ((Aligned(r.pre, k, false) + Aligned(r.post, k, skip)) * ch.sampleSize)
  }

  /** On uint32_t the aligned number is exact as soon as it is not less than the number itself. */
  lemma {:induction false} NotWrapped(samples: Word, ch: Channel, optional: bool)
    requires ValidChannel(ch)
    ensures var k := PAYLOAD / ch.sampleSize;
            && 0 < k
            && samples <= Aligned(samples, k, optional)
            && (!optional ==> 0 < Aligned(samples, k, optional))
            && (samples <= Aligned32(samples, ch, optional) || Aligned(samples, k, optional) < WORD_LIMIT
                ==> Aligned32(samples, ch, optional) == Aligned(samples, k, optional))
  {
    AlignmentPositive(ch);
    var k := PAYLOAD / ch.sampleSize;
    AlignedExact(samples, k, optional);
    hide ValidChannel;
    var n := Aligned(samples, k, optional);
    assert n <= samples + k;
    hide Aligned;
    if n < WORD_LIMIT {
      DivModUnique(n, WORD_LIMIT, 0, n);
    } else {
      DivModUnique(n, WORD_LIMIT, 1, n - WORD_LIMIT);
    }
  }

  /** The padding in front of its first shot. */
  function FrontPad(ch: Channel, r: Request): int
    requires ValidChannel(ch)
  {
    AlignmentPositive(ch);
    (Aligned(r.pre, PAYLOAD / ch.sampleSize, false) - r.pre) * ch.sampleSize
  }

  /** The samples asked for by an accepted request are still in the memory when it is complete exactly
    when there is at least one and what is taken, without the padding in front, fits the memory.
    The driver tests neither. */
  lemma {:induction false} AcceptedKeptExact(
      channels: seq<Channel>, ram: Word, r: Request, status: Status, skip: bool, trigger: Word)
    requires Verdict(channels, ram, r, status, skip) == -ACQ_OK
    requires ValidChannel(channels[r.chan]) && channels[r.chan].start <= trigger <= channels[r.chan].end
    ensures var ch := channels[r.chan];
            var a := AcquisitionOf(ch, ParamsFor(ch, r, skip, trigger));
            a.SetUp() && Kept(GeometryOf(a))
            <==> r.pre + r.post > 0 && BytesTaken(ch, r, skip) - FrontPad(ch, r) <= ch.end - ch.start
  {
    var ch := channels[r.chan];
    var a := AcquisitionOf(ch, ParamsFor(ch, r, skip, trigger));
    SetUpExact(ch, r, skip, trigger);
    hide ParamsFor, BytesTaken, FrontPad, ValidChannel, Acquisition.SetUp, Kept;
    if a.SetUp() {
      KeptExact(GeometryOf(a));
    } else if r.pre + r.post > 0 {
      WrappedIsTooMuch(ch, r, skip);
    }
  }

  /** The driver's numbers make sense exactly when something is asked for and aligning it has not
    wrapped around on uint32_t; they are then the exact ones. */
  lemma {:induction false} SetUpExact(ch: Channel, r: Request, skip: bool, trigger: Word)
    requires ValidChannel(ch) && r.shots > 0 && ch.start <= trigger <= ch.end
    ensures var a, k := AcquisitionOf(ch, ParamsFor(ch, r, skip, trigger)), PAYLOAD / ch.sampleSize;
            && 0 < k
            && (a.SetUp() <==> r.pre + r.post > 0
                               && Aligned(r.pre, k, false) < WORD_LIMIT && Aligned(r.post, k, skip) < WORD_LIMIT)
            && (a.SetUp() ==>
                  && GeometryOf(a).ring == ch.end - ch.start
                  && GeometryOf(a).shots * GeometryOf(a).aligned == BytesTaken(ch, r, skip)
                  && GeometryOf(a).pad == FrontPad(ch, r))
  {
    NotWrapped(r.pre, ch, false);
    NotWrapped(r.post, ch, skip);
    hide Aligned, Aligned32, MaxSamples, Geometry.Laid;
  }

  lemma {:induction false} WrappedIsTooMuch(ch: Channel, r: Request, skip: bool)
    requires ValidChannel(ch) && r.shots > 0 && 0 < PAYLOAD / ch.sampleSize
    requires var k := PAYLOAD / ch.sampleSize;
             Aligned(r.pre, k, false) >= WORD_LIMIT || Aligned(r.post, k, skip) >= WORD_LIMIT
    ensures BytesTaken(ch, r, skip) - FrontPad(ch, r) > ch.end - ch.start
  {
    var k := PAYLOAD / ch.sampleSize;
    AlignedExact(r.pre, k, false);
    AlignedExact(r.post, k, skip);
    AlignmentPositive(ch);
    hide Aligned, MaxSamples;
    TooMuch(r.pre, Aligned(r.pre, k, false), Aligned(r.post, k, skip), r.shots, ch.sampleSize);
  }

  lemma {:induction false} TooMuch(pre: nat, m: nat, n: nat, shots: nat, sampleSize: nat)
    requires 0 < shots && 0 < sampleSize && m <= pre + PAYLOAD && (WORD_LIMIT <= m || WORD_LIMIT <= n)
    ensures shots * ((m + n) * sampleSize) - (m - pre) * sampleSize > MEMORY_SIZE
  {
    MulMonotone(0, m + n, sampleSize);
    MulMonotone(1, shots, (m + n) * sampleSize);
    Distribute(pre + n, m - pre, sampleSize);
    MulMonotone(1, sampleSize, pre + n);
  }

  /** The model of the reader is for acquisitions of which everything that is taken fits. */
  lemma {:induction false} AcceptedFitsExact(
      channels: seq<Channel>, ram: Word, r: Request, status: Status, skip: bool, trigger: Word)
    requires Verdict(channels, ram, r, status, skip) == -ACQ_OK
    requires ValidChannel(channels[r.chan]) && channels[r.chan].start <= trigger <= channels[r.chan].end
    ensures var ch := channels[r.chan];
            AcquisitionOf(ch, ParamsFor(ch, r, skip, trigger)).Valid()
            <==> r.pre + r.post > 0 && BytesTaken(ch, r, skip) <= ch.end - ch.start
  {
    var ch := channels[r.chan];
    var a, k := AcquisitionOf(ch, ParamsFor(ch, r, skip, trigger)), PAYLOAD / ch.sampleSize;
    SetUpExact(ch, r, skip, trigger);
    AllTaken(a);
    hide ParamsFor, Aligned, MaxSamples, Acquisition.SetUp, Acquisition.AlignedBytes, GeometryOf;
    if r.pre + r.post > 0 && BytesTaken(ch, r, skip) <= ch.end - ch.start && !a.SetUp() {
      TakesRoom(Aligned(r.pre, k, false) + Aligned(r.post, k, skip), ch.sampleSize, r.shots, MEMORY_SIZE);
    }
  }

  lemma {:induction false} AllTaken(a: Acquisition)
    ensures a.SetUp() ==> a.shots * a.AlignedBytes() == GeometryOf(a).shots * GeometryOf(a).aligned
  {
  }

  lemma {:induction false} TakesRoom(samples: nat, sampleSize: nat, shots: nat, room: nat)
    requires 0 < sampleSize && 0 < shots && shots * (samples * sampleSize) <= room
    ensures samples <= room
  {
    MulMonotone(1, sampleSize, samples);
    MulMonotone(1, shots, samples * sampleSize);
  }

  const SMALL := Channel(0, 0x1000, 4, 1023)

  /** 100 shots of 16 samples are accepted for a memory that holds 64 of them, and the first byte asked
    for is written over. */
  const MANY_SHOTS := Request(0, 8, 8, 100)

  const MANY_TAKEN := AcquisitionOf(SMALL, Params(8, 8, 8, 8, 100, 0x20))

  lemma {:induction false} ManyShotsAccepted()
    ensures ValidChannel(SMALL) && Verdict([SMALL], 2048, MANY_SHOTS, Idle, false) == -ACQ_OK
    ensures ParamsFor(SMALL, MANY_SHOTS, false, 0x20) == Params(8, 8, 8, 8, 100, 0x20)
  {
    hide MANY_TAKEN;
  }

  lemma {:induction false} ManyShotsTaken()
    ensures MANY_TAKEN.SetUp() && GeometryOf(MANY_TAKEN) == Geometry(64, 64, 0, 100, 0, 0x1000, 0)
  {
  }

  lemma {:induction false} AcceptedIsOverwritten()
    ensures ValidChannel(SMALL) && Verdict([SMALL], 2048, MANY_SHOTS, Idle, false) == -ACQ_OK
    ensures MANY_TAKEN == AcquisitionOf(SMALL, ParamsFor(SMALL, MANY_SHOTS, false, 0x20))
    ensures MANY_TAKEN.SetUp()
    ensures Overwrites(GeometryOf(MANY_TAKEN), GeometryOf(MANY_TAKEN).Taken(0), 0x1000)
  {
    hide ValidChannel, ParamsFor, GeometryOf, Acquisition.SetUp, Overwrites, Geometry.Taken;
    ManyShotsAccepted();
    ManyShotsTaken();
    FirstOverwritten(GeometryOf(MANY_TAKEN), 6400);
  }

  /** 1500 samples are too many for one shot on this channel, but not for each of two shots. */
  lemma {:induction false} OneShotIsLimited()
    ensures Verdict([SMALL], 2048, Request(0, 750, 750, 1), Idle, false) == -ACQ_NUM_SAMPLES_OOR
    ensures Verdict([SMALL], 2048, Request(0, 750, 750, 2), Idle, false) == -ACQ_OK
    ensures Verdict([SMALL], 2048, Request(0, 1500, 750, 2), Idle, false) == -ACQ_NUM_SAMPLES_OOR
  {
  }

  /** 1023 samples after the trigger are accepted; with 32 bytes of padding in front they do not fit,
    but only the padding is written over. */
  const ALL_AFTER := Request(0, 0, 1023, 1)

  lemma {:induction false} OnlyPaddingOverwritten()
    ensures ValidChannel(SMALL) && Verdict([SMALL], 2048, ALL_AFTER, Idle, false) == -ACQ_OK
    ensures BytesTaken(SMALL, ALL_AFTER, false) == 4128 && FrontPad(SMALL, ALL_AFTER) == 32
    ensures ParamsFor(SMALL, ALL_AFTER, false, 0x20) == Params(0, 1023, 8, 1024, 1, 0x20)
    ensures var a := AcquisitionOf(SMALL, Params(0, 1023, 8, 1024, 1, 0x20));
            a.SetUp() && !a.Valid() && Kept(GeometryOf(a))
  {
    var a := AcquisitionOf(SMALL, Params(0, 1023, 8, 1024, 1, 0x20));
    KeptExact(GeometryOf(a));
  }

  /** The number of shots is written to a field of 16 bits: the FPGA takes as many as are asked for
    exactly when there are fewer than 2^16. */
  lemma {:induction false} ShotsWritten(shots: Word)
    ensures Wbgen.Write(32, shots, 0, 16) == shots <==> shots < 0x1_0000
  {
    hide *;
    Powers();
    Wbgen.WriteIsModMul(32, shots, 0, 16);
    DivideByTwoTo16(shots);
  }

  /** With 2^16 shots a 0 is written. */
  lemma {:induction false} NoShotsWritten()
    ensures Wbgen.Write(32, 0x1_0000, 0, 16) == 0
  {
    hide *;
    Powers();
    Wbgen.WriteIsModMul(32, 0x1_0000, 0, 16);
  }

  lemma {:induction false} DivideByTwoTo16(n: nat)
    ensures n % 0x1_0000 == n <==> n < 0x1_0000
  {
  }

  // ----- the driver's state

  /** An accepted request. */
  datatype Started = Started(request: Request, skip: bool)

  /** The last accepted request on a channel. */
  function LastOn(history: seq<Started>, chan: nat): Option<nat> {
    if history == [] then None
    else if history[|history| - 1].request.chan == chan then Some(|history| - 1)
    else LastOn(history[..|history| - 1], chan)
  }

  lemma {:induction false} LastOnSnoc(history: seq<Started>, s: Started, chan: nat)
    ensures LastOn(history + [s], chan) == if s.request.chan == chan then Some(|history|) else LastOn(history, chan)
    ensures LastOn(history, chan).Some? ==> LastOn(history, chan).value < |history|
    decreases |history|
  {
    assert (history + [s])[..|history|] == history;
    if history != [] {
      var n := |history| - 1;
      assert history[..n] + [history[n]] == history;
      LastOnSnoc(history[..n], history[n], chan);
    }
  }

  /** The parameters of a channel are those of the last request accepted for it, save the trigger. */
  ghost predicate Reflects(channels: seq<Channel>, params: seq<Params>, history: seq<Started>, c: nat)
    requires c < |channels| == |params| && ValidChannel(channels[c])
  {
    var last := LastOn(history, c);
    last.Some? ==>
      && last.value < |history|
      && params[c] == ParamsFor(channels[c], history[last.value].request, history[last.value].skip, params[c].trigger)
  }

  ghost predicate Consistent(channels: seq<Channel>, params: seq<Params>, history: seq<Started>) {
    && |params| == |channels|
    && (forall c :: 0 <= c < |channels| ==> ValidChannel(channels[c]))
    && (forall c :: 0 <= c < |channels| ==> Reflects(channels, params, history, c))
  }

  /** The trigger position is the only parameter that the request does not determine. */
  lemma {:induction false} SetUpOnce(ch: Channel, r: Request, skip: bool)
    requires ValidChannel(ch)
    ensures forall t: Word :: ParamsFor(ch, r, skip, t).trigger == t
    ensures forall t: Word, u: Word :: ParamsFor(ch, r, skip, t).(trigger := u) == ParamsFor(ch, r, skip, u)
  {
    hide Aligned32;
  }

  lemma {:induction false} AcceptKeeps(
      channels: seq<Channel>, params: seq<Params>, history: seq<Started>, s: Started, trigger: Word)
    requires Consistent(channels, params, history) && s.request.chan < |channels|
    ensures var c := s.request.chan;
            Consistent(channels, params[c := ParamsFor(channels[c], s.request, s.skip, trigger)], history + [s])
  {
    hide LastOn, ParamsFor, ValidChannel;
    SetUpOnce(channels[s.request.chan], s.request, s.skip);
    var chan := s.request.chan;
    var params' := params[chan := ParamsFor(channels[chan], s.request, s.skip, trigger)];
    forall c | 0 <= c < |channels|
      ensures Reflects(channels, params', history + [s], c)
    {
      assert Reflects(channels, params, history, c);
      LastOnSnoc(history, s, c);
    }
  }

  lemma {:induction false} CheckKeeps(
      channels: seq<Channel>, params: seq<Params>, history: seq<Started>, current: nat, trigger: Word)
    requires Consistent(channels, params, history) && current < |channels|
    ensures Consistent(channels, params[current := params[current].(trigger := trigger)], history)
  {
    hide LastOn, ParamsFor, ValidChannel;
    var last, params' := LastOn(history, current), params[current := params[current].(trigger := trigger)];
    assert Reflects(channels, params, history, current);
    if last.Some? {
      SetUpOnce(channels[current], history[last.value].request, history[last.value].skip);
    }
    forall c | 0 <= c < |channels|
      ensures Reflects(channels, params', history, c)
    {
      assert Reflects(channels, params, history, c);
    }
  }

  lemma {:induction false} NothingAccepted(channels: seq<Channel>, params: seq<Params>)
    requires |params| == |channels| && forall c :: 0 <= c < |channels| ==> ValidChannel(channels[c])
    ensures Consistent(channels, params, [])
  {
  }

  /** The parts of the driver's state that requests and readers share. */
  class Driver {
    const channels: seq<Channel>
    const ram: Word
    var params: seq<Params>
    var current: nat
    ghost var history: seq<Started>

    ghost predicate Valid()
      reads this
    {
      |channels| > 0 && current < |channels| == |params| && Consistent(channels, params, history)
    }

    constructor (channels: seq<Channel>, ram: Word, defaults: Params)
      requires |channels| > 0 && forall c :: 0 <= c < |channels| ==> ValidChannel(channels[c])
      ensures Valid() && history == [] && current == 0
      ensures this.channels == channels && this.ram == ram
    {
      this.channels := channels;
      this.ram := ram;
      params := seq(|channels|, _ => defaults);
      current := 0;
      history := [];
      NothingAccepted(channels, seq(|channels|, _ => defaults));
    }

    /** _acq_data_acquire. */
    method Acquire(r: Request, status: Status, skip: bool) returns (ret: int)
      requires Valid()
      modifies this
      ensures Valid()
      ensures ret == Verdict(channels, ram, r, status, skip)
      ensures ret == -ACQ_FC_FULL <==> status.Overflow?
      ensures ret == -ACQ_NOT_COMPLETED <==> status.Busy?
      ensures ret == -ACQ_NUM_CHAN_OOR <==> status.Idle? && (r.chan >= |channels| || r.shots == 0)
      ensures ret == -ACQ_NUM_SAMPLES_OOR <==>
                status.Idle? && r.chan < |channels| && TooMany(channels[r.chan].maxSamples, ram, r)
      ensures ret == -ACQ_TRIG_TYPE <==>
                && status.Idle? && r.chan < |channels| && r.shots > 0
                && !TooMany(channels[r.chan].maxSamples, ram, r) && skip && r.post > 0
      ensures ret in {-ACQ_OK, -ACQ_NUM_SAMPLES_OOR, -ACQ_NOT_COMPLETED,
                      -ACQ_NUM_CHAN_OOR, -ACQ_TRIG_TYPE, -ACQ_FC_FULL}
      ensures ret == -ACQ_OK ==>
                && history == old(history) + [Started(r, skip)] && current == r.chan
                && params == old(params)[r.chan := ParamsFor(channels[r.chan], r, skip, old(params)[r.chan].trigger)]
      ensures ret != -ACQ_OK ==> history == old(history) && current == old(current) && params == old(params)
    {
      hide ParamsFor, Reflects;
      if status.Overflow? {
        return -ACQ_FC_FULL;
      }
      if !status.Idle? {
        return -ACQ_NOT_COMPLETED;
      }
      if r.chan >= |channels| {
        return -ACQ_NUM_CHAN_OOR;
      }
      if r.shots < 1 {
        return -ACQ_NUM_CHAN_OOR;
      }
      var samples := (r.pre + r.post) % WORD_LIMIT;
      if (r.shots == 1 && samples > channels[r.chan].maxSamples) || (r.shots > 1 && samples > ram) {
        return -ACQ_NUM_SAMPLES_OOR;
      }
      if skip && r.post > 0 {
        return -ACQ_TRIG_TYPE;
      }
      AcceptKeeps(channels, params, history, Started(r, skip), params[r.chan].trigger);
      params := params[r.chan := ParamsFor(channels[r.chan], r, skip, params[r.chan].trigger)];
      current := r.chan;
      history := history + [Started(r, skip)];
      ret := -ACQ_OK;
    }

    /** _acq_check_data_acquire, given the trigger position when the acquisition is complete. */
    method Check(completed: Option<Word>) returns (ok: bool)
      requires Valid()
      modifies this
      ensures Valid() && history == old(history) && current == old(current)
      ensures ok == completed.Some?
      ensures params
           == if ok then old(params)[current := old(params)[current].(trigger := completed.value)] else old(params)
    {
      hide Consistent;
      if completed.Some? {
        CheckKeeps(channels, params, history, current, completed.value);
        params := params[current := params[current].(trigger := completed.value)];
      }
      ok := completed.Some?;
    }
  }

  // ----- a request and its curve in one call

  /** The acquisition that a channel serves after a request was answered and the core reported
    completion: set up for this request when it was accepted, and otherwise the one before. */
  function ServedAfter(
      channels: seq<Channel>, ram: Word, params: seq<Params>, current: nat,
      r: Request, status: Status, skip: bool, trigger: Word): Acquisition
    requires |params| == |channels| && current < |channels| && r.chan < |channels|
    requires forall c :: 0 <= c < |channels| ==> ValidChannel(channels[c])
  {
    var ch, p := channels[r.chan], params[r.chan];
    AcquisitionOf(ch,
      if Verdict(channels, ram, r, status, skip) == -ACQ_OK then ParamsFor(ch, r, skip, trigger)
      else if current == r.chan then p.(trigger := trigger)
      else p)
  }

  /** The samples that the client expects, on uint32_t. */
  function Asked(r: Request): Word {
    ((r.pre + r.post) % WORD_LIMIT * r.shots) % WORD_LIMIT
  }

  /** _acq_full: the answer to the request is dropped.  The curve is that of the acquisition that the
    channel serves, and this is the one started by this very call exactly when the request was
    accepted. */
  method AcquireAndGet(
      d: Driver, r: Request, status: Status, skip: bool, completed: Option<Word>, room: nat,
      completes: nat -> nat -> bool, interrupted: nat -> bool)
    returns (ok: bool, data: seq<nat>)
    requires d.Valid()
    requires completed.Some? && r.chan < |d.channels| ==>
               ServedAfter(d.channels, d.ram, d.params, d.current, r, status, skip, completed.value).Valid()
    modifies d
    ensures d.Valid()
    ensures ok ==> completed.Some? && r.chan < |d.channels|
    ensures completed.Some? && r.chan < |d.channels| ==>
              var a := ServedAfter(d.channels, d.ram, old(d.params), old(d.current), r, status, skip, completed.value);
              var last := LastAsked(Asked(r) * a.chan.sampleSize);
              && a == AcquisitionOf(d.channels[r.chan], d.params[r.chan])
              && (ok ==> 0 <= last <= LastBlock(GeometryOf(a)) && InRange(a, last))
              && (ok && AllReadRight(a) ==> data == Wanted(GeometryOf(a), 0, Min(room, UpTo(GeometryOf(a), last + 1))))
              && (ok && a.shots > 1 ==>
                    (data == Wanted(GeometryOf(a), 0, Min(room, UpTo(GeometryOf(a), last + 1)))
                     <==> CurveRight(GeometryOf(a), room, last)))
              && (ok <==> last >= 0 && Served(a, last, completes, interrupted))
    ensures LastOn(d.history, r.chan) == Some(|old(d.history)|)
       <==> Verdict(d.channels, d.ram, r, status, skip) == -ACQ_OK
  {
    hide ParamsFor, ValidChannel, LastOn, InRange, Served, AllReadRight, CurveRight, Wanted, UpTo, LastAsked, LastBlock,
      GeometryOf, Acquisition.SetUp, Acquisition.AlignedBytes;
    LastOnSnoc(d.history, Started(r, skip), r.chan);
    var ret := d.Acquire(r, status, skip);
    var done := d.Check(completed);
    data := [];
    if !done || r.chan >= |d.channels| {
      return false, data;
    }
    SetUpOnce(d.channels[r.chan], r, skip);
    var a := AcquisitionOf(d.channels[r.chan], d.params[r.chan]);
    MulMonotone(0, Asked(r), a.chan.sampleSize);
    ok, data := GetCurve(a, Asked(r), room, completes, interrupted);
  }

  /** When the request was accepted and fits, the client asks for all of it, and is served exactly when
    the last block is not full. */
  lemma {:induction false} OwnCurveExact(
      channels: seq<Channel>, ram: Word, r: Request, status: Status, skip: bool, trigger: Word)
    requires Verdict(channels, ram, r, status, skip) == -ACQ_OK && ValidChannel(channels[r.chan])
    requires AcquisitionOf(channels[r.chan], ParamsFor(channels[r.chan], r, skip, trigger)).Valid()
    ensures var ch := channels[r.chan];
            var a := AcquisitionOf(ch, ParamsFor(ch, r, skip, trigger));
            && Asked(r) * ch.sampleSize == GeometryOf(a).Total()
            && (InRange(a, LastAsked(Asked(r) * ch.sampleSize)) <==> GeometryOf(a).Total() % BLOCK_SIZE != 0)
  {
    var ch := channels[r.chan];
    var a := AcquisitionOf(ch, ParamsFor(ch, r, skip, trigger));
    hide GeometryOf, Acquisition.AlignedBytes, Geometry.Laid, LastBlock, MaxSamples;
    SamplesFit(a);
    SamplesInBytes(a);
    var samples := (r.pre + r.post) * r.shots;
    DivModUnique(r.pre + r.post, WORD_LIMIT, 0, r.pre + r.post);
    DivModUnique(samples, WORD_LIMIT, 0, samples);
    AskedExact(GeometryOf(a));
    GeometryEnds(a);
    TotalInMemory(GeometryOf(a));
    SamplesHeld(samples, ch.start, ch.end, ch.sampleSize);
    LastOf(GeometryOf(a));
    hide Acquisition.SetUp, ValidChannel, Geometry.Total;
    LastIsHeld(samples, ch.maxSamples, ch.sampleSize);
  }

  /** Samples that fit the memory are at most one more than the channel says it can hold. */
  lemma {:induction false} SamplesHeld(samples: nat, start: nat, end: nat, sampleSize: nat)
    requires 0 < sampleSize && start < end && samples * sampleSize <= end - start
    ensures samples <= MaxSamples(start, end, sampleSize) + 1
  {
    var room := end - sampleSize - start;
    if room > 0 {
      var q := room / sampleSize;
      assert room == q * sampleSize + room % sampleSize;
      if samples > q + 1 {
        MulMonotone(q + 2, samples, sampleSize);
        TwoMore(q, sampleSize);
      }
    } else if samples > 1 {
      MulGrows(1, samples, sampleSize);
    }
  }

  lemma {:induction false} TwoMore(q: int, d: int)
    ensures (q + 2) * d == q * d + d + d
  {
  }

  /** The last block begins with a sample that the channel says it can hold. */
  lemma {:induction false} LastIsHeld(samples: nat, held: int, sampleSize: nat)
    requires 0 < samples <= held + 1 && 0 < sampleSize && BLOCK_SIZE % sampleSize == 0
    ensures (samples * sampleSize - 1) / BLOCK_SIZE <= held * sampleSize / BLOCK_SIZE
  {
    var perBlock := BLOCK_SIZE / sampleSize;
    var n := (samples * sampleSize - 1) / BLOCK_SIZE;
    assert BLOCK_SIZE == perBlock * sampleSize;
    MulGrows(0, samples, sampleSize);
    assert n * BLOCK_SIZE <= samples * sampleSize - 1;
    var first := n * perBlock;
    Regroup(n, perBlock, sampleSize);
    if first >= samples {
      MulMonotone(samples, first, sampleSize);
    }
    MulMonotone(first, held, sampleSize);
    WholeBlocks(n, held * sampleSize);
  }

  lemma {:induction false} WholeBlocks(n: int, bytes: int)
    requires n * BLOCK_SIZE <= bytes
    ensures n <= bytes / BLOCK_SIZE
  {
  }

  lemma {:induction false} LastOf(g: Geometry)
    ensures LastBlock(g) == (g.Total() - 1) / BLOCK_SIZE
  {
  }

  /** What is read back does not wrap around on uint32_t. */
  lemma {:induction false} SamplesFit(a: Acquisition)
    requires a.Valid()
    ensures 0 < a.pre + a.post < 0x1_0000_0000 && 0 < (a.pre + a.post) * a.shots < 0x1_0000_0000
  {
    hide GeometryOf, Acquisition.AlignedBytes, Geometry.Laid, Geometry.Total;
    SamplesInBytes(a);
    TotalInMemory(GeometryOf(a));
    FactorsFit(a.pre + a.post, a.shots, a.chan.sampleSize, GeometryOf(a).Total());
  }

  lemma {:induction false} FactorsFit(n: nat, shots: nat, sampleSize: nat, total: nat)
    requires 0 < n && 0 < shots && 0 < sampleSize && n * shots * sampleSize == total <= MEMORY_SIZE
    ensures n <= total && 0 < n * shots <= total
  {
    var samples := n * shots;
    MulGrows(0, n, shots);
    MulMonotone(1, sampleSize, samples);
    MulMonotone(1, shots, n);
  }

  lemma {:induction false} TotalInMemory(g: Geometry)
    requires g.Valid()
    ensures g.Total() <= g.ring <= MEMORY_SIZE
  {
    MulMonotone(g.shot, g.aligned, g.shots);
  }

  /** A request for too many samples is refused; with an earlier acquisition of 16 samples on the
    channel the call succeeds all the same, and returns those. */
  lemma {:induction false} RefusedReturnsPrevious()
    ensures var r, before := Request(0, 0x1_0000, 0, 1), Params(8, 8, 8, 8, 1, 0x20);
            var a := AcquisitionOf(SMALL, before);
            && Verdict([SMALL], 2048, r, Idle, false) == -ACQ_NUM_SAMPLES_OOR
            && a.Valid() && GeometryOf(a).Total() == 64
            && InRange(a, LastAsked(Asked(r) * SMALL.sampleSize))
  {
  }
}
