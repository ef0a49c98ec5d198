/** Reading an acquisition back: the block reader of the acquisition driver, which fetches one block
  of an acquisition from the circular memory of its channel, and the client that puts the blocks
  together.

  The FPGA pads every shot to its own alignment and the reader drops the padding again; the memory
  of a channel wraps around at its end.  A reply is given by the memory addresses whose bytes it is
  made of, so nothing is lost when two of them hold the same byte. */
module AcqBlocks {
  import opened Bits
  import opened Prelude
  import opened RwParam

  const BLOCK_SIZE: nat := 0x10_0000

  /** The memory of the largest board, 2 GB. */
  const MEMORY_SIZE: nat := 0x8000_0000

  // ----- where the bytes asked for lie

  /** An acquisition in bytes: the size of a shot as asked for and as taken, the padding in front of
    a shot, the number of shots, the start and the size of the memory, and how far from its start
    the first byte taken lies. */
  datatype Geometry = Geometry(
    shot: nat, aligned: nat, pad: nat, shots: nat, start: nat, ring: nat, origin: nat)
  {
    predicate Laid() {
      && 0 < shot && pad + shot <= aligned && 0 < shots
      && origin < ring && start + ring <= MEMORY_SIZE
    }

    /** All that is taken fits the memory. */
    predicate Valid() {
      Laid() && shots * aligned <= ring
    }

    /** The address of byte x of those taken. */
    function Place(x: nat): nat
      requires ring > 0
    {
      start + (origin + x) % ring
    }

    /** Byte u of those asked for is this one of those taken. */
    function Taken(u: nat): int
      requires shot > 0
    {
      u / shot * aligned + pad + u % shot
    }

    function Total(): nat {
      shots * shot
    }

    /** How far the end of the memory is from the first byte taken. */
    function Edge(): int {
      ring - origin
    }
  }

  /** Facts about byte u in terms of its shot q and its place i in the shot. */
  lemma {:induction false} TakenAt(g: Geometry, q: nat, i: nat)
    requires g.Valid() && i < g.shot && q < g.shots
    ensures q * g.shot + i < g.Total()
    ensures g.Taken(q * g.shot + i) == q * g.aligned + g.pad + i
    ensures 0 <= q * g.aligned && q * g.aligned + g.pad + i < g.ring
  {
    var m, n := q * g.shot, q * g.aligned;
    DivModUnique(m + i, g.shot, q, i);
    MulGrows(q, g.shots, g.shot);
    MulGrows(q, g.shots, g.aligned);
    MulMonotone(0, q, g.aligned);
    assert g.Taken(m + i) == n + g.pad + i;
  }

  /** Every byte asked for is one of those taken. */
  lemma {:induction false} TakenInRing(g: Geometry, u: nat)
    requires g.Valid() && u < g.Total()
    ensures var q, i := u / g.shot, u % g.shot;
            && 0 <= q < g.shots && 0 <= i < g.shot && u == q * g.shot + i
            && 0 <= g.Taken(u) < g.ring
  {
    var q, i := u / g.shot, u % g.shot;
    assert u == q * g.shot + i;
    if q >= g.shots {
      MulMonotone(g.shots, q, g.shot);
    }
    if q < 0 {
      MulGrows(q, 0, g.shot);
    }
    TakenAt(g, q, i);
  }

  /** The memory wraps around at most once. */
  lemma {:induction false} PlaceCases(g: Geometry, x: nat)
    requires g.Valid() && x < g.ring
    ensures g.Place(x) == if x < g.Edge() then g.start + g.origin + x else g.start + (x - g.Edge())
    ensures g.start <= g.Place(x) < g.start + g.ring
  {
    if x < g.Edge() {
      DivModUnique(g.origin + x, g.ring, 0, g.origin + x);
    } else {
      DivModUnique(g.origin + x, g.ring, 1, x - g.Edge());
    }
  }

  /** The address of byte u of those asked for. */
  function AddressOf(g: Geometry, u: nat): nat
    requires g.Valid() && u < g.Total()
  {
    TakenInRing(g, u);
    g.Place(g.Taken(u))
  }

  /** The addresses of `count` bytes asked for, from the given one on. */
  function Wanted(g: Geometry, from: nat, count: nat): (r: seq<nat>)
    requires g.Valid() && from + count <= g.Total()
    ensures |r| == count && forall i :: 0 <= i < count ==> r[i] == AddressOf(g, from + i)
  {
    seq<nat>(count, i requires 0 <= i < count => AddressOf(g, from + i))
  }

  function Consecutive(addr: nat, count: nat): (r: seq<nat>)
    ensures |r| == count && forall i :: 0 <= i < count ==> r[i] == addr + i
  {
    seq<nat>(count, i requires 0 <= i < count => addr + i)
  }

  // ----- an acquisition

  /** The memory of a channel, from `start` up to but not including `end`. */
  datatype Channel = Channel(start: nat, end: nat, sampleSize: nat, maxSamples: nat)

  /** A complete acquisition: the samples asked for per shot before and after the trigger, the
    samples that the FPGA took instead, the number of shots, and where the first trigger was. */
  datatype Acquisition = Acquisition(
    chan: Channel, pre: nat, post: nat, preAligned: nat, postAligned: nat, shots: nat, trigger: nat)
  {
    function AlignedBytes(): int {
      (preAligned + postAligned) * chan.sampleSize
    }

    /** Something is asked for, what is taken is no less, and samples fit the blocks. */
    predicate SetUp() {
      && chan.start < chan.end <= MEMORY_SIZE
      && chan.sampleSize > 0 && BLOCK_SIZE % chan.sampleSize == 0
      && pre + post > 0 && shots > 0
      && pre <= preAligned && preAligned > 0 && post <= postAligned
      && chan.start <= trigger <= chan.end
    }

    /** And all that is taken fits the memory of the channel. */
    predicate Valid() {
      SetUp() && shots * AlignedBytes() <= chan.end - chan.start
    }
  }

  /** hutils_align_value. */
  function AlignValue(value: nat, alignment: nat): nat
    requires alignment > 0
  {
    value + (alignment - value % alignment) % alignment
  }

  /** The samples that the driver makes the FPGA take for a number of samples asked for. */
  function Aligned(samples: nat, alignment: nat, optional: bool): nat
    requires alignment > 0
  {
    if samples == 0 && !optional then alignment else AlignValue(samples, alignment)
  }

  /** It is the least multiple of the alignment that holds them, and not 0 unless it may be. */
  lemma {:induction false} AlignedExact(samples: nat, alignment: nat, optional: bool)
    requires alignment > 0
    ensures var r := Aligned(samples, alignment, optional);
            && r % alignment == 0 && samples <= r
            && (samples > 0 || optional ==> r < samples + alignment)
            && (samples == 0 ==> r == if optional then 0 else alignment)
            && (!optional ==> r > 0)
  {
    var q, rest := samples / alignment, samples % alignment;
    assert samples == q * alignment + rest;
    if rest == 0 {
      DivModUnique(alignment, alignment, 1, 0);
      DivModUnique(samples, alignment, q, 0);
    } else {
      DivModUnique(alignment - rest, alignment, 0, alignment - rest);
      assert samples + (alignment - rest) == (q + 1) * alignment;
      DivModUnique(samples + (alignment - rest), alignment, q + 1, 0);
    }
    DivModUnique(alignment, alignment, 1, 0);
  }

  /** The acquisition in bytes.  The first byte taken lies as far before the trigger as the samples
    taken before it need, around the end of the memory where necessary. */
  function GeometryOf(a: Acquisition): (g: Geometry)
    requires a.SetUp()
    ensures g.Laid() && g.ring == a.chan.end - a.chan.start && g.shots == a.shots
    ensures a.Valid() ==> g.Valid()
  {
    var s, ring := a.chan.sampleSize, a.chan.end - a.chan.start;
    SetUpFacts(a);
    Geometry((a.pre + a.post) * s, (a.preAligned + a.postAligned) * s, (a.preAligned - a.pre) * s, a.shots,
             a.chan.start, ring, (a.trigger - a.chan.start - a.preAligned * s) % ring)
  }

  lemma {:induction false} SetUpFacts(a: Acquisition)
    requires a.SetUp()
    ensures var s := a.chan.sampleSize;
            && 0 < (a.pre + a.post) * s && 0 <= (a.preAligned - a.pre) * s
            && (a.preAligned - a.pre) * s + (a.pre + a.post) * s <= (a.preAligned + a.postAligned) * s
            && 0 < a.preAligned * s <= (a.preAligned + a.postAligned) * s
  {
    var n, m, s := a.preAligned - a.pre, a.postAligned - a.post, a.chan.sampleSize;
    MulGrows(0, a.pre + a.post, s);
    MulGrows(0, a.preAligned, s);
    MulMonotone(0, n, s);
    MulMonotone(0, m, s);
    MulMonotone(a.preAligned, a.preAligned + a.postAligned, s);
    assert n + (a.pre + a.post) + m == a.preAligned + a.postAligned;
    assert (n + (a.pre + a.post) + m) * s == n * s + (a.pre + a.post) * s + m * s;
  }

  lemma {:induction false} GeometryFacts(a: Acquisition)
    requires a.Valid()
    ensures var s := a.chan.sampleSize;
            0 < a.preAligned * s <= (a.preAligned + a.postAligned) * s <= a.chan.end - a.chan.start
  {
    SetUpFacts(a);
    MulMonotone(1, a.shots, a.AlignedBytes());
  }

  // ----- which acquisitions are still in the memory when they are complete

  /** Byte y of those taken is written over byte x. */
  ghost predicate Overwrites(g: Geometry, x: int, y: int)
    requires g.Laid()
  {
    0 <= x < y < g.shots * g.aligned && g.Place(y) == g.Place(x)
  }

  /** None of the bytes asked for is written over. */
  ghost predicate Kept(g: Geometry)
    requires g.Laid()
  {
    forall u: nat, y: int :: u < g.Total() ==> !Overwrites(g, g.Taken(u), y)
  }

  /** Two bytes at one place are at least a turn of the memory apart. */
  lemma {:induction false} TurnApart(origin: nat, ring: nat, x: nat, y: nat)
    requires 0 < ring && x < y && (origin + x) % ring == (origin + y) % ring
    ensures x + ring <= y
  {
    var p, q, r := (origin + x) / ring, (origin + y) / ring, (origin + x) % ring;
    assert origin + x == p * ring + r && origin + y == q * ring + r;
    if q < p {
      MulGrows(q, p, ring);
    } else if p < q {
      MulGrows(p, q, ring);
    }
  }

  lemma {:induction false} OneTurn(origin: nat, ring: nat, x: nat)
    requires 0 < ring
    ensures (origin + (x + ring)) % ring == (origin + x) % ring
  {
    var p, r := (origin + x) / ring, (origin + x) % ring;
    assert origin + x == p * ring + r;
    NextTurn(p, ring);
    DivModUnique(origin + (x + ring), ring, p + 1, r);
  }

  lemma {:induction false} NextTurn(p: int, ring: int)
    ensures (p + 1) * ring == p * ring + ring
  {
  }

  lemma {:induction false} TakenAfterPad(g: Geometry, u: nat)
    requires g.Laid()
    ensures g.pad <= g.Taken(u) && g.Taken(0) == g.pad
  {
    var q := u / g.shot;
    assert u == q * g.shot + u % g.shot;
    if q < 0 {
      MulGrows(q, 0, g.shot);
    }
    MulMonotone(0, q, g.aligned);
    DivModUnique(0, g.shot, 0, 0);
  }

  /** When more is taken, the first byte asked for is written over after a turn. */
  lemma {:induction false} FirstOverwritten(g: Geometry, taken: int)
    requires g.Laid() && taken == g.shots * g.aligned && taken - g.pad > g.ring
    ensures Overwrites(g, g.Taken(0), g.pad + g.ring)
  {
    TakenAfterPad(g, 0);
    OneTurn(g.origin, g.ring, g.pad);
  }

  /** The bytes asked for are all kept exactly when what is taken, without the padding in front of the
    first shot, fits the memory. */
  lemma {:induction false} KeptExact(g: Geometry)
    requires g.Laid()
    ensures Kept(g) <==> g.shots * g.aligned - g.pad <= g.ring
  {
    TakenAfterPad(g, 0);
    MulGrows(0, g.shots, g.shot);
    if g.shots * g.aligned - g.pad <= g.ring {
      forall u: nat, y: int | u < g.Total()
        ensures !Overwrites(g, g.Taken(u), y)
      {
        TakenAfterPad(g, u);
        if Overwrites(g, g.Taken(u), y) {
          TurnApart(g.origin, g.ring, g.Taken(u), y);
        }
      }
    } else {
      FirstOverwritten(g, g.shots * g.aligned);
    }
  }

  // ----- the reader's arithmetic

  /** _acq_get_start_address. */
  function StartAddress(trigger: int, size: int, start: int, end: int): int {
    if trigger - start >= size then trigger - size else end - (size - (trigger - start))
  }

  /** _acq_get_read_block_addr_start. */
  function ReadAddress(startAddress: int, offset: int, start: int, end: int): int {
    if offset <= end - startAddress then startAddress + offset else start + (offset - (end - startAddress))
  }

  /** The address of the first sample as the reader computes it: the trigger of the last shot less
    the samples taken up to it. */
  function FirstAddress(a: Acquisition): int {
    var aligned := a.preAligned + a.postAligned;
    var trigger := a.trigger + (if a.shots == 1 then 0 else aligned * (a.shots - 1) * a.chan.sampleSize);
    var size := (aligned * (a.shots - 1) + a.preAligned) * a.chan.sampleSize;
    StartAddress(trigger, size, a.chan.start, a.chan.end)
  }

  lemma {:induction false} StartCases(trigger: int, up: int, back: int, start: int, end: int)
    requires start <= trigger <= end && 0 < back <= end - start
    ensures StartAddress(trigger + up, up + back, start, end) == start + (trigger - start - back) % (end - start)
  {
    var rel, ring := trigger - start, end - start;
    if rel >= back {
      DivModUnique(rel - back, ring, 0, rel - back);
    } else {
      DivModUnique(rel - back, ring, -1, rel - back + ring);
    }
  }

  /** It does not depend on the number of shots, and is where the first byte taken lies. */
  lemma {:induction false} FirstAddressExact(a: Acquisition)
    requires a.Valid()
    ensures FirstAddress(a) == GeometryOf(a).start + GeometryOf(a).origin
  {
    hide StartAddress, FirstAddress;
    var n := (a.preAligned + a.postAligned) * (a.shots - 1);
    FirstAddressForm(a, n);
    GeometryFacts(a);
    StartCases(a.trigger, n * a.chan.sampleSize, a.preAligned * a.chan.sampleSize, a.chan.start, a.chan.end);
  }

  lemma {:induction false} FirstAddressForm(a: Acquisition, n: int)
    requires n == (a.preAligned + a.postAligned) * (a.shots - 1)
    ensures var up, back := n * a.chan.sampleSize, a.preAligned * a.chan.sampleSize;
            FirstAddress(a) == StartAddress(a.trigger + up, up + back, a.chan.start, a.chan.end)
  {
    hide StartAddress;
    Distribute(n, a.preAligned, a.chan.sampleSize);
    if a.shots == 1 {
      assert n == 0;
    }
  }

  lemma {:induction false} Distribute(m: int, n: int, d: int)
    ensures (m + n) * d == m * d + n * d
    ensures m == 0 ==> m * d == 0
  {
  }

  // ----- the blocks of an acquisition

  function LastBlock(g: Geometry): int {
    (g.Total() - 1) / BLOCK_SIZE
  }

  /** The bytes of block n, of which only the last one can be short. */
  function BlockSize(g: Geometry, n: nat): int {
    if (n + 1) * BLOCK_SIZE <= g.Total() then BLOCK_SIZE else g.Total() - n * BLOCK_SIZE
  }

  lemma {:induction false} BlockInside(g: Geometry, n: nat)
    requires g.Valid() && n <= LastBlock(g)
    ensures 0 < BlockSize(g, n) && n * BLOCK_SIZE + BlockSize(g, n) <= g.Total()
    ensures n < LastBlock(g) ==> BlockSize(g, n) == BLOCK_SIZE
  {
    var q, r := (g.Total() - 1) / BLOCK_SIZE, (g.Total() - 1) % BLOCK_SIZE;
    assert g.Total() - 1 == q * BLOCK_SIZE + r;
  }

  /** The reader's count of blocks and of the bytes in one, from the number of samples. */
  lemma {:induction false} BlockCount(samples: nat, perBlock: nat, s: nat)
    requires samples > 0 && perBlock * s == BLOCK_SIZE && s > 0
    ensures perBlock > 0
    ensures var over, valid := samples % perBlock, samples / perBlock;
            var last := if valid != 0 && over == 0 then valid - 1 else valid;
            && valid >= 0
            && (samples * s - 1) / BLOCK_SIZE == last
            && (over == 0 ==> valid > 0 && samples * s == (last + 1) * BLOCK_SIZE)
            && (over > 0 ==> samples * s == last * BLOCK_SIZE + over * s && 0 < over * s < BLOCK_SIZE)
  {
    var over, valid := samples % perBlock, samples / perBlock;
    assert samples == valid * perBlock + over;
    if valid < 0 {
      MulGrows(valid, 0, perBlock);
    }
    Distribute(valid * perBlock, over, s);
    assert valid * perBlock * s == valid * BLOCK_SIZE;
    if over > 0 {
      MulGrows(0, over, s);
      MulGrows(over, perBlock, s);
      DivModUnique(samples * s - 1, BLOCK_SIZE, valid, over * s - 1);
    } else {
      assert valid > 0;
      DivModUnique(samples * s - 1, BLOCK_SIZE, valid - 1, BLOCK_SIZE - 1);
    }
  }

  lemma {:induction false} InBytes(shot: nat, m: nat, off: nat, s: nat)
    ensures (shot * m + off) * s == shot * (m * s) + off * s
    ensures 0 <= off * s
    ensures off < m && s > 0 ==> off * s < m * s
  {
    Distribute(shot * m, off, s);
    Regroup(shot, m, s);
    if off < m && s > 0 {
      MulGrows(off, m, s);
    }
  }

  lemma {:induction false} Regroup(x: int, y: int, z: int)
    ensures x * y * z == x * (y * z)
  {
  }

  /** Where the first byte of a block lies among those taken, as the reader computes it. */
  lemma {:induction false} BlockStart(a: Acquisition, base: nat, sample: nat, shot: nat, off: nat, x: int)
    requires a.Valid() && sample * a.chan.sampleSize == base < GeometryOf(a).Total()
    requires sample == shot * (a.pre + a.post) + off && off < a.pre + a.post
    requires x == (shot * (a.preAligned + a.postAligned) + (a.preAligned - a.pre + off)) * a.chan.sampleSize
    ensures x >= 0 && off * a.chan.sampleSize >= 0
    ensures IsByte(GeometryOf(a), shot, off * a.chan.sampleSize, base, x)
  {
    var g, s := GeometryOf(a), a.chan.sampleSize;
    GeometrySizes(a);
    hide GeometryOf, Acquisition.SetUp, Acquisition.AlignedBytes, Geometry.Valid;
    InBytes(shot, a.pre + a.post, off, s);
    InBytes(shot, a.preAligned + a.postAligned, a.preAligned - a.pre + off, s);
    Distribute(a.preAligned - a.pre, off, s);
    MulMonotone(0, shot, g.aligned);
    ShotOf(g, shot, off * s, base);
  }

  lemma {:induction false} GeometrySizes(a: Acquisition)
    requires a.Valid()
    ensures var g, s := GeometryOf(a), a.chan.sampleSize;
            && g.shot == (a.pre + a.post) * s && g.aligned == (a.preAligned + a.postAligned) * s
            && g.pad == (a.preAligned - a.pre) * s && s > 0
            && a.pre <= a.preAligned
  {
    hide Geometry.Valid, Acquisition.AlignedBytes;
  }

  lemma {:induction false} ShotOf(g: Geometry, q: nat, i: nat, u: nat)
    requires u == q * g.shot + i < g.Total()
    ensures q < g.shots
  {
    if q >= g.shots {
      MulMonotone(g.shots, q, g.shot);
    }
  }

  // ----- which blocks of several shots are read correctly

  ghost predicate ShotStart(g: Geometry, x: int) {
    exists q: nat :: x == q * g.aligned + g.pad
  }

  /** Of the bytes taken from x0 up to `to`, the end of the memory splits none of what is read in
    one piece: if it is met at all, then where a later shot begins. */
  ghost predicate Unsplit(g: Geometry, x0: int, to: int) {
    x0 <= g.Edge() < to ==> x0 < g.Edge() && ShotStart(g, g.Edge())
  }

  /** A block of several shots is read correctly when it ends with a shot and the end of the memory
    splits none of it. */
  ghost predicate ReadsRight(g: Geometry, base: nat, size: nat)
    requires g.Valid() && 0 < size && base + size <= g.Total()
  {
    (base + size) % g.shot == 0 && Unsplit(g, g.Taken(base), g.Taken(base + size - 1) + 1)
  }

  lemma {:induction false} NoStartBetween(g: Geometry, q: nat, e: int)
    requires g.Valid() && q * g.aligned + g.pad < e < (q + 1) * g.aligned + g.pad
    ensures !ShotStart(g, e)
  {
    forall p: nat
      ensures e != p * g.aligned + g.pad
    {
      if p <= q {
        MulMonotone(p, q, g.aligned);
      } else {
        MulMonotone(q + 1, p, g.aligned);
      }
    }
  }

  lemma {:induction false} WantedSplit(g: Geometry, base: nat, m: nat, n: nat)
    requires g.Valid() && base + m + n <= g.Total()
    ensures Wanted(g, base, m + n) == Wanted(g, base, m) + Wanted(g, base + m, n)
  {
  }

  lemma {:induction false} AppendEqual(a: seq<nat>, b: seq<nat>, c: seq<nat>, d: seq<nat>)
    requires |a| == |b| && |c| == |d|
    ensures a + c == b + d <==> a == b && c == d
  {
    if a + c == b + d {
      assert (a + c)[..|a|] == a && (b + d)[..|a|] == b;
      assert (a + c)[|a|..] == c && (b + d)[|a|..] == d;
    }
  }

  /** Place, without the remainder. */
  function Wrapped(g: Geometry, x: int): int {
    if x < g.Edge() then g.start + g.origin + x else g.start + (x - g.Edge())
  }

  /** Byte i of shot q, which is byte u of those asked for and byte x of those taken. */
  ghost predicate IsByte(g: Geometry, q: nat, i: nat, u: nat, x: nat) {
    q < g.shots && i < g.shot && u == q * g.shot + i && x == q * g.aligned + g.pad + i
  }

  lemma {:induction false} ByteAddress(g: Geometry, q: nat, i: nat, u: nat, x: nat)
    requires g.Valid() && IsByte(g, q, i, u, x)
    ensures u < g.Total() && x < g.ring && g.Taken(u) == x
    ensures AddressOf(g, u) == Wrapped(g, x) && g.start <= Wrapped(g, x) < g.start + g.ring
  {
    TakenAt(g, q, i);
    PlaceCases(g, x);
  }

  /** A piece of one shot is read right exactly when it starts at its place and the end of the
    memory does not split it. */
  lemma {:induction false} PieceExact(g: Geometry, q: nat, i: nat, u: nat, x: nat, len: nat, addr: nat)
    requires g.Valid() && IsByte(g, q, i, u, x) && 0 < len && i + len <= g.shot
    ensures u + len <= g.Total() && x + len <= g.ring
    ensures Consecutive(addr, len) == Wanted(g, u, len)
        <==> addr == Wrapped(g, x) && !(x < g.Edge() < x + len)
  {
    hide AddressOf, IsByte, Geometry.Total, Geometry.Place, Geometry.Taken;
    PieceAddresses(g, q, i, u, x, len);
    SameAddresses(g, Consecutive(addr, len), Wanted(g, u, len), x, addr);
  }

  /** Where the bytes of a piece lie. */
  lemma {:induction false} PieceAddresses(g: Geometry, q: nat, i: nat, u: nat, x: nat, len: nat)
    requires g.Valid() && IsByte(g, q, i, u, x) && 0 < len && i + len <= g.shot
    ensures u + len <= g.Total() && x + len <= g.ring
    ensures forall k :: 0 <= k < len ==> Wanted(g, u, len)[k] == Wrapped(g, x + k)
  {
    ByteAddress(g, q, i + len - 1, u + len - 1, x + len - 1);
    hide AddressOf, Geometry.Laid, Geometry.Place, Geometry.Taken, Geometry.Total, Wrapped;
    forall k | 0 <= k < len
      ensures Wanted(g, u, len)[k] == Wrapped(g, x + k)
    {
      ByteAddress(g, q, i + k, u + k, x + k);
    }
  }

  lemma {:induction false} SameAddresses(g: Geometry, read: seq<nat>, wanted: seq<nat>, x: nat, addr: nat)
    requires 0 < |read| == |wanted| && x + |read| <= g.ring && 0 <= g.Edge() <= g.ring && 0 <= g.origin < g.ring
    requires forall k :: 0 <= k < |read| ==> read[k] == addr + k && wanted[k] == Wrapped(g, x + k)
    ensures read == wanted <==> addr == Wrapped(g, x) && !(x < g.Edge() < x + |read|)
  {
    if read == wanted {
      assert read[0] == wanted[0];
    }
    if x < g.Edge() < x + |read| && addr == Wrapped(g, x) {
      assert read[g.Edge() - x] != wanted[g.Edge() - x];
    }
    if addr == Wrapped(g, x) && !(x < g.Edge() < x + |read|) {
      assert forall k :: 0 <= k < |read| ==> read[k] == wanted[k];
    }
  }

  // ----- one turn of the reader's loop

  /** addr_start after a piece of `count` bytes, counting `count` in the bytes jumped over.  Beyond
    the end of the memory the difference is taken the wrong way round, on uint64_t. */
  function NextAddress(addr: nat, count: nat, start: nat, end: nat): nat {
    var next := (addr + count) % ADDRESS_LIMIT;
    if next >= end then (start + (end - next)) % ADDRESS_LIMIT else next
  }

  /** Where a single shot is read on: at its place or, for the start of the memory, at its end. */
  ghost predicate AtOrAtEnd(g: Geometry, x: nat, addr: nat) {
    addr == Wrapped(g, x) || (x == g.Edge() && addr == g.start + g.ring)
  }

  lemma {:induction false} SingleRead(g: Geometry, u: nat, x: nat, left: nat, addr: nat, len: nat)
    requires g.Valid() && g.shots == 1 && IsByte(g, 0, u, u, x) && AtOrAtEnd(g, x, addr)
    requires 0 < left && u + left <= g.Total() && addr <= g.start + g.ring
    requires len == if left > g.start + g.ring - addr then g.start + g.ring - addr else left
    ensures Consecutive(addr, len) == Wanted(g, u, len)
  {
    hide AddressOf, Wanted, Consecutive, Geometry.Taken, Geometry.Place;
    if len > 0 {
      PieceExact(g, 0, u, u, x, len, addr);
    } else {
      assert Consecutive(addr, len) == [] == Wanted(g, u, len);
    }
  }

  lemma {:induction false} SingleNext(g: Geometry, x: nat, left: nat, addr: nat, len: nat)
    requires g.Laid() && x < g.ring && x + left <= g.ring && 0 < left
    requires AtOrAtEnd(g, x, addr) && addr <= g.start + g.ring
    requires len == if left > g.start + g.ring - addr then g.start + g.ring - addr else left
    ensures x + len < g.ring ==> AtOrAtEnd(g, x + len, NextAddress(addr, len, g.start, g.start + g.ring))
    ensures len == 0 ==> addr == g.start + g.ring != NextAddress(addr, len, g.start, g.start + g.ring)
  {
    DivModUnique(addr + len, ADDRESS_LIMIT, 0, addr + len);
    DivModUnique(g.start, ADDRESS_LIMIT, 0, g.start);
  }

  /** A single shot: what is read next is right, and so is where it is read on. */
  lemma {:induction false} SinglePiece(g: Geometry, u: nat, x: nat, left: nat, addr: nat, len: nat)
    requires g.Valid() && g.shots == 1 && IsByte(g, 0, u, u, x) && AtOrAtEnd(g, x, addr)
    requires 0 < left && u + left <= g.Total()
    requires len == if left > g.start + g.ring - addr then g.start + g.ring - addr else left
    ensures addr <= g.start + g.ring && len <= left
    ensures Consecutive(addr, len) == Wanted(g, u, len)
    ensures u + len < g.Total() ==> AtOrAtEnd(g, x + len, NextAddress(addr, len, g.start, g.start + g.ring))
    ensures len == 0 ==> addr == g.start + g.ring != NextAddress(addr, len, g.start, g.start + g.ring)
  {
    hide AddressOf, NextAddress, Geometry.Place, Geometry.Taken;
    ByteAddress(g, 0, u, u, x);
    SingleInRing(g, u, x, left);
    SingleRead(g, u, x, left, addr, len);
    SingleNext(g, x, left, addr, len);
    if u + len < g.Total() {
      SingleInRing(g, u, x, len + 1);
    }
  }

  lemma {:induction false} SingleInRing(g: Geometry, u: nat, x: nat, left: nat)
    requires g.Valid() && g.shots == 1 && IsByte(g, 0, u, u, x) && u + left <= g.Total()
    ensures x + left <= g.ring
  {
  }

  /** Where a piece of several shots is read: x0 is the first byte of the block, v the end of what
    has been read, and x what is to be read next.  As long as nothing has been split the address is
    right, unless the end of the memory lies in between; then it is outside of the memory. */
  ghost predicate Ready(g: Geometry, x0: nat, v: nat, x: nat, addr: nat) {
    var upTo := if x == x0 then x + 1 else x;
    && (Unsplit(g, x0, upTo) ==> addr == Wrapped(g, x))
    && (Unsplit(g, x0, v) && !Unsplit(g, x0, upTo) ==> !(g.start <= addr < g.start + g.ring))
  }

  lemma {:induction false} ShotStartAt(g: Geometry, q: nat)
    ensures ShotStart(g, q * g.aligned + g.pad)
  {
  }

  /** Several shots: a piece is read right exactly when the end of the memory does not split it. */
  lemma {:induction false} ShotPiece(
      g: Geometry, x0: nat, v: nat, q: nat, i: nat, u: nat, x: nat, addr: nat, len: nat)
    requires g.Valid() && IsByte(g, q, i, u, x) && 0 < len <= g.shot - i
    requires x0 <= v <= x && (x == x0 || i == 0) && Ready(g, x0, v, x, addr)
    ensures u + len <= g.Total()
    ensures Unsplit(g, x0, v) && Consecutive(addr, len) == Wanted(g, u, len) <==> Unsplit(g, x0, x + len)
  {
    ByteAddress(g, q, i, u, x);
    PieceExact(g, q, i, u, x, len, addr);
    ShotStartAt(g, q);
    NextShot(g, q);
    if x < g.Edge() < x + len {
      NoStartBetween(g, q, g.Edge());
    }
    hide AddressOf, IsByte, ShotStart;
  }

  lemma {:induction false} NextShot(g: Geometry, q: nat)
    ensures (q + 1) * g.aligned == q * g.aligned + g.aligned
  {
  }

  /** And the next piece is ready. */
  lemma {:induction false} NextReady(
      g: Geometry, x0: nat, v: nat, q: nat, i: nat, u: nat, x: nat, addr: nat, len: nat, next: nat)
    requires g.Valid() && IsByte(g, q, i, u, x) && len == g.shot - i && q + 1 < g.shots
    requires x0 <= v <= x && (x == x0 || i == 0) && Ready(g, x0, v, x, addr)
    requires next == NextAddress(addr, len + (g.aligned - g.shot), g.start, g.start + g.ring)
    ensures Ready(g, x0, x + len, x + len + (g.aligned - g.shot), next)
    ensures IsByte(g, q + 1, 0, u + len, x + len + (g.aligned - g.shot))
  {
    hide AddressOf, IsByte, ShotStart, NextAddress, Geometry.Total, Geometry.Taken, Geometry.Place, Geometry.Laid;
    var x', jump := x + len + (g.aligned - g.shot), len + (g.aligned - g.shot);
    ByteFacts(g, q, i, u, x);
    NextIsByte(g, q, i, u, x, len);
    ByteFacts(g, q + 1, 0, u + len, x');
    NextShot(g, q);
    ShotStartAt(g, q + 1);
    if x < g.Edge() < x' {
      NoStartBetween(g, q, g.Edge());
    }
    NextCases(g, addr, x, jump);
  }

  lemma {:induction false} ByteFacts(g: Geometry, q: nat, i: nat, u: nat, x: nat)
    requires g.Valid() && IsByte(g, q, i, u, x)
    ensures i < g.shot && x == q * g.aligned + g.pad + i && x < g.ring && g.pad + g.shot <= g.aligned
    ensures g.start <= Wrapped(g, x) < g.start + g.ring
  {
    ByteAddress(g, q, i, u, x);
  }

  lemma {:induction false} NextIsByte(g: Geometry, q: nat, i: nat, u: nat, x: nat, len: nat)
    requires g.Valid() && IsByte(g, q, i, u, x) && len == g.shot - i && q + 1 < g.shots
    ensures x + len + (g.aligned - g.shot) >= 0
    ensures IsByte(g, q + 1, 0, u + len, x + len + (g.aligned - g.shot))
  {
    NextShot(g, q);
    NextOfShot(g, q);
  }

  lemma {:induction false} NextOfShot(g: Geometry, q: nat)
    ensures (q + 1) * g.shot == q * g.shot + g.shot
  {
  }

  /** The address after a piece that began at its place. */
  lemma {:induction false} NextCases(g: Geometry, addr: nat, x: nat, jump: nat)
    requires g.Valid() && 0 < jump && x + jump < g.ring
    ensures var next := NextAddress(addr, jump, g.start, g.start + g.ring);
            addr == Wrapped(g, x) ==>
              if g.Edge() <= x || x + jump <= g.Edge() then next == Wrapped(g, x + jump)
              else !(g.start <= next < g.start + g.ring)
  {
    if addr == Wrapped(g, x) {
      var next := addr + jump;
      DivModUnique(next, ADDRESS_LIMIT, 0, next);
      var back := g.start + (g.start + g.ring - next);
      if back >= 0 {
        DivModUnique(back, ADDRESS_LIMIT, 0, back);
      } else {
        DivModUnique(back, ADDRESS_LIMIT, -1, back + ADDRESS_LIMIT);
      }
    }
  }

  /** Where several shots have been read up to. */
  ghost predicate ReadUpTo(g: Geometry, base: nat, size: nat, got: nat, x0: nat, v: nat)
    requires g.Valid()
  {
    if got == 0 then v == x0
    else
      && (base + got) % g.shot == 0 && base + got - g.shot < base + size
      && v == g.Taken(base + got - 1) + 1
  }

  lemma {:induction false} PieceEnd(
      g: Geometry, q: nat, i: nat, base: nat, size: nat, got: nat, x0: nat, x: nat, len: nat)
    requires g.Valid() && IsByte(g, q, i, base + got, x) && len == g.shot - i && got < size
    ensures ReadUpTo(g, base, size, got + len, x0, x + len)
  {
    ByteAddress(g, q, i + len - 1, base + got + len - 1, x + len - 1);
    NextOfShot(g, q);
    DivModUnique(base + got + len, g.shot, q + 1, 0);
  }

  lemma {:induction false} MoreShots(g: Geometry, q: nat, i: nat, u: nat, x: nat, len: nat)
    requires g.Valid() && IsByte(g, q, i, u, x) && len == g.shot - i && u + len < g.Total()
    ensures q + 1 < g.shots
  {
    NextOfShot(g, q);
  }

  /** The end of the shot that byte to-1 is in. */
  function ShotEnd(g: Geometry, to: nat): int
    requires g.shot > 0
  {
    (to + g.shot - 1) / g.shot * g.shot
  }

  lemma {:induction false} ShotEndExact(g: Geometry, to: nat, r: int)
    requires g.shot > 0
    ensures ShotEnd(g, to) == r <==> r % g.shot == 0 && to <= r < to + g.shot
  {
    var q, i := (to + g.shot - 1) / g.shot, (to + g.shot - 1) % g.shot;
    assert to + g.shot - 1 == q * g.shot + i;
    DivModUnique(q * g.shot, g.shot, q, 0);
    if r % g.shot == 0 && to <= r < to + g.shot {
      var k := r / g.shot;
      assert r == k * g.shot;
      if k < q {
        MulGrows(k, q, g.shot);
      }
      if q < k {
        MulGrows(q, k, g.shot);
      }
    }
  }

  /** The shot ends within the acquisition. */
  lemma {:induction false} ShotEndInside(g: Geometry, to: nat)
    requires g.Valid() && to <= g.Total()
    ensures to <= ShotEnd(g, to) <= g.Total()
    ensures ShotEnd(g, to) == to <==> to % g.shot == 0
  {
    var r := ShotEnd(g, to);
    ShotEndExact(g, to, r);
    ShotEndExact(g, to, to);
    var k := r / g.shot;
    assert r == k * g.shot;
    if k > g.shots {
      MulGrows(g.shots, k, g.shot);
    }
    MulMonotone(k, if k > g.shots then k else g.shots, g.shot);
  }

  /** The first m bytes of what was read are right exactly when the end of the memory does not split
    them, for every m. */
  ghost predicate RightUnlessSplit(g: Geometry, base: nat, data: seq<nat>)
    requires g.Valid() && base + |data| <= g.Total()
  {
    forall m :: 0 < m <= |data| ==>
                  (data[..m] == Wanted(g, base, m) <==> Unsplit(g, g.Taken(base), g.Taken(base + m - 1) + 1))
  }

  /** The reply for a block of several shots.  It goes on to the end of the last shot it touches; it
    is right up to where the end of the memory splits it; and its first byte is either right or the
    one at the end of the memory. */
  ghost predicate ShotsReply(g: Geometry, base: nat, size: nat, data: seq<nat>)
    requires g.Valid() && 0 < size && base + size <= g.Total()
  {
    var to := ShotEnd(g, base + size);
    && base + size <= to <= g.Total()
    && |data| == to - base
    && RightUnlessSplit(g, base, data)
    && (data[0] == AddressOf(g, base) || data[0] == g.start + g.ring)
  }

  /** So the reply is the block exactly when the block ends with a shot and is not split. */
  lemma {:induction false} ReplyIsBlock(g: Geometry, base: nat, size: nat, data: seq<nat>)
    requires g.Valid() && 0 < size && base + size <= g.Total() && ShotsReply(g, base, size, data)
    ensures data == Wanted(g, base, size) <==> ReadsRight(g, base, size)
  {
    hide Unsplit, Geometry.Taken, AddressOf, Geometry.Total, ShotEnd;
    ShotEndInside(g, base + size);
    assert data[..|data|] == data;
  }

  /** And it fits a block exactly when the block ends with a shot. */
  lemma {:induction false} ReplyFitsExact(g: Geometry, n: nat)
    requires g.Valid() && n <= LastBlock(g)
    ensures 0 < BlockSize(g, n) && n * BLOCK_SIZE + BlockSize(g, n) <= g.Total()
    ensures ShotEnd(g, n * BLOCK_SIZE + BlockSize(g, n)) - n * BLOCK_SIZE <= BLOCK_SIZE
       <==> (n * BLOCK_SIZE + BlockSize(g, n)) % g.shot == 0
  {
    BlockInside(g, n);
    var to := n * BLOCK_SIZE + BlockSize(g, n);
    ShotEndInside(g, to);
    if to == g.Total() {
      DivModUnique(g.shots * g.shot, g.shot, g.shots, 0);
    }
  }

  /** The reply of the reader: the addresses of its bytes, or what went wrong. */
  datatype Reply = Block(data: seq<nat>) | OutOfRange | CouldNotRead

  lemma {:induction false} GeometryEnds(a: Acquisition)
    requires a.Valid()
    ensures var g := GeometryOf(a);
            g.shots == a.shots > 0 && g.start == a.chan.start && g.start + g.ring == a.chan.end
  {
  }

  lemma {:induction false} PieceBytes(a: Acquisition, off: nat)
    requires a.Valid() && off * a.chan.sampleSize < GeometryOf(a).shot
    ensures var g, s := GeometryOf(a), a.chan.sampleSize;
            && off < a.pre + a.post
            && (a.pre + a.post - off) * s == g.shot - off * s
            && (a.postAligned - a.post + (a.preAligned - a.pre)) * s == g.aligned - g.shot
  {
    var s := a.chan.sampleSize;
    if off >= a.pre + a.post {
      MulMonotone(a.pre + a.post, off, s);
    }
    Distribute(a.pre + a.post - off, off, s);
    Distribute(a.postAligned - a.post + (a.preAligned - a.pre), a.pre + a.post, s);
  }

  lemma {:induction false} PieceInMemory(g: Geometry, u: nat, x: nat, addr: nat)
    requires g.Valid() && IsByte(g, 0, u, u, x) && AtOrAtEnd(g, x, addr)
    ensures addr <= g.start + g.ring
  {
    ByteAddress(g, 0, u, u, x);
  }

  /** Before the first piece. */
  lemma {:induction false} FirstPiece(g: Geometry, base: nat, q: nat, i: nat, x0: nat, first: int)
    requires g.Valid() && IsByte(g, q, i, base, x0)
    requires first == ReadAddress(g.start + g.origin, x0, g.start, g.start + g.ring)
    ensures first >= 0 && AtOrAtEnd(g, x0, first) && Ready(g, x0, x0, x0, first)
  {
    ByteAddress(g, q, i, base, x0);
    hide AddressOf, IsByte, Geometry.Taken, ShotStart;
  }

  // ----- the reader's loop

  /** The transfers that a block takes: for a single shot one, or two when the end of the memory lies
    in the block; for several shots one for each that it touches. */
  function Transfers(g: Geometry, base: nat, size: nat): int
    requires g.Valid() && 0 < size
  {
    if g.shots == 1 then (if g.Taken(base) <= g.Edge() < g.Taken(base) + size then 2 else 1)
    else (base + size - 1) / g.shot - base / g.shot + 1
  }

  /** The transfers still to come for a single shot that is read on at an address. */
  function TransfersLeft(end: nat, left: int, addr: nat): nat {
    if left <= 0 then 0 else if left <= end - addr then 1 else 2
  }

  lemma {:induction false} SingleTransfers(g: Geometry, base: nat, size: nat, q: nat, i: nat, x0: nat, first: int)
    requires g.Valid() && g.shots == 1 && 0 < size && base + size <= g.Total() && IsByte(g, q, i, base, x0)
    requires first == ReadAddress(g.start + g.origin, x0, g.start, g.start + g.ring)
    ensures first >= 0 && Transfers(g, base, size) == TransfersLeft(g.start + g.ring, size, first)
  {
    ByteAddress(g, q, i, base, x0);
    hide AddressOf, Geometry.Taken, Geometry.Place;
  }

  lemma {:induction false} ShotTransfers(g: Geometry, base: nat, size: nat, q0: nat, q: nat, got: nat, i: nat)
    requires g.Valid() && g.shots > 1 && 0 < size && base / g.shot == q0
    requires base + got == q * g.shot + i && i < g.shot
    requires got > 0 ==> i == 0 && base + got - g.shot < base + size
    ensures got < size ==> q - q0 < Transfers(g, base, size)
    ensures size <= got ==> q - q0 == Transfers(g, base, size)
  {
    var last, r := (base + size - 1) / g.shot, (base + size - 1) % g.shot;
    assert base + size - 1 == last * g.shot + r;
    assert (last + 1) * g.shot == last * g.shot + g.shot;
    if got < size {
      if last < q {
        MulGrows(last, q, g.shot);
      }
    } else {
      if last + 1 < q {
        MulGrows(last + 1, q, g.shot);
      }
      if q < last + 1 {
        MulMonotone(q, last, g.shot);
      }
    }
  }

  /** Between two turns for a single shot. */
  ghost predicate SingleState(g: Geometry, base: nat, size: nat, x0: nat, data: seq<nat>, addr: nat)
    requires g.Valid() && base + size <= g.Total()
  {
    var got := |data|;
    && got <= size && data == Wanted(g, base, got)
    && (got < size ==> IsByte(g, 0, base + got, base + got, x0 + got) && AtOrAtEnd(g, x0 + got, addr))
  }

  /** What is next for several shots: place i of shot q, which is byte x of those taken; v is the end of
    what has been read. */
  datatype Next = Next(q: nat, i: nat, x: nat, v: nat)

  /** What several shots have given so far. */
  ghost predicate ShotsRead(g: Geometry, base: nat, size: nat, x0: nat, first: nat, data: seq<nat>, v: nat)
    requires g.Valid()
  {
    && base + |data| <= g.Total()
    && ReadUpTo(g, base, size, |data|, x0, v)
    && RightUnlessSplit(g, base, data)
    && (data == Wanted(g, base, |data|) <==> Unsplit(g, x0, v))
    && (data != [] ==> data[0] == first)
  }

  ghost predicate ShotsReady(g: Geometry, u: nat, x0: nat, addr: nat, next: Next)
    requires g.Valid()
  {
    && x0 <= next.v <= next.x && (next.x == x0 || next.i == 0)
    && IsByte(g, next.q, next.i, u, next.x)
    && Ready(g, x0, next.v, next.x, addr)
  }

  /** Between two turns for several shots. */
  ghost predicate ShotsState(
      g: Geometry, base: nat, size: nat, x0: nat, first: nat, data: seq<nat>, addr: nat, next: Next)
    requires g.Valid()
  {
    && ShotsRead(g, base, size, x0, first, data, next.v)
    && (data == [] ==> addr == first)
    && base + |data| == next.q * g.shot + next.i && next.i < g.shot && (data != [] ==> next.i == 0)
    && (|data| < size ==> ShotsReady(g, base + |data|, x0, addr, next))
  }

  lemma {:induction false} LoopStart(g: Geometry, base: nat, size: nat, q: nat, i: nat, x0: nat, first: int)
    requires g.Valid() && IsByte(g, q, i, base, x0) && base + size <= g.Total()
    requires first == ReadAddress(g.start + g.origin, x0, g.start, g.start + g.ring)
    ensures first >= 0 && AtOrAtEnd(g, x0, first)
    ensures g.shots == 1 ==> SingleState(g, base, size, x0, [], first)
    ensures ShotsState(g, base, size, x0, first, [], first, Next(q, i, x0, x0))
  {
    FirstPiece(g, base, q, i, x0, first);
    ByteAddress(g, q, i, base, x0);
    hide AddressOf, Geometry.Taken, Ready, AtOrAtEnd, ReadAddress;
  }

  /** One turn for a single shot. */
  lemma {:induction false} SingleTurn(
      g: Geometry, base: nat, size: nat, x0: nat, data: seq<nat>, addr: nat, len: nat)
    requires g.Valid() && g.shots == 1 && |data| < size && base + size <= g.Total()
    requires SingleState(g, base, size, x0, data, addr)
    requires len == if size - |data| > g.start + g.ring - addr then g.start + g.ring - addr else size - |data|
    ensures addr <= g.start + g.ring
    ensures var next := NextAddress(addr, len, g.start, g.start + g.ring);
            && SingleState(g, base, size, x0, data + Consecutive(addr, len), next)
            && (len == 0 ==> addr == g.start + g.ring != next)
  {
    var got := |data|;
    SinglePiece(g, base + got, x0 + got, size - got, addr, len);
    WantedSplit(g, base, got, len);
    hide Consecutive, Wanted, NextAddress, AtOrAtEnd;
  }

  lemma {:induction false} PartInside(g: Geometry, q: nat, i: nat, u: nat, x: nat, more: nat)
    requires g.Valid() && IsByte(g, q, i, u, x) && 0 < more <= g.shot - i
    ensures u + more <= g.Total() && g.Taken(u + more - 1) + 1 == x + more
  {
    ByteAddress(g, q, i + more - 1, u + more - 1, x + more - 1);
  }

  /** What is read in one turn for several shots, byte by byte. */
  lemma {:induction false} PartOfTurn(
      g: Geometry, base: nat, data: seq<nat>, x0: nat, addr: nat, next: Next, len: nat, more: nat)
    requires g.Valid() && base + |data| + more <= g.Total()
    requires IsByte(g, next.q, next.i, base + |data|, next.x) && 0 < more <= len <= g.shot - next.i
    requires x0 <= next.v <= next.x && (next.x == x0 || next.i == 0) && Ready(g, x0, next.v, next.x, addr)
    requires data == Wanted(g, base, |data|) <==> Unsplit(g, x0, next.v)
    ensures (data + Consecutive(addr, len))[..|data| + more] == Wanted(g, base, |data| + more)
       <==> Unsplit(g, x0, next.x + more)
  {
    hide Wanted, Unsplit, Ready, IsByte, AddressOf, Geometry.Taken, Geometry.Total, Geometry.Valid;
    var got := |data|;
    ShotPiece(g, x0, next.v, next.q, next.i, base + got, next.x, addr, more);
    WantedSplit(g, base, got, more);
    AppendEqual(data, Wanted(g, base, got), Consecutive(addr, more), Wanted(g, base + got, more));
    assert (data + Consecutive(addr, len))[..got + more] == data + Consecutive(addr, more);
  }

  lemma {:induction false} TurnKeepsRight(
      g: Geometry, base: nat, data: seq<nat>, x0: nat, addr: nat, next: Next, len: nat)
    requires g.Valid() && base + |data| + len <= g.Total()
    requires IsByte(g, next.q, next.i, base + |data|, next.x) && 0 < len <= g.shot - next.i
    requires x0 <= next.v <= next.x && (next.x == x0 || next.i == 0) && Ready(g, x0, next.v, next.x, addr)
    requires data == Wanted(g, base, |data|) <==> Unsplit(g, x0, next.v)
    requires x0 == g.Taken(base) && RightUnlessSplit(g, base, data)
    ensures RightUnlessSplit(g, base, data + Consecutive(addr, len))
    ensures data + Consecutive(addr, len) == Wanted(g, base, |data| + len) <==> Unsplit(g, x0, next.x + len)
  {
    hide Wanted, Unsplit, Ready, IsByte, AddressOf, Geometry.Taken, Geometry.Total,
      Geometry.Laid, Geometry.Valid, Consecutive;
    var got, data' := |data|, data + Consecutive(addr, len);
    PartOfTurn(g, base, data, x0, addr, next, len, len);
    assert data'[..got + len] == data';
    forall m | 0 < m <= |data'|
      ensures data'[..m] == Wanted(g, base, m) <==> Unsplit(g, g.Taken(base), g.Taken(base + m - 1) + 1)
    {
      if m <= got {
        assert data'[..m] == data[..m];
      } else {
        PartOfTurn(g, base, data, x0, addr, next, len, m - got);
        PartInside(g, next.q, next.i, base + got, next.x, m - got);
      }
    }
  }

  lemma {:induction false} TurnReads(
      g: Geometry, base: nat, size: nat, x0: nat, first: nat, data: seq<nat>, addr: nat, next: Next, len: nat)
    requires g.Valid() && |data| < size && base + size <= g.Total() && 0 < len == g.shot - next.i
    requires x0 == g.Taken(base) && ShotsState(g, base, size, x0, first, data, addr, next)
    ensures ShotsRead(g, base, size, x0, first, data + Consecutive(addr, len), next.x + len)
  {
    hide Wanted, Unsplit, Ready, ReadUpTo, RightUnlessSplit, IsByte, AddressOf, Consecutive,
      Geometry.Taken, Geometry.Total, Geometry.Laid, Geometry.Valid;
    PartInside(g, next.q, next.i, base + |data|, next.x, len);
    TurnKeepsRight(g, base, data, x0, addr, next, len);
    PieceEnd(g, next.q, next.i, base, size, |data|, x0, next.x, len);
    FirstOf(data, addr, len);
  }

  /** One turn for several shots. */
  lemma {:induction false} ShotTurn(
      g: Geometry, base: nat, size: nat, x0: nat, first: nat, data: seq<nat>, addr: nat, next: Next, len: nat)
    requires g.Valid() && |data| < size && base + size <= g.Total() && len == g.shot - next.i
    requires x0 == g.Taken(base) && ShotsState(g, base, size, x0, first, data, addr, next)
    ensures len > 0
    ensures var jump := g.aligned - g.shot;
            ShotsState(g, base, size, x0, first, data + Consecutive(addr, len),
                       NextAddress(addr, len + jump, g.start, g.start + g.ring),
                       Next(next.q + 1, 0, next.x + len + jump, next.x + len))
  {
    hide NextAddress, ShotsRead, Unsplit, Ready, IsByte, Geometry.Taken, Geometry.Total, Geometry.Laid, Geometry.Valid;
    var got := |data|;
    PieceOffset(g, next.q, next.i, base + got, next.x);
    TurnReads(g, base, size, x0, first, data, addr, next, len);
    if got + len < size {
      MoreShots(g, next.q, next.i, base + got, next.x, len);
      var addr' := NextAddress(addr, len + (g.aligned - g.shot), g.start, g.start + g.ring);
      NextReady(g, x0, next.v, next.q, next.i, base + got, next.x, addr, len, addr');
    }
  }

  /** At the end of the loop the last shot touched has been read to its end. */
  lemma {:induction false} LoopEnd(
      g: Geometry, base: nat, size: nat, x0: nat, first: nat, data: seq<nat>, addr: nat, next: Next)
    requires g.Valid() && 0 < size <= |data| && base + size <= g.Total()
    requires ShotsState(g, base, size, x0, first, data, addr, next)
    requires first == AddressOf(g, base) || first == g.start + g.ring
    ensures ShotsReply(g, base, size, data)
  {
    hide Unsplit, RightUnlessSplit, Geometry.Taken, AddressOf, Geometry.Total, Ready, IsByte;
    ShotEndExact(g, base + size, base + |data|);
    hide ShotEnd;
  }

  /** The reader's loop, for a block that begins with byte `base` of those asked for: byte x0 of those
    taken, which lies `sampleOff` samples into shot q0.  A transfer that does not complete ends it. */
  method ReadPieces(
      a: Acquisition, size: nat, first: nat, sampleOff: nat, completes: nat -> bool,
      ghost base: nat, ghost q0: nat, ghost x0: nat)
    returns (r: Reply)
    requires a.Valid() && sampleOff * a.chan.sampleSize >= 0
    requires IsByte(GeometryOf(a), q0, sampleOff * a.chan.sampleSize, base, x0)
    requires 0 < size && base + size <= GeometryOf(a).Total()
    requires first == ReadAddress(GeometryOf(a).start + GeometryOf(a).origin, x0, a.chan.start, a.chan.end)
    ensures !r.OutOfRange?
    ensures r.Block? <==> forall k :: 0 <= k < Transfers(GeometryOf(a), base, size) ==> completes(k)
    ensures r.Block? && a.shots == 1 ==> r.data == Wanted(GeometryOf(a), base, size)
    ensures r.Block? && a.shots > 1 ==> ShotsReply(GeometryOf(a), base, size, r.data)
  {
    hide Consecutive, Wanted, NextAddress, ShotsReply, IsByte, GeometryOf, ReadAddress, ShotsState,
      SingleState, Transfers,
      AtOrAtEnd,      Acquisition.SetUp, Acquisition.AlignedBytes, Geometry.Laid, Geometry.Taken, Geometry.Total;
    ghost var g := GeometryOf(a);
    GeometryEnds(a);
    var s, end := a.chan.sampleSize, a.chan.end;
    LoopStart(g, base, size, q0, sampleOff * s, x0, first);
    TakenOf(g, q0, sampleOff * s, base, x0, first);
    var data: seq<nat> := [];
    var addr: nat, shotSampleOff: nat, transfers: nat := first, sampleOff, 0;
    ghost var next := Next(q0, sampleOff * s, x0, x0);
    ShotIndex(g, q0, sampleOff * s, base, x0);
    ghost var total := Transfers(g, base, size);
    if a.shots == 1 {
      SingleTransfers(g, base, size, q0, sampleOff * s, x0, first);
    }
    while |data| < size
      invariant a.shots == 1 ==> SingleState(g, base, size, x0, data, addr)
      invariant a.shots > 1 ==> ShotsState(g, base, size, x0, first, data, addr, next)
      invariant next.i == shotSampleOff * s
      invariant forall k :: 0 <= k < transfers ==> completes(k)
      invariant a.shots == 1 ==> transfers + TransfersLeft(end, size - |data|, addr) == total
      invariant a.shots > 1 ==> transfers == next.q - q0
      decreases size - |data|, if addr == end then 1 else 0
    {
      var bytesToRead, bytesToJump := 0, 0;
      if a.shots == 1 {
        AddressInMemory(g, base, size, x0, data, addr);
        bytesToRead := if size - |data| > end - addr then end - addr else size - |data|;
        SingleTurn(g, base, size, x0, data, addr, bytesToRead);
        OneLess(g, base, size, data, addr, bytesToRead);
      } else {
        OffsetInShot(g, base, size, x0, first, data, addr, next);
        TransfersTaken(g, base, size, x0, first, data, addr, next, q0);
        PieceBytes(a, shotSampleOff);
        bytesToRead := (a.pre + a.post - shotSampleOff) * s;
        bytesToJump := (a.postAligned - a.post + (a.preAligned - a.pre)) * s;
        ShotTurn(g, base, size, x0, first, data, addr, next, bytesToRead);
        shotSampleOff := 0;
        next := Next(next.q + 1, 0, next.x + bytesToRead + bytesToJump, next.x + bytesToRead);
      }
      if !completes(transfers) {
        return CouldNotRead;
      }
      transfers := transfers + 1;
      data := data + Consecutive(addr, bytesToRead);
      addr := NextAddress(addr, bytesToRead + bytesToJump, a.chan.start, end);
    }
    if a.shots > 1 {
      LoopEnd(g, base, size, x0, first, data, addr, next);
      TransfersTaken(g, base, size, x0, first, data, addr, next, q0);
    } else {
      AllRead(g, base, size, x0, data, addr);
    }
    r := Block(data);
  }

  lemma {:induction false} ShotIndex(g: Geometry, q: nat, i: nat, u: nat, x: nat)
    requires g.Valid() && IsByte(g, q, i, u, x)
    ensures u / g.shot == q
  {
    DivModUnique(u, g.shot, q, i);
  }

  /** The transfers taken so far for several shots. */
  lemma {:induction false} TransfersTaken(
      g: Geometry, base: nat, size: nat, x0: nat, first: nat, data: seq<nat>, addr: nat, next: Next, q0: nat)
    requires g.Valid() && g.shots > 1 && 0 < size && base / g.shot == q0
    requires ShotsState(g, base, size, x0, first, data, addr, next)
    ensures |data| < size ==> next.q - q0 < Transfers(g, base, size)
    ensures size <= |data| ==> next.q - q0 == Transfers(g, base, size)
  {
    hide Transfers, RightUnlessSplit, Unsplit, ShotsReady, Geometry.Taken, Geometry.Total, Wanted;
    ShotTransfers(g, base, size, q0, next.q, |data|, next.i);
  }

  /** A turn for a single shot takes one of the transfers left. */
  lemma {:induction false} OneLess(g: Geometry, base: nat, size: nat, data: seq<nat>, addr: nat, len: nat)
    requires g.Valid() && g.shots == 1 && |data| < size && base + size <= g.Total()
    requires addr <= g.start + g.ring
    requires len == if size - |data| > g.start + g.ring - addr then g.start + g.ring - addr else size - |data|
    ensures var end := g.start + g.ring;
            TransfersLeft(end, size - |data|, addr)
            == 1 + TransfersLeft(end, size - |data| - len, NextAddress(addr, len, g.start, end))
  {
    DivModUnique(addr + len, ADDRESS_LIMIT, 0, addr + len);
    DivModUnique(g.start, ADDRESS_LIMIT, 0, g.start);
  }

  lemma {:induction false} AddressInMemory(g: Geometry, base: nat, size: nat, x0: nat, data: seq<nat>, addr: nat)
    requires g.Valid() && base + size <= g.Total() && |data| < size && SingleState(g, base, size, x0, data, addr)
    ensures addr <= g.start + g.ring
  {
    PieceInMemory(g, base + |data|, x0 + |data|, addr);
  }

  lemma {:induction false} AllRead(g: Geometry, base: nat, size: nat, x0: nat, data: seq<nat>, addr: nat)
    requires g.Valid() && base + size <= g.Total() && |data| >= size && SingleState(g, base, size, x0, data, addr)
    ensures data == Wanted(g, base, size)
  {
  }

  lemma {:induction false} OffsetInShot(
      g: Geometry, base: nat, size: nat, x0: nat, first: nat, data: seq<nat>, addr: nat, next: Next)
    requires g.Valid() && |data| < size && ShotsState(g, base, size, x0, first, data, addr, next)
    ensures next.i < g.shot && g.aligned - g.shot >= 0
  {
  }

  lemma {:induction false} FirstOf(data: seq<nat>, addr: nat, count: nat)
    ensures data != [] ==> (data + Consecutive(addr, count))[0] == data[0]
    ensures data == [] && count > 0 ==> (data + Consecutive(addr, count))[0] == addr
  {
  }

  lemma {:induction false} PieceOffset(g: Geometry, q: nat, i: nat, u: nat, x: nat)
    requires g.Valid() && IsByte(g, q, i, u, x)
    ensures i < g.shot && g.aligned - g.shot >= 0
  {
  }

  /** The first byte read is right, or the one at the end of the memory. */
  lemma {:induction false} TakenOf(g: Geometry, q: nat, i: nat, u: nat, x: nat, addr: nat)
    requires g.Valid() && IsByte(g, q, i, u, x) && AtOrAtEnd(g, x, addr)
    ensures u < g.Total() && x == g.Taken(u)
    ensures addr == AddressOf(g, u) || addr == g.start + g.ring
  {
    ByteAddress(g, q, i, u, x);
  }

  /** The reader's checks of the block number, and the size of a block in range. */
  method BlockBytes(a: Acquisition, n: nat) returns (size: Option<nat>)
    requires a.Valid()
    ensures size == None <==> n > LastBlock(GeometryOf(a)) || n > a.chan.maxSamples * a.chan.sampleSize / BLOCK_SIZE
    ensures size.Some? ==> size.value == BlockSize(GeometryOf(a), n)
  {
    hide GeometryOf, Acquisition.SetUp, Acquisition.AlignedBytes;
    ghost var g := GeometryOf(a);
    var s := a.chan.sampleSize;
    SamplesInBytes(a);
    if n > a.chan.maxSamples * s / BLOCK_SIZE {
      return None;
    }
    var perBlock := BLOCK_SIZE / s;
    var samples := (a.pre + a.post) * a.shots;
    BlockCount(samples, perBlock, s);
    var over, valid := samples % perBlock, samples / perBlock;
    if valid != 0 && over == 0 {
      valid := valid - 1;
    }
    if n > valid {
      return None;
    }
    size := Some(if n == valid && over > 0 then over * s else BLOCK_SIZE);
  }

  /** The blocks that the reader accepts: those of the acquisition, within what the channel can hold. */
  predicate InRange(a: Acquisition, n: int)
    requires a.Valid()
  {
    n <= LastBlock(GeometryOf(a)) && n <= a.chan.maxSamples * a.chan.sampleSize / BLOCK_SIZE
  }

  /** What the reader promises of a block. */
  ghost predicate BlockRead(a: Acquisition, n: nat, block: seq<nat>)
    requires a.Valid() && n <= LastBlock(GeometryOf(a))
  {
    var g, base, size := GeometryOf(a), n * BLOCK_SIZE, BlockSize(GeometryOf(a), n);
    && 0 < size && base + size <= g.Total()
    && (a.shots == 1 ==> block == Wanted(g, base, size))
    && (a.shots > 1 ==> ShotsReply(g, base, size, block))
    && (a.shots > 1 ==> (block == Wanted(g, base, size) <==> ReadsRight(g, base, size)))
  }

  /** All transfers that block n takes are complete. */
  ghost predicate AllComplete(a: Acquisition, n: nat, completes: nat -> bool)
    requires a.Valid() && n <= LastBlock(GeometryOf(a))
  {
    var g := GeometryOf(a);
    BlockInside(g, n);
    forall k :: 0 <= k < Transfers(g, n * BLOCK_SIZE, BlockSize(g, n)) ==> completes(k)
  }

  /** _acq_get_data_block: the bytes of block n of an acquisition, exactly when it is in range and all
    its transfers are complete.  A block of a single shot is then right.  The reply for one of several
    shots goes on to the end of a shot, and it is the block exactly when the block ends with a shot
    and the end of the memory does not split it. */
  method GetBlock(a: Acquisition, n: nat, completes: nat -> bool) returns (r: Reply)
    requires a.Valid()
    ensures r.OutOfRange? <==> !InRange(a, n)
    ensures r.Block? <==> InRange(a, n) && AllComplete(a, n, completes)
    ensures r.Block? ==> InRange(a, n) && BlockRead(a, n, r.data)
  {
    hide GeometryOf, Wanted, ReadsRight, ShotsReply, LastBlock, BlockSize, FirstAddress, ReadAddress;
    ghost var g := GeometryOf(a);
    var bytes := BlockBytes(a, n);
    if bytes == None {
      return OutOfRange;
    }
    BlockInside(g, n);
    var first, off, shot, x := Locate(a, n);
    r := ReadPieces(a, bytes.value, first, off, completes, n * BLOCK_SIZE, shot, x);
    if r.Block? && a.shots > 1 {
      ReplyIsBlock(g, n * BLOCK_SIZE, BlockSize(g, n), r.data);
    }
  }

  /** Where the reader begins with block n, and how many samples into a shot that is. */
  method Locate(a: Acquisition, n: nat) returns (first: nat, off: nat, ghost shot: nat, ghost x: nat)
    requires a.Valid() && n * BLOCK_SIZE < GeometryOf(a).Total()
    ensures off * a.chan.sampleSize >= 0
    ensures IsByte(GeometryOf(a), shot, off * a.chan.sampleSize, n * BLOCK_SIZE, x)
    ensures first == ReadAddress(GeometryOf(a).start + GeometryOf(a).origin, x, a.chan.start, a.chan.end)
  {
    hide GeometryOf, FirstAddress, ReadAddress, IsByte;
    ghost var g := GeometryOf(a);
    GeometryEnds(a);
    var s, shotSamples := a.chan.sampleSize, a.pre + a.post;
    BlockSamples(a, n);
    var sample: nat := n * (BLOCK_SIZE / s);
    InShot(sample, shotSamples);
    var orShot: nat := sample / shotSamples;
    off := sample - orShot * shotSamples;
    var offset := (orShot * (a.preAligned + a.postAligned) + (a.preAligned - a.pre + off)) * s;
    BlockStart(a, n * BLOCK_SIZE, sample, orShot, off, offset);
    FirstAddressExact(a);
    var readAddress := ReadAddress(g.start + g.origin, offset, a.chan.start, a.chan.end);
    FirstPiece(g, n * BLOCK_SIZE, orShot, off * s, offset, readAddress);
    shot, x := orShot, offset;
    first := ReadAddress(FirstAddress(a), offset, a.chan.start, a.chan.end);
  }

  lemma {:induction false} InShot(sample: nat, shotSamples: nat)
    requires shotSamples > 0
    ensures 0 <= sample / shotSamples
    ensures 0 <= sample - sample / shotSamples * shotSamples < shotSamples
  {
    var q := sample / shotSamples;
    assert sample == q * shotSamples + sample % shotSamples;
    if q < 0 {
      MulGrows(q, 0, shotSamples);
    }
  }

  lemma {:induction false} BlockSamples(a: Acquisition, n: nat)
    requires a.Valid()
    ensures n * (BLOCK_SIZE / a.chan.sampleSize) * a.chan.sampleSize == n * BLOCK_SIZE
    ensures n * (BLOCK_SIZE / a.chan.sampleSize) >= 0
  {
    SamplesInBytes(a);
    Regroup(n, BLOCK_SIZE / a.chan.sampleSize, a.chan.sampleSize);
  }

  lemma {:induction false} SamplesInBytes(a: Acquisition)
    requires a.Valid()
    ensures (a.pre + a.post) * a.shots > 0
    ensures (a.pre + a.post) * a.shots * a.chan.sampleSize == GeometryOf(a).Total()
    ensures BLOCK_SIZE / a.chan.sampleSize * a.chan.sampleSize == BLOCK_SIZE && BLOCK_SIZE / a.chan.sampleSize > 0
  {
    MulGrows(0, a.pre + a.post, a.shots);
    Regroup(a.shots, a.pre + a.post, a.chan.sampleSize);
    var q := BLOCK_SIZE / a.chan.sampleSize;
    assert BLOCK_SIZE == q * a.chan.sampleSize;
    if q < 0 {
      MulGrows(q, 0, a.chan.sampleSize);
    }
  }

  // ----- acquisitions that are not read correctly

  /** Two shots of two samples, aligned to 8 samples on either side, with the first trigger at the
    very start of the memory: its first sample is the last one of the memory, and the reader reads
    on beyond the end. */
  const SPLIT_SHOT := Acquisition(Channel(0, 0x1000, 4, 0x3FF), 1, 1, 8, 8, 2, 0)

  const SPLIT_GEOMETRY := Geometry(8, 64, 28, 2, 0, 0x1000, 0xFE0)

  lemma {:induction false} SplitShotGeometry()
    ensures SPLIT_SHOT.Valid() && GeometryOf(SPLIT_SHOT) == SPLIT_GEOMETRY
  {
  }

  lemma {:induction false} SplitShotIsWrong()
    ensures SPLIT_SHOT.Valid() && GeometryOf(SPLIT_SHOT) == SPLIT_GEOMETRY
    ensures SPLIT_GEOMETRY.Total() == 16 && !ReadsRight(SPLIT_GEOMETRY, 0, 16)
  {
    hide GeometryOf, Acquisition.SetUp, Acquisition.AlignedBytes, ShotStart;
    SplitShotGeometry();
    NoStartBetween(SPLIT_GEOMETRY, 0, 32);
  }

  /** 200 shots of 2000 samples of 4 bytes: the first block ends within shot 131, and its reply goes on
    for the rest of that shot. */
  const LONG_REPLY := Acquisition(Channel(0, 0x20_0000, 4, 0x7_FFFF), 1000, 1000, 1000, 1000, 200, 0x10_0000)

  lemma {:induction false} ReplyIsTooLong()
    ensures LONG_REPLY.Valid() && 0 <= LastBlock(GeometryOf(LONG_REPLY))
    ensures ShotEnd(GeometryOf(LONG_REPLY), BLOCK_SIZE) == 1_056_000 > BLOCK_SIZE
  {
  }
}
