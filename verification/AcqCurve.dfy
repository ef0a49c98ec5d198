/** The client's side of an acquisition: it asks for the blocks one by one and puts them together. */
module AcqCurve {
  import opened AcqBlocks
  import opened Bits
  import opened Prelude

  // ----- how many blocks the client asks for

  /** The last block that the client asks for, from the bytes that it expects. */
  function LastAsked(bytes: int): int {
    bytes / BLOCK_SIZE
  }

  /** Unlike the reader's, the client's count is one too many when the last block is full. */
  lemma {:induction false} AskedExact(g: Geometry)
    ensures LastAsked(g.Total()) == if g.Total() % BLOCK_SIZE == 0 then LastBlock(g) + 1 else LastBlock(g)
    ensures LastAsked(g.Total()) >= 0
  {
  }

  lemma {:induction false} SamplesAsked(a: Acquisition, asked: nat)
    requires a.Valid()
    ensures a.chan.sampleSize > 0 && BLOCK_SIZE / a.chan.sampleSize > 0
    ensures asked / (BLOCK_SIZE / a.chan.sampleSize) == LastAsked(asked * a.chan.sampleSize) >= 0
  {
    var s, perBlock := a.chan.sampleSize, BLOCK_SIZE / a.chan.sampleSize;
    SamplesInBytes(a);
    hide Acquisition.SetUp, Acquisition.AlignedBytes, GeometryOf;
    BlocksOfSamples(asked, perBlock, s);
  }

  lemma {:induction false} BlocksOfSamples(asked: nat, perBlock: nat, s: nat)
    requires perBlock > 0 && s > 0 && perBlock * s == BLOCK_SIZE
    ensures asked / perBlock == asked * s / BLOCK_SIZE >= 0
  {
    var q, i := asked / perBlock, asked % perBlock;
    assert asked == q * perBlock + i;
    if q < 0 {
      MulGrows(q, 0, perBlock);
    }
    Distribute(q * perBlock, i, s);
    Regroup(q, perBlock, s);
    MulMonotone(0, i, s);
    MulGrows(i, perBlock, s);
    DivModUnique(asked * s, BLOCK_SIZE, q, i * s);
  }

  // ----- putting blocks together

  /** All blocks of the acquisition are read correctly. */
  ghost predicate AllReadRight(a: Acquisition)
    requires a.Valid()
  {
    a.shots > 1 ==>
      forall n: nat :: (n <= LastBlock(GeometryOf(a)) ==>
        var g, base, size := GeometryOf(a), n * BLOCK_SIZE, BlockSize(GeometryOf(a), n);
        0 < size && base + size <= g.Total() && ReadsRight(g, base, size))
  }

  function Min(x: int, y: int): int {
    if x < y then x else y
  }

  /** The bytes up to block n. */
  function UpTo(g: Geometry, n: nat): (u: nat)
    ensures u <= g.Total()
  {
    Min(n * BLOCK_SIZE, g.Total())
  }

  lemma {:induction false} UpToNext(g: Geometry, n: nat)
    requires g.Valid() && n <= LastBlock(g)
    ensures UpTo(g, n) == n * BLOCK_SIZE && UpTo(g, n + 1) == n * BLOCK_SIZE + BlockSize(g, n)
    ensures n == LastBlock(g) ==> UpTo(g, n + 1) == g.Total()
    ensures 0 < BlockSize(g, n)
  {
    BlockInside(g, n);
    AskedExact(g);
  }

  /** One more block copied into what is left of the caller's buffer. */
  lemma {:induction false} CopyBlock(g: Geometry, from: nat, size: nat, room: nat, data: seq<nat>, block: seq<nat>)
    requires g.Valid() && from + size <= g.Total()
    requires data == Wanted(g, 0, Min(room, from)) && block == Wanted(g, from, size)
    ensures |data| <= room
    ensures data + block[..Min(room - |data|, |block|)] == Wanted(g, 0, Min(room, from + size))
  {
    hide AddressOf, Geometry.Total;
    var more := Min(room - |data|, |block|);
    if room >= from {
      WantedSplit(g, 0, from, more);
      assert block[..more] == Wanted(g, from, more);
    } else {
      assert block[..more] == [];
    }
  }

  lemma {:induction false} CopyNext(a: Acquisition, n: nat, room: nat, data: seq<nat>, block: seq<nat>)
    requires a.Valid() && AllReadRight(a) && n <= LastBlock(GeometryOf(a)) && BlockRead(a, n, block)
    requires data == Wanted(GeometryOf(a), 0, Min(room, UpTo(GeometryOf(a), n)))
    ensures |data| <= room
    ensures data + block[..Min(room - |data|, |block|)]
         == Wanted(GeometryOf(a), 0, Min(room, UpTo(GeometryOf(a), n + 1)))
  {
    hide GeometryOf, Wanted, ReadsRight, ShotsReply, BlockSize, LastBlock, UpTo, Geometry.Valid, Geometry.Total;
    UpToNext(GeometryOf(a), n);
    CopyBlock(GeometryOf(a), n * BLOCK_SIZE, BlockSize(GeometryOf(a), n), room, data, block);
  }

  // ----- when a curve of several shots is right

  /** Where block n ends, and where the reply for it does. */
  function BlockEnd(g: Geometry, n: nat): nat
    requires g.Valid() && n <= LastBlock(g)
  {
    BlockInside(g, n);
    n * BLOCK_SIZE + BlockSize(g, n)
  }

  function ReplyEnd(g: Geometry, n: nat): (r: nat)
    requires g.Valid() && n <= LastBlock(g)
    ensures n * BLOCK_SIZE < BlockEnd(g, n) <= r <= g.Total()
  {
    BlockInside(g, n);
    ShotEndInside(g, BlockEnd(g, n));
    ShotEnd(g, BlockEnd(g, n))
  }

  ghost predicate EndsWithShot(g: Geometry, n: nat)
    requires g.Valid() && n <= LastBlock(g)
  {
    ReplyEnd(g, n) == BlockEnd(g, n)
  }

  /** What is copied of reply n into a buffer of `room` bytes is not split. */
  ghost predicate CopyUnsplit(g: Geometry, room: nat, n: nat)
    requires g.Valid() && n <= LastBlock(g)
  {
    n * BLOCK_SIZE < room ==>
      Unsplit(g, g.Taken(n * BLOCK_SIZE), g.Taken(Min(room, ReplyEnd(g, n)) - 1) + 1)
  }

  /** Nothing is copied of reply n, or it does not go on beyond its block, or only into what is
    expected up to the end of the buffer. */
  ghost predicate CopyInPlace(g: Geometry, room: nat, last: nat, n: nat)
    requires g.Valid() && n <= LastBlock(g)
  {
    || room <= n * BLOCK_SIZE
    || EndsWithShot(g, n)
    || (room <= ReplyEnd(g, n) && room <= UpTo(g, last + 1))
  }

  /** All blocks before the n-th one end with a shot. */
  ghost predicate Straight(g: Geometry, n: nat)
    requires g.Valid() && n <= LastBlock(g) + 1
  {
    forall m: nat :: m < n ==> EndsWithShot(g, m)
  }

  /** Of the blocks up to `last`, put into a buffer of `room` bytes: up to the first one that does not
    end with a shot, nothing that is copied is split; and the reply for that one, if there is one,
    fills the buffer. */
  ghost predicate CurveRight(g: Geometry, room: nat, last: nat)
    requires g.Valid() && last <= LastBlock(g)
  {
    forall n: nat :: n <= last && Straight(g, n) ==> CopyUnsplit(g, room, n) && CopyInPlace(g, room, last, n)
  }

  ghost predicate UnsplitUpTo(g: Geometry, room: nat, n: nat)
    requires g.Valid() && n <= LastBlock(g) + 1
  {
    forall m: nat :: m < n ==> CopyUnsplit(g, room, m)
  }

  /** Some byte is not the one that belongs there. */
  ghost predicate Wrong(g: Geometry, data: seq<nat>, upTo: nat)
    requires g.Valid() && upTo <= g.Total()
  {
    exists i :: 0 <= i < |data| && i < upTo && data[i] != AddressOf(g, i)
  }

  /** What can no longer come right: a wrong byte, more than is expected, or a reply that was too long,
    so that the next block will be out of place. */
  ghost predicate Spoilt(g: Geometry, room: nat, last: nat, n: nat, data: seq<nat>)
    requires g.Valid() && last <= LastBlock(g)
  {
    var expected := UpTo(g, last + 1);
    || Wrong(g, data, expected)
    || |data| > expected
    || UpTo(g, n) < |data| < room
  }

  /** What the client has after n of the blocks up to `last`: as long as blocks end with a shot, their
    bytes; after a reply that was too long, a full buffer or something spoilt. */
  ghost predicate Progress(g: Geometry, room: nat, last: nat, n: nat, data: seq<nat>)
    requires g.Valid() && last <= LastBlock(g) && n <= last + 1
  {
    && |data| <= room
    && if Straight(g, n) then
         var have := Min(room, UpTo(g, n));
         |data| == have && (data == Wanted(g, 0, have) <==> UnsplitUpTo(g, room, n))
       else if CurveRight(g, room, last) then
         |data| == room <= UpTo(g, last + 1) && data == Wanted(g, 0, room)
       else
         || (|data| == room <= UpTo(g, last + 1) && data != Wanted(g, 0, room))
         || Spoilt(g, room, last, n, data)
  }

  lemma {:induction false} StraightNext(g: Geometry, room: nat, n: nat)
    requires g.Valid() && n <= LastBlock(g)
    ensures Straight(g, n + 1) <==> Straight(g, n) && EndsWithShot(g, n)
    ensures UnsplitUpTo(g, room, n + 1) <==> UnsplitUpTo(g, room, n) && CopyUnsplit(g, room, n)
  {
    hide EndsWithShot, CopyUnsplit, LastBlock;
  }

  /** The first block that does not end with a shot decides. */
  lemma {:induction false} FirstOdd(g: Geometry, room: nat, last: nat, n: nat)
    requires g.Valid() && n <= last <= LastBlock(g) && Straight(g, n) && !EndsWithShot(g, n)
    ensures CurveRight(g, room, last)
       <==> UnsplitUpTo(g, room, n) && CopyUnsplit(g, room, n) && CopyInPlace(g, room, last, n)
  {
    hide EndsWithShot, CopyUnsplit, LastBlock, ReplyEnd, UpTo, Geometry.Total;
    forall m: nat | m <= n
      ensures Straight(g, m)
    {
    }
    if UnsplitUpTo(g, room, n) && CopyUnsplit(g, room, n) && CopyInPlace(g, room, last, n) {
      forall k: nat | k <= last && Straight(g, k)
        ensures CopyUnsplit(g, room, k) && CopyInPlace(g, room, last, k)
      {
        assert k <= n;
      }
    }
  }

  lemma {:induction false} NoneOdd(g: Geometry, room: nat, last: nat)
    requires g.Valid() && last <= LastBlock(g) && Straight(g, last + 1)
    ensures CurveRight(g, room, last) <==> UnsplitUpTo(g, room, last + 1)
  {
    hide EndsWithShot, CopyUnsplit, LastBlock, ReplyEnd, UpTo, Geometry.Total;
    forall m: nat | m <= last
      ensures Straight(g, m) && EndsWithShot(g, m)
    {
    }
  }

  /** Different bytes asked for lie at different addresses. */
  lemma {:induction false} AddressInjective(g: Geometry, u: nat, w: nat)
    requires g.Valid() && u < w < g.Total()
    ensures AddressOf(g, u) != AddressOf(g, w) && AddressOf(g, w) < g.start + g.ring
  {
    TakenInRing(g, u);
    TakenInRing(g, w);
    var p, q, i, j := u / g.shot, w / g.shot, u % g.shot, w % g.shot;
    PlaceCases(g, g.Taken(u));
    PlaceCases(g, g.Taken(w));
    if p < q {
      MulGrows(p, q, g.aligned);
    } else if q < p {
      MulGrows(q, p, g.shot);
    }
  }

  /** What is copied of one more reply, as long as blocks end with a shot. */
  lemma {:induction false} AppendStraight(
      g: Geometry, room: nat, n: nat, data: seq<nat>, reply: seq<nat>, more: nat)
    requires g.Valid() && n <= LastBlock(g)
    requires 0 < BlockSize(g, n) && n * BLOCK_SIZE + BlockSize(g, n) <= g.Total()
    requires ShotsReply(g, n * BLOCK_SIZE, BlockSize(g, n), reply)
    requires |data| == n * BLOCK_SIZE < room && more == Min(room - |data|, |reply|)
    requires data == Wanted(g, 0, |data|) <==> UnsplitUpTo(g, room, n)
    ensures |data + reply[..more]| == Min(room, ReplyEnd(g, n)) <= g.Total()
    ensures data + reply[..more] == Wanted(g, 0, Min(room, ReplyEnd(g, n)))
       <==> UnsplitUpTo(g, room, n) && CopyUnsplit(g, room, n)
  {
    hide UnsplitUpTo, Unsplit, Wanted, AddressOf, LastBlock, BlockSize, ShotEnd, Geometry.Taken, Geometry.Total;
    var base: nat := n * BLOCK_SIZE;
    assert 0 < more && base + more == Min(room, ReplyEnd(g, n));
    WantedSplit(g, 0, base, more);
    AppendEqual(data, Wanted(g, 0, base), reply[..more], Wanted(g, base, more));
  }

  lemma {:induction false} StillWrong(g: Geometry, data: seq<nat>, more: seq<nat>, upTo: nat)
    requires g.Valid() && upTo <= g.Total() && Wrong(g, data, upTo)
    ensures Wrong(g, data + more, upTo)
  {
    hide AddressOf, Geometry.Total;
    var i :| 0 <= i < |data| && i < upTo && data[i] != AddressOf(g, i);
    assert (data + more)[i] == data[i];
  }

  /** A block after too much. */
  lemma {:induction false} OutOfPlace(g: Geometry, base: nat, data: seq<nat>, reply: seq<nat>, upTo: nat)
    requires g.Valid() && base < |data| && base < g.Total() && upTo <= g.Total() && reply != []
    requires reply[0] == AddressOf(g, base) || reply[0] == g.start + g.ring
    ensures Wrong(g, data + reply, upTo) || |data + reply| > upTo
  {
    hide AddressOf, Geometry.Total;
    if |data| < upTo {
      AddressInjective(g, base, |data|);
      assert (data + reply)[|data|] == reply[0];
    }
  }

  /** One more reply after something spoilt. */
  lemma {:induction false} StillSpoilt(
      g: Geometry, room: nat, last: nat, n: nat, data: seq<nat>, reply: seq<nat>, more: nat)
    requires g.Valid() && n <= last <= LastBlock(g) && Spoilt(g, room, last, n, data) && |data| <= room
    requires 0 < BlockSize(g, n) && n * BLOCK_SIZE + BlockSize(g, n) <= g.Total()
    requires ShotsReply(g, n * BLOCK_SIZE, BlockSize(g, n), reply) && more == Min(room - |data|, |reply|)
    ensures Spoilt(g, room, last, n + 1, data + reply[..more])
  {
    hide Wrong, AddressOf, RightUnlessSplit, LastBlock, BlockSize, Geometry.Total;
    UpToNext(g, n);
    var expected := UpTo(g, last + 1);
    if Wrong(g, data, expected) {
      StillWrong(g, data, reply[..more], expected);
    } else if |data| <= expected {
      OutOfPlace(g, n * BLOCK_SIZE, data, reply[..more], expected);
    }
  }

  lemma {:induction false} UpToMonotone(g: Geometry, m: nat, n: nat)
    requires m <= n
    ensures UpTo(g, m) <= UpTo(g, n)
  {
  }

  /** One more reply after blocks that end with a shot. */
  lemma {:induction false} StraightTurn(
      g: Geometry, room: nat, last: nat, n: nat, data: seq<nat>, reply: seq<nat>, more: nat)
    requires g.Valid() && n <= last <= LastBlock(g) && Progress(g, room, last, n, data) && Straight(g, n)
    requires 0 < BlockSize(g, n) && n * BLOCK_SIZE + BlockSize(g, n) <= g.Total()
    requires ShotsReply(g, n * BLOCK_SIZE, BlockSize(g, n), reply) && more == Min(room - |data|, |reply|)
    ensures Progress(g, room, last, n + 1, data + reply[..more])
  {
    hide Straight, UnsplitUpTo, CurveRight, Wrong, Wanted, LastBlock, BlockSize, AddressOf, Unsplit, RightUnlessSplit,
      ReplyEnd, ShotEnd, Geometry.Total, Geometry.Taken;
    UpToNext(g, n);
    UpToMonotone(g, n + 1, last + 1);
    StraightNext(g, room, n);
    ReplyEndIs(g, n);
    if !EndsWithShot(g, n) {
      FirstOdd(g, room, last, n);
    }
    if n * BLOCK_SIZE < room {
      AppendStraight(g, room, n, data, reply, more);
    } else {
      assert data + reply[..more] == data;
    }
  }

  lemma {:induction false} ReplyEndIs(g: Geometry, n: nat)
    requires g.Valid() && n <= LastBlock(g)
    ensures ReplyEnd(g, n) == ShotEnd(g, n * BLOCK_SIZE + BlockSize(g, n))
    ensures BlockEnd(g, n) == n * BLOCK_SIZE + BlockSize(g, n)
  {
  }

  /** One more reply. */
  lemma {:induction false} ProgressNext(g: Geometry, room: nat, last: nat, n: nat, data: seq<nat>, reply: seq<nat>)
    requires g.Valid() && n <= last <= LastBlock(g) && Progress(g, room, last, n, data)
    requires 0 < BlockSize(g, n) && n * BLOCK_SIZE + BlockSize(g, n) <= g.Total()
    requires ShotsReply(g, n * BLOCK_SIZE, BlockSize(g, n), reply)
    ensures |data| <= room
    ensures Progress(g, room, last, n + 1, data + reply[..Min(room - |data|, |reply|)])
  {
    hide Straight, UnsplitUpTo, CurveRight, Spoilt, Wanted, LastBlock, BlockSize, ShotsReply, EndsWithShot,
      Geometry.Total;
    var more := Min(room - |data|, |reply|);
    if Straight(g, n) {
      StraightTurn(g, room, last, n, data, reply, more);
    } else {
      StraightNext(g, room, n);
      if Spoilt(g, room, last, n, data) {
        StillSpoilt(g, room, last, n, data, reply, more);
      }
      if |data| == room {
        assert data + reply[..more] == data;
      }
    }
  }

  /** After the last block. */
  lemma {:induction false} ProgressEnd(g: Geometry, room: nat, last: nat, data: seq<nat>)
    requires g.Valid() && last <= LastBlock(g) && Progress(g, room, last, last + 1, data)
    ensures data == Wanted(g, 0, Min(room, UpTo(g, last + 1))) <==> CurveRight(g, room, last)
  {
    hide Straight, UnsplitUpTo, CurveRight, LastBlock, AddressOf, Geometry.Total, UpTo;
    if Straight(g, last + 1) {
      NoneOdd(g, room, last);
    }
  }

  lemma {:induction false} NothingCopied(g: Geometry, room: nat, last: nat)
    requires g.Valid() && 0 <= LastBlock(g)
    ensures UpTo(g, 0) == 0 && Wanted(g, 0, 0) == []
    ensures last <= LastBlock(g) ==> Progress(g, room, last, 0, [])
  {
  }

  lemma {:induction false} HasBlock(g: Geometry)
    requires g.Valid()
    ensures 0 <= LastBlock(g)
  {
    MulGrows(0, g.shots, g.shot);
  }

  // ----- the client's loop

  /** The blocks up to `last` are in range, all their transfers complete, and no interrupt comes before
    any of them. */
  ghost predicate Served(a: Acquisition, last: nat, completes: nat -> nat -> bool, interrupted: nat -> bool)
    requires a.Valid()
  {
    InRange(a, last) &&
    forall n: nat :: n <= last && n <= LastBlock(GeometryOf(a)) ==> !interrupted(n) && AllComplete(a, n, completes(n))
  }

  lemma {:induction false} ServedSoFar(
      a: Acquisition, last: nat, n: nat, completes: nat -> nat -> bool, interrupted: nat -> bool)
    requires a.Valid() && n <= last
    requires interrupted(n) || !InRange(a, n) || !AllComplete(a, n, completes(n))
    ensures !Served(a, last, completes, interrupted)
  {
    InRangeFacts(a, last, n);
    hide InRange, AllComplete;
  }

  /** _acq_get_curve, for `asked` samples into a buffer of `room` bytes.  It succeeds exactly when the
    acquisition has all blocks that it asks for and each of them is read without an interrupt.  For a
    single shot it then has the bytes of these blocks, as far as they fit the buffer, and for several
    shots exactly when CurveRight holds. */
  method GetCurve(a: Acquisition, asked: nat, room: nat, completes: nat -> nat -> bool, interrupted: nat -> bool)
    returns (ok: bool, data: seq<nat>)
    requires a.Valid() && asked * a.chan.sampleSize >= 0
    ensures var g, last := GeometryOf(a), LastAsked(asked * a.chan.sampleSize);
            && last >= 0
            && (ok ==> last <= LastBlock(g) && InRange(a, last))
            && (ok <==> Served(a, last, completes, interrupted))
            && (ok && AllReadRight(a) ==> data == Wanted(g, 0, Min(room, UpTo(g, last + 1))))
            && (ok && a.shots > 1 ==>
                  (data == Wanted(g, 0, Min(room, UpTo(g, last + 1))) <==> CurveRight(g, room, last)))
  {
    hide GeometryOf, Wanted, ReadsRight, ShotsReply, BlockSize, LastBlock, LastAsked, UpTo, AllReadRight, CurveRight,
      Progress, BlockRead, InRange, AllComplete, Geometry.Total, Geometry.Laid,
      Acquisition.SetUp, Acquisition.AlignedBytes;
    ghost var g := GeometryOf(a);
    SamplesAsked(a, asked);
    GeometryEnds(a);
    HasBlock(g);
    var last: nat := asked / (BLOCK_SIZE / a.chan.sampleSize);
    data := [];
    var n: nat := 0;
    NothingCopied(g, room, last);
    while n <= last
      invariant n <= last + 1 && |data| <= room
      invariant n <= LastBlock(g) + 1
      invariant n > 0 ==> InRange(a, n - 1)
      invariant forall m: nat :: m < n && m <= LastBlock(g) ==> !interrupted(m) && AllComplete(a, m, completes(m))
      invariant AllReadRight(a) ==> data == Wanted(g, 0, Min(room, UpTo(g, n)))
      invariant a.shots > 1 && last <= LastBlock(g) ==> Progress(g, room, last, n, data)
    {
      if interrupted(n) {
        ServedSoFar(a, last, n, completes, interrupted);
        return false, data;
      }
      var r := GetBlock(a, n, completes(n));
      if !r.Block? {
        ServedSoFar(a, last, n, completes, interrupted);
        return false, data;
      }
      var more := Min(room - |data|, |r.data|);
      InRangeFacts(a, n, n);
      CopyTurn(a, last, n, room, data, r.data);
      data := data + r.data[..more];
      n := n + 1;
    }
    InRangeFacts(a, last, last);
    if a.shots > 1 {
      ProgressEnd(g, room, last, data);
    }
    ok := true;
  }

  lemma {:induction false} InRangeFacts(a: Acquisition, n: int, m: int)
    requires a.Valid() && m <= n
    ensures InRange(a, n) ==> n <= LastBlock(GeometryOf(a)) && InRange(a, m)
  {
    hide LastBlock, GeometryOf;
  }

  lemma {:induction false} CopyTurn(a: Acquisition, last: nat, n: nat, room: nat, data: seq<nat>, block: seq<nat>)
    requires a.Valid() && n <= LastBlock(GeometryOf(a)) && n <= last && BlockRead(a, n, block) && |data| <= room
    ensures var g, data' := GeometryOf(a), data + block[..Min(room - |data|, |block|)];
            && (AllReadRight(a) && data == Wanted(g, 0, Min(room, UpTo(g, n))) ==>
                  data' == Wanted(g, 0, Min(room, UpTo(g, n + 1))))
            && (a.shots > 1 && last <= LastBlock(g) && Progress(g, room, last, n, data) ==>
                  Progress(g, room, last, n + 1, data'))
  {
    hide GeometryOf, Wanted, ReadsRight, ShotsReply, BlockSize, LastBlock, UpTo, AllReadRight, Progress,
      Geometry.Total, Geometry.Laid, Geometry.Valid, Acquisition.SetUp, Acquisition.AlignedBytes;
    var g := GeometryOf(a);
    if AllReadRight(a) && data == Wanted(g, 0, Min(room, UpTo(g, n))) {
      CopyNext(a, n, room, data, block);
    }
    if a.shots > 1 && last <= LastBlock(g) && Progress(g, room, last, n, data) {
      ProgressNext(g, room, last, n, data, block);
    }
  }

  // ----- an acquisition that the client does not get

  /** 2^18 samples of 4 bytes, one full block: the client asks for block 1, which is out of range. */
  const ONE_FULL_BLOCK := Acquisition(
    Channel(0, 0x40_0000, 4, 0xF_FFFF), 0x2_0000, 0x2_0000, 0x2_0000, 0x2_0000, 1, 0x20_0000)

  lemma {:induction false} FullBlockIsRefused()
    ensures ONE_FULL_BLOCK.Valid() && LastAsked(GeometryOf(ONE_FULL_BLOCK).Total()) == 1
    ensures LastBlock(GeometryOf(ONE_FULL_BLOCK)) == 0
  {
  }
}
