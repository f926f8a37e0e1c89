/** When WriteBlocks_RAM is right: for one buffer, and for every buffer.

    What a page holds is what the chip's buffer held when the program command ended. Where the write meets a chip at
    work, the chip's data is not reliable either, so both are asked for. */
module RamWriteResult {
  import opened Arithmetic
  import opened ByteMemory
  import opened Endpoints
  import opened Dataflash
  import opened BlockStore
  import opened BusyChips
  import opened BusyChipsRam
  import opened DataflashManager
  import opened DataflashRam

  // ---- When it is right ----

  lemma PageOfStore(g: Geometry, chips: seq<Chip>, q: nat, j: nat, a: nat)
    requires ShapedBoard(g, chips) && q < g.TotalPages() && j < g.pageSize && a == Base(g, q) + j
    ensures a < Bytes(g) && |PageAt(g, chips, q)| == g.pageSize && Store(g, chips)[a] == PageAt(g, chips, q)[j]
  {
    Places(g, chips, q);
    PageOfByte(g, q, j, a);
  }

  /** What the write leaves in a page behind the switch, the second buffer's contents, is what it should have left
      there. */
  ghost predicate AlreadyThere(job: Job, q: nat)
    requires job.Valid() && q < job.g.TotalPages()
  {
    Places(job.g, job.was, q);
    SecondBuffer(job, job.g.ChipOf(q), q) == Overlay(job.g, PageAt(job.g, job.was, q), q, job.Start(), job.Data())
  }

  lemma LeftIsRight(job: Job, q: nat)
    requires job.Valid() && q < job.g.TotalPages() && |PageAt(job.g, job.was, q)| == job.g.pageSize
    requires job.g.ChipOf(q) < |job.was|
    ensures Left(job, q) == Overlay(job.g, PageAt(job.g, job.was, q), q, job.Start(), job.Data()) <==>
            (Switched(job, q) ==> AlreadyThere(job, q))
  {
  }

  /** As long as the driver's 16-bit product does not wrap, the second buffer holds what it held before the write, but
      for a last page that is only partly covered and was copied to it. */
  lemma {:induction false} SecondBufferBelow2048(job: Job, i: nat, page: nat)
    requires job.Valid() && job.count < 2048 && i < |job.was| && page < job.g.TotalPages()
    requires PageOf(job.g, job.block) <= page && Base(job.g, page) < Until(job)
    requires Switched(job, page) && i == job.g.ChipOf(page)
    ensures SecondBuffer(job, i, page) == if Partial(job, page) then PageAt(job.g, job.was, page)
        else job.was[i].sram[1]
  {
    var first := PageOf(job.g, job.block);
    if first < page {
      StartsBehind(job, page);
      PreloadsPartialPages(job, page);
      FullPagesKeep(job, i, page - 1);
    }
  }

  lemma StartsBehind(job: Job, page: nat)
    requires job.Valid() && PageOf(job.g, job.block) < page
    ensures job.Start() <= Base(job.g, page) && Base(job.g, page) == Base(job.g, page - 1) + job.g.pageSize
  {
    RangeInStore(job);
    AddressSplits(job.g, job.Start());
    BaseOrder(job.g, PageOf(job.g, job.block), page);
  }

  lemma {:induction false} FullPagesKeep(job: Job, i: nat, page: nat)
    requires job.Valid() && job.count < 2048 && i < |job.was| && page < job.g.TotalPages()
    requires Base(job.g, page) + job.g.pageSize < Until(job)
    ensures SecondBuffer(job, i, page) == job.was[i].sram[1]
    decreases page
  {
    if PageOf(job.g, job.block) < page {
      StartsBehind(job, page);
      PreloadsPartialPages(job, page);
      FullPagesKeep(job, i, page - 1);
    }
  }

  /** The write is right for its buffer. */
  ghost predicate Right(job: Job, now: seq<Chip>)
    requires job.Valid() && ShapedBoard(job.g, now) && Until(job) <= Bytes(job.g)
  {
    Store(job.g, now) == Overwrite(Store(job.g, job.was), job.Start(), job.Data())
  }

  /** One write of one buffer is right exactly when every page behind the switch already was as it should become. */
  lemma RamWriteContents(job: Job, now: seq<Chip>)
    requires job.Valid() && LeftBy(job, now)
    ensures Until(job) <= Bytes(job.g)
    ensures Right(job, now) <==> forall q :: 0 <= q < job.g.TotalPages() && Switched(job, q) ==> AlreadyThere(job, q)
  {
    RangeInStore(job);
    forall q: nat | q < job.g.TotalPages()
      ensures |PageAt(job.g, job.was, q)| == job.g.pageSize && job.g.ChipOf(q) < |job.was|
      ensures Left(job, q) == Overlay(job.g, PageAt(job.g, job.was, q), q, job.Start(), job.Data()) <==>
              (Switched(job, q) ==> AlreadyThere(job, q))
    {
      Places(job.g, job.was, q);
      LeftIsRight(job, q);
    }
    if Right(job, now) {
      forall q: nat | q < job.g.TotalPages() && Switched(job, q)
        ensures AlreadyThere(job, q)
      {
        PageIsRight(job, now, q);
      }
    }
    if forall q :: 0 <= q < job.g.TotalPages() && Switched(job, q) ==> AlreadyThere(job, q) {
      WrittenOverIsOverwrite(job.g, job.was, now, job.Start(), job.Data());
    }
  }

  /** A page behind the switch comes out right and without harm: it already was as it should become, and if its chip had
      a page before, a page copy made the driver wait. */
  ghost predicate Harmless(job: Job, q: nat)
    requires job.Valid() && q < job.g.TotalPages()
  {
    AlreadyThere(job, q) && (PageOf(job.g, job.block) + job.g.chips <= q ==> Copied(job, q))
  }

  lemma RefilledIsNotCopied(job: Job, q: nat)
    requires job.Valid() && q < job.g.TotalPages() && PageOf(job.g, job.block) + job.g.chips <= q
    ensures Switched(job, q) && !Copied(job, q) <==> Refilled(job.g, job.block, job.count, job.g.ChipOf(q), q)
  {
    InRangeUpToLast(job, q);
  }

  lemma RefilledInStore(job: Job, q: nat)
    requires job.Valid() && Refilled(job.g, job.block, job.count, job.g.ChipOf(q), q)
    ensures q < job.g.TotalPages()
  {
    RangeInStore(job);
    AddressSplits(job.g, Until(job) - 1);
  }

  /** From idle chips, one write of one buffer is right and meets no chip at work exactly when every page behind the
      switch comes out right and without harm. */
  lemma RamWriteExact(job: Job, now: seq<Chip>)
    requires job.Valid() && LeftBy(job, now)
    requires Calm(job.was) && RamHandled(job.g, job.block, job.count, job.was, now)
    ensures Until(job) <= Bytes(job.g)
    ensures Right(job, now) && NeverMetBusy(now) <==>
            forall q :: 0 <= q < job.g.TotalPages() && Switched(job, q) ==> Harmless(job, q)
  {
    hide Right, LeftBy, RamHandled, AlreadyThere, Switched, Copied;
    RamWriteContents(job, now);
    FromIdle(job.g, job.block, job.count, job.was, now);
    forall q: nat | q < job.g.TotalPages() && PageOf(job.g, job.block) + job.g.chips <= q
      ensures Switched(job, q) && !Copied(job, q) <==> Refilled(job.g, job.block, job.count, job.g.ChipOf(q), q)
    {
      RefilledIsNotCopied(job, q);
    }
    if q: nat :| Refilled(job.g, job.block, job.count, job.g.ChipOf(q), q) {
      RefilledInStore(job, q);
      assert Switched(job, q) && !Harmless(job, q);
    }
  }

  lemma PageIsRight(job: Job, now: seq<Chip>, q: nat)
    requires job.Valid() && LeftBy(job, now) && q < job.g.TotalPages() && Until(job) <= Bytes(job.g)
    requires Store(job.g, now) == Overwrite(Store(job.g, job.was), job.Start(), job.Data())
    ensures |PageAt(job.g, job.was, q)| == job.g.pageSize && job.g.ChipOf(q) < |job.was|
    ensures Left(job, q) == Overlay(job.g, PageAt(job.g, job.was, q), q, job.Start(), job.Data())
  {
    Places(job.g, job.was, q);
    Places(job.g, now, q);
    forall j: nat | j < job.g.pageSize
      ensures PageAt(job.g, now, q)[j] == Overlay(job.g, PageAt(job.g, job.was, q), q, job.Start(), job.Data())[j]
    {
      ByteIsRight(job.g, job.was, now, job.Start(), job.Data(), q, j, Base(job.g, q) + j);
    }
    assert PageAt(job.g, now, q) == Overlay(job.g, PageAt(job.g, job.was, q), q, job.Start(), job.Data());
  }

  lemma ByteIsRight(g: Geometry, was: seq<Chip>, now: seq<Chip>, start: nat, data: seq<byte>, q: nat, j: nat, a: nat)
    requires ShapedBoard(g, was) && ShapedBoard(g, now) && start + |data| <= Bytes(g)
    requires Store(g, now) == Overwrite(Store(g, was), start, data)
    requires q < g.TotalPages() && j < g.pageSize && a == Base(g, q) + j
    ensures |PageAt(g, was, q)| == g.pageSize == |PageAt(g, now, q)|
    ensures PageAt(g, now, q)[j] == Overlay(g, PageAt(g, was, q), q, start, data)[j]
  {
    PageOfStore(g, now, q, j, a);
    PageOfStore(g, was, q, j, a);
  }

  lemma InRangeUpToLast(job: Job, q: nat)
    requires job.Valid() && q < job.g.TotalPages()
    ensures Base(job.g, q) < Until(job) <==> q <= LastPage(job.g, job.block, job.count)
  {
    var last := LastPage(job.g, job.block, job.count);
    RangeInStore(job);
    AddressSplits(job.g, Until(job) - 1);
    if q <= last {
      BaseMonotone(job.g, q, last);
    } else {
      BaseOrder(job.g, last, q);
    }
  }

  /** A write that ends before the buffers are switched stores its blocks, and meets the chips that a write from the
      endpoint would meet. */
  lemma RightBeforeTheSwitch(job: Job, now: seq<Chip>)
    requires job.Valid() && LeftBy(job, now)
    requires EndsBeforeSwitch(job.g, job.block, job.count)
    ensures Until(job) <= Bytes(job.g) && Right(job, now)
    ensures RamHandled(job.g, job.block, job.count, job.was, now) <==>
            Handled(job.g, true, job.block, job.count, job.was, now)
  {
    RangeInStore(job);
    StoreIsLeftStore(job, now);
    NoPageSwitched(job);
    HandledBeforeSwitch(job.g, job.block, job.count, job.was, now);
  }

  /** In a longer write, the first page after the switch does not get its data: it is left as it was when it was copied
      to the second buffer, and otherwise filled with whatever that buffer held. */
  lemma LostAfterTheSwitch(job: Job, now: seq<Chip>, q: nat)
    requires job.Valid() && LeftBy(job, now)
    requires q + job.g.ChipOf(PageOf(job.g, job.block)) == PageOf(job.g, job.block) + job.g.chips
    requires q <= LastPage(job.g, job.block, job.count) && q < job.g.TotalPages()
    ensures |PageAt(job.g, job.was, q)| == job.g.pageSize && job.g.ChipOf(q) < |job.was|
    ensures PageAt(job.g, now, q) == if Copied(job, q) then PageAt(job.g, job.was, q)
        else job.was[job.g.ChipOf(q)].sram[1]
  {
    hide Copied, Overlay, SecondBuffer;
    Places(job.g, job.was, q);
    InRangeUpToLast(job, q);
    FirstSwitch(job.g, PageOf(job.g, job.block), q);
    FirstSecondBuffer(job, q);
  }

  lemma FirstSecondBuffer(job: Job, q: nat)
    requires job.Valid() && q < job.g.TotalPages() && job.g.ChipOf(q) < |job.was|
    requires q + job.g.ChipOf(PageOf(job.g, job.block)) == PageOf(job.g, job.block) + job.g.chips
    ensures SecondBuffer(job, job.g.ChipOf(q), q) ==
            if Copied(job, q) then PageAt(job.g, job.was, q) else job.was[job.g.ChipOf(q)].sram[1]
  {
    hide Copied, PageAt;
    FirstSwitch(job.g, PageOf(job.g, job.block), q);
    UnswitchedKeep(job, job.g.ChipOf(q), q - 1);
  }

  /** No page is copied to the second buffers before the switch. */
  lemma {:induction false} UnswitchedKeep(job: Job, i: nat, page: nat)
    requires job.Valid() && i < |job.was| && page < job.g.TotalPages()
    requires page + job.g.ChipOf(PageOf(job.g, job.block)) < PageOf(job.g, job.block) + job.g.chips
    ensures SecondBuffer(job, i, page) == job.was[i].sram[1]
    decreases page
  {
    if PageOf(job.g, job.block) < page {
      FirstSwitch(job.g, PageOf(job.g, job.block), page);
      UnswitchedKeep(job, i, page - 1);
    }
  }

  // ---- For every buffer ----

  /** The store as a write leaves it. */
  ghost function LeftStore(job: Job): (s: seq<byte>)
    requires job.Valid()
    ensures |s| == Bytes(job.g)
  {
    seq(Bytes(job.g), a requires 0 <= a < Bytes(job.g) =>
      AddressSplits(job.g, a);
      Places(job.g, job.was, a / job.g.pageSize);
      LeftSize(job, a / job.g.pageSize);
      Left(job, a / job.g.pageSize)[a % job.g.pageSize])
  }

  lemma LeftSize(job: Job, q: nat)
    requires job.Valid() && q < job.g.TotalPages() && |PageAt(job.g, job.was, q)| == job.g.pageSize
    requires job.g.ChipOf(q) < |job.was|
    ensures |Left(job, q)| == job.g.pageSize
  {
    SecondBufferSize(job, job.g.ChipOf(q), q);
  }

  lemma {:induction false} SecondBufferSize(job: Job, i: nat, page: nat)
    requires job.Valid() && page < job.g.TotalPages() && i < |job.was|
    ensures |SecondBuffer(job, i, page)| == job.g.pageSize
    decreases page
  {
    Places(job.g, job.was, page);
    if PageOf(job.g, job.block) < page {
      SecondBufferSize(job, i, page - 1);
    }
  }

  lemma ByteLeft(job: Job, q: nat, j: nat, a: nat)
    requires job.Valid() && q < job.g.TotalPages() && j < job.g.pageSize && a == Base(job.g, q) + j
    ensures a < Bytes(job.g) && |PageAt(job.g, job.was, q)| == job.g.pageSize && job.g.ChipOf(q) < |job.was|
    ensures |Left(job, q)| == job.g.pageSize && LeftStore(job)[a] == Left(job, q)[j]
  {
    Places(job.g, job.was, q);
    LeftSize(job, q);
    PageOfByte(job.g, q, j, a);
  }

  lemma PageOfByte(g: Geometry, q: nat, j: nat, a: nat)
    requires g.Valid() && q < g.TotalPages() && j < g.pageSize && a == Base(g, q) + j
    ensures a < Bytes(g) && a / g.pageSize == q && a % g.pageSize == j
  {
    BaseIsProduct(g, q);
    BaseOrder(g, q, g.TotalPages());
    QuotientUnique(a, q, g.pageSize, j);
  }

  lemma StoreIsLeftStore(job: Job, now: seq<Chip>)
    requires job.Valid() && LeftBy(job, now)
    ensures Store(job.g, now) == LeftStore(job)
  {
    hide Store, LeftStore, Left, Base;
    forall a | 0 <= a < Bytes(job.g)
      ensures Store(job.g, now)[a] == LeftStore(job)[a]
    {
      var q, j := a / job.g.pageSize, a % job.g.pageSize;
      AddressSplits(job.g, a);
      ByteLeft(job, q, j, a);
      PageOfStore(job.g, now, q, j, a);
    }
  }

  /** Does a write of `src` to these blocks store it? */
  ghost predicate Stores(g: Geometry, was: seq<Chip>, src: seq<byte>, block: nat, count: nat)
    requires Job(g, was, src, block, count).Valid()
  {
    var job := Job(g, was, src, block, count);
    RangeInStore(job);
    LeftStore(job) == Overwrite(Store(g, was), job.Start(), job.Data())
  }

  /** A write that reaches behind the switch loses some buffer: any that differs in the first byte of the first page
      behind the switch from what the second buffer, or that page, held there. */
  lemma SomeBufferIsLost(g: Geometry, was: seq<Chip>, block: nat, count: nat) returns (src: seq<byte>)
    requires g.Valid() && g.FitsBlocks() && ShapedBoard(g, was) && 0 < count < 0x1_0000 && block + count <= Blocks(g)
    requires !EndsBeforeSwitch(g, block, count)
    ensures count * BLOCK_SIZE <= |src| && !Stores(g, was, src, block, count)
  {
    var first := PageOf(g, block);
    var q := first + g.chips - g.ChipOf(first);
    var blank := Job(g, was, Repeat(0, count * BLOCK_SIZE), block, count);
    PageBehindSwitch(blank, q);
    var stale: int := Left(blank, q)[0];
    var fill: byte := (stale + 1) % 256;
    src := Repeat(fill, count * BLOCK_SIZE);
    PageBehindSwitch(Job(g, was, src, block, count), q);
    SameForAnyBuffer(blank, Job(g, was, src, block, count), q);
    LosesByte(Job(g, was, src, block, count), q, fill);
  }

  /** What a write leaves in a page behind the switch does not depend on the buffer. */
  lemma SameForAnyBuffer(job: Job, other: Job, q: nat)
    requires job.Valid() && other == job.(src := other.src) && job.Size() <= |other.src|
    requires q < job.g.TotalPages() && |PageAt(job.g, job.was, q)| == job.g.pageSize && job.g.ChipOf(q) < |job.was|
    requires Switched(job, q)
    ensures Left(other, q) == Left(job, q)
  {
    SameSecondBuffer(job, other, job.g.ChipOf(q), q);
  }

  lemma {:induction false} SameSecondBuffer(job: Job, other: Job, i: nat, page: nat)
    requires job.Valid() && other == job.(src := other.src) && job.Size() <= |other.src|
    requires page < job.g.TotalPages() && i < |job.was|
    ensures SecondBuffer(other, i, page) == SecondBuffer(job, i, page)
    decreases page
  {
    if PageOf(job.g, job.block) < page {
      SameSecondBuffer(job, other, i, page - 1);
    }
  }

  lemma LosesByte(job: Job, q: nat, fill: byte)
    requires job.Valid() && !EndsBeforeSwitch(job.g, job.block, job.count)
    requires forall i :: 0 <= i < job.Size() ==> job.src[i] == fill
    requires q + job.g.ChipOf(PageOf(job.g, job.block)) == PageOf(job.g, job.block) + job.g.chips
    requires q < job.g.TotalPages() && |PageAt(job.g, job.was, q)| == job.g.pageSize && job.g.ChipOf(q) < |job.was|
    requires |Left(job, q)| > 0 && Left(job, q)[0] != fill
    ensures !Stores(job.g, job.was, job.src, job.block, job.count)
  {
    PageBehindSwitch(job, q);
    ByteLeft(job, q, 0, Base(job.g, q));
    OverwrittenByte(Store(job.g, job.was), job.Start(), job.Data(), Base(job.g, q), fill);
  }

  lemma OverwrittenByte(s: seq<byte>, start: nat, data: seq<byte>, a: nat, fill: byte)
    requires start + |data| <= |s| && start <= a < start + |data| && (forall i :: 0 <= i < |data| ==> data[i] == fill)
    ensures Overwrite(s, start, data)[a] == fill
  {
  }

  lemma PageBehindSwitch(job: Job, q: nat)
    requires job.Valid() && !EndsBeforeSwitch(job.g, job.block, job.count)
    requires q + job.g.ChipOf(PageOf(job.g, job.block)) == PageOf(job.g, job.block) + job.g.chips
    ensures q < job.g.TotalPages() && Switched(job, q) && job.Start() <= Base(job.g, q) < Until(job) <= Bytes(job.g)
    ensures |PageAt(job.g, job.was, q)| == job.g.pageSize && job.g.ChipOf(q) < |job.was|
    ensures |Left(job, q)| == job.g.pageSize
  {
    var first, last := PageOf(job.g, job.block), LastPage(job.g, job.block, job.count);
    RangeInStore(job);
    AddressSplits(job.g, Until(job) - 1);
    AddressSplits(job.g, job.Start());
    BaseOrder(job.g, first, q);
    InRangeUpToLast(job, q);
    FirstSwitch(job.g, first, q);
    Places(job.g, job.was, q);
    LeftSize(job, q);
  }

  /** No chip that was doing what `was` is doing is met at work. */
  ghost predicate Unmet(g: Geometry, was: seq<Chip>, block: nat, count: nat)
    requires g.pageSize > 0 && count > 0
  {
    forall i :: 0 <= i < |was| ==> !RamMeets(g, block, count, LoadOf(was[i]), i)
  }

  ghost predicate StoresEvery(g: Geometry, was: seq<Chip>, block: nat, count: nat)
    requires g.Valid() && g.FitsBlocks() && ShapedBoard(g, was) && 0 < count < 0x1_0000 && block + count <= Blocks(g)
  {
    forall src: seq<byte> | count * BLOCK_SIZE <= |src| :: Stores(g, was, src, block, count)
  }

  /** WriteBlocks_RAM stores every buffer, without meeting a chip at work, if and only if the range ends before the
      buffers are switched and a write from the endpoint would meet none; from idle chips, if and only if the range ends
      before the switch. The contents alone turn on the switch alone. */
  lemma RightForEveryBuffer(g: Geometry, was: seq<Chip>, block: nat, count: nat)
    requires g.Valid() && g.FitsBlocks() && ShapedBoard(g, was) && 0 < count < 0x1_0000 && block + count <= Blocks(g)
    ensures StoresEvery(g, was, block, count) <==> EndsBeforeSwitch(g, block, count)
    ensures StoresEvery(g, was, block, count) && Unmet(g, was, block, count) <==>
            && EndsBeforeSwitch(g, block, count)
            && forall i :: 0 <= i < |was| ==> !WriteMeets(g, block, count, LoadOf(was[i]), i)
    ensures Calm(was) ==>
              (StoresEvery(g, was, block, count) && Unmet(g, was, block, count) <==> EndsBeforeSwitch(g, block, count))
  {
    if EndsBeforeSwitch(g, block, count) {
      forall src: seq<byte> | count * BLOCK_SIZE <= |src|
        ensures Stores(g, was, src, block, count)
      {
        NoPageSwitched(Job(g, was, src, block, count));
      }
      forall i: nat | i < |was|
        ensures RamMeets(g, block, count, LoadOf(was[i]), i) <==> WriteMeets(g, block, count, LoadOf(was[i]), i)
      {
        SameBeforeSwitch(g, block, count, LoadOf(was[i]), i);
      }
    } else {
      var src := SomeBufferIsLost(g, was, block, count);
    }
  }

  lemma NoPageSwitched(job: Job)
    requires job.Valid() && EndsBeforeSwitch(job.g, job.block, job.count)
    ensures Stores(job.g, job.was, job.src, job.block, job.count)
  {
    RangeInStore(job);
    forall a | 0 <= a < Bytes(job.g)
      ensures LeftStore(job)[a] == Overwrite(Store(job.g, job.was), job.Start(), job.Data())[a]
    {
      var q := a / job.g.pageSize;
      AddressSplits(job.g, a);
      Places(job.g, job.was, q);
      NotSwitched(job, q);
    }
  }

  lemma NotSwitched(job: Job, q: nat)
    requires job.Valid() && EndsBeforeSwitch(job.g, job.block, job.count) && q < job.g.TotalPages()
    ensures !Switched(job, q)
  {
    InRangeUpToLast(job, q);
    if PageOf(job.g, job.block) <= q <= LastPage(job.g, job.block, job.count) {
      FirstSwitch(job.g, PageOf(job.g, job.block), q);
    }
  }

  // ---- Two failing inputs ----

  /** Two blocks written from the endpoint on a two-chip board with 512-byte pages, and the first one written again from
      a buffer: the range ends before the switch, and its bytes go into the buffer that is being programmed. */
  method RamAfterWriteMeetsBusyBuffer(board: Board, ep: OutEndpoint, buffer: seq<byte>)
    requires Quiet(board) && board.g.chips == 2 && board.g.pageSize == 512 && board.g.FitsBlocks()
    requires 2 <= Blocks(board.g) && BLOCK_SIZE <= |buffer|
    requires ep.Valid() && |ep.bank| % 16 == 0 && InChunks(ep.queue) && 2 * BLOCK_SIZE <= |ep.Stream()|
    modifies board, ep
    ensures Quiet(board) && EndsBeforeSwitch(board.g, 0, 1) && board.chips[0].hazard
  {
    hide LeftBy, Store, RamHandled, Job.Valid;
    ghost var l := LoadOf(board.chips[0]);
    TwoBlocksLeaveBusy(board.g, l);
    WriteBlocks(board, ep, 0, 2);
    WriteBlocksRam(board, 0, 1, buffer);
  }

  lemma TwoBlocksLeaveBusy(g: Geometry, l: Load)
    requires g.Valid() && g.chips == 2 && g.pageSize == 512
    ensures EndsBeforeSwitch(g, 0, 1) && WriteLeaves(g, 0, 2, l, 0) == Using(0) && WriteMeets(g, 0, 1, Using(0), 0)
  {
    assert LastPage(g, 0, 2) == 1 && PageOf(g, 0) == 0 && LastPage(g, 0, 1) == 0;
    assert !SecondAt(g, 0, 0);
  }

  /** Two blocks written from a buffer on a one-chip board with 512-byte pages: the second one goes into the buffer that
      the first one is being programmed from. */
  method TwoPagesRefillBusyBuffer(board: Board, buffer: seq<byte>)
    requires Quiet(board) && board.g.chips == 1 && board.g.pageSize == 512 && board.g.FitsBlocks()
    requires 2 <= Blocks(board.g) && 2 * BLOCK_SIZE <= |buffer|
    modifies board
    ensures Quiet(board) && board.chips[0].hazard
  {
    hide LeftBy, Job.Valid, Handled;
    ghost var l := LoadOf(board.chips[0]);
    SecondPageRefills(board.g, l);
    WriteBlocksRam(board, 0, 2, buffer);
  }

  lemma SecondPageRefills(g: Geometry, l: Load)
    requires g.Valid() && g.chips == 1 && g.pageSize == 512
    ensures RamMeets(g, 0, 2, l, 0)
  {
    assert LastPage(g, 0, 2) == 1 && PageOf(g, 0) == 0;
    BuffersStayFree(g, 0, 1);
    assert Refilled(g, 0, 2, 0, 1);
    RamMeetsExactly(g, 0, 2, l, 0);
  }
}
