/** The variants of the block store for a RAM buffer, which the file system uses. Writing always refills the
    first SRAM buffer of a chip, but programs the second one once the buffers have been switched. */
module DataflashRam {
  import opened ByteMemory
  import opened Dataflash
  import opened BlockStore
  import opened BusyChips
  import opened BusyChipsRam
  import opened DataflashManager

  // ---- What a write leaves behind ----

  function Until(job: Job): nat { job.Start() + job.Size() }

  /** Is the page only partly covered by the end of the write? Then it is copied to a buffer first. */
  predicate Partial(job: Job, q: nat) { job.g.pageSize > BLOCK_SIZE && Base(job.g, q) + job.g.pageSize > Until(job) }

  predicate Switched(job: Job, q: nat)
    requires job.g.pageSize > 0
  {
    PageOf(job.g, job.block) <= q && Base(job.g, q) < Until(job) && SecondAt(job.g, PageOf(job.g, job.block), q)
  }

  /** The driver's own test: is the page copied to a buffer when the write comes to it? */
  predicate Copied(job: Job, q: nat)
    requires job.g.pageSize > 0
  {
    Preloads(job.g, Unfinished(job.g, job.block, job.count, q))
  }

  /** The second buffer of chip `i` once `page` has been opened: only page copies change it. */
  ghost function SecondBuffer(job: Job, i: nat, page: nat): Page
    requires job.Valid() && i < |job.was| && page < job.g.TotalPages()
    decreases page
  {
    var first := PageOf(job.g, job.block);
    if page <= first then job.was[i].sram[1]
    else if i == job.g.ChipOf(page) && SecondAt(job.g, first, page) && Copied(job, page)
    then PageAt(job.g, job.was, page)
    else SecondBuffer(job, i, page - 1)
  }

  /** What the write makes of a page: the data, unless the second buffer was programmed, which nobody filled. */
  ghost function Left(job: Job, q: nat): Page
    requires job.Valid() && q < job.g.TotalPages() && |PageAt(job.g, job.was, q)| == job.g.pageSize
    requires job.g.ChipOf(q) < |job.was|
  {
    if Switched(job, q) then SecondBuffer(job, job.g.ChipOf(q), q)
    else Overlay(job.g, PageAt(job.g, job.was, q), q, job.Start(), job.Data())
  }

  lemma Places(g: Geometry, chips: seq<Chip>, q: nat)
    requires ShapedBoard(g, chips) && q < g.TotalPages()
    ensures |PageAt(g, chips, q)| == g.pageSize && g.ChipOf(q) < |chips| && g.LocalPage(q) < g.pages
  {
    PagePlacesAreDistinct(g, q, q);
  }

  /** The pages below `page` are as the write leaves them, the others as they were. */
  ghost predicate Committed(job: Job, now: seq<Chip>, page: nat)
    requires job.Valid()
  {
    && ShapedBoard(job.g, now)
    && forall q :: 0 <= q < job.g.TotalPages() ==>
         && |PageAt(job.g, job.was, q)| == job.g.pageSize && job.g.ChipOf(q) < |job.was|
         && PageAt(job.g, now, q) == if q < page then Left(job, q) else PageAt(job.g, job.was, q)
  }

  lemma NotCommitted(job: Job, now: seq<Chip>, page: nat)
    requires job.Valid() && Committed(job, now, page) && page < job.g.TotalPages()
    ensures |PageAt(job.g, job.was, page)| == job.g.pageSize && job.g.ChipOf(page) < |now|
    ensures PageAt(job.g, now, page) == PageAt(job.g, job.was, page) && job.g.LocalPage(page) < job.g.pages
  {
    Places(job.g, now, page);
  }

  lemma SamePages(job: Job, now: seq<Chip>, page: nat, c: nat, after: Chip)
    requires job.Valid() && Committed(job, now, page) && c < |now| && after.Shaped(job.g) && after.main == now[c].main
    ensures Committed(job, now[c := after], page)
  {
    forall q | 0 <= q < job.g.TotalPages()
      ensures PageAt(job.g, now[c := after], q) == PageAt(job.g, now, q)
    {
      Places(job.g, now, q);
    }
  }

  lemma OnePageMore(job: Job, now: seq<Chip>, page: nat, c: nat, after: Chip, content: Page)
    requires job.Valid() && Committed(job, now, page) && page < job.g.TotalPages() && c == job.g.ChipOf(page) < |now|
    requires after.Shaped(job.g) && job.g.LocalPage(page) < job.g.pages
    requires after.main == now[c].main[job.g.LocalPage(page) := content]
    requires |PageAt(job.g, job.was, page)| == job.g.pageSize && content == Left(job, page)
    ensures Committed(job, now[c := after], page + 1)
  {
    hide Left;
    forall q | 0 <= q < job.g.TotalPages()
      ensures PageAt(job.g, now[c := after], q) == if q == page then content else PageAt(job.g, now, q)
    {
      PagePlacesAreDistinct(job.g, q, page);
    }
  }

  // ---- The state in the middle of a write ----

  /** The second buffers are as the write has left them so far. */
  ghost predicate Stale(job: Job, chips: seq<Chip>, page: nat)
    requires job.Valid() && page < job.g.TotalPages()
  {
    && |chips| == |job.was|
    && forall i :: 0 <= i < |chips| ==> |chips[i].sram| == 2 && chips[i].sram[1] == SecondBuffer(job, i, page)
  }

  /** The chip's first buffer is being filled from byte `at` on, and the buffer that will be programmed is as it has to
      be. */
  ghost predicate Filling(job: Job, c: Chip, page: nat, at: nat)
    requires job.Valid() && page < job.g.TotalPages() && |PageAt(job.g, job.was, page)| == job.g.pageSize
    requires job.g.ChipOf(page) < |job.was|
  {
    && |c.rx| == 4 && c.rx[0] == CMD_BUFF1WRITE && |c.sram| == 2 && at <= job.g.pageSize
        && c.cursor == Within(at, job.g.pageSize)
    && if Switched(job, page) then c.sram[1] == Left(job, page)
       else Filled(job.g, c.sram[0], PageAt(job.g, job.was, page), page, job.Start(), job.Data(), at)
  }

  ghost predicate RamWriting(job: Job, chips: seq<Chip>, page: nat, at: nat, k: nat)
  {
    match job
    case Job(g, was, src, block, count) =>
      && job.Valid() && Committed(job, chips, page) && PageOf(g, block) <= page < g.TotalPages()
      && Base(g, page) < Until(job) && Base(g, page) + at == job.Start() + k && k <= job.Size()
      && |PageAt(g, was, page)| == g.pageSize && g.ChipOf(page) < |chips| == |was|
      && Filling(job, chips[g.ChipOf(page)], page, at) && Stale(job, chips, page)
  }

  // ---- Sixteen bytes ----

  lemma {:induction false} FirstBufferOnly(g: Geometry, c: Chip, bytes: seq<byte>, at: nat)
    requires g.Valid() && c.Shaped(g) && |c.rx| == 4 && c.rx[0] == CMD_BUFF1WRITE
    requires at + |bytes| <= g.pageSize && c.cursor == Within(at, g.pageSize)
    ensures var r := ReceiveAll(g, c, bytes);
            && r.main == c.main && r.sram == [r.sram[0], c.sram[1]] && r.rx == c.rx
                && r.cursor == Within(at + |bytes|, g.pageSize) && r.busy == c.busy && r.hazard == c.hazard
  {
    if bytes != [] {
      var n := |bytes| - 1;
      FirstBufferOnly(g, c, bytes[..n], at);
    }
  }

  lemma ChunkSent(job: Job, chips: seq<Chip>, page: nat, at: nat, k: nat, bytes: seq<byte>, next: nat, m: nat)
    requires RamWriting(job, chips, page, at, k) && next == at + |bytes| && m == k + |bytes|
    requires next <= job.g.pageSize && m <= job.Size() && bytes == job.Data()[k..][..|bytes|]
    ensures var c := job.g.ChipOf(page);
            && job.Valid() && ShapedBoard(job.g, chips) && c < |chips|
            && var after := ReceiveAll(job.g, chips[c], bytes);
               && RamWriting(job, chips[c := after], page, next, m)
               && after.busy == chips[c].busy && after.hazard == chips[c].hazard
  {
    hide ReceiveAll, PageAt;
    var c := job.g.ChipOf(page);
    FirstBufferOnly(job.g, chips[c], bytes, at);
    SamePages(job, chips, page, c, ReceiveAll(job.g, chips[c], bytes));
    FillingGoesOn(job, chips[c], page, at, k, bytes, next);
  }

  lemma FillingGoesOn(job: Job, c: Chip, page: nat, at: nat, k: nat, bytes: seq<byte>, next: nat)
    requires job.Valid() && page < job.g.TotalPages() && |PageAt(job.g, job.was, page)| == job.g.pageSize
    requires job.g.ChipOf(page) < |job.was|
    requires Filling(job, c, page, at) && c.Shaped(job.g) && Base(job.g, page) + at == job.Start() + k
    requires next == at + |bytes| && next <= job.g.pageSize && k + |bytes| <= job.Size()
    requires bytes == job.Data()[k..][..|bytes|]
    ensures Filling(job, ReceiveAll(job.g, c, bytes), page, next)
  {
    FirstBufferOnly(job.g, c, bytes, at);
    if !Switched(job, page) {
      BytesReceived(job.g, c, PageAt(job.g, job.was, page), job.Start(), job.Data(), page, at, false, bytes);
    }
  }

  method SendChunk(board: Board, bytes: seq<byte>)
    requires board.Valid() && board.selected != 0
    modifies board
    ensures board.Valid() && board.selected == old(board.selected)
    ensures board.chips == old(board.chips)[board.selected - 1 :=
        ReceiveAll(board.g, old(board.chips)[board.selected - 1], bytes)]
  {
    ghost var c := board.selected - 1;
    for byteNum := 0 to |bytes|
      invariant board.Valid() && board.selected == c + 1
      invariant board.chips == old(board.chips)[c := ReceiveAll(board.g, old(board.chips)[c], bytes[..byteNum])]
    {
      assert bytes[..byteNum + 1][..byteNum] == bytes[..byteNum];
      board.SendByte(bytes[byteNum]);
    }
    assert bytes[..|bytes|] == bytes;
  }

  // ---- The end of a page ----

  /** The 16-bit test finds exactly the partial pages, as long as its product does not wrap. */
  lemma PreloadsPartialPages(job: Job, page: nat)
    requires job.Valid() && job.count < 2048 && job.Start() <= Base(job.g, page) < Until(job)
    ensures Copied(job, page) <==> Partial(job, page)
  {
    if job.g.pageSize > BLOCK_SIZE {
      var blocks, done := Base(job.g, page) / BLOCK_SIZE, Base(job.g, page) % BLOCK_SIZE;
      LargePagesStartBlocks(job.g, page, blocks, done);
      assert job.block <= blocks < job.block + job.count;
      Sixteenths(job.g.pageSize, job.block + job.count - blocks);
    }
  }

  lemma Sixteenths(size: nat, left: nat)
    requires size % 16 == 0 && left < 2048
    ensures left * (BLOCK_SIZE / 16) % 0x1_0000 < size / 16 <==> left * BLOCK_SIZE < size
  {
    assert left * 32 % 0x1_0000 == left * 32;
  }

  /** What the buffer to be programmed holds when its page is full, or the write is over. */
  lemma ReadyToProgram(job: Job, c: Chip, page: nat, at: nat, k: nat)
    requires job.Valid() && page < job.g.TotalPages() && |PageAt(job.g, job.was, page)| == job.g.pageSize
    requires job.g.ChipOf(page) < |job.was|
    requires Filling(job, c, page, at) && Base(job.g, page) + at == job.Start() + k
    requires at == job.g.pageSize || k == job.Size()
    ensures c.sram[if Switched(job, page) then 1 else 0] == Left(job, page)
  {
    if !Switched(job, page) {
      assert c.sram[0] == Overlay(job.g, PageAt(job.g, job.was, page), page, job.Start(), job.Data());
    }
  }

  /** The board is about to get byte `k` of the write. */
  ghost predicate Standing(board: Board, job: Job, page: nat, at: nat, second: bool, k: nat)
    requires job.Valid()
    reads board
  {
    && OnPage(board, job, page) && RamWriting(job, board.chips, page, at, k)
    && second == SecondAt(job.g, PageOf(job.g, job.block), page)
  }

  /** So it is, and the chips have met what such a write meets. */
  ghost predicate At(board: Board, job: Job, page: nat, at: nat, second: bool, k: nat)
    requires job.Valid()
    reads board
  {
    && Standing(board, job, page, at, second, k)
    && AllRamTracked(job.g, job.block, job.count, job.was, board.chips, page)
  }

  /** A full page has been programmed. */
  lemma PageProgrammed(job: Job, before: seq<Chip>, page: nat, k: nat, second: bool, c: nat, after: Chip)
    requires job.Valid() && RamWriting(job, before, page, job.g.pageSize, k) && k < job.Size()
    requires c == job.g.ChipOf(page) < |before|
    requires second == SecondAt(job.g, PageOf(job.g, job.block), page) && job.g.LocalPage(page) < job.g.pages
    requires before[c].Shaped(job.g) && after == Programmed(job.g, before[c], second, job.g.LocalPage(page))
    ensures Committed(job, before[c := after], page + 1)
  {
    ReadyToProgram(job, before[c], page, job.g.pageSize, k);
    OnePageMore(job, before, page, c, after, before[c].sram[Buffer(second)]);
  }

  /** The next page has been copied to a buffer if need be, and its chip is about to be sent it. */
  lemma PageBegun(job: Job, before: seq<Chip>, page: nat, k: nat, second: bool, c: nat, copied: bool, after: Chip)
    requires job.Valid() && PagesDone(job, before, page, second, k)
    requires c == job.g.ChipOf(page) < |before| && copied == Copied(job, page)
    requires copied || Base(job.g, page) + job.g.pageSize <= Until(job)
    requires |PageAt(job.g, job.was, page)| == job.g.pageSize
    requires PageAt(job.g, before, page) == PageAt(job.g, job.was, page)
    requires after.Shaped(job.g) && after.main == before[c].main && |after.rx| == 4 && after.rx[0] == CMD_BUFF1WRITE
    requires after.cursor == 0
    requires after.sram == if copied then before[c].sram[Buffer(second) := PageAt(job.g, before, page)]
        else before[c].sram
    ensures RamWriting(job, before[c := after], page, 0, k)
  {
    SamePages(job, before, page, c, after);
    FirstFill(job, before[c], page, second, copied, after);
    StaleAgain(job, before, page, second, c, copied, after);
  }

  lemma FirstFill(job: Job, before: Chip, page: nat, second: bool, copied: bool, after: Chip)
    requires job.Valid() && PageOf(job.g, job.block) < page < job.g.TotalPages()
    requires |PageAt(job.g, job.was, page)| == job.g.pageSize
    requires job.Start() <= Base(job.g, page) < Until(job) && job.g.ChipOf(page) < |job.was|
    requires second == SecondAt(job.g, PageOf(job.g, job.block), page) && copied == Copied(job, page)
    requires copied || Base(job.g, page) + job.g.pageSize <= Until(job)
    requires |before.sram| == 2 && |before.sram[0]| == job.g.pageSize
    requires before.sram[1] == SecondBuffer(job, job.g.ChipOf(page), page - 1)
    requires |after.rx| == 4 && after.rx[0] == CMD_BUFF1WRITE && after.cursor == 0
    requires after.sram == if copied then before.sram[Buffer(second) := PageAt(job.g, job.was, page)] else before.sram
    ensures Filling(job, after, page, 0)
  {
  }

  lemma StaleAgain(job: Job, before: seq<Chip>, page: nat, second: bool, c: nat, copied: bool, after: Chip)
    requires job.Valid() && PageOf(job.g, job.block) < page < job.g.TotalPages() && Stale(job, before, page - 1)
    requires c == job.g.ChipOf(page) < |before| && copied == Copied(job, page)
    requires second == SecondAt(job.g, PageOf(job.g, job.block), page)
    requires after.sram == if copied then before[c].sram[Buffer(second) := PageAt(job.g, job.was, page)]
        else before[c].sram
    ensures Stale(job, before[c := after], page)
  {
  }

  /** The chip has begun to program a buffer. */
  ghost predicate LeftProgramming(before: seq<Chip>, after: seq<Chip>, c: nat, second: bool) {
    && c < |before| == |after| && after == before[c := after[c]]
    && after[c].hazard == before[c].hazard && LoadOf(after[c]) == Using(Buffer(second))
  }

  /** The chip has been sent the command that opens its first buffer, after a wait if its page was copied. */
  ghost predicate OpenedFirst(g: Geometry, before: seq<Chip>, after: seq<Chip>, c: nat, left: nat) {
    && c < |before| == |after| && after == before[c := after[c]]
    && (after[c].hazard <==> before[c].hazard || (!Preloads(g, left) && InUse(LoadOf(before[c]), false)))
  }

  /** What a turn of the page does to the chips, in its two halves. */
  lemma BothHalves(job: Job, before: seq<Chip>, between: seq<Chip>, after: seq<Chip>, page: nat, second: bool,
                   left: nat, next: nat)
    requires job.Valid() && next == page + 1 && left == Unfinished(job.g, job.block, job.count, next)
    requires AllRamTracked(job.g, job.block, job.count, job.was, before, page)
    requires second == SecondAt(job.g, PageOf(job.g, job.block), page)
    requires LeftProgramming(before, between, job.g.ChipOf(page), second)
    requires OpenedFirst(job.g, between, after, job.g.ChipOf(next), left)
    ensures AllRamTracked(job.g, job.block, job.count, job.was, after, next)
  {
    hide RamTracked;
    RamTrackedThroughTurn(job.g, job.block, job.count, job.was, before, after, page, second, left, next);
  }

  /** A full page is programmed, and the next one begun. */
  method TurnPageRam(board: Board, page: nat, second: bool, left: nat, ghost job: Job, ghost k: nat,
                     ghost following: nat)
    returns (next: nat, nextSecond: bool)
    requires job.Valid() && At(board, job, page, job.g.pageSize, second, k) && k < job.Size()
    requires 0 < left <= job.count && job.Done(left) <= k < job.Done(left) + BLOCK_SIZE && following == page + 1
    modifies board
    ensures next == following && At(board, job, next, 0, nextSecond, k)
  {
    hide LeftProgramming, OpenedFirst, AllRamTracked, Between;
    ghost var before := board.chips;
    assert Base(job.g, page) + job.g.pageSize == job.Start() + k;
    AtPageEnd(job, page, left, k);
    next, nextSecond := CommitFullPage(board, page, second, job, k, following);
    ghost var between := board.chips;
    BeginPageRam(board, next, nextSecond, left, job, k);
    BothHalves(job, before, between, board.chips, page, second, left, next);
  }

  method CommitFullPage(board: Board, page: nat, second: bool, ghost job: Job, ghost k: nat, ghost following: nat)
    returns (next: nat, nextSecond: bool)
    requires job.Valid() && Standing(board, job, page, job.g.pageSize, second, k) && k < job.Size()
    requires following == page + 1 < job.g.TotalPages()
    modifies board
    ensures next == following && Between(board, job, next, nextSecond, k)
    ensures LeftProgramming(old(board.chips), board.chips, job.g.ChipOf(page), second)
  {
    ghost var before, c := board.chips, job.g.ChipOf(page);
    Places(job.g, before, page);
    ghost var after := Programmed(job.g, before[c], second, job.g.LocalPage(page));
    PageDone(job, before, page, k, second, c, after, following);
    ghost var want := before[c := after];
    next, nextSecond := CommitPage(board, page, second);
    assert board.chips == want;
  }

  /** The pages below `page` are programmed, and its chip is selected. */
  ghost predicate Between(board: Board, job: Job, page: nat, second: bool, k: nat)
    requires job.Valid()
    reads board
  {
    OnPage(board, job, page) && board.chips[board.selected - 1].rx == [] && PagesDone(job, board.chips, page, second, k)
  }

  ghost predicate PagesDone(job: Job, chips: seq<Chip>, page: nat, second: bool, k: nat)
    requires job.Valid()
  {
    match job
    case Job(g, _, _, block, _) =>
      && PageOf(g, block) < page < g.TotalPages() && Committed(job, chips, page) && Stale(job, chips, page - 1)
      && Base(g, page) == job.Start() + k && k < job.Size() && second == SecondAt(g, PageOf(g, block), page)
  }

  lemma PageDone(job: Job, before: seq<Chip>, page: nat, k: nat, second: bool, c: nat, after: Chip, following: nat)
    requires job.Valid() && RamWriting(job, before, page, job.g.pageSize, k) && k < job.Size()
    requires c == job.g.ChipOf(page) < |before|
    requires second == SecondAt(job.g, PageOf(job.g, job.block), page) && job.g.LocalPage(page) < job.g.pages
    requires before[c].Shaped(job.g) && after == Programmed(job.g, before[c], second, job.g.LocalPage(page))
    requires following == page + 1 < job.g.TotalPages()
    ensures PagesDone(job, before[c := after], following, NextSecond(job.g, c, second), k)
  {
    PageProgrammed(job, before, page, k, second, c, after);
  }

  /** The next page is copied to a buffer if the write does not cover it, and the first buffer opened. */
  method BeginPageRam(board: Board, page: nat, second: bool, left: nat, ghost job: Job, ghost k: nat)
    requires job.Valid() && Between(board, job, page, second, k)
    requires left == Unfinished(job.g, job.block, job.count, page)
    requires Preloads(job.g, left) || Base(job.g, page) + job.g.pageSize <= Until(job)
    modifies board
    ensures Standing(board, job, page, 0, second, k)
    ensures OpenedFirst(job.g, old(board.chips), board.chips, job.g.ChipOf(page), left)
  {
    hide Committed, Stale, RamWriting;
    ghost var before, c := board.chips, board.selected - 1;
    NotCommitted(job, before, page);
    CopyIfPartial(board, page, second, left);
    OpenFirstBuffer(board);
    PageBegun(job, before, page, k, second, c, Copied(job, page), board.chips[c]);
    assert board.chips == before[c := board.chips[c]];
  }

  method CopyIfPartial(board: Board, page: nat, second: bool, left: nat)
    requires board.Valid() && page < board.g.TotalPages() && board.selected == board.g.ChipOf(page) + 1
    requires board.chips[board.selected - 1].rx == [] && board.g.LocalPage(page) < board.g.pages
    modifies board
    ensures board.Valid() && board.selected == old(board.selected)
    ensures var c := board.selected - 1;
            var after := board.chips[c];
            && board.chips == old(board.chips)[c := after] && after.rx == [] && after.main == old(board.chips)[c].main
            && after.hazard == old(board.chips)[c].hazard
            && after.busy == (if Preloads(board.g, left) then Ready else old(board.chips)[c].busy)
            && after.sram == if Preloads(board.g, left)
                             then old(board.chips)[c].sram[Buffer(second) :=
                                 old(board.chips)[c].main[board.g.LocalPage(page)]]
                             else old(board.chips)[c].sram
  {
    if board.g.pageSize > BLOCK_SIZE && (left * (BLOCK_SIZE / 16)) % 0x1_0000 < board.g.pageSize / 16 {
      Preload(board, page, second);
    }
  }

  method OpenFirstBuffer(board: Board)
    requires board.Valid() && board.selected != 0 && board.chips[board.selected - 1].rx == []
    modifies board
    ensures board.Valid() && board.selected == old(board.selected)
    ensures var c := board.selected - 1;
            var after := board.chips[c];
            && board.chips == old(board.chips)[c := after]
            && after.main == old(board.chips)[c].main && after.sram == old(board.chips)[c].sram
            && |after.rx| == 4 && after.rx[0] == CMD_BUFF1WRITE && after.cursor == 0
            && (after.hazard <==> old(board.chips)[c].hazard || InUse(LoadOf(old(board.chips)[c]), false))
            && after.busy == old(board.chips)[c].busy
  {
    board.ToggleSelectedChipCS();
    SendCommand(board, CMD_BUFF1WRITE, 0, 0);
  }

  // ---- The whole write ----

  lemma SliceOfData(job: Job, k: nat, m: nat)
    requires job.Size() <= |job.src| && m == k + 16 <= job.Size()
    ensures job.src[k..m] == job.Data()[k..][..16]
  {
    SliceOfPrefix(job.src, job.Size(), k, 16);
    assert job.src[k..][..16] == job.src[k..m];
  }

  /** One round of the inner loop. */
  method MoveChunkRam(board: Board, buffer: seq<byte>, at: nat, page: nat, div16: nat, second: bool, left: nat,
                      ghost job: Job, m: nat)
    returns (page': nat, div16': nat, second': bool)
    requires job.Valid() && buffer == job.src && At(board, job, page, 16 * div16, second, at)
    requires 0 < left <= job.count && job.Done(left) <= at < job.Done(left) + BLOCK_SIZE && m == at + 16 <= job.Size()
    modifies board
    ensures At(board, job, page', 16 * div16', second', m) && div16' > 0
  {
    hide AllRamTracked, RamWriting;
    page', div16', second' := TurnIfFullRam(board, page, div16, second, left, job, at);
    ghost var from := 16 * div16';
    NextChunk(div16', 0);
    MoreData(board, buffer[at..m], job, page', from, at, from + 16, m);
    div16' := (div16' + 1) % 0x100;
  }

  method TurnIfFullRam(board: Board, page: nat, div16: nat, second: bool, left: nat, ghost job: Job, ghost k: nat)
    returns (page': nat, div16': nat, second': bool)
    requires job.Valid() && At(board, job, page, 16 * div16, second, k) && k < job.Size()
    requires 0 < left <= job.count && job.Done(left) <= k < job.Done(left) + BLOCK_SIZE
    modifies board
    ensures At(board, job, page', 16 * div16', second', k) && 16 * div16' + 16 <= job.g.pageSize
  {
    hide AllRamTracked;
    page', div16', second' := page, div16, second;
    Sixteen(job, div16, board.g.pageSize);
    if div16 == board.g.pageSize / 16 {
      page', second' := TurnPageRam(board, page, second, left, job, k, page + 1);
      div16' := 0;
    }
  }

  lemma Sixteen(job: Job, div16: nat, size: nat)
    requires job.Valid() && size == job.g.pageSize
    ensures 16 * div16 <= size ==> (if div16 == size / 16 then 16 * div16 == size else 16 * div16 + 16 <= size)
    ensures 16 <= size
  {
  }

  method MoreData(board: Board, bytes: seq<byte>, ghost job: Job, ghost page: nat, ghost at: nat, ghost k: nat,
                  ghost next: nat, ghost m: nat)
    requires job.Valid() && OnPage(board, job, page) && RamWriting(job, board.chips, page, at, k)
    requires AllRamTracked(job.g, job.block, job.count, job.was, board.chips, page)
    requires m == k + 16 <= job.Size() && next == at + 16 <= job.g.pageSize && bytes == job.src[k..m]
    modifies board
    ensures OnPage(board, job, page) && RamWriting(job, board.chips, page, next, m)
    ensures AllRamTracked(job.g, job.block, job.count, job.was, board.chips, page)
  {
    hide RamWriting, AllRamTracked;
    SliceOfData(job, k, m);
    ChunkSent(job, board.chips, page, at, k, bytes, next, m);
    ghost var c := board.selected - 1;
    ghost var want := board.chips[c := ReceiveAll(job.g, board.chips[c], bytes)];
    assert RamWriting(job, want, page, next, m);
    RamTrackedKept(job.g, job.block, job.count, job.was, board.chips, page, c, want[c]);
    SendChunk(board, bytes);
    assert board.chips == want;
  }

  /** The loops over blocks and chunks. */
  method AllChunksRam(board: Board, totalBlocks: nat, buffer: seq<byte>, page: nat, div16: nat, ghost job: Job)
    returns (currDFPage: nat, currDFPageByteDiv16: nat, usingSecondBuffer: bool)
    requires job.Valid() && totalBlocks == job.count && buffer == job.src
    requires At(board, job, page, 16 * div16, false, 0)
    modifies board
    ensures At(board, job, currDFPage, 16 * currDFPageByteDiv16, usingSecondBuffer, job.Size())
    ensures currDFPageByteDiv16 > 0
  {
    hide At;
    currDFPage, currDFPageByteDiv16, usingSecondBuffer := page, div16, false;
    var left: nat, at: nat := totalBlocks, 0;
    while left > 0
      invariant left <= totalBlocks && at == job.Done(left)
      invariant At(board, job, currDFPage, 16 * currDFPageByteDiv16, usingSecondBuffer, at)
      invariant left < totalBlocks ==> currDFPageByteDiv16 > 0
    {
      ghost var begin := at;
      BlockOfRange(job, left);
      var bytesInBlockDiv16 := 0;
      while bytesInBlockDiv16 < BLOCK_SIZE / 16
        invariant bytesInBlockDiv16 <= BLOCK_SIZE / 16 && at == begin + 16 * bytesInBlockDiv16
        invariant At(board, job, currDFPage, 16 * currDFPageByteDiv16, usingSecondBuffer, at)
        invariant bytesInBlockDiv16 > 0 ==> currDFPageByteDiv16 > 0
      {
        var m := at + 16;
        InBlock(job, left, begin, at, m);
        currDFPage, currDFPageByteDiv16, usingSecondBuffer :=
          MoveChunkRam(board, buffer, at, currDFPage, currDFPageByteDiv16, usingSecondBuffer, left, job, m);
        bytesInBlockDiv16 := bytesInBlockDiv16 + 1;
        at := m;
      }
      left := left - 1;
    }
  }

  // ---- The first and the last page ----

  lemma FirstPageBegun(job: Job, now: seq<Chip>, page: nat, at: nat, c: nat, after: Chip)
    requires job.Valid() && page == PageOf(job.g, job.block) < job.g.TotalPages()
    requires Committed(job, now, page) && Stale(job, now, page)
    requires Base(job.g, page) + at == job.Start() && at < job.g.pageSize && c == job.g.ChipOf(page) < |now|
    requires |PageAt(job.g, job.was, page)| == job.g.pageSize
    requires job.g.pageSize > BLOCK_SIZE || (at == 0 && job.g.pageSize <= job.Size())
    requires after.Shaped(job.g) && after.main == now[c].main && after.sram[1] == now[c].sram[1]
    requires job.g.pageSize > BLOCK_SIZE ==> after.sram[0] == PageAt(job.g, job.was, page)
    requires |after.rx| == 4 && after.rx[0] == CMD_BUFF1WRITE && after.cursor == at
    ensures RamWriting(job, now[c := after], page, at, 0)
  {
    SamePages(job, now, page, c, after);
    if job.g.pageSize > BLOCK_SIZE {
      PreloadFills(job.g, PageAt(job.g, job.was, page), page, job.Start(), job.Data(), at);
    }
  }

  lemma NothingYet(job: Job, now: seq<Chip>, page: nat)
    requires job.Valid() && ShapedBoard(job.g, now) && page == PageOf(job.g, job.block) < job.g.TotalPages()
    requires Base(job.g, page) <= job.Start() && |now| == |job.was|
    requires SameButCommand(job.was, now)
    ensures Committed(job, now, page) && Stale(job, now, page)
  {
    forall q | 0 <= q < job.g.TotalPages()
      ensures |PageAt(job.g, job.was, q)| == job.g.pageSize && job.g.ChipOf(q) < |job.was|
      ensures PageAt(job.g, now, q) == if q < page then Left(job, q) else PageAt(job.g, job.was, q)
    {
      Places(job.g, job.was, q);
      if q < page {
        BaseOrder(job.g, q, page);
        assert Left(job, q) == PageAt(job.g, job.was, q);
      }
    }
  }

  /** The counters at the start, the copy of the first page, and the first command. */
  method StartRam(board: Board, ghost job: Job, blockAddress: nat) returns (page: nat, div16: nat)
    requires Quiet(board) && job.Valid() && job.g == board.g && job.was == board.chips && blockAddress == job.block
    modifies board
    ensures At(board, job, page, 16 * div16, false, 0)
  {
    StartOfTransfer(board.g, blockAddress);
    BeginsFullPage(board.g, blockAddress, job.Size());
    page := blockAddress * BLOCK_SIZE % 0x1_0000_0000 / board.g.pageSize % 0x1_0000;
    var currDFPageByte := blockAddress * BLOCK_SIZE % 0x1_0000_0000 % board.g.pageSize % 0x1_0000;
    div16 := currDFPageByte / 16 % 0x100;
    Select(board, page);
    NothingYet(job, board.chips, page);
    BeginRam(board, job, page, currDFPageByte);
    RamTrackedAtStart(job.g, job.block, job.count, job.was, board.chips);
  }

  lemma FirstCommandSent(g: Geometry, was: seq<Chip>, selected: seq<Chip>, c: nat, after: Chip)
    requires |was| == g.chips && SameButCommand(was, selected) && c < |was|
    requires after.hazard <==> selected[c].hazard || MetAtFirst(g, LoadOf(selected[c]))
    requires LoadOf(after) == if g.pageSize > BLOCK_SIZE then Idle else LoadOf(selected[c])
    ensures Begun(g, was, selected[c := after], c)
  {
    hide MetAtFirst;
  }

  method BeginRam(board: Board, ghost job: Job, page: nat, at: nat)
    requires job.Valid() && OnPage(board, job, page) && board.chips[board.selected - 1].rx == []
    requires page == PageOf(job.g, job.block) < job.g.TotalPages() && Base(job.g, page) + at == job.Start()
    requires at < job.g.pageSize
    requires Committed(job, board.chips, page) && Stale(job, board.chips, page)
    requires SameButCommand(job.was, board.chips)
    requires job.g.pageSize > BLOCK_SIZE || (at == 0 && job.g.pageSize <= job.Size())
    modifies board
    ensures Standing(board, job, page, at, false, 0) && Begun(job.g, job.was, board.chips, job.g.ChipOf(page))
  {
    hide Begun, Committed, Stale, RamWriting;
    ghost var before, c := board.chips, board.selected - 1;
    Places(job.g, before, page);
    if board.g.pageSize > BLOCK_SIZE {
      Transfer(board, page, false);
    }
    SendCommand(board, CMD_BUFF1WRITE, 0, at);
    FirstPageBegun(job, before, page, at, c, board.chips[c]);
    FirstCommandSent(job.g, job.was, before, c, board.chips[c]);
    assert board.chips == before[c := board.chips[c]];
  }

  /** Every page of the board is as the write leaves it. */
  ghost predicate LeftBy(job: Job, now: seq<Chip>)
    requires job.Valid()
  {
    Committed(job, now, job.g.TotalPages())
  }

  lemma LastPageProgrammed(job: Job, before: seq<Chip>, page: nat, at: nat, second: bool, c: nat, after: Chip)
    requires job.Valid() && RamWriting(job, before, page, at, job.Size()) && c == job.g.ChipOf(page) < |before|
    requires second == SecondAt(job.g, PageOf(job.g, job.block), page) && job.g.LocalPage(page) < job.g.pages
    requires after.Shaped(job.g)
    requires after.main == before[c].main[job.g.LocalPage(page) := before[c].sram[Buffer(second)]]
    ensures LeftBy(job, before[c := after])
  {
    ReadyToProgram(job, before[c], page, at, job.Size());
    OnePageMore(job, before, page, c, after, before[c].sram[Buffer(second)]);
    NoMorePages(job, before[c := after], page, page + 1, at);
  }

  /** The pages behind the write stay as they were. */
  lemma NoMorePages(job: Job, now: seq<Chip>, page: nat, next: nat, at: nat)
    requires job.Valid() && Committed(job, now, next) && next == page + 1
    requires Base(job.g, page) + at == Until(job) && at <= job.g.pageSize
    ensures LeftBy(job, now)
  {
    forall q | next <= q < job.g.TotalPages()
      ensures |PageAt(job.g, job.was, q)| == job.g.pageSize && job.g.ChipOf(q) < |job.was|
      ensures Left(job, q) == PageAt(job.g, job.was, q)
    {
      Places(job.g, job.was, q);
      BaseOrder(job.g, page, q);
    }
  }

  /** The last buffer has been programmed, and its chip has been seen ready. */
  lemma WriteDone(job: Job, before: seq<Chip>, page: nat, at: nat, second: bool, c: nat, after: Chip)
    requires job.Valid() && RamWriting(job, before, page, at, job.Size()) && at > 0
    requires AllRamTracked(job.g, job.block, job.count, job.was, before, page)
    requires second == SecondAt(job.g, PageOf(job.g, job.block), page) && job.g.LocalPage(page) < job.g.pages
    requires c == job.g.ChipOf(page) < |before| && before[c].Shaped(job.g) && after.Shaped(job.g)
    requires after == Programmed(job.g, before[c], second, job.g.LocalPage(page)).(busy := Ready)
    ensures LeftBy(job, before[c := after])
    ensures RamHandled(job.g, job.block, job.count, job.was, before[c := after])
  {
    hide AllRamTracked, RamHandled, LeftBy, Committed, Stale;
    LastPageProgrammed(job, before, page, at, second, c, after);
    EndOfTransfer(job.g, job.block, job.count, page, at);
    RamTrackedAtEnd(job.g, job.block, job.count, job.was, before, page, after);
  }

  method EndRam(board: Board, page: nat, second: bool, ghost job: Job, ghost at: nat)
    requires job.Valid() && At(board, job, page, at, second, job.Size()) && at > 0
    modifies board
    ensures board.Valid() && board.selected == 0 && LeftBy(job, board.chips)
    ensures RamHandled(job.g, job.block, job.count, job.was, board.chips)
  {
    hide AllRamTracked, RamHandled, LeftBy, Committed, Stale;
    ghost var before, c := board.chips, job.g.ChipOf(page);
    Places(job.g, before, page);
    FinishWrite(board, page, second);
    WriteDone(job, before, page, at, second, c, board.chips[c]);
    assert board.chips == before[c := board.chips[c]];
  }

  /** WriteBlocks_RAM, for at least one block. Up to the switch it sends the commands of a write from the endpoint. */
  method WriteBlocksRam(board: Board, blockAddress: nat, totalBlocks: nat, buffer: seq<byte>)
    requires Quiet(board) && board.g.FitsBlocks() && 0 < totalBlocks < 0x1_0000
    requires blockAddress + totalBlocks <= Blocks(board.g)
    requires totalBlocks * BLOCK_SIZE <= |buffer|
    modifies board
    ensures Quiet(board)
    ensures var job := Job(board.g, old(board.chips), buffer, blockAddress, totalBlocks);
            job.Valid() && LeftBy(job, board.chips)
    ensures RamHandled(board.g, blockAddress, totalBlocks, old(board.chips), board.chips)
    ensures EndsBeforeSwitch(board.g, blockAddress, totalBlocks) ==>
              Handled(board.g, true, blockAddress, totalBlocks, old(board.chips), board.chips)
  {
    ghost var job := Job(board.g, board.chips, buffer, blockAddress, totalBlocks);
    var currDFPage, currDFPageByteDiv16 := StartRam(board, job, blockAddress);
    var usingSecondBuffer;
    currDFPage, currDFPageByteDiv16, usingSecondBuffer :=
      AllChunksRam(board, totalBlocks, buffer, currDFPage, currDFPageByteDiv16, job);
    EndRam(board, currDFPage, usingSecondBuffer, job, 16 * currDFPageByteDiv16);
    if EndsBeforeSwitch(board.g, blockAddress, totalBlocks) {
      HandledBeforeSwitch(board.g, blockAddress, totalBlocks, job.was, board.chips);
    }
  }
}
