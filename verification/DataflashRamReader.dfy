/** The variant of the block read for a RAM buffer, which the file system uses. */
module DataflashRamReader {
  import opened ByteMemory
  import opened Dataflash
  import opened BlockStore
  import opened BusyChips
  import opened BusyChipsRam
  import opened DataflashManager
  import opened DataflashReader
  import opened DataflashRam
  import opened RamWriteResult

  // ---- READ into a buffer ----

  /** The next sixteen bytes go from the chip to the buffer. */
  method ReadChunkRam(board: Board, buffer: seq<byte>, ghost was: seq<Chip>, ghost first: nat, ghost page: nat,
                      ghost at: nat, ghost start: nat, ghost a: nat, ghost end: nat)
    returns (buffer': seq<byte>)
    requires ReadingAt(was, board, first, page, at, a) && at + 16 <= board.g.pageSize
    requires start <= a && end == a + 16 <= Bytes(board.g) && buffer == Store(board.g, was)[start..a]
    modifies board
    ensures ReadingAt(was, board, first, page, at + 16, end) && buffer' == Store(board.g, was)[start..end]
  {
    hide SameMemory;
    buffer' := buffer;
    for byteNum := 0 to 16
      invariant ReadingAt(was, board, first, page, at + byteNum, a + byteNum)
      invariant buffer' == Store(board.g, was)[start..a + byteNum]
    {
      var b := ReadByte(board, was, first, page, at + byteNum, a + byteNum);
      OneByteLonger(Store(board.g, was), start, a + byteNum, buffer', b);
      buffer' := buffer' + [b];
    }
  }

  lemma OneByteLonger(s: seq<byte>, start: nat, a: nat, read: seq<byte>, b: byte)
    requires start <= a < |s| && read == s[start..a] && b == s[a]
    ensures read + [b] == s[start..a + 1]
  {
  }

  method MoveChunkBack(board: Board, buffer: seq<byte>, page: nat, div16: nat, ghost was: seq<Chip>, ghost first: nat,
                       ghost start: nat, ghost a: nat, ghost end: nat)
    returns (page': nat, div16': nat, buffer': seq<byte>)
    requires ReadingAt(was, board, first, page, 16 * div16, a)
    requires start <= a && end == a + 16 <= Bytes(board.g) && buffer == Store(board.g, was)[start..a]
    modifies board
    ensures ReadingAt(was, board, first, page', 16 * div16', end) && buffer' == Store(board.g, was)[start..end]
    ensures div16' > 0
  {
    page', div16' := TurnIfRead(board, page, div16, was, first, a);
    NextChunk(div16', 0);
    buffer' := ReadChunkRam(board, buffer, was, first, page', 16 * div16', start, a, end);
    div16' := (div16' + 1) % 0x100;
  }

  lemma ReadIsOver(was: seq<Chip>, board: Board, first: nat, page: nat, at: nat, a: nat, block: nat, count: nat)
    requires ReadingAt(was, board, first, page, at, a) && first == PageOf(board.g, block)
    requires a == block * BLOCK_SIZE + count * BLOCK_SIZE && if count > 0 then at > 0 else page == first
    ensures board.Valid() && board.selected != 0 && HarmlessRelease(board.chips[board.selected - 1])
    ensures ShapedBoard(board.g, was) && SameMemory(was, board.chips)
    ensures Handled(board.g, false, block, count, was, board.chips)
  {
    hide Handled;
    if count > 0 {
      EndOfTransfer(board.g, block, count, page, at);
    }
    ReadEnds(was, board, first, page, at, a, block, count);
  }

  method EndRead(board: Board, ghost was: seq<Chip>, ghost block: nat, ghost count: nat)
    requires board.Valid() && ShapedBoard(board.g, was) && SameMemory(was, board.chips)
    requires board.selected != 0 && HarmlessRelease(board.chips[board.selected - 1])
    requires Handled(board.g, false, block, count, was, board.chips)
    modifies board
    ensures Quiet(board)
    ensures SameMemory(was, board.chips) && Handled(board.g, false, block, count, was, board.chips)
  {
    hide Chip.Release;
    HarmlesslyReleased(board.g, board.chips[board.selected - 1]);
    board.DeselectChip();
  }

  /** ReadBlocks_RAM: the buffer gets exactly the named blocks, no chip's memory changes, and a chip is met at work as
      by a read to the endpoint. */
  method ReadBlocksRam(board: Board, blockAddress: nat, totalBlocks: nat) returns (buffer: seq<byte>)
    requires Quiet(board) && blockAddress < Blocks(board.g) && blockAddress + totalBlocks <= Blocks(board.g)
    requires totalBlocks < 0x1_0000
    modifies board
    ensures Quiet(board) && SameMemory(old(board.chips), board.chips)
    ensures Store(board.g, board.chips) == old(Store(board.g, board.chips))
    ensures blockAddress * BLOCK_SIZE + totalBlocks * BLOCK_SIZE <= Bytes(board.g)
    ensures buffer == old(Store(board.g, board.chips))[blockAddress * BLOCK_SIZE..blockAddress * BLOCK_SIZE
        + totalBlocks * BLOCK_SIZE]
    ensures Handled(board.g, false, blockAddress, totalBlocks, old(board.chips), board.chips)
  {
    hide ReadingAt, Store, Chip.Release, Handled;
    ghost var was, start, a := board.chips, blockAddress * BLOCK_SIZE, blockAddress * BLOCK_SIZE;
    BlocksInStore(board.g, blockAddress, totalBlocks);
    var currDFPage, currDFPageByteDiv16 := StartRead(board, blockAddress, start);
    ghost var first := currDFPage;
    buffer := [];
    var left: nat := totalBlocks;
    while left > 0
      invariant left <= totalBlocks && a == start + (totalBlocks - left) * BLOCK_SIZE
      invariant ReadingAt(was, board, first, currDFPage, 16 * currDFPageByteDiv16, a)
      invariant a <= Bytes(board.g) && buffer == Store(board.g, was)[start..a]
      invariant if left < totalBlocks then currDFPageByteDiv16 > 0 else currDFPage == first
    {
      currDFPage, currDFPageByteDiv16, buffer :=
          ReadOneBlock(board, buffer, currDFPage, currDFPageByteDiv16, was, first, start, a, a + BLOCK_SIZE);
      left, a := left - 1, a + BLOCK_SIZE;
    }
    ReadIsOver(was, board, first, currDFPage, 16 * currDFPageByteDiv16, a, blockAddress, totalBlocks);
    EndRead(board, was, blockAddress, totalBlocks);
    SameMemorySameStore(board.g, was, board.chips);
  }

  method ReadOneBlock(board: Board, buffer: seq<byte>, page: nat, div16: nat, ghost was: seq<Chip>, ghost first: nat,
                      ghost start: nat, ghost a: nat, ghost end: nat)
    returns (page': nat, div16': nat, buffer': seq<byte>)
    requires ReadingAt(was, board, first, page, 16 * div16, a)
    requires start <= a && end == a + BLOCK_SIZE <= Bytes(board.g) && buffer == Store(board.g, was)[start..a]
    modifies board
    ensures ReadingAt(was, board, first, page', 16 * div16', end) && buffer' == Store(board.g, was)[start..end]
    ensures div16' > 0
  {
    page', div16', buffer' := page, div16, buffer;
    ghost var k := a;
    var bytesInBlockDiv16 := 0;
    while bytesInBlockDiv16 < BLOCK_SIZE / 16
      invariant bytesInBlockDiv16 <= BLOCK_SIZE / 16 && k == a + 16 * bytesInBlockDiv16
      invariant ReadingAt(was, board, first, page', 16 * div16', k)
      invariant buffer' == Store(board.g, was)[start..k]
      invariant bytesInBlockDiv16 > 0 ==> div16' > 0
    {
      ghost var m := k + 16;
      page', div16', buffer' := MoveChunkBack(board, buffer', page', div16', was, first, start, k, m);
      bytesInBlockDiv16 := bytesInBlockDiv16 + 1;
      k := m;
    }
    assert k == end;
  }

  /** A file written before the switch is read back as it was. The write and the read that follows meet a chip at work
      as their endpoint forms would: the read meets the chip that the write did not wait for. */
  method WriteThenReadRam(board: Board, blockAddress: nat, totalBlocks: nat, buffer: seq<byte>)
    returns (back: seq<byte>)
    requires Quiet(board) && board.g.FitsBlocks() && 0 < totalBlocks < 0x1_0000
    requires blockAddress + totalBlocks <= Blocks(board.g)
    requires |buffer| == totalBlocks * BLOCK_SIZE
    requires EndsBeforeSwitch(board.g, blockAddress, totalBlocks)
    modifies board
    ensures Quiet(board) && back == buffer
    ensures |old(board.chips)| == |board.chips|
    ensures forall i :: 0 <= i < |board.chips| ==>
              (board.chips[i].hazard <==>
                old(board.chips)[i].hazard
                || PairMeets(board.g, blockAddress, totalBlocks, LoadOf(old(board.chips)[i]), i))
  {
    hide Store, LeftBy, Handled, RamHandled, PairMeets;
    ghost var job := Job(board.g, board.chips, buffer, blockAddress, totalBlocks);
    WriteBlocksRam(board, blockAddress, totalBlocks, buffer);
    RightBeforeTheSwitch(job, board.chips);
    ghost var store, written := Store(board.g, board.chips), board.chips;
    back := ReadBlocksRam(board, blockAddress, totalBlocks);
    ReadBack(Store(job.g, job.was), job.Start(), buffer, store, Until(job));
    BothHandled(job.g, blockAddress, totalBlocks, job.was, written, board.chips);
  }

  /** Does a write of this range, or a read of it behind the write, meet chip `i` at work? */
  predicate PairMeets(g: Geometry, block: nat, count: nat, l: Load, i: nat)
    requires g.pageSize > 0 && count > 0
  {
    || WriteMeets(g, block, count, l, i)
    || (PageOf(g, block) < LastPage(g, block, count) && i != g.ChipOf(LastPage(g, block, count)))
  }

  lemma BothHandled(g: Geometry, block: nat, count: nat, was: seq<Chip>, written: seq<Chip>, now: seq<Chip>)
    requires g.Valid() && count > 0 && |was| == g.chips
    requires Handled(g, true, block, count, was, written) && Handled(g, false, block, count, written, now)
    ensures |was| == |now|
    ensures forall i :: 0 <= i < |now| ==>
              (now[i].hazard <==> was[i].hazard || PairMeets(g, block, count, LoadOf(was[i]), i))
  {
    PagesInOrder(g, block, count);
    forall i: nat | i < |now|
      ensures now[i].hazard <==> was[i].hazard || PairMeets(g, block, count, LoadOf(was[i]), i)
    {
      MetByPair(g, block, count, LoadOf(was[i]), i);
    }
  }

  lemma MetByPair(g: Geometry, block: nat, count: nat, l: Load, i: nat)
    requires g.Valid() && count > 0 && i < g.chips
    ensures WriteMeets(g, block, count, l, i) || Meets(g, false, block, count, WriteLeaves(g, block, count, l, i), i)
            <==> PairMeets(g, block, count, l, i)
  {
    PagesInOrder(g, block, count);
  }

  lemma ReadBack(before: seq<byte>, start: nat, data: seq<byte>, after: seq<byte>, end: nat)
    requires end == start + |data| <= |before| && after == Overwrite(before, start, data)
    ensures after[start..end] == data
  {
  }
}
