/** Reading blocks of 512 bytes back from the Dataflash pages. */
module DataflashReader {
  import opened Arithmetic
  import opened ByteMemory
  import opened Endpoints
  import opened Dataflash
  import opened BlockStore
  import opened BusyChips
  import opened DataflashManager

  /** The chip once it has been sent a page read command, its address and its four padding bytes. */
  function Reading(g: Geometry, c: Chip, page: nat, at: nat): Chip {
    c.(rx := Header(g, CMD_MAINMEMPAGEREAD, page, at) + [0, 0, 0, 0], cursor := at, hazard := c.hazard || c.busy.Busy?)
  }

  lemma PaddingReceived(g: Geometry, c: Chip)
    requires g.Valid() && c.Shaped(g) && |c.rx| == 4 && c.rx[0] == CMD_MAINMEMPAGEREAD
    ensures c.Receive(g, 0).Receive(g, 0).Receive(g, 0).Receive(g, 0) == c.(rx := c.rx + [0, 0, 0, 0])
  {
    var c1 := c.Receive(g, 0);
    var c2 := c1.Receive(g, 0);
    var c3 := c2.Receive(g, 0);
    assert c1.rx == c.rx + [0];
    assert c2.rx == c.rx + [0, 0];
    assert c3.rx == c.rx + [0, 0, 0];
    assert c3.rx + [0] == c.rx + [0, 0, 0, 0];
  }

  /** Starts reading a page of the selected chip at `at`. */
  method OpenPage(board: Board, page: nat, at: nat)
    requires board.Valid() && page < board.g.TotalPages() && at < board.g.pageSize
    requires board.selected != 0 && board.chips[board.selected - 1].rx == []
    modifies board
    ensures board.Valid() && board.selected == old(board.selected)
    ensures board.chips == old(board.chips)[board.selected - 1 :=
        Reading(board.g, old(board.chips)[board.selected - 1], page, at)]
  {
    hide Chip.Receive, Chip.Send, Chip.Release;
    SendCommand(board, CMD_MAINMEMPAGEREAD, page, at);
    PaddingReceived(board.g, board.chips[board.selected - 1]);
    board.SendByte(0);
    board.SendByte(0);
    board.SendByte(0);
    board.SendByte(0);
  }

  ghost predicate SameMemory(was: seq<Chip>, now: seq<Chip>) {
    && |was| == |now|
    && forall i :: 0 <= i < |now| ==>
         now[i].main == was[i].main && now[i].sram == was[i].sram && now[i].busy == was[i].busy
  }

  lemma SameMemorySameStore(g: Geometry, was: seq<Chip>, now: seq<Chip>)
    requires ShapedBoard(g, was) && ShapedBoard(g, now) && SameMemory(was, now)
    ensures Store(g, now) == Store(g, was)
  {
    forall q | 0 <= q < g.TotalPages()
      ensures PageAt(g, now, q) == PageAt(g, was, q)
    {
      PagePlacesAreDistinct(g, q, q);
    }
    SamePagesSameStore(g, was, now);
  }

  /** Byte j of a page, as a byte of the store. */
  lemma StoreAtPage(g: Geometry, chips: seq<Chip>, page: nat, j: nat)
    requires ShapedBoard(g, chips) && page < g.TotalPages() && j < g.pageSize
    ensures Base(g, page) + j < Bytes(g)
    ensures |PageAt(g, chips, page)| == g.pageSize
    ensures Store(g, chips)[Base(g, page) + j] == PageAt(g, chips, page)[j]
  {
    PagePlacesAreDistinct(g, page, page);
    BaseOrder(g, page, g.TotalPages());
    BaseIsProduct(g, page);
    QuotientUnique(Base(g, page) + j, page, g.pageSize, j);
  }

  /** A read that began at page `first` has come to byte `at` of `page`, which is byte `a` of the store. */
  ghost predicate ReadingAt(was: seq<Chip>, board: Board, first: nat, page: nat, at: nat, a: nat)
    reads board
  {
    && a == Base(board.g, page) + at
    && board.Valid() && ShapedBoard(board.g, was) && SameMemory(was, board.chips)
    && first <= page < board.g.TotalPages() && at <= board.g.pageSize
    && board.selected == board.g.ChipOf(page) + 1
    && (forall i :: 0 <= i < |was| ==> (board.chips[i].hazard <==>
         was[i].hazard || (was[i].busy.Busy? && (i == board.g.ChipOf(first) || first < page))))
    && var c := board.chips[board.selected - 1];
       && |c.rx| == 8 && c.rx[0] == CMD_MAINMEMPAGEREAD && c.cursor == Within(at, board.g.pageSize)
       && DecodePage(c.rx) == board.g.LocalPage(page)
  }

  /** Selects a page's chip and starts reading the page. */
  method SelectPage(board: Board, page: nat, at: nat)
    requires Quiet(board) && page < board.g.TotalPages() && at < board.g.pageSize
    modifies board
    ensures board.Valid() && board.selected == board.g.ChipOf(page) + 1
    ensures SameMemory(old(board.chips), board.chips)
    ensures forall i :: 0 <= i < |board.chips| ==> (board.chips[i].hazard <==>
              old(board.chips)[i].hazard || (old(board.chips)[i].busy.Busy? && i == board.g.ChipOf(page)))
    ensures var c := board.chips[board.selected - 1];
            && |c.rx| == 8 && c.rx[0] == CMD_MAINMEMPAGEREAD && c.cursor == at
            && DecodePage(c.rx) == board.g.LocalPage(page)
  {
    hide Chip.Receive, Chip.Send, Chip.Release;
    Select(board, page);
    CommandReceived(board.g, board.chips[board.selected - 1], CMD_MAINMEMPAGEREAD, page, at);
    OpenPage(board, page, at);
  }

  /** `k` bytes of a read that starts at byte `start` of the store have reached the endpoint. */
  ghost predicate Sent(ep: InEndpoint, out: seq<byte>, store: seq<byte>, start: nat, k: nat)
    reads ep
  {
    && ep.Valid() && start + k <= |store|
    && ep.Stream() == out + store[start..][..k]
    && exists packets: nat :: FullPackets(ep, packets, k)
  }

  ghost predicate FullPackets(ep: InEndpoint, packets: nat, k: nat)
    reads ep
  {
    k == packets * ep.size + |ep.bank|
  }

  method ReadByte(board: Board, ghost was: seq<Chip>, ghost first: nat, ghost page: nat, ghost at: nat, ghost a: nat)
    returns (b: byte)
    requires ReadingAt(was, board, first, page, at, a) && at < board.g.pageSize
    modifies board
    ensures ReadingAt(was, board, first, page, at + 1, a + 1)
    ensures a < Bytes(board.g) && b == Store(board.g, was)[a]
  {
    hide Store, Base;
    PagePlacesAreDistinct(board.g, page, page);
    StoreAtPage(board.g, was, page, at);
    b := board.ReceiveByte();
  }

  method SendStoreByte(ep: InEndpoint, b: byte, ghost out: seq<byte>, ghost store: seq<byte>, ghost start: nat,
                       ghost k: nat)
    requires Sent(ep, out, store, start, k) && |ep.bank| < ep.size && start + k < |store| && b == store[start + k]
    modifies ep
    ensures Sent(ep, out, store, start, k + 1) && |ep.bank| == old(|ep.bank|) + 1
  {
    ghost var packets: nat :| FullPackets(ep, packets, k);
    assert store[start..][..k + 1] == store[start..][..k] + [b];
    ep.WriteByte(b);
    assert FullPackets(ep, packets, k + 1);
  }

  /** The next sixteen bytes go from the chip to the endpoint. */
  method ReadChunk(board: Board, ep: InEndpoint, ghost was: seq<Chip>, ghost first: nat, ghost page: nat, ghost at: nat,
                   ghost out: seq<byte>, ghost store: seq<byte>, ghost start: nat, ghost k: nat)
    requires ReadingAt(was, board, first, page, at, start + k) && at + 16 <= board.g.pageSize
    requires Sent(ep, out, store, start, k) && |ep.bank| + 16 <= ep.size && store == Store(board.g, was)
    modifies board, ep
    ensures ReadingAt(was, board, first, page, at + 16, start + k + 16)
    ensures Sent(ep, out, store, start, k + 16) && |ep.bank| == old(|ep.bank|) + 16
  {
    hide ReadingAt;
    for n := 0 to 16
      invariant ReadingAt(was, board, first, page, at + n, start + k + n)
      invariant Sent(ep, out, store, start, k + n) && |ep.bank| == old(|ep.bank|) + n
    {
      var b := ReadByte(board, was, first, page, at + n, start + k + n);
      SendStoreByte(ep, b, out, store, start, k + n);
    }
  }

  /** Sends the bank when it is full. */
  method FlushIfFull(ep: InEndpoint, ghost out: seq<byte>, ghost store: seq<byte>, ghost start: nat, ghost k: nat)
    requires Sent(ep, out, store, start, k) && ep.size % 16 == 0 && |ep.bank| % 16 == 0
    modifies ep
    ensures Sent(ep, out, store, start, k) && |ep.bank| % 16 == 0 && |ep.bank| + 16 <= ep.size
  {
    if |ep.bank| == ep.size {
      ghost var packets: nat :| FullPackets(ep, packets, k);
      ep.ClearIN();
      assert FullPackets(ep, packets + 1, k);
    }
  }

  /** Goes on to the next page when the current one has been read to its end. */
  method TurnIfRead(board: Board, page: nat, div16: nat, ghost was: seq<Chip>, ghost first: nat, ghost a: nat)
    returns (page': nat, div16': nat)
    requires ReadingAt(was, board, first, page, 16 * div16, a) && a < Bytes(board.g)
    modifies board
    ensures ReadingAt(was, board, first, page', 16 * div16', a) && 16 * div16' + 16 <= board.g.pageSize
  {
    hide Board.Valid;
    page', div16' := page, div16;
    if div16 == board.g.pageSize / 16 {
      assert 16 * div16 == board.g.pageSize;
      PageInStore(board.g, page + 1, a);
      div16' := 0;
      page' := (page + 1) % 0x1_0000;
      SelectPage(board, page', 0);
    }
  }

  /** One round of the inner loop. */
  method MoveChunk(board: Board, ep: InEndpoint, page: nat, div16: nat, ghost was: seq<Chip>, ghost first: nat,
                   ghost out: seq<byte>, ghost store: seq<byte>, ghost start: nat, ghost k: nat)
    returns (page': nat, div16': nat)
    requires ReadingAt(was, board, first, page, 16 * div16, start + k)
    requires store == Store(board.g, was) && start + k + 16 <= |store|
    requires Sent(ep, out, store, start, k) && ep.size % 16 == 0 && |ep.bank| % 16 == 0
    modifies board, ep
    ensures ReadingAt(was, board, first, page', 16 * div16', start + k + 16) && div16' > 0
    ensures Sent(ep, out, store, start, k + 16) && |ep.bank| % 16 == 0 && |ep.bank| > 0
  {
    FlushIfFull(ep, out, store, start, k);
    page', div16' := TurnIfRead(board, page, div16, was, first, start + k);
    ghost var at, filled := 16 * div16', |ep.bank|;
    ReadChunk(board, ep, was, first, page', at, out, store, start, k);
    NextChunk(div16', filled);
    div16' := (div16' + 1) % 0x100;
  }

  /** The nested loops of a read: blocks outside, chunks of sixteen bytes inside. */
  method ReadAllChunks(board: Board, ep: InEndpoint, totalBlocks: nat, page: nat, div16: nat, ghost was: seq<Chip>,
                       ghost first: nat, ghost start: nat)
    returns (currDFPage: nat, currDFPageByteDiv16: nat)
    requires ReadingAt(was, board, first, page, 16 * div16, start)
    requires start + totalBlocks * BLOCK_SIZE <= Bytes(board.g)
    requires ep.Valid() && ep.bank == [] && ep.size % 16 == 0
    modifies board, ep
    ensures ReadingAt(was, board, first, currDFPage, 16 * currDFPageByteDiv16, start + totalBlocks * BLOCK_SIZE)
    ensures if totalBlocks > 0 then currDFPageByteDiv16 > 0 && |ep.bank| > 0 else currDFPage == page && ep.bank == []
    ensures Sent(ep, old(ep.Stream()), Store(board.g, was), start, totalBlocks * BLOCK_SIZE)
  {
    currDFPage, currDFPageByteDiv16 := page, div16;
    ghost var out, store, k := ep.Stream(), Store(board.g, was), 0;
    assert FullPackets(ep, 0, 0);
    assert store[start..][..0] == [];
    assert Sent(ep, out, store, start, 0);
    hide Sent, ReadingAt;
    var left: nat := totalBlocks;
    while left > 0
      invariant left <= totalBlocks && k == (totalBlocks - left) * BLOCK_SIZE
      invariant ReadingAt(was, board, first, currDFPage, 16 * currDFPageByteDiv16, start + k)
      invariant Sent(ep, out, store, start, k) && |ep.bank| % 16 == 0
      invariant if k > 0 then currDFPageByteDiv16 > 0 && |ep.bank| > 0 else currDFPage == page && ep.bank == []
    {
      currDFPage, currDFPageByteDiv16 :=
        ReadOneBlock(board, ep, currDFPage, currDFPageByteDiv16, was, first, out, store, start, k, k + BLOCK_SIZE);
      left, k := left - 1, k + BLOCK_SIZE;
    }
  }

  /** The inner loop of a read, over the chunks of sixteen bytes in one block. */
  method ReadOneBlock(board: Board, ep: InEndpoint, page: nat, div16: nat, ghost was: seq<Chip>, ghost first: nat,
                      ghost out: seq<byte>, ghost store: seq<byte>, ghost start: nat, ghost begin: nat, ghost end: nat)
    returns (currDFPage: nat, currDFPageByteDiv16: nat)
    requires ReadingAt(was, board, first, page, 16 * div16, start + begin)
    requires store == Store(board.g, was) && end == begin + BLOCK_SIZE && start + end <= |store|
    requires Sent(ep, out, store, start, begin) && ep.size % 16 == 0 && |ep.bank| % 16 == 0
    modifies board, ep
    ensures ReadingAt(was, board, first, currDFPage, 16 * currDFPageByteDiv16, start + end) && currDFPageByteDiv16 > 0
    ensures Sent(ep, out, store, start, end) && |ep.bank| % 16 == 0 && |ep.bank| > 0
  {
    hide Sent, Store;
    currDFPage, currDFPageByteDiv16 := page, div16;
    ghost var k := begin;
    var bytesInBlockDiv16 := 0;
    while bytesInBlockDiv16 < BLOCK_SIZE / 16
      invariant bytesInBlockDiv16 <= BLOCK_SIZE / 16 && k == begin + 16 * bytesInBlockDiv16
      invariant ReadingAt(was, board, first, currDFPage, 16 * currDFPageByteDiv16, start + k)
      invariant Sent(ep, out, store, start, k) && |ep.bank| % 16 == 0
      invariant bytesInBlockDiv16 > 0 ==> currDFPageByteDiv16 > 0 && |ep.bank| > 0
    {
      currDFPage, currDFPageByteDiv16 :=
        MoveChunk(board, ep, currDFPage, currDFPageByteDiv16, was, first, out, store, start, k);
      k := k + 16;
      bytesInBlockDiv16 := bytesInBlockDiv16 + 1;
    }
    assert k == end;
  }

  lemma EndsWithFullPacket(ep: InEndpoint, totalBlocks: nat)
    requires ep.Valid() && |ep.bank| > 0 && BLOCK_SIZE % ep.size == 0 && totalBlocks > 0
    requires exists packets: nat :: FullPackets(ep, packets, totalBlocks * BLOCK_SIZE)
    ensures |ep.bank| == ep.size
  {
    var packets: nat :| FullPackets(ep, packets, totalBlocks * BLOCK_SIZE);
    LastPacketFull(totalBlocks, ep.size, packets, |ep.bank|);
  }

  /** The page and chunk counters at the start of a read, and its command. */
  method StartRead(board: Board, blockAddress: nat, ghost start: nat) returns (page: nat, div16: nat)
    requires Quiet(board) && blockAddress < Blocks(board.g) && start == blockAddress * BLOCK_SIZE
    modifies board
    ensures page == PageOf(board.g, blockAddress) && ReadingAt(old(board.chips), board, page, page, 16 * div16, start)
  {
    StartOfTransfer(board.g, blockAddress);
    page := blockAddress * BLOCK_SIZE % 0x1_0000_0000 / board.g.pageSize % 0x1_0000;
    var currDFPageByte: nat := blockAddress * BLOCK_SIZE % 0x1_0000_0000 % board.g.pageSize % 0x1_0000;
    div16 := currDFPageByte / 16 % 0x100;
    SelectPage(board, page, currDFPageByte);
  }

  /** READ: `totalBlocks` blocks from block `blockAddress` on go to the endpoint, in full packets. */
  method ReadBlocks(board: Board, ep: InEndpoint, blockAddress: nat, totalBlocks: nat)
    requires Quiet(board) && ep.Valid()
    requires blockAddress < Blocks(board.g) && blockAddress + totalBlocks <= Blocks(board.g) && totalBlocks < 0x1_0000
    requires ep.bank == [] && ep.size % 16 == 0 && BLOCK_SIZE % ep.size == 0
    modifies board, ep
    ensures Quiet(board) && ep.Valid() && ep.bank == []
    ensures SameMemory(old(board.chips), board.chips)
    ensures Store(board.g, board.chips) == old(Store(board.g, board.chips))
    ensures blockAddress * BLOCK_SIZE + totalBlocks * BLOCK_SIZE <= Bytes(board.g)
    ensures ep.Stream() == old(ep.Stream())
                           + Store(board.g, board.chips)[blockAddress * BLOCK_SIZE..][..totalBlocks * BLOCK_SIZE]
    ensures Handled(board.g, false, blockAddress, totalBlocks, old(board.chips), board.chips)
  {
    ghost var g, was, start := board.g, board.chips, blockAddress * BLOCK_SIZE;
    hide ReadingAt, Handled, Store;
    BlocksInStore(g, blockAddress, totalBlocks);
    var currDFPage, currDFPageByteDiv16 := StartRead(board, blockAddress, start);
    ghost var first := currDFPage;
    currDFPage, currDFPageByteDiv16 :=
      ReadAllChunks(board, ep, totalBlocks, currDFPage, currDFPageByteDiv16, was, first, start);
    if totalBlocks > 0 {
      EndOfTransfer(g, blockAddress, totalBlocks, currDFPage, 16 * currDFPageByteDiv16);
      EndsWithFullPacket(ep, totalBlocks);
    }
    ReadEnds(was, board, first, currDFPage, 16 * currDFPageByteDiv16, start + totalBlocks * BLOCK_SIZE, blockAddress,
        totalBlocks);
    FinishRead(board, ep, was, blockAddress, totalBlocks);
    SameMemorySameStore(g, was, board.chips);
  }

  /** What a read that has come to its last page has met. */
  lemma ReadEnds(was: seq<Chip>, board: Board, first: nat, page: nat, at: nat, a: nat, block: nat, count: nat)
    requires ReadingAt(was, board, first, page, at, a) && first == PageOf(board.g, block)
    requires page == if count > 0 then LastPage(board.g, block, count) else first
    ensures board.Valid() && board.selected != 0 && HarmlessRelease(board.chips[board.selected - 1])
    ensures ShapedBoard(board.g, was) && SameMemory(was, board.chips)
    ensures Handled(board.g, false, block, count, was, board.chips)
  {
  }

  /** Sends the last packet and ends the last page read. */
  method FinishRead(board: Board, ep: InEndpoint, ghost was: seq<Chip>, ghost block: nat, ghost count: nat)
    requires board.Valid() && ShapedBoard(board.g, was) && SameMemory(was, board.chips)
    requires board.selected != 0 ==> HarmlessRelease(board.chips[board.selected - 1])
    requires Handled(board.g, false, block, count, was, board.chips)
    requires ep.Valid() && (|ep.bank| == 0 || |ep.bank| == ep.size)
    modifies board, ep
    ensures Quiet(board) && ep.Valid() && ep.bank == [] && ep.Stream() == old(ep.Stream())
    ensures SameMemory(was, board.chips) && Handled(board.g, false, block, count, was, board.chips)
  {
    hide Chip.Release;
    if |ep.bank| == ep.size {
      ep.ClearIN();
    }
    if board.selected != 0 {
      HarmlesslyReleased(board.g, board.chips[board.selected - 1]);
    }
    board.DeselectChip();
  }

  lemma BlocksInStore(g: Geometry, block: nat, count: nat)
    requires g.Valid() && block + count <= Blocks(g)
    ensures block * BLOCK_SIZE + count * BLOCK_SIZE <= Bytes(g)
  {
    assert Blocks(g) * BLOCK_SIZE <= Bytes(g);
  }

  lemma LastPacketFull(count: nat, size: nat, packets: nat, last: nat)
    requires 0 < size && BLOCK_SIZE % size == 0 && 0 < last <= size
    requires count * BLOCK_SIZE == packets * size + last
    ensures last == size
  {
    var m := BLOCK_SIZE / size;
    assert BLOCK_SIZE == m * size;
    assert count * BLOCK_SIZE == (count * m) * size + 0;
    QuotientUnique(count * BLOCK_SIZE, count * m, size, 0);
    if last < size {
      QuotientUnique(count * BLOCK_SIZE, packets, size, last);
    }
  }

  /** A write waits only for the chip of its last page. On a two-chip board the other chip may still be
      programming when a write of several pages returns, and the next read meets it busy exactly when it
      goes to that chip. */
  method WriteThenRead(board: Board, data: OutEndpoint, reply: InEndpoint, block: nat, count: nat, block': nat,
                       count': nat)
    requires Quiet(board) && board.g.FitsBlocks()
    requires data.Valid() && |data.bank| % 16 == 0 && InChunks(data.queue) && count * BLOCK_SIZE <= |data.Stream()|
    requires 0 < count < 0x1_0000 && block + count <= Blocks(board.g)
    requires count' < 0x1_0000 && block' < Blocks(board.g) && block' + count' <= Blocks(board.g)
    requires reply.Valid() && reply.bank == [] && reply.size % 16 == 0 && BLOCK_SIZE % reply.size == 0
    modifies board, data, reply
    ensures |board.chips| == |old(board.chips)|
    ensures forall i :: 0 <= i < |board.chips| && LoadOf(old(board.chips)[i]) == Idle ==> (board.chips[i].hazard <==>
              || old(board.chips)[i].hazard
              || (&& PageOf(board.g, block) < LastPage(board.g, block, count)
                  && i != board.g.ChipOf(LastPage(board.g, block, count))
                  && Touches(board.g, block', count', i)))
  {
    WriteBlocks(board, data, block, count);
    ReadBlocks(board, reply, block', count');
  }
}
