/** Blocks of 512 bytes on top of Dataflash pages. */
module DataflashManager {
  import opened Arithmetic
  import opened ByteMemory
  import opened Endpoints
  import opened Dataflash
  import opened BlockStore
  import opened BusyChips

  // ---- One command on the selected chip ----

  function Header(g: Geometry, op: byte, page: nat, at: nat): seq<byte> {
    [op] + AddressBytes(g.LocalPage(page), at)
  }

  /** What the chip holds once it has been sent an opcode and an address. */
  function Commanded(g: Geometry, c: Chip, op: byte, page: nat, at: nat): Chip {
    c.(rx := Header(g, op, page, at), cursor := at, hazard := c.hazard || c.Conflicts(op))
  }

  lemma HeaderReceived(g: Geometry, c: Chip, h: seq<byte>)
    requires g.Valid() && c.Shaped(g) && c.rx == []
    requires |h| == 4 && HeaderLength(h[0]) >= 4
    ensures c.Receive(g, h[0]).Receive(g, h[1]).Receive(g, h[2]).Receive(g, h[3]) ==
            c.(rx := h, cursor := Within(DecodeAt(h), g.pageSize), hazard := c.hazard || c.Conflicts(h[0]))
  {
    var c0 := c.Receive(g, h[0]);
    assert c0.rx == h[..1];
    var c1 := c0.Receive(g, h[1]);
    assert c1.rx == h[..1] + [h[1]] == h[..2];
    var c2 := c1.Receive(g, h[2]);
    assert c2.rx == h[..2] + [h[2]] == h[..3];
    assert h[..3] + [h[3]] == h;
  }

  lemma CommandReceived(g: Geometry, c: Chip, op: byte, page: nat, at: nat)
    requires g.Valid() && c.Shaped(g) && c.rx == []
    requires HeaderLength(op) >= 4 && page < g.TotalPages() && at < g.pageSize
    ensures var a := AddressBytes(g.LocalPage(page), at);
            c.Receive(g, op).Receive(g, a[0]).Receive(g, a[1]).Receive(g, a[2]) == Commanded(g, c, op, page, at)
    ensures DecodePage(Header(g, op, page, at)) == g.LocalPage(page) < g.pages
  {
    PagePlacesAreDistinct(g, page, page);
    AddressRoundTrip(op, g.LocalPage(page), at);
    HeaderReceived(g, c, Header(g, op, page, at));
  }

  method SendCommand(board: Board, op: byte, page: nat, at: nat)
    requires board.Valid() && board.selected != 0 && board.chips[board.selected - 1].rx == []
    requires HeaderLength(op) >= 4 && page < board.g.TotalPages() && at < board.g.pageSize
    modifies board
    ensures board.Valid() && board.selected == old(board.selected)
    ensures board.chips == old(board.chips)[board.selected - 1 :=
              Commanded(board.g, old(board.chips)[board.selected - 1], op, page, at)]
  {
    CommandReceived(board.g, board.chips[board.selected - 1], op, page, at);
    board.SendByte(op);
    board.SendAddressBytes(page, at);
  }

  // ---- The state in the middle of a write ----

  function WriteOp(second: bool): byte { if second then CMD_BUFF2WRITE else CMD_BUFF1WRITE }

  function ProgramOp(second: bool): byte {
    if second then CMD_BUFF2TOMAINMEMWITHERASE else CMD_BUFF1TOMAINMEMWITHERASE
  }

  function TransferOp(second: bool): byte { if second then CMD_MAINMEMTOBUFF2 else CMD_MAINMEMTOBUFF1 }

  /** The buffer agrees with the page that is to be, on every byte already sent and on every byte the
      write leaves alone. */
  ghost predicate Filled(g: Geometry, buffer: Page, was: Page, page: nat, start: nat, data: seq<byte>, at: nat)
    requires |was| == g.pageSize
  {
    && |buffer| == g.pageSize
    && forall j :: 0 <= j < g.pageSize && (j < at || !(start <= Base(g, page) + j < start + |data|)) ==>
         buffer[j] == Overlay(g, was, page, start, data)[j]
  }

  /** The pages below `page` hold the write, the pages from it on are untouched. */
  ghost predicate Committed(g: Geometry, was: seq<Chip>, now: seq<Chip>, start: nat, data: seq<byte>, page: nat) {
    && ShapedBoard(g, was) && ShapedBoard(g, now)
    && forall q :: 0 <= q < g.TotalPages() ==>
         && |PageAt(g, was, q)| == g.pageSize
         && PageAt(g, now, q) == if q < page then Overlay(g, PageAt(g, was, q), q, start, data) else PageAt(g, was, q)
  }

  /** The chip is being sent the bytes of its chosen buffer, and the next one goes to `at`. */
  ghost predicate Receiving(g: Geometry, c: Chip, was: Page, start: nat, data: seq<byte>, page: nat, at: nat,
                            second: bool)
    requires |was| == g.pageSize
  {
    && |c.rx| == 4 && c.rx[0] == WriteOp(second) && |c.sram| == 2
    && at <= g.pageSize && c.cursor == Within(at, g.pageSize)
    && Filled(g, c.sram[Buffer(second)], was, page, start, data, at)
  }

  /** The pages before `page` are done, and its chip is being sent the page. */
  ghost predicate Writing(g: Geometry, was: seq<Chip>, now: seq<Chip>, start: nat, data: seq<byte>, page: nat, at: nat,
                          second: bool)
  {
    && Committed(g, was, now, start, data, page)
    && page < g.TotalPages() && g.ChipOf(page) < |now|
    && Receiving(g, now[g.ChipOf(page)], PageAt(g, was, page), start, data, page, at, second)
  }

  lemma OneByteReceived(g: Geometry, c: Chip, was: Page, start: nat, data: seq<byte>, page: nat, at: nat, second: bool,
                        b: byte)
    requires g.Valid() && c.Shaped(g) && |was| == g.pageSize
    requires Receiving(g, c, was, start, data, page, at, second) && at < g.pageSize
    requires start <= Base(g, page) + at < start + |data| && b == data[Base(g, page) + at - start]
    ensures Receiving(g, c.Receive(g, b), was, start, data, page, at + 1, second)
    ensures var after := c.Receive(g, b);
            after.main == c.main && after.busy == c.busy && after.hazard == c.hazard
  {
    var x := Buffer(second);
    var filled: Page := c.sram[x][at := b];
    assert c.Receive(g, b) == c.(sram := c.sram[x := filled], cursor := Within(at + 1, g.pageSize));
  }

  lemma {:induction false} BytesReceived(g: Geometry, c: Chip, was: Page, start: nat, data: seq<byte>, page: nat,
                                         at: nat, second: bool, bytes: seq<byte>)
    requires g.Valid() && c.Shaped(g) && |was| == g.pageSize
    requires Receiving(g, c, was, start, data, page, at, second) && at + |bytes| <= g.pageSize
    requires start <= Base(g, page) + at && Base(g, page) + at + |bytes| <= start + |data|
    requires forall i :: 0 <= i < |bytes| ==> bytes[i] == data[Base(g, page) + at - start + i]
    ensures Receiving(g, ReceiveAll(g, c, bytes), was, start, data, page, at + |bytes|, second)
    ensures var after := ReceiveAll(g, c, bytes);
            after.main == c.main && after.busy == c.busy && after.hazard == c.hazard
  {
    if bytes != [] {
      var n := |bytes| - 1;
      BytesReceived(g, c, was, start, data, page, at, second, bytes[..n]);
      OneByteReceived(g, ReceiveAll(g, c, bytes[..n]), was, start, data, page, at + n, second, bytes[n]);
    }
  }

  /** Changing a chip without changing its main memory keeps the committed pages. */
  lemma SameMain(g: Geometry, was: seq<Chip>, now: seq<Chip>, start: nat, data: seq<byte>, page: nat, c: nat,
                 after: Chip)
    requires Committed(g, was, now, start, data, page)
    requires c < |now| && after.Shaped(g) && after.main == now[c].main
    ensures Committed(g, was, now[c := after], start, data, page)
  {
    var next := now[c := after];
    forall q | 0 <= q < g.TotalPages()
      ensures PageAt(g, next, q) == PageAt(g, now, q)
    {
      PagePlacesAreDistinct(g, q, q);
    }
  }

  /** Programming a filled buffer into its page commits that page. */
  lemma PageCommitted(g: Geometry, was: seq<Chip>, now: seq<Chip>, start: nat, data: seq<byte>, page: nat, buffer: Page,
                      after: Chip)
    requires Committed(g, was, now, start, data, page) && page < g.TotalPages()
    requires Filled(g, buffer, PageAt(g, was, page), page, start, data, g.pageSize)
    requires g.ChipOf(page) < |now| && g.LocalPage(page) < g.pages && after.Shaped(g)
    requires after.main == now[g.ChipOf(page)].main[g.LocalPage(page) := buffer]
    ensures Committed(g, was, now[g.ChipOf(page) := after], start, data, page + 1)
  {
    assert buffer == Overlay(g, PageAt(g, was, page), page, start, data);
    var next := now[g.ChipOf(page) := after];
    forall q | 0 <= q < g.TotalPages()
      ensures PageAt(g, next, q) == if q == page then buffer else PageAt(g, now, q)
    {
      PagePlacesAreDistinct(g, q, page);
    }
  }

  /** A copy of the page itself agrees with it wherever the write does not reach. */
  lemma PreloadFills(g: Geometry, was: Page, page: nat, start: nat, data: seq<byte>, at: nat)
    requires |was| == g.pageSize && (at == 0 || Base(g, page) + at <= start)
    ensures Filled(g, was, was, page, start, data, at)
  {
  }

  // ---- The pieces of a write ----

  /** Moves one chunk of sixteen bytes from the endpoint's bank to the selected chip. */
  method WriteChunk(board: Board, ep: OutEndpoint)
    requires board.Valid() && board.selected != 0 && ep.Valid() && |ep.bank| >= 16
    modifies board, ep
    ensures board.Valid() && board.selected == old(board.selected)
    ensures board.chips == old(board.chips)[board.selected - 1 :=
              ReceiveAll(board.g, old(board.chips)[board.selected - 1], old(ep.bank)[..16])]
    ensures ep.Valid() && ep.bank == old(ep.bank)[16..] && ep.queue == old(ep.queue) && ep.received == old(ep.received)
  {
    ghost var c, bank := board.selected - 1, ep.bank;
    for i := 0 to 16
      invariant board.Valid() && board.selected == c + 1
      invariant board.chips == old(board.chips)[c := ReceiveAll(board.g, old(board.chips)[c], bank[..i])]
      invariant ep.Valid() && ep.queue == old(ep.queue) && ep.received == old(ep.received) && ep.bank == bank[i..]
    {
      assert bank[..i + 1][..i] == bank[..i];
      var b := ep.ReadByte();
      board.SendByte(b);
    }
  }

  /** The chip once a buffer has been programmed into a page and the chip-select line released. */
  function Programmed(g: Geometry, c: Chip, second: bool, local: nat): Chip
    requires c.Shaped(g) && local < g.pages
  {
    c.(rx := [], cursor := 0, main := c.main[local := c.sram[Buffer(second)]], busy := Busy(Buffer(second), c.latency))
  }

  /** The chip once a page has been copied into a buffer and the chip has been seen ready. */
  function Loaded(g: Geometry, c: Chip, second: bool, local: nat): Chip
    requires c.Shaped(g) && local < g.pages
  {
    c.(rx := [], cursor := 0, sram := c.sram[Buffer(second) := c.main[local]], busy := Ready)
  }

  /** Sends the command that programs a buffer into a page; it takes effect at the next chip-select change. */
  method SendProgram(board: Board, page: nat, second: bool)
    requires board.Valid() && page < board.g.TotalPages() && board.selected == board.g.ChipOf(page) + 1
    requires HarmlessRelease(board.chips[board.selected - 1])
    modifies board
    ensures board.Valid() && board.selected == old(board.selected)
    ensures var c := board.selected - 1;
            && board.chips == old(board.chips)[c := board.chips[c]]
            && board.g.LocalPage(page) < board.g.pages
            && board.chips[c].Release(board.g) ==
                Programmed(board.g, old(board.chips)[c], second, board.g.LocalPage(page))
  {
    hide Chip.Receive, Chip.Send;
    PagePlacesAreDistinct(board.g, page, page);
    board.WaitWhileBusy();
    CommandReceived(board.g, board.chips[board.selected - 1], ProgramOp(second), page, 0);
    SendCommand(board, ProgramOp(second), page, 0);
  }

  /** Copies a page from main memory into a buffer of the selected chip. */
  method Transfer(board: Board, page: nat, second: bool)
    requires board.Valid() && page < board.g.TotalPages() && board.selected == board.g.ChipOf(page) + 1
    requires board.chips[board.selected - 1].rx == []
    modifies board
    ensures board.Valid() && board.selected == old(board.selected)
    ensures var c := board.selected - 1;
            && board.g.LocalPage(page) < board.g.pages
            && board.chips == old(board.chips)[c :=
                 Loaded(board.g, old(board.chips)[c], second, board.g.LocalPage(page))
                 .(hazard := board.chips[c].hazard)]
            && board.chips[c].hazard == (old(board.chips)[c].hazard || old(board.chips)[c].busy.Busy?)
  {
    hide Chip.Receive, Chip.Send;
    PagePlacesAreDistinct(board.g, page, page);
    CommandReceived(board.g, board.chips[board.selected - 1], TransferOp(second), page, 0);
    SendCommand(board, TransferOp(second), page, 0);
    board.WaitWhileBusy();
  }

  /** As Transfer, once the chip has been seen ready. */
  method Preload(board: Board, page: nat, second: bool)
    requires board.Valid() && page < board.g.TotalPages() && board.selected == board.g.ChipOf(page) + 1
    requires HarmlessRelease(board.chips[board.selected - 1])
    modifies board
    ensures board.Valid() && board.selected == old(board.selected)
    ensures var c := board.selected - 1;
            && board.g.LocalPage(page) < board.g.pages
            && board.chips == old(board.chips)[c :=
                Loaded(board.g, old(board.chips)[c], second, board.g.LocalPage(page))]
  {
    board.WaitWhileBusy();
    Transfer(board, page, second);
  }

  /** Starts writing the chosen buffer of the selected chip at `at`. */
  method OpenBuffer(board: Board, page: nat, at: nat, second: bool, ghost was: seq<Chip>, ghost start: nat,
                    ghost data: seq<byte>)
    requires board.Valid() && page < board.g.TotalPages() && board.selected == board.g.ChipOf(page) + 1
    requires board.chips[board.selected - 1].rx == [] && at < board.g.pageSize
    requires Committed(board.g, was, board.chips, start, data, page)
    requires Filled(board.g, board.chips[board.selected - 1].sram[Buffer(second)], PageAt(board.g, was, page), page,
        start, data, at)
    modifies board
    ensures board.Valid() && board.selected == old(board.selected)
    ensures Writing(board.g, was, board.chips, start, data, page, at, second)
    ensures var c := board.selected - 1;
            && board.chips == old(board.chips)[c := board.chips[c]] && board.chips[c].busy == old(board.chips)[c].busy
            && (board.chips[c].hazard <==> old(board.chips)[c].hazard || InUse(LoadOf(old(board.chips)[c]), second))
  {
    PagePlacesAreDistinct(board.g, 0, page);
    SendCommand(board, WriteOp(second), 0, at);
    SameMain(board.g, was, old(board.chips), start, data, page, board.selected - 1, board.chips[board.selected - 1]);
  }

  /** Programs the filled buffer into its page and selects the chip of the following page. */
  method CommitPage(board: Board, page: nat, second: bool) returns (next: nat, nextSecond: bool)
    requires board.Valid() && page + 1 < board.g.TotalPages() && board.selected == board.g.ChipOf(page) + 1
    requires HarmlessRelease(board.chips[board.selected - 1])
    modifies board
    ensures next == page + 1 && nextSecond == NextSecond(board.g, board.g.ChipOf(page), second)
    ensures board.Valid() && board.selected == board.g.ChipOf(next) + 1 && board.chips[board.selected - 1].rx == []
    ensures var c := board.g.ChipOf(page);
            && board.g.LocalPage(page) < board.g.pages
            && board.chips == old(board.chips)[c :=
                Programmed(board.g, old(board.chips)[c], second, board.g.LocalPage(page))]
  {
    PagePlacesAreDistinct(board.g, page, page + 1);
    SendProgram(board, page, second);
    nextSecond := second;
    next := (page + 1) % 0x1_0000;
    if board.selected == board.g.chips {
      nextSecond := !second;
    }
    board.SelectChipFromPage(next);
  }

  /** The filled page is programmed, and the next page's buffer is made ready to be written. */
  method TurnPage(board: Board, page: nat, second: bool, totalBlocks: nat, ghost was: seq<Chip>, ghost start: nat,
                  ghost data: seq<byte>, ghost following: nat)
    returns (next: nat, nextSecond: bool)
    requires board.Valid() && following == page + 1 < board.g.TotalPages()
    requires Writing(board.g, was, board.chips, start, data, page, board.g.pageSize, second)
    requires board.selected == board.g.ChipOf(page) + 1
    requires start <= Base(board.g, following)
    requires Preloads(board.g, totalBlocks) || Base(board.g, following) + board.g.pageSize <= start + |data|
    modifies board
    ensures next == following && nextSecond == NextSecond(board.g, board.g.ChipOf(page), second)
    ensures board.Valid() && board.selected == board.g.ChipOf(next) + 1
    ensures Writing(board.g, was, board.chips, start, data, next, 0, nextSecond)
    ensures Turned(board.g, old(board.chips), board.chips, page, second, totalBlocks)
  {
    hide Committed, PageAt;
    ghost var g, before, c := board.g, board.chips, board.g.ChipOf(page);
    next, nextSecond := CommitPage(board, page, second);
    PageCommitted(g, was, before, start, data, page, before[c].sram[Buffer(second)], board.chips[c]);
    OpenNext(board, next, nextSecond, totalBlocks, was, start, data);
  }

  /** Starts writing the first byte of a page, after copying the page to its buffer when the write will
      not replace all of it. */
  method OpenNext(board: Board, page: nat, second: bool, totalBlocks: nat, ghost was: seq<Chip>, ghost start: nat,
                  ghost data: seq<byte>)
    requires board.Valid() && page < board.g.TotalPages() && board.selected == board.g.ChipOf(page) + 1
    requires board.chips[board.selected - 1].rx == []
    requires Committed(board.g, was, board.chips, start, data, page) && start <= Base(board.g, page)
    requires Preloads(board.g, totalBlocks) || Base(board.g, page) + board.g.pageSize <= start + |data|
    modifies board
    ensures board.Valid() && board.selected == old(board.selected)
    ensures Writing(board.g, was, board.chips, start, data, page, 0, second)
    ensures var c := board.selected - 1;
            && board.chips == old(board.chips)[c := board.chips[c]]
            && board.chips[c].hazard ==
                 (old(board.chips)[c].hazard
                     || (!Preloads(board.g, totalBlocks) && InUse(LoadOf(old(board.chips)[c]), second)))
  {
    ghost var g, before, c := board.g, board.chips, board.selected - 1;
    if board.g.pageSize > BLOCK_SIZE && (totalBlocks * (BLOCK_SIZE / 16)) % 0x1_0000 < board.g.pageSize / 16 {
      Preload(board, page, second);
      SameMain(g, was, before, start, data, page, c, board.chips[c]);
      PreloadFills(g, PageAt(g, was, page), page, start, data, 0);
    }
    OpenBuffer(board, page, 0, second, was, start, data);
  }

  // ---- Whole transfers ----

  /** The board is between commands: releasing chip-select starts nothing. */
  ghost predicate Quiet(board: Board)
    reads board
  {
    board.Valid() && (board.selected != 0 ==> HarmlessRelease(board.chips[board.selected - 1]))
  }

  /** Packets arrive in multiples of the sixteen bytes that the firmware moves at a time, none empty. */
  ghost predicate InChunks(packets: seq<seq<byte>>) {
    forall i :: 0 <= i < |packets| ==> packets[i] != [] && |packets[i]| % 16 == 0
  }

  /** Where the 16-bit page and byte counters of the driver start, without any of them overflowing. */
  lemma StartOfTransfer(g: Geometry, block: nat)
    requires g.Valid() && block < Blocks(g)
    ensures var a := block * BLOCK_SIZE % 0x1_0000_0000;
            && a == block * BLOCK_SIZE
            && a / g.pageSize % 0x1_0000 == PageOf(g, block) < g.TotalPages()
            && a % g.pageSize % 0x1_0000 == a % g.pageSize < g.pageSize
            && 16 * (a % g.pageSize / 16 % 256) == a % g.pageSize
            && Base(g, PageOf(g, block)) + a % g.pageSize == a
  {
    var a := block * BLOCK_SIZE;
    BytesAreFew(g);
    AddressSplits(g, a);
    MultipleOf16(32 * block, a, g.pageSize);
    CountersFit(a, a / g.pageSize, a % g.pageSize);
  }

  lemma CountersFit(a: nat, page: nat, at: nat)
    requires a < 0x1_0000_0000 && page < 0x1_0000 && at < 2048 && at % 16 == 0
    ensures a % 0x1_0000_0000 == a && page % 0x1_0000 == page && at % 0x1_0000 == at && 16 * (at / 16 % 256) == at
  {
  }

  lemma BytesAreFew(g: Geometry)
    requires g.Valid()
    ensures Bytes(g) <= 0x200_0000
  {
    BaseIsProduct(g, g.TotalPages());
    ProductAtMost(g.TotalPages(), g.pageSize, 2048);
  }

  lemma {:induction false} ProductAtMost(t: nat, size: nat, most: nat)
    requires size <= most
    ensures t * size <= t * most
  {
    if t > 0 {
      ProductAtMost(t - 1, size, most);
      assert t * size == (t - 1) * size + size && t * most == (t - 1) * most + most;
    }
  }

  lemma MultipleOf16(v: nat, a: nat, d: nat)
    requires d > 0 && a == 16 * v && d % 16 == 0
    ensures a % d % 16 == 0
  {
    var q, u := a / d, d / 16;
    assert a % d == a - q * d;
    assert q * (16 * u) == 16 * (q * u);
  }

  /** At a page boundary inside a write, a page that the write only partly covers is preloaded,
      even when the 16-bit product in the test wraps. `left` counts the blocks not finished. */
  lemma PartialPagesArePreloaded(g: Geometry, block: nat, count: nat, page: nat, left: nat, done: nat)
    requires g.Valid() && g.FitsBlocks() && 0 < left <= count < 0x1_0000 && done < BLOCK_SIZE
    requires Base(g, page) == (block + count - left) * BLOCK_SIZE + done
    ensures Preloads(g, left) || Base(g, page) + g.pageSize <= (block + count) * BLOCK_SIZE
  {
    if Divides(g.pageSize, BLOCK_SIZE) {
      SmallPagesFit(g, block + count, page);
    } else {
      LargePagesStartBlocks(g, page, block + count - left, done);
      PreloadTest(g, left);
    }
  }

  lemma SmallPagesFit(g: Geometry, blocks: nat, page: nat)
    requires g.Valid() && Divides(g.pageSize, BLOCK_SIZE)
    requires Base(g, page) < blocks * BLOCK_SIZE
    ensures Base(g, page) + g.pageSize <= blocks * BLOCK_SIZE
  {
    var m := MultipleOf(g.pageSize, BLOCK_SIZE);
    BlocksArePages(g, m, blocks);
    Multiple(g, page, blocks * m, Base(g, page), blocks * BLOCK_SIZE);
  }

  lemma BlocksArePages(g: Geometry, m: nat, blocks: nat)
    requires BLOCK_SIZE == m * g.pageSize
    ensures Base(g, blocks * m) == blocks * BLOCK_SIZE
  {
    BaseIsProduct(g, blocks * m);
    ProductOrder(blocks, m, g.pageSize);
  }

  lemma LargePagesStartBlocks(g: Geometry, page: nat, blocks: nat, done: nat)
    requires g.Valid() && Divides(BLOCK_SIZE, g.pageSize) && done < BLOCK_SIZE
    requires Base(g, page) == blocks * BLOCK_SIZE + done
    ensures done == 0
  {
    var m := MultipleOf(BLOCK_SIZE, g.pageSize);
    BaseIsProduct(g, page);
    assert page * (m * BLOCK_SIZE) == (page * m) * BLOCK_SIZE;
  }

  /** The 16-bit product wraps only for counts that are far beyond a page, so the test never misses. */
  lemma PreloadTest(g: Geometry, left: nat)
    requires g.Valid() && 0 < left < 0x1_0000
    requires Divides(BLOCK_SIZE, g.pageSize)
    ensures Preloads(g, left) || g.pageSize <= left * BLOCK_SIZE
  {
    if g.pageSize <= BLOCK_SIZE {
    } else if left < 2048 {
      assert left * 32 % 0x1_0000 == left * 32;
    }
  }

  lemma Multiple(g: Geometry, p: nat, q: nat, b: nat, end: nat)
    requires b == Base(g, p) < end == Base(g, q)
    ensures b + g.pageSize <= end
  {
    if p < q {
      BaseOrder(g, p, q);
    } else {
      BaseMonotone(g, q, p);
    }
  }

  // ---- WRITE ----

  /** Nothing but the command in progress has changed. */
  predicate SameButCommand(was: seq<Chip>, now: seq<Chip>) {
    |was| == |now| && forall i :: 0 <= i < |now| ==> now[i] == was[i].(rx := now[i].rx, cursor := now[i].cursor)
  }

  /** Selects the chip of a page for a new command. */
  method Select(board: Board, page: nat)
    requires Quiet(board) && page < board.g.TotalPages()
    modifies board
    ensures board.Valid() && board.selected == board.g.ChipOf(page) + 1 && board.chips[board.selected - 1].rx == []
    ensures SameButCommand(old(board.chips), board.chips)
  {
    hide Chip.Release;
    PagePlacesAreDistinct(board.g, page, page);
    if board.selected != 0 {
      HarmlesslyReleased(board.g, board.chips[board.selected - 1]);
    }
    board.SelectChipFromPage(page);
  }

  /** Selects the chip of the first page; nothing has been written yet. */
  method SelectFirst(board: Board, page: nat, ghost start: nat, ghost data: seq<byte>)
    requires Quiet(board) && page < board.g.TotalPages() && Base(board.g, page) <= start
    modifies board
    ensures board.Valid() && board.selected == board.g.ChipOf(page) + 1
    ensures board.chips[board.selected - 1].rx == []
    ensures Committed(board.g, old(board.chips), board.chips, start, data, page)
    ensures forall i :: 0 <= i < |board.chips| ==>
              board.chips[i].busy == old(board.chips)[i].busy && board.chips[i].hazard == old(board.chips)[i].hazard
  {
    ghost var g, was := board.g, board.chips;
    Select(board, page);
    forall q | 0 <= q < g.TotalPages()
      ensures PageAt(g, board.chips, q) == PageAt(g, was, q) && |PageAt(g, was, q)| == g.pageSize
    {
      PagePlacesAreDistinct(g, q, q);
    }
    Untouched(g, was, board.chips, start, data, page);
  }

  /** Selects the chip of the first page and starts writing its buffer at the first byte. */
  method BeginWrite(board: Board, page: nat, at: nat, ghost start: nat, ghost data: seq<byte>)
    requires Quiet(board) && page < board.g.TotalPages() && at < board.g.pageSize
    requires Base(board.g, page) + at == start
    requires board.g.pageSize > BLOCK_SIZE || (at == 0 && board.g.pageSize <= |data|)
    modifies board
    ensures board.Valid() && board.selected == board.g.ChipOf(page) + 1
    ensures Writing(board.g, old(board.chips), board.chips, start, data, page, at, false)
    ensures Begun(board.g, old(board.chips), board.chips, board.g.ChipOf(page))
  {
    ghost var was := board.chips;
    SelectFirst(board, page, start, data);
    ghost var c, selected := board.selected - 1, board.chips;
    if board.g.pageSize > BLOCK_SIZE {
      Transfer(board, page, false);
      SameMain(board.g, was, selected, start, data, page, c, board.chips[c]);
      PreloadFills(board.g, PageAt(board.g, was, page), page, start, data, at);
    }
    OpenBuffer(board, page, at, false, was, start, data);
  }

  lemma Untouched(g: Geometry, was: seq<Chip>, now: seq<Chip>, start: nat, data: seq<byte>, page: nat)
    requires ShapedBoard(g, was) && ShapedBoard(g, now) && page < g.TotalPages() && Base(g, page) <= start
    requires forall q :: 0 <= q < g.TotalPages() ==>
               PageAt(g, now, q) == PageAt(g, was, q) && |PageAt(g, was, q)| == g.pageSize
    ensures Committed(g, was, now, start, data, page)
  {
    forall q | 0 <= q < page
      ensures Overlay(g, PageAt(g, was, q), q, start, data) == PageAt(g, was, q)
    {
      BaseOrder(g, q, page);
      assert |PageAt(g, was, q)| == g.pageSize;
    }
  }

  /** Programs the last, perhaps partly written, page and waits for it. */
  method FinishWrite(board: Board, page: nat, second: bool)
    requires board.Valid() && page < board.g.TotalPages() && board.selected == board.g.ChipOf(page) + 1
    requires HarmlessRelease(board.chips[board.selected - 1])
    modifies board
    ensures board.Valid() && board.selected == 0
    ensures var c := board.g.ChipOf(page);
            && board.g.LocalPage(page) < board.g.pages
            && board.chips == old(board.chips)[c :=
                 Programmed(board.g, old(board.chips)[c], second, board.g.LocalPage(page)).(busy := Ready)]
  {
    PagePlacesAreDistinct(board.g, page, page);
    SendProgram(board, page, second);
    board.WaitWhileBusy();
    board.DeselectChip();
  }

  /** When the last byte of the write sits in the buffer, programming it completes the write. */
  lemma WriteComplete(g: Geometry, was: seq<Chip>, now: seq<Chip>, start: nat, data: seq<byte>, page: nat, at: nat,
                      second: bool, after: Chip)
    requires Writing(g, was, now, start, data, page, at, second) && Base(g, page) + at == start + |data|
    requires g.LocalPage(page) < g.pages && after.Shaped(g)
    requires var c := now[g.ChipOf(page)]; after.main == c.main[g.LocalPage(page) := c.sram[Buffer(second)]]
    ensures var next := now[g.ChipOf(page) := after];
            ShapedBoard(g, next) && WrittenOver(g, was, next, start, data)
  {
    PageCommitted(g, was, now, start, data, page, now[g.ChipOf(page)].sram[Buffer(second)], after);
    forall q | page < q < g.TotalPages()
      ensures Overlay(g, PageAt(g, was, q), q, start, data) == PageAt(g, was, q)
    {
      BaseOrder(g, page, q);
      assert |PageAt(g, was, q)| == g.pageSize;
    }
  }

  /** The last page of a write is the page that its last byte falls in. */
  lemma EndOfTransfer(g: Geometry, block: nat, count: nat, page: nat, at: nat)
    requires g.pageSize > 0 && count > 0 && 0 < at <= g.pageSize
    requires Base(g, page) + at == (block + count) * BLOCK_SIZE
    ensures page == LastPage(g, block, count)
  {
    var last := (block + count) * BLOCK_SIZE - 1;
    BaseIsProduct(g, page);
    assert last == page * g.pageSize + (at - 1);
    QuotientUnique(last, page, g.pageSize, at - 1);
  }

  lemma BeginsFullPage(g: Geometry, block: nat, size: nat)
    requires g.Valid() && g.FitsBlocks() && size >= BLOCK_SIZE
    ensures g.pageSize > BLOCK_SIZE || (block * BLOCK_SIZE % g.pageSize == 0 && g.pageSize <= size)
  {
    if g.pageSize <= BLOCK_SIZE {
      DividesBlock(g);
      var m := MultipleOf(g.pageSize, BLOCK_SIZE);
      assert block * BLOCK_SIZE == (block * m) * g.pageSize + 0;
      QuotientUnique(block * BLOCK_SIZE, block * m, g.pageSize, 0);
    }
  }

  lemma DividesBlock(g: Geometry)
    requires 0 < g.pageSize <= BLOCK_SIZE && g.FitsBlocks()
    ensures Divides(g.pageSize, BLOCK_SIZE)
  {
    if Divides(BLOCK_SIZE, g.pageSize) {
      var m := MultipleOf(BLOCK_SIZE, g.pageSize);
      assert m == 1;
      assert Divides(BLOCK_SIZE, 0);
    }
  }

  lemma NothingCommitted(g: Geometry, was: seq<Chip>, now: seq<Chip>, start: nat, data: seq<byte>, page: nat)
    requires Committed(g, was, now, start, data, page) && page < g.TotalPages() && Base(g, page) <= start
    ensures Store(g, now) == Store(g, was)
  {
    forall q | 0 <= q < g.TotalPages()
      ensures PageAt(g, now, q) == PageAt(g, was, q)
    {
      if q < page {
        BaseOrder(g, q, page);
        assert Overlay(g, PageAt(g, was, q), q, start, data) == PageAt(g, was, q);
      }
    }
    SamePagesSameStore(g, was, now);
  }

  /** The parameters of one write: the chips before it, the endpoint's stream before it, the range. */
  datatype Job = Job(g: Geometry, was: seq<Chip>, src: seq<byte>, block: nat, count: nat) {
    ghost predicate Valid() {
      && g.Valid() && g.FitsBlocks() && ShapedBoard(g, was)
      && 0 < count < 0x1_0000 && block + count <= Blocks(g)
      && Size() <= |src|
    }

    function Start(): nat { block * BLOCK_SIZE }

    function Size(): nat { count * BLOCK_SIZE }

    /** The bytes moved when `left` blocks are still to come. */
    function Done(left: nat): nat
      requires left <= count
    {
      (count - left) * BLOCK_SIZE
    }

    ghost function Data(): seq<byte>
      requires Size() <= |src|
    {
      src[..Size()]
    }
  }

  /** `k` bytes have been written; the next one goes to `at` in `page`. */
  ghost predicate Midway(job: Job, chips: seq<Chip>, page: nat, at: nat, second: bool, k: nat)
    requires job.Size() <= |job.src| && job.g.pageSize > 0
  {
    match job
    case Job(g, was, src, block, count) =>
      && Writing(g, was, chips, job.Start(), job.Data(), page, at, second)
      && Base(g, page) + at == job.Start() + k && k <= job.Size()
      && page >= PageOf(g, block)
      && second == SecondAt(g, PageOf(g, block), page) && AllTracked(g, block, count, was, chips, page)
  }

  /** The board has the chip of `page` selected. */
  ghost predicate OnPage(board: Board, job: Job, page: nat)
    reads board
  {
    match job
    case Job(g, _, _, _, _) => board.Valid() && board.g == g && board.selected == g.ChipOf(page) + 1
  }

  lemma ChunkWritten(job: Job, chips: seq<Chip>, page: nat, at: nat, second: bool, k: nat, bytes: seq<byte>, next: nat,
                     m: nat)
    requires job.Valid() && Midway(job, chips, page, at, second, k) && next == at + |bytes| && m == k + |bytes|
    requires next <= job.g.pageSize && m <= job.Size() && bytes == job.src[k..][..|bytes|]
    ensures var c := job.g.ChipOf(page);
            && ShapedBoard(job.g, chips) && c < |chips|
            && Midway(job, chips[c := ReceiveAll(job.g, chips[c], bytes)], page, next, second, m)
  {
    var c := job.g.ChipOf(page);
    SliceOfPrefix(job.src, job.Size(), k, |bytes|);
    var after := WritingGoesOn(job.g, job.was, chips, job.Start(), job.Data(), page, at, second, bytes, next, k);
    TrackedKept(job.g, job.block, job.count, job.was, chips, page, c, after);
  }

  lemma SliceOfPrefix(s: seq<byte>, size: nat, k: nat, n: nat)
    requires k + n <= size <= |s|
    ensures s[..size][k..][..n] == s[k..][..n]
  {
  }

  lemma WritingGoesOn(g: Geometry, was: seq<Chip>, now: seq<Chip>, start: nat, data: seq<byte>, page: nat, at: nat,
                      second: bool, bytes: seq<byte>, next: nat, k: nat) returns (after: Chip)
    requires Writing(g, was, now, start, data, page, at, second) && next == at + |bytes| && next <= g.pageSize
    requires Base(g, page) + at == start + k && k + |bytes| <= |data| && bytes == data[k..][..|bytes|]
    ensures after == ReceiveAll(g, now[g.ChipOf(page)], bytes)
    ensures after.busy == now[g.ChipOf(page)].busy && after.hazard == now[g.ChipOf(page)].hazard
    ensures Writing(g, was, now[g.ChipOf(page) := after], start, data, page, next, second)
  {
    var c := g.ChipOf(page);
    after := ReceiveAll(g, now[c], bytes);
    BytesReceived(g, now[c], PageAt(g, was, page), start, data, page, at, second, bytes);
    SameMain(g, was, now, start, data, page, c, after);
  }

  /** The endpoint still holds everything from byte `k` of the transfer on. */
  ghost predicate Fed(src: seq<byte>, ep: OutEndpoint, k: nat)
    requires k <= |src|
    reads ep
  {
    && ep.Valid() && |ep.bank| % 16 == 0 && InChunks(ep.queue)
    && ep.Stream() == src[k..]
  }

  /** Fetches the next packet when the bank is empty. */
  method Refill(ep: OutEndpoint, ghost src: seq<byte>, ghost k: nat) returns (ready: bool)
    requires k < |src| && Fed(src, ep, k)
    modifies ep
    ensures ready && Fed(src, ep, k) && |ep.bank| >= 16 && ep.bank[..16] == src[k..][..16]
  {
    ready := true;
    if ep.bank == [] {
      ep.ClearOUT();
      assert ep.queue != [] && ep.queue[0] != [];
      ready := ep.WaitUntilReady();
    }
    assert ep.bank[..16] == ep.Stream()[..16];
  }

  /** Turns the page when the current one is full. */
  method TurnPageIfFull(board: Board, page: nat, div16: nat, second: bool, left: nat, ghost job: Job, ghost k: nat)
    returns (page': nat, div16': nat, second': bool)
    requires job.Valid() && OnPage(board, job, page) && Midway(job, board.chips, page, 16 * div16, second, k)
    requires k < job.Size()
    requires 0 < left <= job.count && job.Done(left) <= k < job.Done(left) + BLOCK_SIZE
    modifies board
    ensures OnPage(board, job, page') && Midway(job, board.chips, page', 16 * div16', second', k)
    ensures 16 * div16' + 16 <= job.g.pageSize
  {
    hide Midway;
    page', div16', second' := page, div16, second;
    RoomInPage(job, board.chips, page, 16 * div16, second, k, div16);
    if div16 == board.g.pageSize / 16 {
      page', second' := TurnFullPage(board, page, second, left, job, k);
      div16' := 0;
    }
  }

  lemma RoomInPage(job: Job, chips: seq<Chip>, page: nat, at: nat, second: bool, k: nat, div16: nat)
    requires job.Valid() && Midway(job, chips, page, at, second, k) && at == 16 * div16
    ensures if div16 == job.g.pageSize / 16 then at == job.g.pageSize else at + 16 <= job.g.pageSize
    ensures 16 <= job.g.pageSize
  {
    var size := job.g.pageSize;
    assert size == 16 * (size / 16);
  }

  /** TurnPage, in the terms of a whole write. */
  method TurnFullPage(board: Board, page: nat, second: bool, left: nat, ghost job: Job, ghost k: nat)
    returns (page': nat, second': bool)
    requires job.Valid() && OnPage(board, job, page) && Midway(job, board.chips, page, job.g.pageSize, second, k)
    requires k < job.Size()
    requires 0 < left <= job.count && job.Done(left) <= k < job.Done(left) + BLOCK_SIZE
    modifies board
    ensures OnPage(board, job, page') && Midway(job, board.chips, page', 0, second', k)
  {
    AtPageEnd(job, page, left, k);
    ghost var before := board.chips;
    page', second' := TurnPage(board, page, second, left, job.was, job.Start(), job.Data(), page + 1);
    TrackedThroughTurn(job.g, job.block, job.count, job.was, before, board.chips, page, second, left, page');
  }

  /** At the end of a page inside the range there is another page, and it is preloaded if need be. */
  lemma AtPageEnd(job: Job, page: nat, left: nat, k: nat)
    requires job.Valid() && k < job.Size() && Base(job.g, page) + job.g.pageSize == job.Start() + k
    requires 0 < left <= job.count && job.Done(left) <= k < job.Done(left) + BLOCK_SIZE
    ensures page + 1 < job.g.TotalPages() && job.Start() <= Base(job.g, page + 1)
    ensures Preloads(job.g, left) || Base(job.g, page + 1) + job.g.pageSize <= job.Start() + job.Size()
    ensures left == Unfinished(job.g, job.block, job.count, page + 1)
  {
    RangeInStore(job);
    QuotientUnique(job.Start() + k, job.block + job.count - left, BLOCK_SIZE, k - job.Done(left));
    PageInStore(job.g, page + 1, job.Start() + k);
    PartialPagesArePreloaded(job.g, job.block, job.count, page + 1, left, k - (job.count - left) * BLOCK_SIZE);
  }

  lemma RangeInStore(job: Job)
    requires job.Valid()
    ensures job.Start() + job.Size() <= Bytes(job.g) == Base(job.g, job.g.TotalPages())
  {
    assert Blocks(job.g) * BLOCK_SIZE <= Bytes(job.g);
  }

  /** WRITE: `totalBlocks` blocks from the endpoint are stored from block `blockAddress` on. */
  method WriteBlocks(board: Board, ep: OutEndpoint, blockAddress: nat, totalBlocks: nat)
    requires Quiet(board) && board.g.FitsBlocks() && ep.Valid()
    requires blockAddress < Blocks(board.g) && blockAddress + totalBlocks <= Blocks(board.g) && totalBlocks < 0x1_0000
    requires |ep.bank| % 16 == 0 && InChunks(ep.queue)
    requires totalBlocks * BLOCK_SIZE <= |ep.Stream()|
    requires totalBlocks == 0 ==> !ep.received && ep.queue == []
    modifies board, ep
    ensures Quiet(board) && ep.Valid() && |ep.bank| % 16 == 0 && InChunks(ep.queue)
    ensures ep.Stream() == old(ep.Stream())[totalBlocks * BLOCK_SIZE..]
    ensures blockAddress * BLOCK_SIZE + totalBlocks * BLOCK_SIZE <= Bytes(board.g)
    ensures Store(board.g, board.chips) ==
            Overwrite(old(Store(board.g, board.chips)), blockAddress * BLOCK_SIZE,
                old(ep.Stream())[..totalBlocks * BLOCK_SIZE])
    ensures Handled(board.g, true, blockAddress, totalBlocks, old(board.chips), board.chips)
  {
    hide OutEndpoint.Valid, Store;
    ghost var g, was, src := board.g, board.chips, ep.Stream();
    ghost var start := blockAddress * BLOCK_SIZE;
    ghost var data := if totalBlocks == 0 then Repeat(0, BLOCK_SIZE) else src[..totalBlocks * BLOCK_SIZE];
    var currDFPage, currDFPageByteDiv16 := StartWrite(board, blockAddress, start, data);
    var usingSecondBuffer := false;

    var ready := ep.WaitUntilReady();
    if !ready {
      assert ep.Stream() == [];
      TrackedAtStart(g, blockAddress, totalBlocks, was, board.chips);
      NothingCommitted(g, was, board.chips, start, data, currDFPage);
      return;
    }

    TrackedAtStart(g, blockAddress, totalBlocks, was, board.chips);
    ghost var job := Job(g, was, src, blockAddress, totalBlocks);
    assert job.Start() == start && job.Size() == totalBlocks * BLOCK_SIZE && job.Data() == data;
    AtTheStart(board, ep, job, currDFPage, currDFPageByteDiv16, usingSecondBuffer);
    WriteRest(board, ep, job, totalBlocks, currDFPage, currDFPageByteDiv16, usingSecondBuffer);
  }

  lemma AtTheStart(board: Board, ep: OutEndpoint, job: Job, page: nat, div16: nat, second: bool)
    requires job.Valid() && OnPage(board, job, page) && ShapedBoard(job.g, job.was) && page == PageOf(job.g, job.block)
    requires !second
    requires Writing(job.g, job.was, board.chips, job.Start(), job.Data(), page, 16 * div16, second)
    requires Base(job.g, page) + 16 * div16 == job.Start()
    requires ep.Valid() && |ep.bank| % 16 == 0 && InChunks(ep.queue) && ep.Stream() == job.src
    requires AllTracked(job.g, job.block, job.count, job.was, board.chips, page)
    ensures Progress(board, ep, job, page, div16, second, 0)
  {
    assert job.src[0..] == job.src;
  }

  /** The loops, the last page, and the last packet. */
  method WriteRest(board: Board, ep: OutEndpoint, ghost job: Job, totalBlocks: nat, page: nat, div16: nat, second: bool)
    requires job.Valid() && totalBlocks == job.count && Progress(board, ep, job, page, div16, second, 0)
    modifies board, ep
    ensures Quiet(board) && ep.Valid() && |ep.bank| % 16 == 0 && InChunks(ep.queue)
    ensures ep.Stream() == job.src[job.Size()..]
    ensures job.Start() + job.Size() <= Bytes(job.g)
    ensures Store(job.g, board.chips) == Overwrite(Store(job.g, job.was), job.Start(), job.Data())
    ensures Handled(job.g, true, job.block, job.count, job.was, board.chips)
  {
    var currDFPage, currDFPageByteDiv16, usingSecondBuffer :=
      WriteAllChunks(board, ep, job, totalBlocks, page, div16, second);
    EndWrite(board, currDFPage, usingSecondBuffer, job, 16 * currDFPageByteDiv16);
    if ep.bank == [] {
      ep.ClearOUT();
    }
  }

  /** The page and chunk counters at the start of a write, and the first command. */
  method StartWrite(board: Board, blockAddress: nat, ghost start: nat, ghost data: seq<byte>)
    returns (page: nat, div16: nat)
    requires Quiet(board) && board.g.FitsBlocks() && blockAddress < Blocks(board.g)
    requires start == blockAddress * BLOCK_SIZE && |data| >= BLOCK_SIZE
    modifies board
    ensures board.Valid() && page == PageOf(board.g, blockAddress) < board.g.TotalPages()
    ensures board.selected == board.g.ChipOf(page) + 1 && Base(board.g, page) + 16 * div16 == start
    ensures Writing(board.g, old(board.chips), board.chips, start, data, page, 16 * div16, false)
    ensures Begun(board.g, old(board.chips), board.chips, board.g.ChipOf(page))
  {
    StartOfTransfer(board.g, blockAddress);
    BeginsFullPage(board.g, blockAddress, |data|);
    page := blockAddress * BLOCK_SIZE % 0x1_0000_0000 / board.g.pageSize % 0x1_0000;
    var currDFPageByte := blockAddress * BLOCK_SIZE % 0x1_0000_0000 % board.g.pageSize % 0x1_0000;
    div16 := currDFPageByte / 16 % 0x100;
    BeginWrite(board, page, currDFPageByte, start, data);
  }

  /** `k` bytes have gone from the endpoint to the board, and the next ones go to chunk `div16` of `page`. */
  ghost predicate Progress(board: Board, ep: OutEndpoint, job: Job, page: nat, div16: nat, second: bool, k: nat)
    requires job.Valid()
    reads board, ep
  {
    match job
    case Job(_, _, src, _, _) =>
      OnPage(board, job, page) && Midway(job, board.chips, page, 16 * div16, second, k) && k <= |src| && Fed(src, ep, k)
  }

  /** The outer loop of a write, over blocks. */
  method WriteAllChunks(board: Board, ep: OutEndpoint, ghost job: Job, totalBlocks: nat, page: nat, div16: nat,
                        second: bool)
    returns (currDFPage: nat, currDFPageByteDiv16: nat, usingSecondBuffer: bool)
    requires job.Valid() && totalBlocks == job.count
    requires Progress(board, ep, job, page, div16, second, 0)
    modifies board, ep
    ensures Progress(board, ep, job, currDFPage, currDFPageByteDiv16, usingSecondBuffer, job.Size())
    ensures currDFPageByteDiv16 > 0
  {
    hide Progress;
    currDFPage, currDFPageByteDiv16, usingSecondBuffer := page, div16, second;
    var left: nat := totalBlocks;
    ghost var k: nat := 0;
    while left > 0
      invariant left <= totalBlocks && k == job.Done(left)
      invariant Progress(board, ep, job, currDFPage, currDFPageByteDiv16, usingSecondBuffer, k)
      invariant left < totalBlocks ==> currDFPageByteDiv16 > 0
    {
      ghost var end := job.Done(left - 1);
      currDFPage, currDFPageByteDiv16, usingSecondBuffer :=
        WriteOneBlock(board, ep, job, left, currDFPage, currDFPageByteDiv16, usingSecondBuffer, k, end);
      left, k := left - 1, end;
    }
  }

  lemma BlockOfRange(job: Job, left: nat)
    requires 0 < left <= job.count
    ensures job.Done(left - 1) == job.Done(left) + BLOCK_SIZE <= job.Size()
  {
  }

  lemma InBlock(job: Job, left: nat, begin: nat, k: nat, m: nat)
    requires 0 < left <= job.count && begin == job.Done(left) && m == k + 16 && begin <= k && m <= begin + BLOCK_SIZE
    ensures m <= job.Size() && job.Done(left) <= k < job.Done(left) + BLOCK_SIZE
  {
    BlockOfRange(job, left);
  }

  /** The inner loop of a write, over the chunks of sixteen bytes in one block. */
  method WriteOneBlock(board: Board, ep: OutEndpoint, ghost job: Job, left: nat, page: nat, div16: nat, second: bool,
                       ghost begin: nat, ghost end: nat)
    returns (currDFPage: nat, currDFPageByteDiv16: nat, usingSecondBuffer: bool)
    requires job.Valid() && 0 < left <= job.count && begin == job.Done(left) && end == job.Done(left - 1)
    requires Progress(board, ep, job, page, div16, second, begin)
    modifies board, ep
    ensures Progress(board, ep, job, currDFPage, currDFPageByteDiv16, usingSecondBuffer, end) && currDFPageByteDiv16 > 0
  {
    hide Progress;
    currDFPage, currDFPageByteDiv16, usingSecondBuffer := page, div16, second;
    ghost var k := begin;
    BlockOfRange(job, left);
    var bytesInBlockDiv16 := 0;
    while bytesInBlockDiv16 < BLOCK_SIZE / 16
      invariant bytesInBlockDiv16 <= BLOCK_SIZE / 16
      invariant k == begin + 16 * bytesInBlockDiv16
      invariant Progress(board, ep, job, currDFPage, currDFPageByteDiv16, usingSecondBuffer, k)
      invariant bytesInBlockDiv16 > 0 ==> currDFPageByteDiv16 > 0
    {
      ghost var m := k + 16;
      InBlock(job, left, begin, k, m);
      currDFPage, currDFPageByteDiv16, usingSecondBuffer :=
        MoveChunk(board, ep, currDFPage, currDFPageByteDiv16, usingSecondBuffer, left, job, k, m);
      bytesInBlockDiv16 := bytesInBlockDiv16 + 1;
      k := m;
    }
    assert k == end;
  }

  /** The 8-bit chunk counter does not wrap inside a page. */
  lemma NextChunk(div16: nat, bytes: nat)
    requires 16 * div16 + 16 <= 2048
    ensures 16 * ((div16 + 1) % 0x100) == 16 * div16 + 16 && (div16 + 1) % 0x100 > 0
    ensures bytes % 16 == 0 ==> (bytes + 16) % 16 == 0
  {
  }

  /** One round of the inner loop. */
  method MoveChunk(board: Board, ep: OutEndpoint, page: nat, div16: nat, second: bool, left: nat, ghost job: Job,
                   ghost k: nat, ghost m: nat)
    returns (page': nat, div16': nat, second': bool)
    requires job.Valid() && Progress(board, ep, job, page, div16, second, k)
    requires 0 < left <= job.count && m == k + 16 && m <= job.Size()
    requires job.Done(left) <= k < job.Done(left) + BLOCK_SIZE
    modifies board, ep
    ensures Progress(board, ep, job, page', div16', second', m) && div16' > 0
  {
    hide Midway, OnPage;
    var ready := Refill(ep, job.src, k);
    page', div16', second' := TurnPageIfFull(board, page, div16, second, left, job, k);
    ghost var at := 16 * div16';
    WriteNextChunk(board, ep, job, page', at, second', k, at + 16, m);
    NextChunk(div16', 0);
    div16' := (div16' + 1) % 0x100;
  }

  /** WriteChunk, in the terms of a whole write. */
  method WriteNextChunk(board: Board, ep: OutEndpoint, ghost job: Job, ghost page: nat, ghost at: nat,
                        ghost second: bool, ghost k: nat, ghost next: nat, ghost m: nat)
    requires job.Valid() && OnPage(board, job, page) && Midway(job, board.chips, page, at, second, k)
    requires next == at + 16 && next <= job.g.pageSize && m == k + 16 && m <= job.Size()
    requires Fed(job.src, ep, k) && |ep.bank| >= 16 && ep.bank[..16] == job.src[k..][..16]
    modifies board, ep
    ensures OnPage(board, job, page) && Midway(job, board.chips, page, next, second, m)
    ensures Fed(job.src, ep, m)
  {
    ChunkWritten(job, board.chips, page, at, second, k, ep.bank[..16], next, m);
    ChunkTaken(ep.bank, Flat(ep.queue), job.src, k, m);
    WriteChunk(board, ep);
  }

  lemma ChunkTaken(bank: seq<byte>, later: seq<byte>, src: seq<byte>, k: nat, m: nat)
    requires |bank| >= 16 && |bank| % 16 == 0 && m == k + 16 && m <= |src| && bank + later == src[k..]
    ensures bank[16..] + later == src[m..] && |bank[16..]| % 16 == 0
  {
    assert bank[16..] + later == (bank + later)[16..];
  }

  /** The last page is programmed. */
  method EndWrite(board: Board, page: nat, second: bool, ghost job: Job, ghost at: nat)
    requires job.Valid() && OnPage(board, job, page) && Midway(job, board.chips, page, at, second, job.Size()) && at > 0
    modifies board
    ensures board.Valid() && board.selected == 0
    ensures job.Start() + job.Size() <= Bytes(job.g)
    ensures Store(job.g, board.chips) == Overwrite(Store(job.g, job.was), job.Start(), job.Data())
    ensures Handled(job.g, true, job.block, job.count, job.was, board.chips)
  {
    ghost var before, c := board.chips, job.g.ChipOf(page);
    FinishWrite(board, page, second);
    WriteComplete(job.g, job.was, before, job.Start(), job.Data(), page, at, second, board.chips[c]);
    assert board.chips == before[c := board.chips[c]];
    RangeInStore(job);
    WrittenOverIsOverwrite(job.g, job.was, board.chips, job.Start(), job.Data());
    EndOfTransfer(job.g, job.block, job.count, page, at);
    TrackedAtEnd(job.g, job.block, job.count, job.was, before, page, board.chips[c]);
  }
}
