/** The Dataflash driver and the chips behind it, down to the bytes that cross the SPI bus.

    A chip collects the bytes it is sent while its chip-select line is low. Buffer writes take effect
    byte by byte; page transfers and page programs take effect when the line is released, and keep the
    chip busy from then on until a status poll has seen it ready. */
module Dataflash {
  import opened ByteMemory

  const CMD_GETSTATUS: byte := 0xD7
  const CMD_MAINMEMTOBUFF1: byte := 0x53
  const CMD_MAINMEMTOBUFF2: byte := 0x55
  const CMD_MAINMEMPAGEREAD: byte := 0xD2
  const CMD_BUFF1WRITE: byte := 0x84
  const CMD_BUFF2WRITE: byte := 0x87
  const CMD_BUFF1TOMAINMEMWITHERASE: byte := 0x83
  const CMD_BUFF2TOMAINMEMWITHERASE: byte := 0x86
  const STATUS_READY: byte := 0x80

  type Page = seq<byte>

  /** Is n a multiple of d? */
  predicate Divides(d: nat, n: nat)
    requires d > 0
  {
    n == 0 || (d <= n && Divides(d, n - d))
  }

  lemma {:induction false} MultipleOf(d: nat, n: nat) returns (m: nat)
    requires d > 0 && Divides(d, n)
    ensures n == m * d
  {
    if n == 0 {
      m := 0;
    } else {
      m := MultipleOf(d, n - d);
      m := m + 1;
    }
  }

  /** Board constants: page size in bytes, pages in each chip, number of chips. */
  datatype Geometry = Geometry(pageSize: nat, pages: nat, chips: nat) {
    predicate Valid() {
      && (chips == 1 || chips == 2)
      && 0 < pages <= 8192
      && 0 < pageSize <= 2048
      && pageSize % 16 == 0
    }

    /** Pages and 512-byte blocks line up. */
    predicate FitsBlocks()
      requires pageSize > 0
    { Divides(pageSize, 512) || Divides(512, pageSize) }

    function TotalPages(): nat { if chips == 2 then pages * 2 else pages }

    /** Pages alternate between the chips of a two-chip board. */
    function ChipOf(page: nat): nat { if chips == 2 then page % 2 else 0 }

    function LocalPage(page: nat): nat { if chips == 2 then page / 2 else page }
  }

  /** The three address bytes of a command: thirteen bits of page, eleven bits of byte. */
  function AddressBytes(page: nat, at: nat): seq<byte> {
    [(page / 32) % 256, ((page * 8) % 256 + at / 256) % 256, at % 256]
  }

  function DecodePage(header: seq<byte>): nat
    requires |header| >= 4
  {
    var hi: int, mid: int := header[1], header[2];
    hi * 32 + mid / 8
  }

  function DecodeAt(header: seq<byte>): nat
    requires |header| >= 4
  {
    var mid: int, low: int := header[2], header[3];
    (mid % 8) * 256 + low
  }

  /** Addresses a chip does not have select its first page or byte; the driver sends none. */
  function Within(x: nat, limit: nat): nat { if x < limit then x else 0 }

  /** Buffer and page addresses wrap at the end of the page. */
  function Next(g: Geometry, cursor: nat): nat { if cursor + 1 < g.pageSize then cursor + 1 else 0 }

  /** The chip recovers exactly the page and byte that the driver packed. */
  lemma AddressRoundTrip(op: byte, page: nat, at: nat)
    requires page < 8192 && at < 2048
    ensures DecodePage([op] + AddressBytes(page, at)) == page
    ensures DecodeAt([op] + AddressBytes(page, at)) == at
  {
    var h := [op] + AddressBytes(page, at);
    assert h[1] == page / 32 && h[3] == at % 256;
    assert (page * 8) % 256 == 8 * (page % 32);
    assert h[2] == 8 * (page % 32) + at / 256;
  }

  /** The driver joins the middle address byte with a bitwise or; the two operands share no bits,
      so adding them is the same. */
  lemma MiddleAddressByteIsASum(page: bv16, at: bv16)
    requires page < 8192 && at < 2048
    ensures ((page << 3) | (at >> 8)) == (page << 3) + (at >> 8)
  {
  }

  predicate WritesBuffer(op: byte) { op == CMD_BUFF1WRITE || op == CMD_BUFF2WRITE }

  predicate Transfers(op: byte) { op == CMD_MAINMEMTOBUFF1 || op == CMD_MAINMEMTOBUFF2 }

  predicate Programs(op: byte) { op == CMD_BUFF1TOMAINMEMWITHERASE || op == CMD_BUFF2TOMAINMEMWITHERASE }

  /** Which of the chip's two SRAM buffers a command works on. */
  function BufferOf(op: byte): nat {
    if op == CMD_BUFF2WRITE || op == CMD_MAINMEMTOBUFF2 || op == CMD_BUFF2TOMAINMEMWITHERASE then 1 else 0
  }

  /** Bytes of opcode, address and padding before a command's data. */
  function HeaderLength(op: byte): nat {
    if op == CMD_GETSTATUS then 1 else if op == CMD_MAINMEMPAGEREAD then 8 else 4
  }

  /** What the chip may still be working on: nothing, or a transfer that involves one buffer and
      needs that many more polls to be seen finished. */
  datatype Busy = Ready | Busy(buffer: nat, polls: nat)

  datatype Chip = Chip(main: seq<Page>, sram: seq<Page>, rx: seq<byte>, cursor: nat,
                       busy: Busy, hazard: bool, latency: nat)
  {
    predicate Shaped(g: Geometry) {
      && |main| == g.pages && (forall p :: 0 <= p < |main| ==> |main[p]| == g.pageSize)
      && |sram| == 2 && |sram[0]| == g.pageSize && |sram[1]| == g.pageSize
      && cursor < g.pageSize
    }

    /** A busy chip accepts a status read, and a write to the buffer it is not using. */
    predicate Conflicts(op: byte) {
      && busy.Busy?
      && op != CMD_GETSTATUS
      && (WritesBuffer(op) ==> busy.buffer == BufferOf(op))
    }

    /** One byte clocked into the chip. */
    function Receive(g: Geometry, b: byte): Chip
      requires g.Valid() && Shaped(g)
    {
      if rx == [] then this.(rx := [b], hazard := hazard || Conflicts(b))
      else if |rx| < HeaderLength(rx[0]) then
        var header := rx + [b];
        if |header| == 4 then this.(rx := header, cursor := Within(DecodeAt(header), g.pageSize))
        else this.(rx := header)
      else if WritesBuffer(rx[0]) then
        var x := BufferOf(rx[0]);
        var filled: Page := sram[x][cursor := b];
        this.(sram := sram[x := filled], cursor := Next(g, cursor))
      else this
    }

    /** One byte clocked out of the chip, and the chip afterwards. */
    function Send(g: Geometry): (byte, Chip)
      requires g.Valid() && Shaped(g)
    {
      if rx == [] || |rx| < HeaderLength(rx[0]) then (0, this)
      else if rx[0] == CMD_GETSTATUS then
        if busy.Busy? && busy.polls > 0 then (0, this.(busy := Busy(busy.buffer, busy.polls - 1)))
        else (STATUS_READY, this.(busy := Ready))
      else if rx[0] == CMD_MAINMEMPAGEREAD then
        (main[Within(DecodePage(rx), g.pages)][cursor], this.(cursor := Next(g, cursor)))
      else (0, this)
    }

    /** Chip-select released: the pending transfer or program starts. */
    function Release(g: Geometry): Chip
      requires g.Valid() && Shaped(g)
    {
      var done := this.(rx := [], cursor := 0);
      if |rx| >= 4 && Transfers(rx[0]) then
        var x := BufferOf(rx[0]);
        done.(sram := sram[x := main[Within(DecodePage(rx), g.pages)]], busy := Busy(x, latency))
      else if |rx| >= 4 && Programs(rx[0]) then
        var x := BufferOf(rx[0]);
        done.(main := main[Within(DecodePage(rx), g.pages) := sram[x]], busy := Busy(x, latency))
      else done
    }
  }

  /** Several bytes clocked into a chip, one after the other. */
  function ReceiveAll(g: Geometry, c: Chip, bytes: seq<byte>): (r: Chip)
    requires g.Valid() && c.Shaped(g)
    ensures r.Shaped(g)
  {
    if bytes == [] then c
    else ReceiveAll(g, c, bytes[..|bytes| - 1]).Receive(g, bytes[|bytes| - 1])
  }

  /** Chips [0..] of a board, seen as one run of pages. */
  function PageAt(g: Geometry, chips: seq<Chip>, page: nat): Page
    requires ShapedBoard(g, chips) && page < g.TotalPages()
  {
    chips[g.ChipOf(page)].main[g.LocalPage(page)]
  }

  predicate ShapedBoard(g: Geometry, chips: seq<Chip>) {
    g.Valid() && |chips| == g.chips && forall i :: 0 <= i < |chips| ==> chips[i].Shaped(g)
  }

  /** Distinct pages live in distinct places. */
  lemma PagePlacesAreDistinct(g: Geometry, p: nat, q: nat)
    requires g.Valid() && p < g.TotalPages() && q < g.TotalPages()
    ensures g.ChipOf(p) < g.chips && g.LocalPage(p) < g.pages
    ensures g.ChipOf(p) == g.ChipOf(q) && g.LocalPage(p) == g.LocalPage(q) <==> p == q
  {
    if g.chips == 2 {
      assert p == 2 * (p / 2) + p % 2 && q == 2 * (q / 2) + q % 2;
    } else {
      assert g.TotalPages() == g.pages;
    }
  }

  lemma StatusSent(g: Geometry, c: Chip)
    requires g.Valid() && c.Shaped(g) && c.rx == []
    ensures c.Receive(g, CMD_GETSTATUS) == c.(rx := [CMD_GETSTATUS])
  {
  }

  /** Releasing a chip starts nothing unless a transfer or a program is pending. */
  predicate HarmlessRelease(c: Chip) {
    |c.rx| >= 4 ==> !Transfers(c.rx[0]) && !Programs(c.rx[0])
  }

  lemma HarmlesslyReleased(g: Geometry, c: Chip)
    requires g.Valid() && c.Shaped(g) && HarmlessRelease(c)
    ensures c.Release(g) == c.(rx := [], cursor := 0)
  {
  }

  lemma Released(g: Geometry, c: Chip)
    requires g.Valid() && c.Shaped(g)
    ensures c.Release(g).rx == [] && c.Release(g).cursor == 0 && c.Release(g).Shaped(g)
  {
  }

  /** A status read changes nothing but the chip's progress, and answers ready only once it is. */
  lemma StatusRead(g: Geometry, c: Chip)
    requires g.Valid() && c.Shaped(g) && c.rx == [CMD_GETSTATUS]
    ensures var (status, after) := c.Send(g);
            && after == c.(busy := after.busy)
            && (status == STATUS_READY ==> after.busy == Ready)
            && (status != STATUS_READY ==> c.busy.Busy? && c.busy.polls > 0
                                           && after.busy == Busy(c.busy.buffer, c.busy.polls - 1))
    ensures c.Release(g) == c.(rx := [], cursor := 0)
  {
  }

  class Board {
    const g: Geometry
    var chips: seq<Chip>
    var selected: nat  // chip-select port: 0 for no chip, otherwise the chip's number

    ghost predicate Valid()
      reads this
    {
      && ShapedBoard(g, chips)
      && selected <= g.chips
      && forall i :: 0 <= i < |chips| && i + 1 != selected ==> chips[i].rx == []
    }

    constructor (g: Geometry, chips: seq<Chip>)
      requires ShapedBoard(g, chips)
      requires forall i :: 0 <= i < |chips| ==> chips[i].rx == []
      ensures Valid() && this.g == g && this.chips == chips && selected == 0
    {
      this.g, this.chips, this.selected := g, chips, 0;
    }

    /** Drives the chip-select lines; a chip whose line goes high sees the end of its command. */
    method SelectChip(n: nat)
      requires Valid() && n <= g.chips
      modifies this
      ensures Valid() && selected == n
      ensures chips == if old(selected) == 0 || old(selected) == n then old(chips)
                       else old(chips)[old(selected) - 1 := old(chips)[old(selected) - 1].Release(g)]
    {
      if selected != 0 && selected != n {
        chips := chips[selected - 1 := chips[selected - 1].Release(g)];
      }
      selected := n;
    }

    method DeselectChip()
      requires Valid()
      modifies this
      ensures Valid() && selected == 0
      ensures chips == if old(selected) == 0 then old(chips)
                       else old(chips)[old(selected) - 1 := old(chips)[old(selected) - 1].Release(g)]
    {
      SelectChip(0);
    }

    method SelectChipFromPage(page: nat)
      requires Valid()
      modifies this
      ensures Valid()
      ensures selected == if page < g.TotalPages() then g.ChipOf(page) + 1 else 0
      ensures chips == if old(selected) == 0 then old(chips)
                       else old(chips)[old(selected) - 1 := old(chips)[old(selected) - 1].Release(g)]
    {
      DeselectChip();
      if page >= g.TotalPages() {
        return;
      }
      if g.chips == 2 {
        if page % 2 == 1 {
          SelectChip(2);
        } else {
          SelectChip(1);
        }
      } else {
        SelectChip(1);
      }
    }

    method ToggleSelectedChipCS()
      requires Valid()
      modifies this
      ensures Valid() && selected == old(selected)
      ensures chips == if selected == 0 then old(chips)
                       else old(chips)[selected - 1 := old(chips)[selected - 1].Release(g)]
    {
      var mask := selected;
      DeselectChip();
      SelectChip(mask);
    }

    method SendByte(b: byte)
      requires Valid()
      modifies this
      ensures Valid() && selected == old(selected)
      ensures chips == if selected == 0 then old(chips)
                       else old(chips)[selected - 1 := old(chips)[selected - 1].Receive(g, b)]
    {
      if selected != 0 {
        chips := chips[selected - 1 := chips[selected - 1].Receive(g, b)];
      }
    }

    method ReceiveByte() returns (b: byte)
      requires Valid() && selected != 0
      modifies this
      ensures Valid() && selected == old(selected)
      ensures b == old(chips)[selected - 1].Send(g).0
      ensures chips == old(chips)[selected - 1 := old(chips)[selected - 1].Send(g).1]
    {
      var reply := chips[selected - 1].Send(g);
      b := reply.0;
      chips := chips[selected - 1 := reply.1];
    }

    /** Ends the command in progress on the selected chip, then polls its status until it is ready. */
    method WaitWhileBusy()
      requires Valid() && selected != 0
      modifies this
      ensures Valid() && selected == old(selected)
      ensures chips == old(chips)[selected - 1 := old(chips)[selected - 1].Release(g).(busy := Ready)]
    {
      hide Chip.Receive, Chip.Send, Chip.Release;
      var s := selected - 1;
      Released(g, chips[s]);
      ToggleSelectedChipCS();
      StatusSent(g, chips[s]);
      SendByte(CMD_GETSTATUS);
      ghost var polled, rest := chips[s], chips;
      StatusRead(g, polled);
      var status := ReceiveByte();
      while status != STATUS_READY
        invariant Valid() && selected == s + 1
        invariant chips == rest[s := chips[s]] && chips[s] == polled.(busy := chips[s].busy)
        invariant status == STATUS_READY ==> chips[s].busy == Ready
        decreases status != STATUS_READY, if chips[s].busy.Busy? then chips[s].busy.polls else 0
      {
        StatusRead(g, chips[s]);
        status := ReceiveByte();
      }
      StatusRead(g, chips[s]);
      ToggleSelectedChipCS();
    }

    /** Sends the address of a page and of a byte within the chip's buffer. */
    method SendAddressBytes(page: nat, at: nat)
      requires Valid()
      modifies this
      ensures Valid() && selected == old(selected)
      ensures selected == 0 ==> chips == old(chips)
      ensures selected != 0 ==>
        var a := AddressBytes(g.LocalPage(page), at);
        chips == old(chips)[selected - 1 :=
          old(chips)[selected - 1].Receive(g, a[0]).Receive(g, a[1]).Receive(g, a[2])]
    {
      hide Chip.Receive;
      var local := if g.chips == 2 then page / 2 else page;
      SendByte((local / 32) % 256);
      SendByte(((local * 8) % 256 + at / 256) % 256);
      SendByte(at % 256);
    }
  }
}
