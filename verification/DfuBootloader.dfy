/** The DFU bootloader's handlers, on its global variables. */
module DfuBootloader {
  import opened ByteMemory
  import opened Endpoints
  import opened AvrFlash
  import opened DfuDevice
  import opened DfuRuns

  /** Reads a byte of the endpoint's FIFO; an empty FIFO yields no particular byte. */
  method FifoRead(ep: OutEndpoint) returns (b: byte)
    requires ep.Valid()
    modifies ep
    ensures ep.Valid() && ep.queue == old(ep.queue) && ep.received == old(ep.received)
    ensures old(ep.bank) != [] ==> b == old(ep.bank)[0] && ep.bank == old(ep.bank)[1..]
    ensures old(ep.bank) == [] ==> ep.bank == []
  {
    if ep.bank == [] {
      b := *;
    } else {
      b := ep.ReadByte();
    }
  }

  /** What is left of the bank and the packets behind it when `n` bytes have been counted off, or nothing when the host
      sends too little. As written, an iteration that finds the bank empty fetches a packet and discards no byte. */
  function Dropped(bank: seq<byte>, queue: seq<seq<byte>>, n: nat): (bool, seq<byte>, seq<seq<byte>>)
    decreases n
  {
    if n == 0 then (true, bank, queue)
    else if bank != [] then Dropped(bank[1..], queue, n - 1)
    else if queue != [] then Dropped(queue[0], queue[1..], n - 1)
    else (false, [], [])
  }

  /** While the bank holds enough, exactly those bytes are discarded. */
  lemma {:induction false} DroppedInside(bank: seq<byte>, queue: seq<seq<byte>>, n: nat)
    requires n <= |bank|
    ensures Dropped(bank, queue, n) == (true, bank[n..], queue)
    decreases n
  {
    if n > 0 {
      DroppedInside(bank[1..], queue, n - 1);
    }
  }

  /** From an empty bank, one byte less. */
  lemma DroppedAcross(queue: seq<seq<byte>>, n: nat)
    requires n > 0 && queue != [] && n - 1 <= |queue[0]|
    ensures Dropped([], queue, n) == (true, queue[0][n - 1..], queue[1..])
  {
    DroppedInside(queue[0], queue[1..], n - 1);
  }

  /** What is left when the filler bytes and those that align the start address have been counted off. */
  function AfterFillers(bank: seq<byte>, queue: seq<seq<byte>>, start: nat): (bool, seq<byte>, seq<seq<byte>>) {
    var f := Dropped(bank, queue, FILLER_BYTES_SIZE);
    if f.0 then Dropped(f.1, f.2, start % CONTROL_ENDPOINT_SIZE) else f
  }

  method DiscardFillerBytes(ep: OutEndpoint, numberOfBytes: nat) returns (ok: bool)
    requires ep.Valid()
    modifies ep
    ensures ep.Valid()
    ensures (ok, ep.bank, ep.queue) == Dropped(old(ep.bank), old(ep.queue), numberOfBytes)
    ensures numberOfBytes <= old(|ep.bank|) ==>
              ok && ep.bank == old(ep.bank)[numberOfBytes..] && ep.queue == old(ep.queue)
                  && ep.received == old(ep.received)
  {
    for i := 0 to numberOfBytes
      invariant ep.Valid()
      invariant Dropped(ep.bank, ep.queue, numberOfBytes - i) == Dropped(old(ep.bank), old(ep.queue), numberOfBytes)
      invariant i <= old(|ep.bank|) ==>
        ep.bank == old(ep.bank)[i..] && ep.queue == old(ep.queue) && ep.received == old(ep.received)
    {
      if ep.bank == [] {
        ep.ClearOUT();
        ok := ep.WaitUntilReady();
        if !ok {
          return;
        }
      } else {
        var b := ep.ReadByte();
      }
    }
    ok := true;
  }

  /** The endpoint delivers these bytes next, and no word of them is split between two packets. */
  ghost predicate Delivers(ep: OutEndpoint, bytes: seq<byte>)
    reads ep
  {
    && ep.Valid() && bytes <= ep.Stream()
    && (|ep.bank| < |bytes| ==> Even(|ep.bank|) && WordPackets(ep.queue, |bytes| - |ep.bank|))
  }

  /** The first `count` bytes of the packets come in whole words. */
  predicate WordPackets(packets: seq<seq<byte>>, count: nat) {
    count == 0
    || (&& packets != [] && packets[0] != []
        && (|packets[0]| < count ==> Even(|packets[0]|) && WordPackets(packets[1..], count - |packets[0]|)))
  }

  /** Fetches the next packet when the bank is empty. */
  method Refill(ep: OutEndpoint, ghost bytes: seq<byte>) returns (ok: bool)
    requires ep.Valid()
    modifies ep
    ensures ep.Valid()
    ensures old(Delivers(ep, bytes)) && |bytes| >= 2 ==> ok && Delivers(ep, bytes) && |ep.bank| >= 2
  {
    ok := true;
    if ep.bank == [] {
      ghost var queue := ep.queue;
      ep.ClearOUT();
      ok := ep.WaitUntilReady();
      assert queue != [] ==> Flat(queue) == queue[0] + Flat(queue[1..]);
    }
  }

  /** Fetches the next packet when the bank is empty, then reads one little-endian word. */
  method ReceiveWord(ep: OutEndpoint, ghost bytes: seq<byte>) returns (ok: bool, low: byte, high: byte)
    requires ep.Valid()
    modifies ep
    ensures ep.Valid()
    ensures old(Delivers(ep, bytes)) && |bytes| >= 2 ==>
              ok && low == bytes[0] && high == bytes[1] && Delivers(ep, bytes[2..])
  {
    low, high := 0, 0;
    ok := Refill(ep, bytes);
    if !ok {
      return;
    }
    ghost var bank, queue, delivers := ep.bank, ep.queue, Delivers(ep, bytes) && |bytes| >= 2 && |ep.bank| >= 2;
    low := FifoRead(ep);
    high := FifoRead(ep);
    if delivers {
      WordTaken(bank, queue, bytes);
      assert ep.bank == bank[2..];
    }
  }

  lemma WordTaken(bank: seq<byte>, queue: seq<seq<byte>>, bytes: seq<byte>)
    requires |bank| >= 2 && |bytes| >= 2 && bytes <= bank + Flat(queue)
    requires |bank| < |bytes| ==> Even(|bank|)
    ensures bytes[0] == bank[0] && bytes[1] == bank[1]
    ensures |bank| < |bytes| ==> Even(|bank[2..]|)
    ensures bytes[2..] <= bank[2..] + Flat(queue) && |bytes[2..]| - |bank[2..]| == |bytes| - |bank|
  {
    assert bank[2..] + Flat(queue) == (bank + Flat(queue))[2..];
  }

  lemma OneByteLess(bank: seq<byte>, queue: seq<seq<byte>>, count: nat, total: nat)
    requires bank != [] && total == count + 1
    ensures BytesArrive(bank, queue, total) ==> BytesArrive(bank[1..], queue, count)
  {
    assert total - |bank| == count - |bank[1..]|;
  }

  /** Fetches the next packet when the bank is empty, then reads one byte. */
  method NextByte(ep: OutEndpoint, ghost more: nat) returns (ok: bool, b: byte)
    requires ep.Valid()
    modifies ep
    ensures ep.Valid()
    ensures BytesArrive(old(ep.bank), old(ep.queue), more + 1) ==>
              ok && old(ep.Stream()) == [b] + ep.Stream() && BytesArrive(ep.bank, ep.queue, more)
  {
    ok, b := true, 0;
    ghost var stream := ep.Stream();
    if ep.bank == [] {
      ep.ClearOUT();
      ok := ep.WaitUntilReady();
      if !ok {
        return;
      }
    }
    ghost var bank, queue := ep.bank, ep.queue;
    assert ep.Stream() == stream;
    b := FifoRead(ep);
    if bank != [] {
      OneByteLess(bank, queue, more, more + 1);
      assert bank + Flat(queue) == [bank[0]] + (bank[1..] + Flat(queue));
    }
  }

  lemma OnePageErased(f: Flash, addr: nat, boot: nat)
    requires f.Valid() && addr < boot
    ensures var g := f.Erase(addr).Write(addr);
            g.Valid() && g.PageSize() == f.PageSize() > 0
            && EraseFrom(f, addr, boot) == EraseFrom(g, addr + f.PageSize(), boot)
  {
  }

  lemma NoPageErased(f: Flash, addr: nat, boot: nat)
    requires f.Valid() && addr >= boot
    ensures EraseFrom(f, addr, boot) == f
  {
  }

  lemma OneMoreRead(log: seq<Event>, n: nat)
    ensures log + Reads(n) + [WasRead(n)] == log + Reads(n + 1)
  {
    assert Reads(n + 1) == Reads(n) + [WasRead(n)];
  }

  /** Counting down in sixteen bits. */
  lemma BorrowsOnce(size: nat, k: nat)
    requires size < 0x1_0000 && k <= 5
    ensures ((size - k) % 0x1_0000 - 1) % 0x1_0000 == (size - (k + 1)) % 0x1_0000
  {
  }

  lemma Borrows(size: nat)
    requires size < 0x1_0000
    ensures ((size - 1) % 0x1_0000 - 5) % 0x1_0000 == (size - 6) % 0x1_0000
  {
  }

  // ---- The programming loop ----

  /** Neither the word counter of a page nor the address wraps. */
  lemma CountersHold(n: nat, words: nat, addr: nat)
    requires Even(n) && 2 * words + 2 <= n <= 256 && addr + 2 < 0x1_0000_0000
    ensures (words + 1) % 256 == words + 1 && (words + 1 == n / 2 <==> 2 * words + 2 == n)
    ensures (addr + 2) % 0x1_0000_0000 == addr + 2
  {
  }

  /** The loop variables while an image is being programmed. */
  ghost predicate Midway(f: Flash, n: nat, mem: seq<byte>, start: nat, image: seq<byte>, done: nat, filled: nat,
                         addr: nat, pageStart: nat, words: nat)
  {
    && Programming(f, n, mem, start, image, done, pageStart, filled) && filled - done < n
    && addr == start + filled && filled == done + 2 * words
  }

  /** What one round of the loop does to its variables. */
  lemma WordRound(f: Flash, n: nat, mem: seq<byte>, start: nat, image: seq<byte>, done: nat, filled: nat, addr: nat,
                  pageStart: nat, words: nat, left: nat, next: nat, further: nat, more: nat, low: byte, high: byte)
    requires Midway(f, n, mem, start, image, done, filled, addr, pageStart, words)
    requires further + 2 * left == |image| && start + |image| + PadLength(n, |image|) <= |mem| < 0x1_0000_0000
    requires next == addr + 2 && further == filled + 2 && more == words + 1
    requires filled + 2 <= |image| && low == image[filled] && high == image[filled + 1]
    ensures next % 0x1_0000_0000 == next && more % 256 == more
    ensures var g := f.Fill(addr, low, high);
            && (left > 0 && more != n / 2 ==> Midway(g, n, mem, start, image, done, further, next, pageStart, more))
            && (left > 0 && more == n / 2 ==>
                  Midway(g.Write(pageStart).Erase(next), n, mem, start, image, done + n, further, next, next, 0))
            && (left == 0 ==> g.Write(pageStart).mem == Programmed(mem, start, image, n))
  {
    WordProgrammed(f, n, mem, start, image, done, pageStart, filled, left, addr, next, low, high);
    CountersHold(n, words, addr);
  }

  /** One round of the programming loop: a word goes to the page buffer; a full page, or the last one, is
      written, and the next page erased. */
  method ProgramWord(f: Flash, low: byte, high: byte, addr: nat, pageStart: nat, words: nat, left: nat,
                     ghost good: bool, ghost n: nat, ghost mem: seq<byte>, ghost start: nat, ghost image: seq<byte>,
                     ghost done: nat, ghost filled: nat)
    returns (f': Flash, addr': nat, pageStart': nat, words': nat, ghost done': nat, ghost filled': nat)
    requires f.Valid() && addr < 0x1_0000_0000
    requires good ==> Midway(f, n, mem, start, image, done, filled, addr, pageStart, words)
    requires good ==> filled + 2 + 2 * left == |image| && low == image[filled] && high == image[filled + 1]
    requires good ==> start + |image| + PadLength(n, |image|) <= |mem| < 0x1_0000_0000
    ensures f'.Valid() && f.log <= f'.log && f'.PageSize() == f.PageSize()
    ensures addr' < 0x1_0000_0000 && filled' == filled + 2
    ensures good && left > 0 ==> Midway(f', n, mem, start, image, done', filled', addr', pageStart', words')
    ensures good && left == 0 ==> f'.mem == Programmed(mem, start, image, n) && f'.BufferBlank()
  {
    hide Programmed, WordOffset, PageBase, Anded, Padded;
    var next, more := addr + 2, words + 1;
    filled' := filled + 2;
    if good {
      WordRound(f, n, mem, start, image, done, filled, addr, pageStart, words, left, next, filled', more, low, high);
    }
    addr', pageStart', words', done' := next % 0x1_0000_0000, pageStart, more % 256, done;
    f' := f.Fill(addr, low, high);
    if words' == f.PageSize() / 2 || left == 0 {
      f' := f'.Write(pageStart);
      if left > 0 {
        pageStart' := addr';
        words' := 0;
        done' := done + n;
        f' := f'.Erase(pageStart');
      }
    }
  }

  class Bootloader {
    const c: Config
    var isSecure: bool
    var runBootloader: bool
    var waitForExit: bool
    var dfuState: DfuState
    var dfuStatus: DfuStatus
    var sent: Command
    var responseByte: byte
    var appStart: nat
    var watchdog: bool
    var page64: byte
    var startAddr: nat
    var endAddr: nat
    var flash: Flash
    var eeprom: map<nat, byte>

    ghost function View(): Device
      reads this
    {
      Device(isSecure, runBootloader, waitForExit, dfuState, dfuStatus, sent, responseByte, appStart, watchdog,
             page64, startAddr, endAddr, flash, eeprom)
    }

    ghost predicate Valid()
      reads this
    {
      View().Valid()
    }

    constructor (c: Config, flash: Flash, secureMode: bool)
      requires flash.Valid()
      ensures Valid() && this.c == c && this.flash == flash && isSecure == secureMode
      ensures runBootloader && !waitForExit && dfuState == DfuIdle
    {
      this.c, this.flash, isSecure := c, flash, secureMode;
      runBootloader, waitForExit, dfuState, dfuStatus := true, false, DfuIdle, Ok;
      sent, responseByte, appStart, watchdog := Command(0, [0, 0, 0, 0, 0], 0), 0, 0, false;
      page64, startAddr, endAddr, eeprom := 0, 0, 0, map[];
    }

    method LoadStartEndAddresses()
      requires Valid()
      modifies this
      ensures View() == old(View()).AddressesLoaded()
    {
      var d1: int, d2: int, d3: int, d4: int := sent.data[1], sent.data[2], sent.data[3], sent.data[4];
      startAddr := d1 * 256 + d2;
      endAddr := d3 * 256 + d4;
    }

    method ProcessMemProgCommand()
      requires Valid()
      modifies this
      ensures View() == ProgStarted(old(View()))
    {
      if sent.data[0] == 0x00 || sent.data[0] == 0x01 {
        LoadStartEndAddresses();
        if sent.data[0] == 0x00 {
          flash := flash.Erase(startAddr + 0x1_0000 * page64);
        }
        dfuState := DfuDnloadIdle;
      }
    }

    method ProcessMemReadCommand()
      requires Valid()
      modifies this
      ensures View() == DataDisplayed(old(View()), c.bootStart)
    {
      if sent.data[0] == 0x00 || sent.data[0] == 0x02 {
        LoadStartEndAddresses();
        dfuState := DfuUploadIdle;
      } else if sent.data[0] == 0x01 {
        BlankCheck();
      }
    }

    /** Reports the first application byte that is not blank. */
    method BlankCheck()
      requires Valid()
      modifies this
      ensures View() == BlankChecked(old(View()), c.bootStart)
    {
      hide FirstNonBlank, Reads;
      var addr := ScanForNonBlank();
      if addr < c.bootStart {
        page64 := addr / 0x1_0000 % 256;
        startAddr := addr % 0x1_0000;
        dfuState := DfuError;
        dfuStatus := ErrCheckErased;
      }
    }

    method ScanForNonBlank() returns (addr: nat)
      requires Valid()
      modifies this`flash
      ensures addr == FirstNonBlank(old(flash), 0, c.bootStart)
      ensures flash == old(flash).(log := old(flash.log) + Reads(if addr < c.bootStart then addr + 1 else c.bootStart))
    {
      addr := 0;
      while addr < c.bootStart
        invariant addr <= c.bootStart
        invariant FirstNonBlank(old(flash), 0, c.bootStart) == FirstNonBlank(old(flash), addr, c.bootStart)
        invariant flash == old(flash).(log := old(flash.log) + Reads(addr)) && flash.Valid()
      {
        OneMoreRead(old(flash.log), addr);
        var b := flash.Peek(addr);
        flash := flash.Read(addr);
        if b != BLANK {
          return;
        }
        addr := addr + 1;
      }
    }

    method ProcessWriteCommand()
      requires Valid()
      modifies this
      ensures View() == DataWritten(old(View()), c.bootStart)
    {
      hide EraseFrom;
      if sent.data[0] == 0x03 {
        waitForExit := true;
        if sent.dataSize != 0 {
          if sent.data[1] == 0x01 {
            var d3: int, d4: int := sent.data[3], sent.data[4];
            appStart := d3 * 256 + d4;
          }
        } else if sent.data[1] == 0x00 {
          watchdog := true;
        } else {
          runBootloader := false;
        }
      } else if sent.data[0] == 0x00 && sent.data[1] == 0xFF {
        EraseApplication();
        isSecure := false;
      }
    }

    /** Clears the application section of flash. */
    method EraseApplication()
      requires Valid()
      modifies this`flash
      ensures flash == EraseFrom(old(flash), 0, c.bootStart)
    {
      var addr: nat := 0;
      hide EraseFrom, Flash.Valid, Flash.Erase, Flash.Write;
      while addr < c.bootStart
        invariant flash.Valid()
        invariant EraseFrom(flash, addr, c.bootStart) == EraseFrom(old(flash), 0, c.bootStart)
        decreases c.bootStart - addr
      {
        OnePageErased(flash, addr, c.bootStart);
        flash := flash.Erase(addr);
        flash := flash.Write(addr);
        addr := addr + flash.PageSize();
      }
      NoPageErased(flash, addr, c.bootStart);
    }

    method ProcessReadCommand()
      requires Valid()
      modifies this
      ensures View() == DataRead(old(View()), c)
    {
      var index: int := sent.data[1];
      if sent.data[0] == 0x00 {
        responseByte := Table([0x20, 0xDC, 0xFB], index, c.around);
      } else if sent.data[0] == 0x01 {
        responseByte := Table(c.signature, index - 0x30, c.around);
      }
    }

    method ProcessBootloaderCommand()
      requires Valid()
      modifies this
      ensures Valid() && View() == Processed(old(View()), c)
      ensures !old(isSecure) && sent.command == 0x06 && sent.data[..2] == [0x03, 0x00] ==>
                View() == old(View()).(page64 := sent.data[2])
      ensures !old(isSecure) && sent.command == 0x04 && sent.data[0] == 0x03 && sent.dataSize == 0 ==>
                waitForExit && runBootloader == (old(runBootloader) && sent.data[1] == 0x00)
    {
      ProcessedStaysValid(View(), c);
      if isSecure {
        if !((sent.command == COMMAND_WRITE && sent.data[0] == 0x00 && sent.data[1] == 0xFF)
             || sent.command == COMMAND_READ) {
          dfuState := DfuError;
          dfuStatus := ErrWrite;
          return;
        }
      }
      match sent.command
      case COMMAND_PROG_START => ProcessMemProgCommand();
      case COMMAND_DISP_DATA => ProcessMemReadCommand();
      case COMMAND_WRITE => ProcessWriteCommand();
      case COMMAND_READ => ProcessReadCommand();
      case COMMAND_CHANGE_BASE_ADDR =>
        if sent.data[0] == 0x03 && sent.data[1] == 0x00 {
          page64 := sent.data[2];
        }
      case _ =>
    }

    /** Loads the command byte and up to five parameter bytes of the data stage's first packet. */
    method LoadCommand(ep: OutEndpoint)
      requires Valid() && ep.Valid()
      modifies this`sent, ep
      ensures Valid() && ep.Valid() && ep.queue == old(ep.queue) && ep.received == old(ep.received)
      ensures old(|ep.bank|) >= 6 ==>
        && sent == Command(old(ep.bank)[0], old(ep.bank)[1..6], (old(sent.dataSize) - 6) % 0x1_0000)
        && ep.bank == old(ep.bank)[6..]
    {
      hide Flash.Valid;
      var command := FifoRead(ep);
      sent := sent.(command := command, dataSize := (sent.dataSize - 1) % 0x1_0000);
      ghost var first, size := ep.bank, sent.dataSize;
      var dataByte := 0;
      while dataByte < 5 && ep.bank != []
        invariant dataByte <= 5 && Valid() && ep.Valid() && ep.queue == old(ep.queue) && ep.received == old(ep.received)
        invariant dataByte <= |first| && ep.bank == first[dataByte..] && sent.data[..dataByte] == first[..dataByte]
        invariant sent.command == command && sent.dataSize == (size - dataByte) % 0x1_0000
        decreases 5 - dataByte
      {
        var b := ep.ReadByte();
        BorrowsOnce(size, dataByte);
        sent := sent.(data := sent.data[dataByte := b], dataSize := (sent.dataSize - 1) % 0x1_0000);
        dataByte := dataByte + 1;
      }
      if old(|ep.bank|) >= 6 {
        assert first == old(ep.bank)[1..] && dataByte == 5;
        assert sent.data == sent.data[..5] == old(ep.bank)[1..6];
        Borrows(old(sent.dataSize));
      }
    }

    /** The flash programming loop. When the first page was erased, the buffer blank and the whole image is
        delivered, it leaves exactly the image in memory, the rest of its last page blank, and no other page
        changed. */
    method ProgramFlash(ep: OutEndpoint, start: nat, words: nat, ghost mem: seq<byte>, ghost image: seq<byte>)
      returns (ok: bool)
      requires Valid() && ep.Valid() && start < 0x1_0000_0000
      modifies this`flash, ep
      ensures Valid() && ep.Valid() && old(flash.log) <= flash.log && flash.PageSize() == old(flash.PageSize())
      ensures old(Prepared(ep, start, words, mem, image)) ==>
                ok && flash.mem == Programmed(mem, start, image, flash.PageSize()) && flash.BufferBlank()
    {
      ghost var good, n := Prepared(ep, start, words, mem, image), flash.PageSize();
      var left, addr, pageStart, wordsInFlashPage := words, start, start, 0;
      ghost var done, filled := 0, 0;
      while left > 0
        invariant Valid() && ep.Valid() && addr < 0x1_0000_0000 && 0 <= left <= words && old(flash.log) <= flash.log
        invariant flash.PageSize() == n
        invariant good ==>
                  filled + 2 * left == |image| && start + |image| + PadLength(n, |image|) <= |mem| < 0x1_0000_0000
        invariant good && left > 0 ==>
                  Midway(flash, n, mem, start, image, done, filled, addr, pageStart, wordsInFlashPage)
        invariant good && left > 0 ==> Delivers(ep, image[filled..])
        invariant good && left == 0 ==> flash.mem == Programmed(mem, start, image, n) && flash.BufferBlank()
      {
        left := left - 1;
        if good {
          TwoTaken(image, filled, filled + 2);
        }
        var low, high;
        ok, low, high := ReceiveWord(ep, if good then image[filled..] else []);
        if !ok {
          return;
        }
        flash, addr, pageStart, wordsInFlashPage, done, filled :=
          ProgramWord(flash, low, high, addr, pageStart, wordsInFlashPage, left, good, n, mem, start, image, done,
              filled);
      }
      ok := true;
    }

    static lemma TwoTaken(image: seq<byte>, filled: nat, next: nat)
      requires next == filled + 2 <= |image|
      ensures image[filled..][2..] == image[next..] && image[filled..][0] == image[filled]
      ensures image[filled..][1] == image[filled + 1]
    {
    }

    /** Everything a programming run relies on. */
    ghost predicate Prepared(ep: OutEndpoint, start: nat, words: nat, mem: seq<byte>, image: seq<byte>)
      requires flash.Valid()
      reads this, ep
    {
      var n := flash.PageSize();
      && |image| == 2 * words
      && start + |image| + PadLength(n, |image|) <= |mem| < 0x1_0000_0000
      && Programming(flash, n, mem, start, image, 0, start, 0)
      && Delivers(ep, image)
    }

    /** The EEPROM programming loop: what the endpoint delivers is stored from the start address on. */
    method ProgramEeprom(ep: OutEndpoint, bytesRemaining: nat) returns (ok: bool)
      requires Valid() && ep.Valid()
      modifies this`eeprom, this`startAddr, ep
      ensures Valid() && ep.Valid()
      ensures BytesArrive(old(ep.bank), old(ep.queue), bytesRemaining) ==>
                ok && eeprom == Stored(old(eeprom), old(startAddr), old(ep.Stream())[..bytesRemaining])
    {
      hide Flash.Valid, Stored, BytesArrive;
      ghost var good := BytesArrive(ep.bank, ep.queue, bytesRemaining);
      ghost var all := if good then Stored(eeprom, startAddr, ep.Stream()[..bytesRemaining]) else eeprom;
      var left := bytesRemaining;
      while left > 0
        invariant 0 <= left && Valid() && ep.Valid()
        invariant good ==> BytesArrive(ep.bank, ep.queue, left)
        invariant good ==> Stored(eeprom, startAddr, ep.Stream()[..left]) == all
      {
        left := left - 1;
        ghost var before := ep.Stream();
        var b;
        ok, b := NextByte(ep, left);
        if !ok {
          return;
        }
        if good {
          OneStored(eeprom, startAddr, before, b, ep.Stream(), left, left + 1);
        }
        eeprom := eeprom[startAddr := b];
        startAddr := (startAddr + 1) % 0x1_0000;
      }
      ok := true;
      if good {
        NothingStored(eeprom, startAddr, ep.Stream()[..0]);
      }
    }

    /** Discards the rest of the command's packet, and the bytes that align the first page. */
    method DiscardFillers(ep: OutEndpoint) returns (ok: bool)
      requires Valid() && ep.Valid()
      modifies ep
      ensures ep.Valid() && (ok, ep.bank, ep.queue) == AfterFillers(old(ep.bank), old(ep.queue), startAddr)
      ensures old(|ep.bank|) == FILLER_BYTES_SIZE && startAddr % CONTROL_ENDPOINT_SIZE == 0 ==>
                ok && ep.bank == [] && ep.queue == old(ep.queue)
    {
      ok := DiscardFillerBytes(ep, FILLER_BYTES_SIZE);
      if !ok {
        return;
      }
      ok := DiscardFillerBytes(ep, startAddr % CONTROL_ENDPOINT_SIZE);
    }

    /** The firmware stage of a DNLOAD, after the command has put the device in the download state. */
    method ReceiveFirmware(ep: OutEndpoint, ghost mem: seq<byte>, ghost image: seq<byte>) returns (ok: bool)
      requires Valid() && ep.Valid()
      modifies this`flash, this`eeprom, this`startAddr, ep
      ensures Valid() && ep.Valid() && old(flash.log) <= flash.log && flash.PageSize() == old(flash.PageSize())
      ensures old(Streams(ep, mem, image)) ==>
                flash.mem == Programmed(mem, View().Long(old(startAddr)), image, flash.PageSize())
                    && flash.BufferBlank()
      ensures EepromStreams(old(View()), old(ep.bank), old(ep.queue)) ==>
                && flash == old(flash)
                && eeprom == EepromStored(old(View()), old(ep.bank), old(ep.queue))
    {
      hide Programmed, Programming, WordPackets, Stored, Dropped, BytesArrive, Flash.Valid;
      ok := DiscardFillers(ep);
      if !ok {
        return;
      }
      var bytesRemaining := (endAddr - startAddr + 1) % 0x1_0000;
      if sent.data[0] == 0x00 {
        ok := ProgramFlash(ep, startAddr + 0x1_0000 * page64, bytesRemaining / 2, mem, image);
        if !ok {
          return;
        }
        startAddr := endAddr;
      } else {
        ok := ProgramEeprom(ep, bytesRemaining);
        if !ok {
          return;
        }
      }
      ok := DiscardFillerBytes(ep, FILE_SUFFIX_SIZE);
    }

    /** The device is about to receive an image, and the endpoint is about to deliver it behind the filler
        bytes that end the current packet. */
    ghost predicate Streams(ep: OutEndpoint, mem: seq<byte>, image: seq<byte>)
      requires Valid()
      reads this, ep
    {
      && AwaitsImage(View(), mem, image)
      && ep.Valid() && |ep.bank| == FILLER_BYTES_SIZE && WordPackets(ep.queue, |image|) && image <= Flat(ep.queue)
    }

    /** Takes the command out of a DNLOAD's data stage and runs it. */
    method TakeCommand(ep: OutEndpoint) returns (ok: bool, ghost loaded: Command)
      requires Valid() && ep.Valid()
      modifies this, ep
      ensures Valid() && ep.Valid()
      ensures !ok ==> View() == old(View())
      ensures ok ==> old(View()).(sent := loaded).Valid() && View() == Processed(old(View()).(sent := loaded), c)
      ensures !old(ep.received) && old(ep.queue) != [] && |old(ep.queue)[0]| >= 6 ==>
        && ok && loaded == CommandIn(old(View()), old(ep.queue)[0])
        && ep.bank == old(ep.queue)[0][6..] && ep.queue == old(ep.queue)[1..]
    {
      ok := ep.WaitUntilReady();
      loaded := sent;
      if !ok {
        return;
      }
      LoadCommand(ep);
      loaded := sent;
      assert View() == old(View()).(sent := loaded);
      ProcessBootloaderCommand();
    }

    /** The firmware stage, entered only in the download state. */
    method FinishDnload(ep: OutEndpoint, ghost mem: seq<byte>, ghost image: seq<byte>)
      requires Valid() && ep.Valid()
      modifies this, ep
      ensures Valid() && ep.Valid() && Streamed(old(View()), View())
      ensures old(dfuState == DfuDnloadIdle && sent.dataSize != 0 && Streams(ep, mem, image)) ==>
                && flash.PageSize() == old(flash.PageSize())
                && flash.mem == Programmed(mem, old(View().LongAddress()), image, flash.PageSize())
                    && flash.BufferBlank()
      ensures old(dfuState == DfuDnloadIdle && sent.dataSize != 0)
              && EepromStreams(old(View()), old(ep.bank), old(ep.queue)) ==>
                flash == old(flash) && eeprom == EepromStored(old(View()), old(ep.bank), old(ep.queue))
    {
      hide EepromStreams, EepromStored;
      if dfuState == DfuDnloadIdle {
        if sent.dataSize == 0 {
          dfuState := DfuIdle;
        } else {
          var ok := ReceiveFirmware(ep, mem, image);
          if !ok {
            return;
          }
        }
      }
      ep.ClearOUT();
    }

    /** A device that waits to exit first runs its last command again, and stops waiting. */
    method FinishWaiting()
      requires Valid()
      modifies this
      ensures Valid() && View() == Finished(old(View()), c)
    {
      if waitForExit {
        ProcessBootloaderCommand();
        waitForExit := false;
      }
    }

    /** REQ_DFU_DNLOAD, with the length of the data stage already stored. A request that asks to program a
        page-aligned range of flash, and streams its bytes behind the filler bytes that complete the first 32-byte
        packet, leaves exactly the whole words of them in memory. */
    method HandleDnload(ep: OutEndpoint, ghost bytes: seq<byte>)
      requires Valid() && ep.Valid()
      modifies this, ep
      ensures Valid() && ep.Valid() && DnloadStep(old(View()), old(sent.dataSize), View(), c)
      ensures !old(ep.received) && ProgramRequest(old(View()), old(ep.queue), bytes) ==>
                ImageProgrammed(old(View()), View(), old(ep.queue)[0], Image(bytes))
      ensures !old(ep.received) && !old(waitForExit) && CommandArrives(old(View()), old(ep.queue)) ==>
                && LoadedStep(old(View()), CommandIn(old(View()), old(ep.queue)[0]), View(), c)
                && EepromTaken(old(View()), old(ep.queue), View(), c)
    {
      hide EepromTaken;
      FinishWaiting();
      if sent.dataSize == 0 {
        FinishDnload(ep, flash.mem, Image(bytes));
      } else {
        HandleDataStage(ep, bytes);
      }
    }

    method HandleDataStage(ep: OutEndpoint, ghost bytes: seq<byte>)
      requires Valid() && ep.Valid()
      modifies this, ep
      ensures Valid() && ep.Valid()
      ensures View() == old(View()) || exists loaded: Command :: LoadedStep(old(View()), loaded, View(), c)
      ensures !old(ep.received) && ProgramRequest(old(View()), old(ep.queue), bytes) ==>
                ImageProgrammed(old(View()), View(), old(ep.queue)[0], Image(bytes))
      ensures !old(ep.received) && CommandArrives(old(View()), old(ep.queue)) ==>
                && LoadedStep(old(View()), CommandIn(old(View()), old(ep.queue)[0]), View(), c)
                && EepromTaken(old(View()), old(ep.queue), View(), c)
    {
      hide EepromStreams, EepromStored;
      ghost var a, mem := View(), flash.mem;
      var ok;
      ghost var loaded;
      ok, loaded := TakeRequest(ep, bytes);
      if ok {
        FinishDnload(ep, mem, Image(bytes));
        assert LoadedStep(a, loaded, View(), c);
      }
    }

    /** TakeCommand; when it takes a request to program an image, the device is ready for the image. */
    method TakeRequest(ep: OutEndpoint, ghost bytes: seq<byte>) returns (ok: bool, ghost loaded: Command)
      requires Valid() && ep.Valid()
      modifies this, ep
      ensures Valid() && ep.Valid()
      ensures !ok ==> View() == old(View())
      ensures ok ==> old(View()).(sent := loaded).Valid() && View() == Processed(old(View()).(sent := loaded), c)
      ensures !old(ep.received) && ProgramRequest(old(View()), old(ep.queue), bytes) ==>
                && ok && dfuState == DfuDnloadIdle && sent.dataSize != 0 && flash.PageSize() == old(flash.PageSize())
                && Streams(ep, old(flash.mem), Image(bytes))
                    && View().LongAddress() == ImageStart(old(View()), old(ep.queue)[0])
      ensures !old(ep.received) && CommandArrives(old(View()), old(ep.queue)) ==>
                && ok && loaded == CommandIn(old(View()), old(ep.queue)[0])
                && ep.bank == old(ep.queue)[0][6..] && ep.queue == old(ep.queue)[1..]
    {
      ghost var a, queue := View(), ep.queue;
      if ProgramRequest(a, queue, bytes) {
        RequestStreams(a, queue, bytes, c);
        assert Image(bytes) <= bytes;
      }
      ok, loaded := TakeCommand(ep);
    }

    /** Sends memory, word by word, in full packets while there is more. */
    method ReadFlash(reply: InEndpoint, start: nat, words: nat)
      requires Valid() && reply.Valid() && reply.size == CONTROL_ENDPOINT_SIZE && Even(|reply.bank|)
      modifies this`flash, reply
      ensures Valid() && reply.Valid()
      ensures flash.mem == old(flash.mem) && flash.buffer == old(flash.buffer) && old(flash.log) <= flash.log
      ensures reply.Stream() == old(reply.Stream()) + Contents(old(flash), start, 2 * words)
    {
      hide Contents, Flash.Valid;
      var left, addr := words, start;
      ghost var moved := 0;
      while left > 0
        invariant 0 <= left <= words && moved == 2 * (words - left) && addr == start + moved
        invariant Valid() && reply.Valid() && Even(|reply.bank|)
        invariant flash.mem == old(flash.mem) && flash.buffer == old(flash.buffer) && old(flash.log) <= flash.log
        invariant reply.Stream() == old(reply.Stream()) + Contents(old(flash), start, moved)
      {
        left := left - 1;
        if |reply.bank| == CONTROL_ENDPOINT_SIZE {
          reply.ClearIN();
        }
        SendWord(reply, addr);
        TwoMore(old(flash), start, moved, addr, moved + 2);
        flash := flash.Read(addr);
        addr := addr + 2;
        moved := moved + 2;
      }
    }

    /** Sends the word at an address, low byte first. */
    method SendWord(reply: InEndpoint, addr: nat)
      requires Valid() && reply.Valid() && reply.size == CONTROL_ENDPOINT_SIZE
      requires Even(|reply.bank|) && |reply.bank| < CONTROL_ENDPOINT_SIZE
      modifies reply
      ensures reply.Valid() && Even(|reply.bank|)
      ensures reply.Stream() == old(reply.Stream()) + [flash.Peek(addr)] + [flash.Peek(addr + 1)]
    {
      NextEven(|reply.bank|);
      reply.WriteByte(flash.Peek(addr));
      reply.WriteByte(flash.Peek(addr + 1));
    }

    /** REQ_DFU_UPLOAD. In the upload state it sends the memory between the loaded addresses; otherwise the
        address found by a failed blank check, or the last response. */
    method HandleUpload(reply: InEndpoint)
      requires Valid() && reply.Valid() && reply.size == CONTROL_ENDPOINT_SIZE && reply.bank == []
      modifies this, reply
      ensures Valid() && reply.Valid() && reply.bank == [] && UploadStep(old(View()), View())
      ensures reply.Stream() == old(reply.Stream()) + UploadReply(old(View()))
    {
      hide Contents, Cells;
      if dfuState != DfuUploadIdle {
        if dfuState == DfuError && sent.data[0] == 0x01 {
          reply.WriteByte(startAddr % 256);
          reply.WriteByte(startAddr / 256 % 256);
        } else {
          reply.WriteByte(responseByte);
        }
      } else {
        UploadMemory(reply);
      }
      reply.ClearIN();
    }

    method UploadMemory(reply: InEndpoint)
      requires Valid() && dfuState == DfuUploadIdle
      requires reply.Valid() && reply.size == CONTROL_ENDPOINT_SIZE && reply.bank == []
      modifies this, reply
      ensures Valid() && reply.Valid() && UploadStep(old(View()), View())
      ensures reply.Stream() == old(reply.Stream()) + UploadReply(old(View()))
    {
      hide Contents, Cells, Flash.Valid;
      var bytesRemaining := (endAddr - startAddr + 1) % 0x1_0000;
      if sent.data[0] == 0x00 {
        ReadFlash(reply, startAddr + 0x1_0000 * page64, bytesRemaining / 2);
        startAddr := endAddr;
      } else if sent.data[0] == 0x02 {
        ReadEeprom(reply, bytesRemaining);
      }
      dfuState := DfuIdle;
    }

    method ReadEeprom(reply: InEndpoint, bytesRemaining: nat)
      requires Valid() && reply.Valid() && reply.size == CONTROL_ENDPOINT_SIZE
      modifies this`startAddr, reply
      ensures Valid() && reply.Valid()
      ensures reply.Stream() == old(reply.Stream()) + Cells(eeprom, old(startAddr), bytesRemaining)
    {
      hide Flash.Valid, Cell;
      var left := bytesRemaining;
      while left > 0
        invariant 0 <= left <= bytesRemaining && Valid() && reply.Valid()
        invariant reply.Stream() + Cells(eeprom, startAddr, left) ==
                  old(reply.Stream()) + Cells(eeprom, old(startAddr), bytesRemaining)
      {
        left := left - 1;
        if |reply.bank| == CONTROL_ENDPOINT_SIZE {
          reply.ClearIN();
        }
        var b := Cell(eeprom, startAddr);
        ghost var before := reply.Stream();
        reply.WriteByte(b);
        startAddr := (startAddr + 1) % 0x1_0000;
        assert before + ([b] + Cells(eeprom, startAddr, left)) == before + [b] + Cells(eeprom, startAddr, left);
      }
    }

    /** The other class requests touch the state and status only. */
    method HandleQuery(reply: InEndpoint, getStatus: bool)
      requires Valid() && reply.Valid() && reply.size == CONTROL_ENDPOINT_SIZE && reply.bank == []
      modifies reply
      ensures reply.Valid() && reply.bank == []
      ensures reply.Stream() == old(reply.Stream()) +
                (if getStatus then [StatusByte(dfuStatus), 0, 0, 0, StateByte(dfuState), 0] else [StateByte(dfuState)])
    {
      if getStatus {
        reply.WriteByte(StatusByte(dfuStatus));
        reply.WriteByte(0);
        reply.WriteByte(0);
        reply.WriteByte(0);
        reply.WriteByte(StateByte(dfuState));
        reply.WriteByte(0);
      } else {
        reply.WriteByte(StateByte(dfuState));
      }
      reply.ClearIN();
    }

    /** EVENT_USB_Device_UnhandledControlRequest: every class request is a step of the abstract device. */
    method HandleRequest(r: Request, getStatus: bool, ep: OutEndpoint, reply: InEndpoint, ghost bytes: seq<byte>)
      requires Valid() && ep.Valid() && r.wLength < 0x1_0000
      requires reply.Valid() && reply.size == CONTROL_ENDPOINT_SIZE && reply.bank == []
      modifies this, ep, reply
      ensures Valid() && ep.Valid() && reply.Valid() && reply.bank == []
      ensures Step(old(View()), r, View(), c)
      ensures r.Dnload? && !old(ep.received) && ProgramRequest(Sized(old(View()), r.wLength), old(ep.queue), bytes) ==>
                ImageProgrammed(Sized(old(View()), r.wLength), View(), old(ep.queue)[0], Image(bytes))
      ensures r.Dnload? && !old(ep.received || waitForExit)
              && CommandArrives(Sized(old(View()), r.wLength), old(ep.queue)) ==>
                && var d := Sized(old(View()), r.wLength);
                   LoadedStep(d, CommandIn(d, old(ep.queue)[0]), View(), c) && EepromTaken(d, old(ep.queue), View(), c)
      ensures r.Upload? ==> reply.Stream() == old(reply.Stream()) + UploadReply(Sized(old(View()), r.wLength))
      ensures r.Query? ==>
                reply.Stream() == old(reply.Stream()) +
                  if getStatus then [StatusByte(dfuStatus), 0, 0, 0, StateByte(dfuState), 0] else [StateByte(dfuState)]
    {
      hide Processed, UploadReply, ProgramRequest, ImageProgrammed, LoadedStep, EepromTaken;
      sent := sent.(dataSize := r.wLength);
      assert View() == Sized(old(View()), r.wLength);
      match r
      case Dnload(_) => HandleDnload(ep, bytes);
      case Upload(_) => HandleUpload(reply);
      case Query(_) => HandleQuery(reply, getStatus);
      case ClrStatus(_) => dfuStatus := Ok;
      case Abort(_) => dfuState := DfuIdle;
    }
  }

  /** The memory from an address on; beyond its end it reads as blank. */
  function Contents(f: Flash, start: nat, count: nat): (s: seq<byte>)
    ensures |s| == count && forall i :: 0 <= i < count ==> s[i] == f.Peek(start + i)
  {
    if count == 0 then [] else Contents(f, start, count - 1) + [f.Peek(start + count - 1)]
  }

  lemma TwoMore(f: Flash, start: nat, count: nat, addr: nat, total: nat)
    requires addr == start + count && total == count + 2
    ensures Contents(f, start, total) == Contents(f, start, count) + [f.Peek(addr)] + [f.Peek(addr + 1)]
  {
  }

  /** The first `count` bytes of the bank and the packets behind it come without an empty packet in between. */
  predicate BytesArrive(bank: seq<byte>, queue: seq<seq<byte>>, count: nat): (b: bool)
    ensures b ==> count <= |bank + Flat(queue)|
    decreases |queue|
  {
    count <= |bank| || (queue != [] && queue[0] != [] && BytesArrive(queue[0], queue[1..], count - |bank|))
  }

  /** The device takes what is streamed for its EEPROM, and the endpoint delivers the whole range behind the fillers. */
  predicate EepromStreams(d: Device, bank: seq<byte>, queue: seq<seq<byte>>)
    requires |d.sent.data| == 5
  {
    var left := AfterFillers(bank, queue, d.startAddr);
    !d.Is(0x00) && left.0 && BytesArrive(left.1, left.2, (d.endAddr - d.startAddr + 1) % 0x1_0000)
  }

  function EepromStored(d: Device, bank: seq<byte>, queue: seq<seq<byte>>): map<nat, byte>
    requires |d.sent.data| == 5 && EepromStreams(d, bank, queue)
  {
    var left := AfterFillers(bank, queue, d.startAddr);
    Stored(d.eeprom, d.startAddr, (left.1 + Flat(left.2))[..(d.endAddr - d.startAddr + 1) % 0x1_0000])
  }

  /** A download whose command makes the device take a range of EEPROM, and that streams it, stores the range. */
  ghost predicate EepromTaken(d: Device, packets: seq<seq<byte>>, e: Device, c: Config)
    requires d.Valid() && CommandArrives(d, packets)
  {
    var taken := d.(sent := CommandIn(d, packets[0]));
    taken.Valid() &&
    var a := Processed(taken, c);
    ProcessedStaysValid(taken, c);
    a.state == DfuDnloadIdle && a.sent.dataSize != 0 && EepromStreams(a, packets[0][6..], packets[1..]) ==>
      e.flash == a.flash && e.eeprom == EepromStored(a, packets[0][6..], packets[1..])
  }

  /** The EEPROM once these bytes have been stored from an address on; addresses wrap at sixteen bits. */
  function Stored(eeprom: map<nat, byte>, start: nat, data: seq<byte>): map<nat, byte>
    decreases |data|
  {
    if data == [] then eeprom else Stored(eeprom[start := data[0]], (start + 1) % 0x1_0000, data[1..])
  }

  lemma OneStored(eeprom: map<nat, byte>, start: nat, stream: seq<byte>, b: byte, later: seq<byte>, left: nat,
                  total: nat)
    requires stream == [b] + later && total == left + 1 <= |stream|
    ensures Stored(eeprom, start, stream[..total]) ==
            Stored(eeprom[start := b], (start + 1) % 0x1_0000, later[..left])
  {
    assert stream[..total][1..] == later[..left];
  }

  lemma NothingStored(eeprom: map<nat, byte>, start: nat, data: seq<byte>)
    requires data == []
    ensures Stored(eeprom, start, data) == eeprom
  {
  }

  function Cell(eeprom: map<nat, byte>, addr: nat): byte { if addr in eeprom then eeprom[addr] else BLANK }

  /** EEPROM bytes from an address on; addresses wrap at sixteen bits. */
  function Cells(eeprom: map<nat, byte>, start: nat, count: nat): seq<byte>
    decreases count
  {
    if count == 0 then [] else [Cell(eeprom, start)] + Cells(eeprom, (start + 1) % 0x1_0000, count - 1)
  }

  /** What an UPLOAD answers. The last byte of an odd range of flash is not sent. */
  function UploadReply(d: Device): seq<byte>
    requires d.Valid()
  {
    var count := (d.endAddr - d.startAddr + 1) % 0x1_0000;
    if d.state != DfuUploadIdle then
      if d.state == DfuError && d.Is(0x01) then [d.startAddr % 256, d.startAddr / 256 % 256] else [d.responseByte]
    else if d.Is(0x00) then Contents(d.flash, d.LongAddress(), WholeWords(count))
    else if d.Is(0x02) then Cells(d.eeprom, d.startAddr, count)
    else []
  }

  function StateByte(s: DfuState): byte {
    match s case DfuIdle => 2 case DfuDnloadIdle => 5 case DfuUploadIdle => 9 case DfuError => 10
  }

  function StatusByte(s: DfuStatus): byte {
    match s case Ok => 0 case ErrWrite => 3 case ErrCheckErased => 5
  }

  // ---- What arrives of a range, and what is read back ----

  /** An image that was programmed reads back as it was sent. */
  lemma ReadsBack(f: Flash, mem: seq<byte>, start: nat, image: seq<byte>, n: nat)
    requires n > 0 && start + |image| + PadLength(n, |image|) <= |mem|
    requires f.mem == Programmed(mem, start, image, n)
    ensures Contents(f, start, |image|) == image
  {
  }

  /** The byte behind the whole words of an odd range: it belongs to their last page, which was erased, or to the next
      one, which was not. */
  function ByteBehind(d: Device, start: nat, length: nat): byte {
    if d.flash.PageSize() > 0 && length > 0
        && Aligned(d.flash.PageSize(), length) then d.flash.Peek(start + length) else BLANK
  }

  lemma PeekBehind(d: Device, f: Flash, start: nat, image: seq<byte>, n: nat, a: nat)
    requires n == |image| && a == start + n && d.flash.Valid()
    requires start + |image| + PadLength(d.flash.PageSize(), |image|) <= |d.flash.mem|
    requires f.mem == Programmed(d.flash.mem, start, image, d.flash.PageSize())
    ensures f.Peek(a) == ByteBehind(d, start, n)
  {
  }

  /** A streamed range is in memory afterwards if and only if it has whole words, or its last byte is the one that is
      there without it. A range of one byte never gets anything but the blank page. */
  lemma RangeArrives(d: Device, e: Device, packet: seq<byte>, sent: seq<byte>)
    requires ImageProgrammed(d, e, packet, Image(sent))
    ensures Contents(e.flash, ImageStart(d, packet), |sent|) == sent <==>
            Even(|sent|) || sent[|sent| - 1] == ByteBehind(d, ImageStart(d, packet), |sent| - 1)
  {
    var start := ImageStart(d, packet);
    if Even(|sent|) {
      EvenArrives(d, e, packet, sent, start, |sent|);
    } else {
      OddArrives(d, e, packet, sent, start, |sent| - 1, |sent|);
    }
  }

  lemma EvenArrives(d: Device, e: Device, packet: seq<byte>, sent: seq<byte>, start: nat, m: nat)
    requires ImageProgrammed(d, e, packet, Image(sent)) && start == ImageStart(d, packet) && m == |sent| && Even(m)
    ensures Contents(e.flash, start, m) == sent
  {
    WordsOf(sent, Image(sent));
    WordsArrive(d, e, packet, sent, start, m, start + m);
  }

  lemma OddArrives(d: Device, e: Device, packet: seq<byte>, sent: seq<byte>, start: nat, n: nat, m: nat)
    requires ImageProgrammed(d, e, packet, Image(sent)) && start == ImageStart(d, packet) && n + 1 == m == |sent|
    requires !Even(m)
    ensures Contents(e.flash, start, m) == sent <==> sent[n] == ByteBehind(d, start, n)
  {
    WordsOf(sent, Image(sent));
    WordsArrive(d, e, packet, Image(sent), start, n, start + n);
    OneByteLonger(e.flash, start, n, m, start + n);
    LastDecides(Image(sent), sent, n, ByteBehind(d, start, n));
  }

  lemma WordsArrive(d: Device, e: Device, packet: seq<byte>, image: seq<byte>, start: nat, n: nat, a: nat)
    requires ImageProgrammed(d, e, packet, image) && start == ImageStart(d, packet) && n == |image| && a == start + n
    ensures Contents(e.flash, start, n) == image && e.flash.Peek(a) == ByteBehind(d, start, n)
  {
    ReadsBack(e.flash, d.flash.mem, start, image, d.flash.PageSize());
    PeekBehind(d, e.flash, start, image, n, a);
  }

  lemma WordsOf(sent: seq<byte>, image: seq<byte>)
    requires image == Image(sent)
    ensures if Even(|sent|) then image == sent else |image| == |sent| - 1 && sent == image + [sent[|sent| - 1]]
  {
  }

  lemma OneByteLonger(f: Flash, start: nat, n: nat, m: nat, a: nat)
    requires m == n + 1 && a == start + n
    ensures Contents(f, start, m) == Contents(f, start, n) + [f.Peek(a)]
  {
  }

  lemma LastDecides(image: seq<byte>, sent: seq<byte>, n: nat, b: byte)
    requires n == |image| && |sent| == n + 1 && sent == image + [sent[n]]
    ensures image + [b] == sent <==> sent[n] == b
  {
    assert (image + [b])[n] == b;
  }

  /** The smallest range that is lost: one byte that is not blank. */
  lemma OneByteIsLost(d: Device, e: Device, packet: seq<byte>, b: byte)
    requires ImageProgrammed(d, e, packet, Image([b]))
    ensures Contents(e.flash, ImageStart(d, packet), 1) == [BLANK]
  {
    PeekBehind(d, e.flash, ImageStart(d, packet), [], 0, ImageStart(d, packet));
    assert Contents(e.flash, ImageStart(d, packet), 1) == [] + [e.flash.Peek(ImageStart(d, packet))];
  }

  /** The command that a packet of at least six bytes brings. */
  function CommandIn(d: Device, packet: seq<byte>): Command
    requires |packet| >= 6
  {
    Command(packet[0], packet[1..6], (d.sent.dataSize - 6) % 0x1_0000)
  }

  predicate CommandArrives(d: Device, packets: seq<seq<byte>>) {
    d.sent.dataSize != 0 && packets != [] && |packets[0]| >= 6
  }

  /** The memory holds the image where the request wanted it, and is otherwise as it was. */
  ghost predicate ImageProgrammed(d: Device, e: Device, packet: seq<byte>, image: seq<byte>) {
    && d.flash.Valid() && |packet| >= 6
    && e.flash.Valid() && e.flash.PageSize() == d.flash.PageSize() && e.flash.BufferBlank()
    && var n, start := d.flash.PageSize(), ImageStart(d, packet);
       start + |image| + PadLength(n, |image|) <= |d.flash.mem|
           && e.flash.mem == Programmed(d.flash.mem, start, image, n)
  }

  /** Address of the image that a program request's first packet names. */
  function ImageStart(d: Device, packet: seq<byte>): nat
    requires |packet| >= 6
  {
    var p2: int, p3: int := packet[2], packet[3];
    d.Long(p2 * 256 + p3)
  }

  /** The length of a range in whole words: only these are programmed and read. */
  function WholeWords(count: nat): nat { 2 * (count / 2) }

  function ImageLength(packet: seq<byte>): nat
    requires |packet| >= 6
  {
    var p2: int, p3: int, p4: int, p5: int := packet[2], packet[3], packet[4], packet[5];
    ((p4 * 256 + p5) - (p2 * 256 + p3) + 1) % 0x1_0000
  }

  /** The whole words of a range's bytes. */
  function Image(sent: seq<byte>): seq<byte> { sent[..WholeWords(|sent|)] }

  /** A request to program the bytes `sent`: PROG_START for flash, start and end address, twenty-six filler bytes, and
      then those bytes, no word of them split between two packets. */
  ghost predicate ProgramRequest(d: Device, packets: seq<seq<byte>>, sent: seq<byte>) {
    && d.Valid() && !d.isSecure && !d.waitForExit && d.flash.BufferBlank()
    && 6 < d.sent.dataSize
    && packets != [] && |packets[0]| == CONTROL_ENDPOINT_SIZE
    && packets[0][0] == COMMAND_PROG_START && packets[0][1] == 0x00
    && var n, start := d.flash.PageSize(), ImageStart(d, packets[0]);
       && |sent| == ImageLength(packets[0])
       && Aligned(n, start) && start % CONTROL_ENDPOINT_SIZE == 0
       && start + |Image(sent)| + PadLength(n, |Image(sent)|) <= |d.flash.mem| < 0x1_0000_0000
       && WordPackets(packets[1..], |Image(sent)|) && sent <= Flat(packets[1..])
  }

  /** A program command for this image has been taken, and the image's first page is erased. */
  ghost predicate AwaitsImage(d: Device, mem: seq<byte>, image: seq<byte>)
    requires d.Valid()
  {
    var n, start := d.flash.PageSize(), d.LongAddress();
    && d.Is(0x00) && d.startAddr % CONTROL_ENDPOINT_SIZE == 0
    && |image| == WholeWords((d.endAddr - d.startAddr + 1) % 0x1_0000)
    && start + |image| + PadLength(n, |image|) <= |mem| < 0x1_0000_0000
    && Programming(d.flash, n, mem, start, image, 0, start, 0)
  }

  /** `e` is about to receive the image that the first packet of a request to `d` announces. */
  ghost predicate Announced(d: Device, packet: seq<byte>, e: Device, image: seq<byte>) {
    && |packet| >= 6 && e.Valid()
    && e.state == DfuDnloadIdle && e.sent.dataSize != 0 && e.flash.PageSize() == d.flash.PageSize()
    && e.LongAddress() == ImageStart(d, packet) && AwaitsImage(e, d.flash.mem, image)
  }

  lemma RequestStreams(d: Device, packets: seq<seq<byte>>, sent: seq<byte>, c: Config)
    requires ProgramRequest(d, packets, sent)
    ensures var taken := d.(sent := CommandIn(d, packets[0]));
            taken.Valid() && Announced(d, packets[0], Processed(taken, c), Image(sent))
  {
    var taken := d.(sent := CommandIn(d, packets[0]));
    ProgStartCommand(taken, c);
    ImageAnnounced(d, packets[0], taken, Image(sent));
  }

  /** What a PROG_START for flash does to an unlocked device. */
  lemma ProgStartCommand(d: Device, c: Config)
    requires d.Valid() && !d.isSecure && d.sent.command == COMMAND_PROG_START && d.Is(0x00)
    ensures Processed(d, c) == Started(d)
  {
  }

  function Started(d: Device): Device
    requires d.Valid()
  {
    var loaded := d.AddressesLoaded();
    loaded.(flash := d.flash.Erase(loaded.LongAddress()), state := DfuDnloadIdle)
  }

  lemma ImageAnnounced(d: Device, packet: seq<byte>, taken: Device, image: seq<byte>)
    requires d.Valid() && d.flash.BufferBlank() && 6 < d.sent.dataSize && |packet| >= 6 && packet[1] == 0x00
    requires taken == d.(sent := CommandIn(d, packet))
    requires var n, start := d.flash.PageSize(), ImageStart(d, packet);
             && |image| == WholeWords(ImageLength(packet)) && Aligned(n, start) && start % CONTROL_ENDPOINT_SIZE == 0
             && start + |image| + PadLength(n, |image|) <= |d.flash.mem| < 0x1_0000_0000
    ensures taken.Valid() && Announced(d, packet, Started(taken), image)
  {
    hide Programming;
    var loaded := taken.AddressesLoaded();
    SameAddresses(d, packet, taken);
    FirstPageErased(d.flash, d.flash.PageSize(), loaded.LongAddress(), image);
    AwaitsAfterErase(loaded, d.flash.mem, image);
  }

  lemma SameAddresses(d: Device, p: seq<byte>, taken: Device)
    requires d.Valid() && |p| >= 6 && taken.sent.data == p[1..6] && taken.page64 == d.page64
    ensures taken.AddressesLoaded().LongAddress() == ImageStart(d, p)
    ensures (taken.AddressesLoaded().endAddr - taken.AddressesLoaded().startAddr + 1) % 0x1_0000 == ImageLength(p)
  {
  }

  lemma AwaitsAfterErase(d: Device, mem: seq<byte>, image: seq<byte>)
    requires d.Valid() && d.Is(0x00) && d.LongAddress() % CONTROL_ENDPOINT_SIZE == 0 && d.flash.mem == mem
    requires |image| == WholeWords((d.endAddr - d.startAddr + 1) % 0x1_0000)
    requires d.LongAddress() + |image| + PadLength(d.flash.PageSize(), |image|) <= |mem| < 0x1_0000_0000
    requires Programming(d.flash.Erase(d.LongAddress()), d.flash.PageSize(), mem, d.LongAddress(), image, 0,
        d.LongAddress(), 0)
    ensures var e := d.(flash := d.flash.Erase(d.LongAddress()), state := DfuDnloadIdle);
            e.Valid() && AwaitsImage(e, mem, image)
  {
    hide Programming;
    LowPart(d.startAddr, d.page64);
  }

  lemma LowPart(a: nat, page: nat)
    requires (a + 0x1_0000 * page) % CONTROL_ENDPOINT_SIZE == 0
    ensures a % CONTROL_ENDPOINT_SIZE == 0
  {
    ThirtyTwo((a + 0x1_0000 * page) / CONTROL_ENDPOINT_SIZE - 2048 * page, a);
  }

  lemma ThirtyTwo(k: int, a: nat)
    requires a == CONTROL_ENDPOINT_SIZE * k
    ensures a % CONTROL_ENDPOINT_SIZE == 0
  {
  }

  lemma FirstPageErased(f: Flash, n: nat, start: nat, image: seq<byte>)
    requires f.Valid() && f.PageSize() == n && f.BufferBlank() && Aligned(n, start)
    requires start < |f.mem|
    ensures Programming(f.Erase(start), n, f.mem, start, image, 0, start, 0)
  {
    PageFits(n, start, |f.mem|);
    EraseIsPatch(f, start);
    assert image[..0] + Repeat(BLANK, n) == Repeat(BLANK, n);
    assert Padded(image[0..0], n) == Repeat(BLANK, n);
  }
}
