/** The CDC bootloader's command task, on its endpoints and global variables. */
module CdcBootloader {
  import opened Arithmetic
  import opened ByteMemory
  import opened Endpoints
  import opened AvrFlash
  import opened Packets
  import opened CdcDevice

  // ---- The command stream ----

  /** The bank and the packets queued before `rest` hold exactly these bytes of the current command: while
      packets of it are still to come, so are bytes. */
  ghost predicate Holds(bank: seq<byte>, queue: seq<seq<byte>>, rest: seq<seq<byte>>, bytes: seq<byte>)
    decreases |queue|
  {
    if |queue| <= |rest| then queue == rest && bank == bytes
    else bank < bytes && Holds(queue[0], queue[1..], rest, bytes[|bank|..])
  }

  /** In other words, the command is split in any way whose last packet is not empty. */
  lemma {:induction false} AnySplit(bank: seq<byte>, packets: seq<seq<byte>>, rest: seq<seq<byte>>, bytes: seq<byte>)
    ensures Holds(bank, packets + rest, rest, bytes) <==>
            bank + Flat(packets) == bytes && (packets != [] ==> packets[|packets| - 1] != [])
    decreases |packets|
  {
    var queue := packets + rest;
    if packets == [] {
      assert queue == rest;
      assert bank + Flat(packets) == bank;
    } else {
      var more := packets[1..];
      assert queue[0] == packets[0] && queue[1..] == more + rest;
      assert more != [] ==> more[|more| - 1] == packets[|packets| - 1];
      if bank <= bytes {
        AnySplit(packets[0], more, rest, bytes[|bank|..]);
        assert bank + bytes[|bank|..] == bytes;
        assert bank + (packets[0] + Flat(more)) == bytes ==> packets[0] + Flat(more) == bytes[|bank|..];
      } else {
        assert bank + Flat(packets) != bytes;
      }
      if packets[|packets| - 1] != [] {
        LastPacketCounts(packets);
      }
    }
  }

  lemma {:induction false} LastPacketCounts(packets: seq<seq<byte>>)
    requires packets != [] && packets[|packets| - 1] != []
    ensures Flat(packets) != []
  {
    if |packets| > 1 {
      LastPacketCounts(packets[1..]);
    }
  }

  ghost predicate Pending(ep: OutEndpoint, rest: seq<seq<byte>>, bytes: seq<byte>)
    reads ep
  {
    ep.Valid() && Holds(ep.bank, ep.queue, rest, bytes)
  }

  /** FetchNextCommandByte: the next byte of the command, across packet boundaries and empty packets. */
  method FetchNextCommandByte(ep: OutEndpoint, ghost rest: seq<seq<byte>>, ghost bytes: seq<byte>) returns (b: byte)
    requires Pending(ep, rest, bytes) && bytes != []
    modifies ep
    ensures Pending(ep, rest, bytes[1..]) && b == bytes[0]
  {
    while ep.bank == []
      invariant Pending(ep, rest, bytes)
      decreases |ep.queue|
    {
      assert bytes[0..] == bytes;
      ep.ClearOUT();
      var ready := ep.WaitUntilReady();
      assert ready;
    }
    assert bytes[1..][|ep.bank| - 1..] == bytes[|ep.bank|..];
    b := ep.ReadByte();
  }

  // ---- The task ----

  lemma FourBytesTaken(cmd: seq<byte>)
    requires Complete(cmd) && (cmd[0] == CMD_WRITE_BLOCK || cmd[0] == CMD_READ_BLOCK)
    ensures |cmd| >= 4 && (|cmd| == 4 ==> cmd[4..] == [])
    ensures cmd[1..][1..] == cmd[2..] && cmd[2..][1..] == cmd[3..] && cmd[3..][1..] == cmd[4..]
  {
  }

  class Bootloader {
    const c: Config
    var flash: Flash
    var eeprom: map<int, byte>
    var currAddress: address
    var runBootloader: bool
    var boottimeout: byte

    ghost function View(): Machine
      reads this
    {
      Machine(flash, eeprom, currAddress, runBootloader, boottimeout)
    }

    ghost predicate Valid()
      reads this
    {
      View().Valid() && c.Valid()
    }

    constructor (c: Config, flash: Flash)
      requires c.Valid() && flash.Valid()
      ensures Valid() && this.c == c && View() == Machine(flash, map[], 0, true, 0)
    {
      this.c, this.flash, eeprom, currAddress, runBootloader, boottimeout := c, flash, map[], 0, true, 0;
    }

    /** Writes a fixed response, byte by byte. */
    method Reply(reply: InEndpoint, bytes: seq<byte>, ghost before: seq<seq<byte>>)
      requires Sending(reply, before, [])
      modifies reply
      ensures Sending(reply, before, bytes)
    {
      for i := 0 to |bytes|
        invariant Sending(reply, before, bytes[..i])
      {
        assert bytes[..i + 1] == bytes[..i] + [bytes[i]];
        WriteNextResponseByte(reply, bytes[i], before, bytes[..i]);
      }
      assert bytes[..|bytes|] == bytes;
    }

    /** The read loop of a flash block. */
    method ReadFlashBlock(reply: InEndpoint, blockSize: nat, ghost before: seq<seq<byte>>)
      requires Valid() && Sending(reply, before, [])
      modifies this`currAddress, reply
      ensures Valid() && currAddress == FlashEnd(old(currAddress), false, blockSize)
      ensures Sending(reply, before, FlashBytes(flash, old(currAddress), false, blockSize))
    {
      var left, highByte := blockSize, false;
      ghost var sent, all := [], FlashBytes(flash, currAddress, false, blockSize);
      while left > 0
        invariant Valid() && 0 <= left
        invariant FlashEnd(currAddress, highByte, left) == FlashEnd(old(currAddress), false, blockSize)
        invariant sent + FlashBytes(flash, currAddress, highByte, left) == all
        invariant Sending(reply, before, sent)
      {
        var b := flash.Peek(if highByte then OrOne(currAddress) else currAddress);
        WriteNextResponseByte(reply, b, before, sent);
        if highByte {
          currAddress := Plus2(currAddress);
        }
        highByte := !highByte;
        left := left - 1;
        Regroup(sent, [b], FlashBytes(flash, currAddress, highByte, left));
        sent := sent + [b];
      }
      assert sent == all;
    }

    /** The read loop of an EEPROM block. */
    method ReadEepromBlock(reply: InEndpoint, blockSize: nat, ghost before: seq<seq<byte>>)
      requires Valid() && Sending(reply, before, [])
      modifies this`currAddress, reply
      ensures Valid() && currAddress == AddressAfter(old(currAddress), blockSize)
      ensures Sending(reply, before, EepromBytes(eeprom, old(currAddress), blockSize))
    {
      var left := blockSize;
      ghost var sent, all := [], EepromBytes(eeprom, currAddress, blockSize);
      while left > 0
        invariant Valid() && 0 <= left
        invariant AddressAfter(currAddress, left) == AddressAfter(old(currAddress), blockSize)
        invariant sent + EepromBytes(eeprom, currAddress, left) == all
        invariant Sending(reply, before, sent)
      {
        var b := Cell(eeprom, currAddress);
        WriteNextResponseByte(reply, b, before, sent);
        currAddress := Plus2(currAddress);
        left := left - 1;
        Regroup(sent, [b], EepromBytes(eeprom, currAddress, left));
        sent := sent + [b];
      }
      assert sent == all;
    }

    /** The write loop of a flash block: bytes are paired into words, and the page is written at the end. */
    method WriteFlashBlock(ep: OutEndpoint, blockSize: nat, ghost rest: seq<seq<byte>>, ghost data: seq<byte>)
      requires Valid() && Pending(ep, rest, data) && |data| == blockSize
      modifies this`currAddress, this`flash, ep
      ensures Valid() && Pending(ep, rest, [])
      ensures flash == BlockWritten(old(flash), old(currAddress), data)
      ensures currAddress == FlashEnd(old(currAddress), false, blockSize)
    {
      hide Pending, Flash.Fill, Flash.Erase, Flash.Write;
      var pageStartAddress := currAddress;
      flash := flash.Erase(pageStartAddress);
      ghost var erased := flash;
      var left, highByte, lowByte: byte := blockSize, false, 0;
      ghost var coming := data;
      while left > 0
        invariant Valid() && |coming| == left && Pending(ep, rest, coming)
        invariant WordsFilled(flash, currAddress, highByte, lowByte, coming) ==
            WordsFilled(erased, pageStartAddress, false, 0, data)
        invariant FlashEnd(currAddress, highByte, left) == FlashEnd(pageStartAddress, false, blockSize)
      {
        var b := FetchNextCommandByte(ep, rest, coming);
        if highByte {
          flash := flash.Fill(currAddress, lowByte, b);
          currAddress := Plus2(currAddress);
          highByte := false;
        } else {
          lowByte := b;
          highByte := true;
        }
        coming := coming[1..];
        left := left - 1;
      }
      flash := flash.Write(pageStartAddress);
    }

    /** The write loop of an EEPROM block. */
    method WriteEepromBlock(ep: OutEndpoint, blockSize: nat, ghost rest: seq<seq<byte>>, ghost data: seq<byte>)
      requires Valid() && Pending(ep, rest, data) && |data| == blockSize
      modifies this`currAddress, this`eeprom, ep
      ensures Valid() && Pending(ep, rest, [])
      ensures eeprom == EepromWritten(old(eeprom), old(currAddress), data)
      ensures currAddress == AddressAfter(old(currAddress), blockSize)
    {
      var left := blockSize;
      ghost var coming := data;
      while left > 0
        invariant Valid() && |coming| == left && Pending(ep, rest, coming)
        invariant EepromWritten(eeprom, currAddress, coming) == EepromWritten(old(eeprom), old(currAddress), data)
        invariant AddressAfter(currAddress, left) == AddressAfter(old(currAddress), blockSize)
      {
        var b := FetchNextCommandByte(ep, rest, coming);
        eeprom := eeprom[CellOf(currAddress) := b];
        currAddress := Plus2(currAddress);
        coming := coming[1..];
        left := left - 1;
      }
    }

    /** The erase loop of 'e'. */
    method EraseLoop()
      requires Valid()
      modifies this`flash
      ensures Valid() && flash == EraseRounds(old(flash), 0, c.bootStart)
    {
      var currFlashAddress: nat := 0;
      while currFlashAddress < c.bootStart
        invariant Valid()
        invariant EraseRounds(flash, currFlashAddress, c.bootStart) == EraseRounds(old(flash), 0, c.bootStart)
        decreases c.bootStart - currFlashAddress
      {
        flash := flash.Erase(currFlashAddress).Write(currFlashAddress);
        currFlashAddress := currFlashAddress + flash.PageSize();
        currFlashAddress := currFlashAddress + 1;
      }
    }

    /** ReadWriteMemoryBlock, entered when the command letter has been read. */
    method ReadWriteMemoryBlock(ep: OutEndpoint, reply: InEndpoint, command: byte, ghost rest: seq<seq<byte>>,
                                ghost cmd: seq<byte>, ghost before: seq<seq<byte>>)
      requires Valid() && Complete(cmd) && command == cmd[0]
      requires command == CMD_WRITE_BLOCK || command == CMD_READ_BLOCK
      requires Pending(ep, rest, cmd[1..]) && Sending(reply, before, []) && boottimeout == 0
      modifies this, ep, reply
      ensures Valid() && Pending(ep, rest, []) && View() == Executed(old(View()), cmd, c)
      ensures Sending(reply, before, Response(old(View()), cmd, c))
    {
      hide Pending, Sending, FlashBytes, FlashEnd, EepromBytes, EepromWritten, AddressAfter, BlockWritten;
      FourBytesTaken(cmd);
      var high: int := FetchNextCommandByte(ep, rest, cmd[1..]);
      var low: int := FetchNextCommandByte(ep, rest, cmd[2..]);
      var blockSize: nat := high * 256 + low;
      var memoryType := FetchNextCommandByte(ep, rest, cmd[3..]);
      if memoryType != TYPE_EEPROM && memoryType != TYPE_FLASH {
        Reply(reply, [QUESTION], before);
      } else if command == CMD_READ_BLOCK {
        ReadBlock(reply, memoryType, blockSize, before);
      } else {
        WriteBlock(ep, memoryType, blockSize, rest, cmd[4..]);
        Reply(reply, [CR], before);
      }
    }

    method ReadBlock(reply: InEndpoint, memoryType: byte, blockSize: nat, ghost before: seq<seq<byte>>)
      requires Valid() && Sending(reply, before, [])
      modifies this`currAddress, reply
      ensures Valid()
      ensures currAddress == if memoryType == TYPE_FLASH then FlashEnd(old(currAddress), false, blockSize)
                             else AddressAfter(old(currAddress), blockSize)
      ensures Sending(reply, before, if memoryType == TYPE_FLASH
          then FlashBytes(flash, old(currAddress), false, blockSize)
                                     else EepromBytes(eeprom, old(currAddress), blockSize))
    {
      if memoryType == TYPE_FLASH {
        ReadFlashBlock(reply, blockSize, before);
      } else {
        ReadEepromBlock(reply, blockSize, before);
      }
    }

    method WriteBlock(ep: OutEndpoint, memoryType: byte, blockSize: nat, ghost rest: seq<seq<byte>>,
                      ghost data: seq<byte>)
      requires Valid() && Pending(ep, rest, data) && |data| == blockSize
      modifies this`currAddress, this`flash, this`eeprom, ep
      ensures Valid() && Pending(ep, rest, [])
      ensures memoryType == TYPE_FLASH ==>
                flash == BlockWritten(old(flash), old(currAddress), data) && eeprom == old(eeprom)
                && currAddress == FlashEnd(old(currAddress), false, blockSize)
      ensures memoryType != TYPE_FLASH ==>
                flash == old(flash) && eeprom == EepromWritten(old(eeprom), old(currAddress), data)
                && currAddress == AddressAfter(old(currAddress), blockSize)
    {
      if memoryType == TYPE_FLASH {
        WriteFlashBlock(ep, blockSize, rest, data);
      } else {
        WriteEepromBlock(ep, blockSize, rest, data);
      }
    }

    /** The commands that only ask, and every letter that is not a command. */
    method Query(reply: InEndpoint, command: byte, ghost before: seq<seq<byte>>)
      requires Valid() && boottimeout == 0 && !Acts(command) && Sending(reply, before, [])
      modifies reply
      ensures Complete([command]) && View() == Executed(View(), [command], c)
      ensures Sending(reply, before, Response(View(), [command], c))
    {
      if command == 0x74 {
        Reply(reply, [0x44, 0x00], before);
      } else if command == 0x61 {
        Reply(reply, [0x59], before);
      } else if command == 0x70 {
        Reply(reply, [0x53], before);
      } else if command == 0x53 {
        Reply(reply, [0x4C, 0x55, 0x46, 0x41, 0x43, 0x44, 0x43], before);
      } else if command == 0x56 {
        Reply(reply, [0x31, 0x30], before);
      } else if command == 0x73 {
        Reply(reply, [c.signature[2], c.signature[1], c.signature[0]], before);
      } else if command == 0x62 {
        Reply(reply, [0x59, flash.PageSize() / 256 % 256, flash.PageSize() % 256], before);
      } else if command == 0x72 {
        Reply(reply, [c.lockBits], before);
      } else if command == 0x46 {
        Reply(reply, [c.lowFuse], before);
      } else if command == 0x4E {
        Reply(reply, [c.highFuse], before);
      } else if command == 0x51 {
        Reply(reply, [c.extendedFuse], before);
      } else if command == 0x52 {
        Reply(reply, [flash.Peek(currAddress + 1), flash.Peek(currAddress)], before);
      } else if command != 27 {
        Reply(reply, [QUESTION], before);
      }
    }

    /** One command, from its letter to the last byte of its response. */
    method Execute(ep: OutEndpoint, reply: InEndpoint, ghost rest: seq<seq<byte>>, ghost cmd: seq<byte>,
                   ghost before: seq<seq<byte>>)
      requires Valid() && Complete(cmd) && boottimeout == 0
      requires Pending(ep, rest, cmd) && Sending(reply, before, [])
      modifies this, ep, reply
      ensures Valid() && Pending(ep, rest, []) && View() == Executed(old(View()), cmd, c)
      ensures Sending(reply, before, Response(old(View()), cmd, c))
    {
      hide EraseRounds, FlashEnd, BlockWritten, EepromWritten, FlashBytes;
      assert |cmd| > 1 ==> cmd[1..][1..] == cmd[2..];
      var command := FetchNextCommandByte(ep, rest, cmd);
      if !Acts(command) {
        assert cmd == [command];
        Query(reply, command, before);
      } else if command == CMD_WRITE_BLOCK || command == CMD_READ_BLOCK {
        ReadWriteMemoryBlock(ep, reply, command, rest, cmd, before);
      } else if command == 0x64 {
        Reply(reply, [Cell(eeprom, currAddress)], before);
        currAddress := Plus2(currAddress);
      } else {
        Act(ep, command, rest, cmd);
        Reply(reply, [CR], before);
      }
    }

    /** The commands that are answered by a carriage return alone. */
    method Act(ep: OutEndpoint, command: byte, ghost rest: seq<seq<byte>>, ghost cmd: seq<byte>)
      requires Valid() && Complete(cmd) && boottimeout == 0 && command == cmd[0] && command in Acknowledged
      requires Pending(ep, rest, cmd[1..])
      modifies this, ep
      ensures Valid() && Pending(ep, rest, []) && View() == Executed(old(View()), cmd, c)
    {
      assert |cmd| > 1 ==> cmd[1..][1..] == cmd[2..];
      if command == 0x45 {
        runBootloader := false;
      } else if command == 0x54 || command == 0x6C {
        var _ := FetchNextCommandByte(ep, rest, cmd[1..]);
      } else if command == CMD_SET_ADDRESS {
        var high := FetchNextCommandByte(ep, rest, cmd[1..]);
        var low := FetchNextCommandByte(ep, rest, cmd[2..]);
        currAddress := AddressOf(high, low);
      } else if command == 0x65 {
        EraseLoop();
      } else if command == 0x43 {
        var value := FetchNextCommandByte(ep, rest, cmd[1..]);
        flash := flash.Fill(currAddress, value, 0);
      } else if command == 0x63 {
        var value := FetchNextCommandByte(ep, rest, cmd[1..]);
        flash := flash.Fill(OrOne(currAddress), value, 0);
        currAddress := Plus2(currAddress);
      } else if command == 0x6D {
        flash := flash.Write(currAddress);
      } else if command == 0x44 {
        var value := FetchNextCommandByte(ep, rest, cmd[1..]);
        eeprom := eeprom[CellOf(currAddress) := value];
        currAddress := Plus2(currAddress);
      }
    }

    /** CDC_Task: when a packet has arrived, one whole command is carried out and answered, however its
        bytes are split into packets; otherwise nothing happens. */
    method CdcTask(ep: OutEndpoint, reply: InEndpoint, ghost rest: seq<seq<byte>>, ghost cmd: seq<byte>)
      requires Valid() && ep.Valid() && !ep.received && reply.Valid() && reply.bank == []
      requires ep.queue != [] ==> Complete(cmd) && Holds([], ep.queue, rest, cmd)
      modifies this, ep, reply
      ensures Valid() && ep.Valid() && !ep.received && reply.Valid() && reply.bank == []
      ensures old(ep.queue) == [] ==> ep.queue == [] && View() == old(View()) && reply.sent == old(reply.sent)
      ensures old(ep.queue) != [] ==>
                && ep.queue == rest && View() == Executed(old(View()), cmd, c)
                && reply.sent == old(reply.sent) + Split(Response(old(View()), cmd, c), reply.size)
    {
      hide BlockWritten;
      var ready := ep.WaitUntilReady();
      if ready {
        ghost var before, start := reply.sent, View();
        assert cmd[0..] == cmd;
        boottimeout := 0;
        Execute(ep, reply, rest, cmd, before);
        FinishResponse(reply, before, Response(start, cmd, c));
        ep.ClearOUT();
      }
    }
  }
}
