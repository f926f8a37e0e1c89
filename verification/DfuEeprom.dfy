/** Programming a range of EEPROM with the DFU bootloader: what is stored, what is read back, and what the filler bytes
    that align the start address do to it. */
module DfuEeprom {
  import opened ByteMemory
  import opened Endpoints
  import opened DfuDevice
  import opened DfuRuns
  import opened DfuBootloader
  import DfuSession

  const SPACE: nat := 0x1_0000

  // ---- Memory ----

  /** How far behind `start` an address lies, around the end of the space. */
  function Behind(addr: nat, start: nat): (n: nat)
    requires addr < SPACE && start < SPACE
    ensures n < SPACE
  {
    if addr >= start then addr - start else addr + SPACE - start
  }

  /** Every address of the range holds its byte, and every other one what it held. */
  lemma {:induction false} StoredCell(eeprom: map<nat, byte>, start: nat, data: seq<byte>, addr: nat)
    requires start < SPACE && addr < SPACE && |data| <= SPACE
    ensures Cell(Stored(eeprom, start, data), addr) ==
            if Behind(addr, start) < |data| then data[Behind(addr, start)] else Cell(eeprom, addr)
    decreases |data|
  {
    if data != [] {
      StoredCell(eeprom[start := data[0]], (start + 1) % SPACE, data[1..], addr);
    }
  }

  lemma {:induction false} CellsAt(eeprom: map<nat, byte>, start: nat, count: nat, i: nat)
    requires start < SPACE && i < count <= SPACE
    ensures |Cells(eeprom, start, count)| == count
    ensures Cells(eeprom, start, count)[i] == Cell(eeprom, if start + i < SPACE then start + i else start + i - SPACE)
    decreases count
  {
    if i > 0 {
      CellsAt(eeprom, (start + 1) % SPACE, count - 1, i - 1);
    } else if count > 1 {
      CellsAt(eeprom, (start + 1) % SPACE, count - 1, 0);
    }
  }

  /** What was stored is read back, also around the end of the address space. */
  lemma StoredReadsBack(eeprom: map<nat, byte>, start: nat, data: seq<byte>)
    requires start < SPACE && |data| <= SPACE
    ensures Cells(Stored(eeprom, start, data), start, |data|) == data
  {
    var m := Stored(eeprom, start, data);
    if data != [] {
      CellsAt(m, start, |data|, 0);
    }
    forall i: nat | i < |data|
      ensures |Cells(m, start, |data|)| == |data| && Cells(m, start, |data|)[i] == data[i]
    {
      CellsAt(m, start, |data|, i);
      StoredCell(eeprom, start, data, if start + i < SPACE then start + i else start + i - SPACE);
    }
  }

  // ---- A request ----

  /** Start address of the range that the first packet names. */
  function StartOf(packet: seq<byte>): (start: nat)
    requires |packet| >= 6
    ensures start < SPACE
  {
    var p2: int, p3: int := packet[2], packet[3];
    p2 * 256 + p3
  }

  predicate NoneEmpty(packets: seq<seq<byte>>) { forall i :: 0 <= i < |packets| ==> packets[i] != [] }

  /** A request to program the bytes `sent` into EEPROM: PROG_START, start and end address, twenty-six filler bytes, and
      then as many as align the start address, those bytes, and whatever follows. */
  ghost predicate EepromRequest(d: Device, packets: seq<seq<byte>>, fill: seq<byte>, sent: seq<byte>) {
    && d.Valid() && !d.isSecure && 6 < d.sent.dataSize
    && packets != [] && |packets[0]| == CONTROL_ENDPOINT_SIZE
    && packets[0][0] == COMMAND_PROG_START && packets[0][1] == 0x01
    && |fill| == StartOf(packets[0]) % CONTROL_ENDPOINT_SIZE && |sent| == ImageLength(packets[0])
    && NoneEmpty(packets[1..]) && fill + sent <= Flat(packets[1..])
    && (fill != [] ==> |fill| <= |packets[1..][0]|)
  }

  lemma {:induction false} WithoutEmptyPackets(bank: seq<byte>, queue: seq<seq<byte>>, count: nat)
    requires NoneEmpty(queue) && count <= |bank + Flat(queue)|
    ensures BytesArrive(bank, queue, count)
    decreases |queue|
  {
    if count > |bank| {
      assert queue[0] != [];
      WithoutEmptyPackets(queue[0], queue[1..], count - |bank|);
    }
  }

  /** What the code takes for the range: with a start that is not aligned, the last filler byte comes first. */
  function Taken(fill: seq<byte>, sent: seq<byte>): (t: seq<byte>)
    ensures |t| == |sent|
  {
    if fill == [] then sent else ([fill[|fill| - 1]] + sent)[..|sent|]
  }

  /** The fillers are counted off, but the packet that has to be fetched for them counts as one of them. */
  lemma FillersDropped(bank: seq<byte>, queue: seq<seq<byte>>, start: nat, fill: seq<byte>, sent: seq<byte>)
    requires |bank| == FILLER_BYTES_SIZE && |fill| == start % CONTROL_ENDPOINT_SIZE && NoneEmpty(queue)
    requires fill + sent <= Flat(queue) && (fill != [] ==> queue != [] && |fill| <= |queue[0]|)
    ensures var left := AfterFillers(bank, queue, start);
            && left.0 && BytesArrive(left.1, left.2, |sent|)
            && (left.1 + Flat(left.2))[..|sent|] == Taken(fill, sent)
  {
    DroppedInside(bank, queue, FILLER_BYTES_SIZE);
    if fill == [] {
      assert [] + Flat(queue) == Flat(queue);
      WithoutEmptyPackets([], queue, |sent|);
    } else {
      var k := |fill| - 1;
      DroppedAcross(queue, |fill|);
      assert queue[0][k..] + Flat(queue[1..]) == Flat(queue)[k..];
      WithoutEmptyPackets(queue[0][k..], queue[1..], |sent|);
      OneFillerFirst(Flat(queue), fill, sent, k);
    }
  }

  lemma OneFillerFirst(stream: seq<byte>, fill: seq<byte>, sent: seq<byte>, k: nat)
    requires fill + sent <= stream && |fill| == k + 1
    ensures stream[k..][..|sent|] == ([fill[k]] + sent)[..|sent|]
  {
    assert stream[..k + 1 + |sent|] == fill + sent;
  }

  /** The command of such a request. */
  lemma ProgEepromCommand(d: Device, packet: seq<byte>, taken: Device, c: Config)
    requires d.Valid() && !d.isSecure && 6 < d.sent.dataSize && |packet| >= 6
    requires packet[0] == COMMAND_PROG_START && packet[1] == 0x01 && taken == d.(sent := CommandIn(d, packet))
    ensures taken.Valid()
    ensures var a := Processed(taken, c);
            && a.Valid() && a.state == DfuDnloadIdle && a.sent.dataSize != 0 && !a.Is(0x00)
            && a.startAddr == StartOf(packet) && (a.endAddr - a.startAddr + 1) % 0x1_0000 == ImageLength(packet)
            && a.eeprom == d.eeprom && a.flash == d.flash && a.isSecure == d.isSecure
            && a.waitForExit == d.waitForExit
  {
  }

  /** What such a request stores. */
  lemma RangeStored(d: Device, packets: seq<seq<byte>>, fill: seq<byte>, sent: seq<byte>, e: Device, c: Config)
    requires EepromRequest(d, packets, fill, sent) && CommandArrives(d, packets) && EepromTaken(d, packets, e, c)
    ensures e.flash == d.flash && e.eeprom == Stored(d.eeprom, StartOf(packets[0]), Taken(fill, sent))
  {
    hide Dropped, Stored, Processed, BytesArrive, Taken, AfterFillers;
    var taken := d.(sent := CommandIn(d, packets[0]));
    ProgEepromCommand(d, packets[0], taken, c);
    FillersDropped(packets[0][6..], packets[1..], StartOf(packets[0]), fill, sent);
  }

  /** A streamed range of EEPROM is there afterwards, address by address, if and only if its start address is a multiple
      of the packet size or it repeats the last filler byte throughout; every other address is as it was. */
  lemma EepromRangeArrives(d: Device, packets: seq<seq<byte>>, fill: seq<byte>, sent: seq<byte>, e: Device, c: Config)
    requires EepromRequest(d, packets, fill, sent) && CommandArrives(d, packets) && EepromTaken(d, packets, e, c)
    ensures var start := StartOf(packets[0]);
            && (Cells(e.eeprom, start, |sent|) == sent <==>
                  start % CONTROL_ENDPOINT_SIZE == 0 || forall i :: 0 <= i < |sent| ==> sent[i] == fill[|fill| - 1])
            && forall a: nat :: a < SPACE && Behind(a, start) >= |sent| ==> Cell(e.eeprom, a) == Cell(d.eeprom, a)
  {
    var start := StartOf(packets[0]);
    RangeStored(d, packets, fill, sent, e, c);
    StoredReadsBack(d.eeprom, start, Taken(fill, sent));
    forall a: nat | a < SPACE && Behind(a, start) >= |sent|
      ensures Cell(e.eeprom, a) == Cell(d.eeprom, a)
    {
      StoredCell(d.eeprom, start, Taken(fill, sent), a);
    }
    if fill != [] {
      ShiftedIsSame(fill[|fill| - 1], sent, Taken(fill, sent));
    }
  }

  lemma ShiftedIsSame(b: byte, sent: seq<byte>, t: seq<byte>)
    requires t == ([b] + sent)[..|sent|]
    ensures t == sent <==> forall i :: 0 <= i < |sent| ==> sent[i] == b
  {
    if t == sent {
      forall i | 0 <= i < |sent|
        ensures sent[i] == b
      {
        AllEqual(b, sent, t, i);
      }
    }
  }

  lemma {:induction false} AllEqual(b: byte, sent: seq<byte>, t: seq<byte>, i: nat)
    requires t == ([b] + sent)[..|sent|] && t == sent && i < |sent|
    ensures sent[i] == b
  {
    assert t[i] == ([b] + sent)[i];
    if i > 0 {
      AllEqual(b, sent, t, i - 1);
    }
  }

  // ---- A session ----

  /** A range of EEPROM is programmed, selected for display and uploaded: the answer is what the code took for it, which
      is the range that was streamed exactly as above. */
  method ProgramAndReadEeprom(b: Bootloader, program: seq<seq<byte>>, wLength: nat, ghost fill: seq<byte>,
                              ghost sent: seq<byte>)
    returns (back: seq<byte>)
    requires b.Valid() && 0 < wLength < 0x1_0000 && !b.waitForExit
    requires EepromRequest(Sized(b.View(), wLength), program, fill, sent)
    modifies b
    ensures b.Valid() && back == Taken(fill, sent)
    ensures back == sent <==>
            StartOf(program[0]) % CONTROL_ENDPOINT_SIZE == 0
            || forall i :: 0 <= i < |sent| ==> sent[i] == fill[|fill| - 1]
  {
    hide LoadedStep, UploadReply, EepromTaken, Taken, Stored, Cells, Processed;
    ghost var d := Sized(b.View(), wLength);
    DfuSession.Request(b, Dnload(wLength), program, []);
    ghost var e := b.View();
    RangeStored(d, program, fill, sent, e, b.c);
    StillOpen(d, program, fill, sent, e, b.c);
    var display := [COMMAND_DISP_DATA, 0x02] + program[0][2..6];
    DfuSession.Request(b, Dnload(6), [display], []);
    AfterEepromDisplay(Sized(e, 6), program[0], display, b.View(), b.c);
    StoredReadsBack(d.eeprom, StartOf(program[0]), Taken(fill, sent));
    back := DfuSession.Upload(b);
    Same(fill, sent);
  }

  lemma Same(fill: seq<byte>, sent: seq<byte>)
    ensures Taken(fill, sent) == sent <==> fill == [] || forall i :: 0 <= i < |sent| ==> sent[i] == fill[|fill| - 1]
  {
    if fill != [] {
      ShiftedIsSame(fill[|fill| - 1], sent, Taken(fill, sent));
    }
  }

  lemma StillOpen(d: Device, packets: seq<seq<byte>>, fill: seq<byte>, sent: seq<byte>, e: Device, c: Config)
    requires EepromRequest(d, packets, fill, sent) && LoadedStep(d, CommandIn(d, packets[0]), e, c)
    ensures !e.isSecure && e.waitForExit == d.waitForExit
  {
    hide Processed;
    ProgEepromCommand(d, packets[0], d.(sent := CommandIn(d, packets[0])), c);
  }

  lemma AfterEepromDisplay(d: Device, packet: seq<byte>, display: seq<byte>, e: Device, c: Config)
    requires d.Valid() && !d.isSecure && d.sent.dataSize == 6 && |packet| >= 6
    requires display == [COMMAND_DISP_DATA, 0x02] + packet[2..6]
    requires LoadedStep(d, CommandIn(d, display), e, c)
    ensures e.Valid() && UploadReply(Sized(e, 0)) == Cells(d.eeprom, StartOf(packet), ImageLength(packet))
  {
    hide Cells;
    var taken := d.(sent := CommandIn(d, display));
    assert taken.sent.data == [0x02] + packet[2..6];
    assert Processed(taken, c) == taken.AddressesLoaded().(state := DfuUploadIdle);
  }
}
