/** What a host brings about with whole DFU requests, stated by the bytes it sends: leaving the bootloader, selecting a
    64 KB page, asking for information, and clearing an error. */
module DfuCommands {
  import opened ByteMemory
  import opened Endpoints
  import opened AvrFlash
  import opened DfuDevice
  import opened DfuRuns
  import opened DfuBootloader
  import DfuSession

  /** Packets whose first one begins with a command byte and two parameter bytes, and has at least six bytes. */
  predicate Begins(packets: seq<seq<byte>>, command: byte, first: byte, second: byte) {
    packets != [] && |packets[0]| >= 6 && packets[0][0] == command && packets[0][1] == first
    && packets[0][2] == second
  }

  /** A 16-bit number sent high byte first. */
  function Word(high: byte, low: byte): (w: nat)
    ensures w < 0x1_0000
  {
    var h: int, l: int := high, low;
    h * 256 + l
  }

  // ---- Leaving the bootloader ----

  /** A start message waits for exit. Without data behind its six bytes it clears the run flag, or starts the watchdog
      when its second parameter is zero; with data and a second parameter of one it takes the application's address. */
  lemma StartTaken(d: Device, packet: seq<byte>, e: Device, c: Config)
    requires d.Valid() && !d.isSecure && |packet| >= 6 && packet[0] == 0x04 && packet[1] == 0x03
    requires LoadedStep(d, CommandIn(d, packet), e, c) && e.Valid()
    ensures e.waitForExit && !e.isSecure && e.sent == CommandIn(d, packet)
    ensures e.runBootloader == (d.runBootloader && !(e.sent.dataSize == 0 && packet[2] != 0))
    ensures e.watchdog == (d.watchdog || (e.sent.dataSize == 0 && packet[2] == 0))
    ensures e.appStart == if e.sent.dataSize != 0 && packet[2] == 1 then Word(packet[4], packet[5]) else d.appStart
  {
    hide ProgStarted, DataDisplayed, DataRead, EraseFrom;
  }

  /** The next download, of no bytes, carries that message out again, now without data, and ends the wait. */
  lemma StartRepeated(d: Device, e: Device, c: Config)
    requires d.Valid() && e.Valid() && d.waitForExit && !d.isSecure && d.sent.command == 0x04 && d.sent.data[0] == 0x03
    requires Step(d, Dnload(0), e, c)
    ensures !e.waitForExit && e.appStart == d.appStart
    ensures e.runBootloader == (d.runBootloader && d.sent.data[1] == 0)
    ensures e.watchdog == (d.watchdog || d.sent.data[1] == 0)
  {
  }

  /** A download of no bytes. */
  method Empty(b: Bootloader)
    requires b.Valid()
    modifies b
    ensures b.Valid() && Step(old(b.View()), Dnload(0), b.View(), b.c)
  {
    var ep := new OutEndpoint([]);
    var reply := new InEndpoint(CONTROL_ENDPOINT_SIZE);
    b.HandleRequest(Dnload(0), false, ep, reply, []);
  }

  /** A start message and a download of no bytes end the main loop, or start the watchdog and leave the main loop to it.
      Whether the message has data behind its six bytes does not matter for that: without data the first request acts,
      and with data the second. */
  method StartApplication(b: Bootloader, wLength: nat, packets: seq<seq<byte>>)
    requires b.Valid() && !b.isSecure && !b.waitForExit && b.runBootloader && 6 <= wLength < 0x1_0000
    requires packets != [] && |packets[0]| >= 6 && packets[0][0] == 0x04 && packets[0][1] == 0x03
    modifies b
    ensures b.Valid() && !b.waitForExit && b.runBootloader == (packets[0][2] == 0)
    ensures Exits(b.View()) <==> packets[0][2] != 0
    ensures b.watchdog == (old(b.watchdog) || packets[0][2] == 0)
    ensures b.appStart == if wLength != 6 && packets[0][2] == 1 then Word(packets[0][4], packets[0][5])
                          else old(b.appStart)
  {
    hide LoadedStep, Step, EepromTaken;
    ghost var d := Sized(b.View(), wLength);
    DfuSession.Request(b, Dnload(wLength), packets, []);
    StartTaken(d, packets[0], b.View(), b.c);
    ghost var e := b.View();
    Empty(b);
    StartRepeated(e, b.View(), b.c);
  }

  /** A message of six bytes acts by itself: after it nothing but the wait keeps the main loop going. */
  method StartWithoutData(b: Bootloader, packets: seq<seq<byte>>)
    requires b.Valid() && !b.isSecure && !b.waitForExit && b.runBootloader
    requires packets != [] && |packets[0]| >= 6 && packets[0][0] == 0x04 && packets[0][1] == 0x03
    modifies b
    ensures b.Valid() && b.waitForExit && b.runBootloader == (packets[0][2] == 0)
    ensures b.watchdog == (old(b.watchdog) || packets[0][2] == 0) && b.appStart == old(b.appStart)
  {
    hide LoadedStep, EepromTaken;
    ghost var d := Sized(b.View(), 6);
    DfuSession.Request(b, Dnload(6), packets, []);
    StartTaken(d, packets[0], b.View(), b.c);
  }

  // ---- The 64 KB page ----

  lemma PageCommand(d: Device, c: Config)
    requires d.Valid() && !d.isSecure && d.sent.command == 0x06
    ensures Processed(d, c) ==
            d.(page64 := if d.sent.data[0] == 0x03 && d.sent.data[1] == 0x00 then d.sent.data[2] else d.page64)
  {
    hide ProgStarted, DataDisplayed, DataWritten, DataRead;
  }

  lemma PageTaken(d: Device, packet: seq<byte>, e: Device, c: Config)
    requires d.Valid() && !d.isSecure && |packet| >= 6 && packet[0] == 0x06
    requires LoadedStep(d, CommandIn(d, packet), e, c) && e.Valid()
    ensures e.page64 == if packet[1] == 0x03 && packet[2] == 0x00 then packet[3] else d.page64
    ensures d.state != DfuDnloadIdle ==> e == d.(sent := e.sent, page64 := e.page64)
    ensures d.state == DfuDnloadIdle && d.sent.dataSize == 6 ==>
              e == d.(sent := e.sent, page64 := e.page64, state := DfuIdle)
  {
    hide Processed;
    PageCommand(d.(sent := CommandIn(d, packet)), c);
  }

  /** The message that selects a page changes nothing but the page, to its fourth byte, and the command held. */
  method SelectPage(b: Bootloader, wLength: nat, packets: seq<seq<byte>>)
    requires b.Valid() && !b.isSecure && !b.waitForExit && b.dfuState != DfuDnloadIdle && 6 <= wLength < 0x1_0000
    requires Begins(packets, 0x06, 0x03, 0x00)
    modifies b
    ensures b.Valid() && b.View() == old(b.View()).(sent := b.sent, page64 := packets[0][3])
  {
    hide LoadedStep, EepromTaken;
    ghost var d := Sized(b.View(), wLength);
    DfuSession.Request(b, Dnload(wLength), packets, []);
    PageTaken(d, packets[0], b.View(), b.c);
  }

  /** A request to program the bytes `sent` into flash from byte `start` of the selected 64 KB page on. */
  ghost predicate RangeRequest(f: Flash, wLength: nat, packets: seq<seq<byte>>, sent: seq<byte>, start: nat) {
    && f.Valid() && f.BufferBlank() && 6 < wLength < 0x1_0000
    && packets != [] && |packets[0]| == 32 && packets[0][0] == 0x01 && packets[0][1] == 0x00
    && |sent| == (Word(packets[0][4], packets[0][5]) - Word(packets[0][2], packets[0][3]) + 1) % 0x1_0000
    && Aligned(f.PageSize(), start) && start % 32 == 0
    && start + 2 * (|sent| / 2) + PadLength(f.PageSize(), 2 * (|sent| / 2)) <= |f.mem| < 0x1_0000_0000
    && WordPackets(packets[1..], 2 * (|sent| / 2)) && sent <= Flat(packets[1..])
  }

  lemma RangeIsProgramRequest(d: Device, wLength: nat, packets: seq<seq<byte>>, sent: seq<byte>, start: nat)
    requires d.Valid() && !d.isSecure && !d.waitForExit && d.sent.dataSize == wLength
    requires RangeRequest(d.flash, wLength, packets, sent, start)
    requires start == 0x1_0000 * d.page64 + Word(packets[0][2], packets[0][3])
    ensures ProgramRequest(d, packets, sent) && ImageStart(d, packets[0]) == start
    ensures Image(sent) == sent[..2 * (|sent| / 2)]
  {
  }

  lemma ImagePlace(mem: seq<byte>, start: nat, image: seq<byte>, n: nat)
    requires n > 0 && start + |image| + PadLength(n, |image|) <= |mem|
    ensures start + |image| <= |Programmed(mem, start, image, n)|
    ensures Programmed(mem, start, image, n)[start..start + |image|] == image
  {
  }

  /** Selecting a page, programming a range of it and uploading the range: the whole words of what was streamed are in
      flash at the page and address that the packets name, and are read back from there. */
  method ProgramInPage(b: Bootloader, select: seq<seq<byte>>, program: seq<seq<byte>>, wLength: nat,
                       ghost sent: seq<byte>)
    returns (back: seq<byte>)
    requires b.Valid() && !b.isSecure && !b.waitForExit && b.dfuState != DfuDnloadIdle
    requires Begins(select, 0x06, 0x03, 0x00) && program != [] && |program[0]| == 32 && wLength < 0x1_0000
    requires var page: int := select[0][3];
             RangeRequest(b.flash, wLength, program, sent, 0x1_0000 * page + Word(program[0][2], program[0][3]))
    modifies b
    ensures b.Valid() && back == sent[..2 * (|sent| / 2)]
    ensures var page: int := select[0][3];
            var start := 0x1_0000 * page + Word(program[0][2], program[0][3]);
            start + |back| <= |b.flash.mem| && b.flash.mem[start..start + |back|] == back
  {
    hide ProgramRequest, ImageProgrammed, RangeRequest, Programmed;
    ghost var page: int := select[0][3];
    ghost var start: nat := 0x1_0000 * page + Word(program[0][2], program[0][3]);
    SelectPage(b, 6, select);
    ghost var d := Sized(b.View(), wLength);
    RangeIsProgramRequest(d, wLength, program, sent, start);
    assert ProgramRequest(d, program, sent);
    back := DfuSession.ProgramAndReadBack(b, program, wLength, sent);
    PlaceOf(d, b.View(), program[0], Image(sent), start);
  }

  lemma PlaceOf(d: Device, e: Device, packet: seq<byte>, image: seq<byte>, start: nat)
    requires ImageProgrammed(d, e, packet, image) && start == ImageStart(d, packet)
    ensures start + |image| <= |e.flash.mem| && e.flash.mem[start..start + |image|] == image
  {
    ImagePlace(d.flash.mem, start, image, d.flash.PageSize());
  }

  // ---- Information ----

  lemma ReadCommand(d: Device, c: Config)
    requires d.Valid() && d.sent.command == 0x05
    ensures Processed(d, c) == d.(responseByte := Processed(d, c).responseByte)
    ensures d.sent.data[0] == 0x00 && d.sent.data[1] < 3 ==>
              Processed(d, c).responseByte ==
              if d.sent.data[1] == 0 then 0x20 else if d.sent.data[1] == 1 then 0xDC else 0xFB
    ensures d.sent.data[0] == 0x01 && 0x30 <= d.sent.data[1] < 0x30 + |c.signature| ==>
              Processed(d, c).responseByte == c.signature[d.sent.data[1] - 0x30]
  {
    hide ProgStarted, DataDisplayed, DataWritten;
  }

  /** A message of six bytes brings no firmware; it ends a download that waits for some. */
  lemma NothingStreamed(d: Device, e: Device)
    requires Streamed(d, e) && d.sent.dataSize == 0
    ensures e == d.(state := if d.state == DfuDnloadIdle then DfuIdle else d.state)
  {
  }

  lemma ReplyOutsideUpload(d: Device)
    requires d.Valid() && d.state != DfuUploadIdle
    ensures UploadReply(Sized(d, 0)) ==
            if d.state == DfuError && d.sent.data[0] == 0x01 then [d.startAddr % 256, d.startAddr / 256]
            else [d.responseByte]
  {
    assert d.startAddr / 256 % 256 == d.startAddr / 256;
  }

  lemma InfoTaken(d: Device, packet: seq<byte>, e: Device, c: Config)
    requires d.Valid() && |packet| >= 6 && packet[0] == 0x05 && packet[1] == 0x00 && packet[2] < 3
    requires d.state != DfuUploadIdle && d.sent.dataSize == 6
    requires LoadedStep(d, CommandIn(d, packet), e, c) && e.Valid()
    ensures UploadReply(Sized(e, 0)) ==
            [if packet[2] == 0 then 0x20 else if packet[2] == 1 then 0xDC else 0xFB]
    ensures e.flash == d.flash && e.isSecure == d.isSecure
  {
    hide Processed, Streamed, UploadReply;
    var taken := d.(sent := CommandIn(d, packet));
    ReadCommand(taken, c);
    NothingStreamed(Processed(taken, c), e);
    ReplyOutsideUpload(e);
  }

  lemma SignatureTaken(d: Device, packet: seq<byte>, e: Device, c: Config)
    requires d.Valid() && |packet| >= 6 && packet[0] == 0x05 && packet[1] == 0x01
    requires 0x30 <= packet[2] < 0x30 + |c.signature| && d.state != DfuUploadIdle && d.sent.dataSize == 6
    requires LoadedStep(d, CommandIn(d, packet), e, c) && e.Valid()
    ensures UploadReply(Sized(e, 0)) ==
            if d.state == DfuError then [d.startAddr % 256, d.startAddr / 256] else [c.signature[packet[2] - 0x30]]
    ensures e.flash == d.flash && e.isSecure == d.isSecure
  {
    hide Processed, Streamed, UploadReply;
    var taken := d.(sent := CommandIn(d, packet));
    ReadCommand(taken, c);
    NothingStreamed(Processed(taken, c), e);
    ReplyOutsideUpload(e);
  }

  /** A secure device too tells its version, 2.0, and its two identification bytes. */
  method AskInfo(b: Bootloader, index: byte) returns (back: seq<byte>)
    requires b.Valid() && !b.waitForExit && b.dfuState != DfuUploadIdle && index < 3
    modifies b
    ensures b.Valid() && b.flash.mem == old(b.flash.mem) && b.isSecure == old(b.isSecure)
    ensures back == if index == 0 then [0x20] else if index == 1 then [0xDC] else [0xFB]
  {
    hide LoadedStep, UploadReply, EepromTaken;
    var packet := [0x05, 0x00, index, 0, 0, 0];
    ghost var d := Sized(b.View(), 6);
    DfuSession.Request(b, Dnload(6), [packet], []);
    InfoTaken(d, packet, b.View(), b.c);
    back := DfuSession.Upload(b);
  }

  /** And the bytes of its signature, but only outside of the error state: there the upload takes the question for a
      blank check and answers with an address. */
  method AskSignature(b: Bootloader, index: nat) returns (back: seq<byte>)
    requires b.Valid() && !b.waitForExit && b.dfuState != DfuUploadIdle && index < |b.c.signature| == 3
    modifies b
    ensures b.Valid() && b.flash.mem == old(b.flash.mem) && b.isSecure == old(b.isSecure)
    ensures back == [b.c.signature[index]] <==> old(b.dfuState) != DfuError
    ensures old(b.dfuState) == DfuError ==> back == [old(b.startAddr) % 256, old(b.startAddr) / 256]
  {
    hide LoadedStep, UploadReply, EepromTaken;
    var packet := [0x05, 0x01, 0x30 + index, 0, 0, 0];
    ghost var d := Sized(b.View(), 6);
    DfuSession.Request(b, Dnload(6), [packet], []);
    SignatureTaken(d, packet, b.View(), b.c);
    back := DfuSession.Upload(b);
  }

  // ---- Clearing a report ----

  /** A request without a data stage. */
  method Control(b: Bootloader, r: DfuRuns.Request, getStatus: bool) returns (back: seq<byte>)
    requires b.Valid() && r.wLength < 0x1_0000
    modifies b
    ensures b.Valid() && Step(old(b.View()), r, b.View(), b.c)
    ensures r.Query? ==>
              back == if getStatus then [StatusByte(b.dfuStatus), 0, 0, 0, StateByte(b.dfuState), 0]
                      else [StateByte(b.dfuState)]
  {
    var ep := new OutEndpoint([]);
    var reply := new InEndpoint(CONTROL_ENDPOINT_SIZE);
    assert reply.Stream() == [];
    b.HandleRequest(r, getStatus, ep, reply, []);
    back := Flat(reply.sent);
    assert reply.Stream() == back + [] == back;
  }

  /** The status request answers status OK and state dfuIDLE, and the state request dfuIDLE alone, exactly when the
      status is OK and the device idle; an ABORT and a CLRSTATUS bring that about from every state. */
  method ClearReport(b: Bootloader) returns (before: seq<byte>, status: seq<byte>, state: seq<byte>)
    requires b.Valid()
    modifies b
    ensures b.Valid() && b.flash == old(b.flash) && b.dfuState == DfuIdle && b.dfuStatus == Ok
    ensures before == [0, 0, 0, 0, 2, 0] <==> old(b.dfuState) == DfuIdle && old(b.dfuStatus) == Ok
    ensures status == [0, 0, 0, 0, 2, 0] && state == [2]
  {
    before := Control(b, Query(6), true);
    var _ := Control(b, Abort(0), false);
    var _ := Control(b, ClrStatus(0), false);
    status := Control(b, Query(6), true);
    state := Control(b, Query(1), false);
  }

  /** The codes by which a host knows them. */
  lemma Codes(state: DfuState, status: DfuStatus)
    ensures StateByte(state) == 10 <==> state == DfuError
    ensures StateByte(state) == 9 <==> state == DfuUploadIdle
    ensures StateByte(state) == 5 <==> state == DfuDnloadIdle
    ensures StateByte(state) == 2 <==> state == DfuIdle
    ensures StatusByte(status) == 3 <==> status == ErrWrite
    ensures StatusByte(status) == 5 <==> status == ErrCheckErased
    ensures StatusByte(status) == 0 <==> status == Ok
  {
  }
}
