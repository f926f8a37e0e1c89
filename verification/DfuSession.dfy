/** A host's session with the DFU bootloader: a range is programmed, selected for display, and uploaded. */
module DfuSession {
  import opened ByteMemory
  import opened Endpoints
  import opened AvrFlash
  import opened DfuDevice
  import opened DfuRuns
  import opened DfuBootloader

  /** After a program request the device is as before, but for its memory and the addresses. */
  lemma AfterProgram(d: Device, packets: seq<seq<byte>>, bytes: seq<byte>, e: Device, c: Config)
    requires ProgramRequest(d, packets, bytes) && LoadedStep(d, CommandIn(d, packets[0]), e, c)
    ensures !e.isSecure && !e.waitForExit && ImageStart(Sized(e, 6), packets[0]) == ImageStart(d, packets[0])
  {
    var taken := d.(sent := CommandIn(d, packets[0]));
    ProgStartCommand(taken, c);
  }

  /** The data stage that selects the same range for display. */
  function Display(packet: seq<byte>): (p: seq<byte>)
    requires |packet| >= 6
    ensures |p| == 6
  {
    [COMMAND_DISP_DATA, 0x00] + packet[2..6]
  }

  /** The upload after it answers with the whole words of the range. */
  lemma AfterDisplay(d: Device, packet: seq<byte>, e: Device, c: Config, wLength: nat)
    requires d.Valid() && !d.isSecure && d.sent.dataSize == 6 && |packet| >= 6 && wLength < 0x1_0000
    requires LoadedStep(d, CommandIn(d, Display(packet)), e, c)
    ensures e.Valid() && e.flash == d.flash
    ensures UploadReply(Sized(e, wLength)) == Contents(d.flash, ImageStart(d, packet), WholeWords(ImageLength(packet)))
  {
    hide Contents, WholeWords, ImageLength, ImageStart, Processed, UploadReply;
    var taken := d.(sent := CommandIn(d, Display(packet)));
    DisplayCommand(taken, c);
    assert taken.sent.data == [0x00] + packet[2..6];
    SameRange(d, packet, taken);
    Displayed(Sized(e, wLength));
  }

  lemma Displayed(e: Device)
    requires e.Valid() && e.state == DfuUploadIdle && e.Is(0x00)
    ensures UploadReply(e) ==
            Contents(e.flash, e.LongAddress(), WholeWords((e.endAddr - e.startAddr + 1) % 0x1_0000))
  {
  }

  lemma DisplayCommand(d: Device, c: Config)
    requires d.Valid() && !d.isSecure && d.sent.command == COMMAND_DISP_DATA && d.Is(0x00)
    ensures Processed(d, c) == d.AddressesLoaded().(state := DfuUploadIdle)
  {
  }

  lemma SameRange(d: Device, p: seq<byte>, taken: Device)
    requires d.Valid() && |p| >= 6 && taken.sent.data == [0x00] + p[2..6] && taken.page64 == d.page64
    ensures taken.AddressesLoaded().LongAddress() == ImageStart(d, p)
    ensures (taken.AddressesLoaded().endAddr - taken.AddressesLoaded().startAddr + 1) % 0x1_0000 == ImageLength(p)
  {
  }

  /** Uploading leaves the image where it is. */
  lemma StaysProgrammed(d: Device, e: Device, f: Device, packet: seq<byte>, image: seq<byte>)
    requires ImageProgrammed(d, e, packet, image) && f.flash.Valid()
    requires f.flash.mem == e.flash.mem && f.flash.buffer == e.flash.buffer
    ensures ImageProgrammed(d, f, packet, image)
  {
  }

  /** Programming a range and reading it back yields the whole words of what was sent. */
  method ProgramAndReadBack(b: Bootloader, program: seq<seq<byte>>, wLength: nat, ghost bytes: seq<byte>)
    returns (back: seq<byte>)
    requires b.Valid() && wLength < 0x1_0000 && ProgramRequest(Sized(b.View(), wLength), program, bytes)
    modifies b
    ensures b.Valid() && back == Image(bytes)
    ensures ImageProgrammed(old(Sized(b.View(), wLength)), b.View(), program[0], Image(bytes))
  {
    hide LoadedStep, EepromTaken, UploadReply, Programmed, ImageLength, ImageStart, WordPackets;
    ghost var d := Sized(b.View(), wLength);
    Request(b, Dnload(wLength), program, bytes);
    ghost var e := b.View();
    AfterProgram(d, program, bytes, e, b.c);
    ReadsBack(e.flash, d.flash.mem, ImageStart(d, program[0]), Image(bytes), d.flash.PageSize());
    Request(b, Dnload(6), [Display(program[0])], []);
    AfterDisplay(Sized(e, 6), program[0], b.View(), b.c, 0);
    back := Upload(b);
    StaysProgrammed(d, e, b.View(), program[0], Image(bytes));
  }

  /** One DNLOAD, whose data stage arrives in these packets. */
  method Request(b: Bootloader, r: DfuRuns.Request, packets: seq<seq<byte>>, ghost bytes: seq<byte>)
    requires b.Valid() && r.Dnload? && 0 < r.wLength < 0x1_0000 && !b.waitForExit && packets != [] && |packets[0]| >= 6
    modifies b
    ensures b.Valid()
    ensures var d := Sized(old(b.View()), r.wLength);
            && LoadedStep(d, CommandIn(d, packets[0]), b.View(), b.c) && EepromTaken(d, packets, b.View(), b.c)
            && (ProgramRequest(d, packets, bytes) ==> ImageProgrammed(d, b.View(), packets[0], Image(bytes)))
  {
    var ep := new OutEndpoint(packets);
    var reply := new InEndpoint(CONTROL_ENDPOINT_SIZE);
    b.HandleRequest(r, false, ep, reply, bytes);
  }

  method Upload(b: Bootloader) returns (back: seq<byte>)
    requires b.Valid()
    modifies b
    ensures b.Valid() && back == UploadReply(Sized(old(b.View()), 0))
    ensures UploadStep(Sized(old(b.View()), 0), b.View())
  {
    var ep := new OutEndpoint([]);
    var reply := new InEndpoint(CONTROL_ENDPOINT_SIZE);
    assert reply.Stream() == [];
    b.HandleRequest(DfuRuns.Upload(0), false, ep, reply, []);
    back := Flat(reply.sent);
    assert reply.Stream() == back + [] == back;
  }
}
