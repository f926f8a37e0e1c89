/** The DFU bootloader's state, what each command does to it, and what holds in every run of requests. */
module DfuDevice {
  import opened ByteMemory
  import opened AvrFlash

  const COMMAND_PROG_START: byte := 0x01
  const COMMAND_DISP_DATA: byte := 0x03
  const COMMAND_WRITE: byte := 0x04
  const COMMAND_READ: byte := 0x05
  const COMMAND_CHANGE_BASE_ADDR: byte := 0x06

  const FILLER_BYTES_SIZE: nat := 26
  const FILE_SUFFIX_SIZE: nat := 16
  const CONTROL_ENDPOINT_SIZE: nat := 32

  datatype DfuState = DfuIdle | DfuDnloadIdle | DfuUploadIdle | DfuError
  datatype DfuStatus = Ok | ErrWrite | ErrCheckErased

  /** SentCommand: the command byte, its five parameter bytes, and the data bytes not loaded. */
  datatype Command = Command(command: byte, data: seq<byte>, dataSize: nat)

  /** Build constants: start of the boot section, the signature bytes, and whatever lies around the
      three-byte tables that the read command indexes without a check. */
  datatype Config = Config(bootStart: nat, signature: seq<byte>, around: int -> byte)

  datatype Device = Device(
    isSecure: bool, runBootloader: bool, waitForExit: bool,
    state: DfuState, status: DfuStatus, sent: Command, responseByte: byte,
    appStart: nat, watchdog: bool, page64: byte, startAddr: nat, endAddr: nat,
    flash: Flash, eeprom: map<nat, byte>)
  {
    predicate Valid() {
      && flash.Valid() && |sent.data| == 5 && sent.dataSize < 0x1_0000
      && startAddr < 0x1_0000 && endAddr < 0x1_0000
    }

    /** The start address with the 64 KB page above it. */
    function LongAddress(): nat { Long(startAddr) }

    function Long(addr: nat): nat { addr + 0x1_0000 * page64 }

    predicate Is(first: byte)
      requires |sent.data| == 5
    {
      sent.data[0] == first
    }

    predicate Is2(first: byte, second: byte)
      requires |sent.data| == 5
    {
      sent.data[0] == first && sent.data[1] == second
    }

    /** Start and end address, each sent high byte first. */
    function AddressesLoaded(): Device
      requires |sent.data| == 5
    {
      var d1: int, d2: int, d3: int, d4: int := sent.data[1], sent.data[2], sent.data[3], sent.data[4];
      this.(startAddr := d1 * 256 + d2, endAddr := d3 * 256 + d4)
    }
  }

  // ---- Erase and blank check ----

  /** The erase loop from `addr` on: each page is erased and then written from the blank buffer. */
  function EraseFrom(f: Flash, addr: nat, boot: nat): (r: Flash)
    requires f.Valid()
    ensures r.Valid() && |r.mem| == |f.mem| && r.PageSize() == f.PageSize()
    decreases boot - addr
  {
    if addr < boot then EraseFrom(f.Erase(addr).Write(addr), addr + f.PageSize(), boot) else f
  }

  /** The pages of the boot section's lower neighbour, each once, lowest first. */
  function EraseEvents(addr: nat, boot: nat, size: nat): seq<Event>
    requires size > 0
    decreases boot - addr
  {
    if addr < boot then [Erased(addr), Wrote(addr)] + EraseEvents(addr + size, boot, size) else []
  }

  /** Every byte from `addr` up to `boot` is blank, and every other byte as before. */
  ghost predicate Cleared(was: seq<byte>, now: seq<byte>, addr: nat, boot: nat) {
    |now| == |was| && forall a :: 0 <= a < |was| ==> now[a] == if addr <= a < boot then BLANK else was[a]
  }

  lemma PageCleared(f: Flash, addr: nat, next: nat)
    requires f.Valid() && f.BufferBlank() && IsPage(f, addr) && next == addr + f.PageSize()
    ensures Cleared(f.mem, f.Erase(addr).Write(addr).mem, addr, next)
  {
    EraseThenWriteBlank(f, addr);
  }

  lemma ClearedTwice(a: seq<byte>, b: seq<byte>, c: seq<byte>, from: nat, mid: nat, to: nat)
    requires Cleared(a, b, from, mid) && Cleared(b, c, mid, to) && from <= mid <= to
    ensures Cleared(a, c, from, to)
  {
  }

  /** With a blank buffer and a page-aligned boot section, the erase command blanks every application byte
      and nothing above, and leaves the buffer blank. */
  lemma {:induction false} EraseClearsApplication(f: Flash, addr: nat, boot: nat)
    requires f.Valid() && f.BufferBlank() && Aligned(f.PageSize(), addr) && Aligned(f.PageSize(), boot)
    requires addr <= boot <= |f.mem|
    ensures Cleared(f.mem, EraseFrom(f, addr, boot).mem, addr, boot)
    ensures EraseFrom(f, addr, boot).BufferBlank()
    decreases boot - addr
  {
    if addr < boot {
      PageFits(f.PageSize(), addr, boot);
      NextPage(f.PageSize(), addr, addr + f.PageSize());
      PageCleared(f, addr, addr + f.PageSize());
      var g := f.Erase(addr).Write(addr);
      EraseClearsApplication(g, addr + f.PageSize(), boot);
      ClearedTwice(f.mem, g.mem, EraseFrom(g, addr + f.PageSize(), boot).mem, addr, addr + f.PageSize(), boot);
    }
  }

  /** It touches each application page exactly once. */
  lemma {:induction false} EraseTouchesEachPageOnce(f: Flash, addr: nat, boot: nat)
    requires f.Valid()
    ensures EraseFrom(f, addr, boot).log == f.log + EraseEvents(addr, boot, f.PageSize())
    decreases boot - addr
  {
    if addr < boot {
      var n, g := f.PageSize(), f.Erase(addr).Write(addr);
      EraseTouchesEachPageOnce(g, addr + n, boot);
      assert g.log == f.log + [Erased(addr), Wrote(addr)];
      assert f.log + EraseEvents(addr, boot, n)
          == f.log + [Erased(addr), Wrote(addr)] + EraseEvents(addr + n, boot, n);
    }
  }

  /** The k-th page erased is the k-th page of the section. */
  lemma {:induction false} EraseEventsAreThePages(addr: nat, boot: nat, size: nat, k: nat)
    requires size > 0
    ensures 2 * k < |EraseEvents(addr, boot, size)| <==> addr + k * size < boot
    ensures addr + k * size < boot ==>
              && 2 * k + 1 < |EraseEvents(addr, boot, size)|
              && EraseEvents(addr, boot, size)[2 * k] == Erased(addr + k * size)
              && EraseEvents(addr, boot, size)[2 * k + 1] == Wrote(addr + k * size)
    decreases k
  {
    if k > 0 {
      assert k * size == size + (k - 1) * size && (k - 1) * size >= 0;
      if addr < boot {
        EraseEventsAreThePages(addr + size, boot, size, k - 1);
      }
    }
  }

  /** After an erase of the application section, a blank check finds nothing. */
  lemma ErasedIsBlank(f: Flash, boot: nat)
    requires f.Valid() && f.BufferBlank() && Aligned(f.PageSize(), boot) && boot <= |f.mem|
    ensures FirstNonBlank(EraseFrom(f, 0, boot), 0, boot) >= boot
  {
    EraseClearsApplication(f, 0, boot);
  }

  /** The first address in [from..boot) that does not read as blank, or `boot`. */
  function FirstNonBlank(f: Flash, from: nat, boot: nat): (a: nat)
    ensures from <= boot ==> from <= a <= boot
    ensures forall x :: from <= x < a ==> f.Peek(x) == BLANK
    ensures a < boot ==> f.Peek(a) != BLANK
    ensures a >= boot ==> a == boot || a == from
    decreases boot - from
  {
    if from < boot && f.Peek(from) == BLANK then FirstNonBlank(f, from + 1, boot) else from
  }

  function Reads(count: nat): (s: seq<Event>)
    ensures |s| == count
  {
    seq(count, i requires 0 <= i < count => WasRead(i))
  }

  // ---- What each command does ----

  function BlankChecked(d: Device, boot: nat): Device {
    var a := FirstNonBlank(d.flash, 0, boot);
    if a < boot then
      d.(flash := d.flash.(log := d.flash.log + Reads(a + 1)), page64 := a / 0x1_0000 % 256, startAddr := a % 0x1_0000,
         state := DfuError, status := ErrCheckErased)
    else d.(flash := d.flash.(log := d.flash.log + Reads(boot)))
  }

  /** Some application byte is not blank. */
  ghost predicate NotBlank(mem: seq<byte>, boot: nat) { exists a: nat :: a < boot && a < |mem| && mem[a] != BLANK }

  /** The blank check only ever sets an error: the device is in error afterwards exactly when it was before or some
      application byte is not blank, and then the page and address name the first such byte. When all are blank, an
      older error and its address stay. */
  lemma BlankCheckFindsFirst(d: Device, boot: nat)
    requires d.Valid() && boot <= |d.flash.mem| && boot <= 0x100_0000
    ensures var e := BlankChecked(d, boot);
            && e.flash.mem == d.flash.mem
            && (e.state == DfuError <==> d.state == DfuError || NotBlank(d.flash.mem, boot))
            && (e.status == ErrCheckErased <==> d.status == ErrCheckErased || NotBlank(d.flash.mem, boot))
            && (NotBlank(d.flash.mem, boot) ==>
                  e.LongAddress() < boot && d.flash.mem[e.LongAddress()] != BLANK
                  && forall b: nat :: b < e.LongAddress() ==> d.flash.mem[b] == BLANK)
            && (!NotBlank(d.flash.mem, boot) ==> e == d.(flash := e.flash))
  {
    var a := FirstNonBlank(d.flash, 0, boot);
    if a < boot {
      assert a == a % 0x1_0000 + 0x1_0000 * (a / 0x1_0000) && a / 0x1_0000 < 256;
      assert d.flash.mem[a] == d.flash.Peek(a);
    }
    forall b: nat | b < a && b < boot
      ensures d.flash.mem[b] == BLANK
    {
      assert d.flash.Peek(b) == BLANK;
    }
  }

  function ProgStarted(d: Device): Device
    requires d.Valid()
  {
    if d.Is(0x00) then
      var e := d.AddressesLoaded();
      e.(flash := e.flash.Erase(e.LongAddress()), state := DfuDnloadIdle)
    else if d.Is(0x01) then d.AddressesLoaded().(state := DfuDnloadIdle)
    else d
  }

  function DataDisplayed(d: Device, boot: nat): Device
    requires d.Valid()
  {
    if d.Is(0x00) || d.Is(0x02) then d.AddressesLoaded().(state := DfuUploadIdle)
    else if d.Is(0x01) then BlankChecked(d, boot)
    else d
  }

  function DataWritten(d: Device, boot: nat): Device
    requires d.Valid()
  {
    if d.Is(0x03) then
      var w := d.(waitForExit := true);
      if d.sent.dataSize != 0 then
        var d3: int, d4: int := d.sent.data[3], d.sent.data[4];
        if d.sent.data[1] == 0x01 then w.(appStart := d3 * 256 + d4) else w
      else if d.sent.data[1] == 0x00 then w.(watchdog := true)
      else w.(runBootloader := false)
    else if d.Is2(0x00, 0xFF) then d.(flash := EraseFrom(d.flash, 0, boot), isSecure := false)
    else d
  }

  function DataRead(d: Device, c: Config): Device
    requires d.Valid()
  {
    var index: int := d.sent.data[1];
    if d.Is(0x00) then d.(responseByte := Table([0x20, 0xDC, 0xFB], index, c.around))
    else if d.Is(0x01) then d.(responseByte := Table(c.signature, index - 0x30, c.around))
    else d
  }

  function Table(t: seq<byte>, i: int, around: int -> byte): byte {
    if 0 <= i < |t| then t[i] else around(i)
  }

  predicate AllowedWhenSecure(d: Device)
    requires d.Valid()
  {
    (d.sent.command == COMMAND_WRITE && d.Is2(0x00, 0xFF)) || d.sent.command == COMMAND_READ
  }

  /** ProcessBootloaderCommand. */
  function Processed(d: Device, c: Config): Device
    requires d.Valid()
  {
    if d.isSecure && !AllowedWhenSecure(d) then d.(state := DfuError, status := ErrWrite)
    else match d.sent.command
      case COMMAND_PROG_START => ProgStarted(d)
      case COMMAND_DISP_DATA => DataDisplayed(d, c.bootStart)
      case COMMAND_WRITE => DataWritten(d, c.bootStart)
      case COMMAND_READ => DataRead(d, c)
      case COMMAND_CHANGE_BASE_ADDR => if d.Is2(0x03, 0x00) then d.(page64 := d.sent.data[2]) else d
      case _ => d
  }

  lemma ProcessedStaysValid(d: Device, c: Config)
    requires d.Valid()
    ensures Processed(d, c).Valid() && Processed(d, c).sent == d.sent
  {
    hide ProgStarted, DataDisplayed, DataWritten, DataRead;
    StartedStaysValid(d);
    DisplayedStaysValid(d, c.bootStart);
    WrittenStaysValid(d, c.bootStart);
    ReadStaysValid(d, c);
  }

  lemma StartedStaysValid(d: Device)
    requires d.Valid()
    ensures ProgStarted(d).Valid() && ProgStarted(d).sent == d.sent
  {
  }

  lemma DisplayedStaysValid(d: Device, boot: nat)
    requires d.Valid()
    ensures DataDisplayed(d, boot).Valid() && DataDisplayed(d, boot).sent == d.sent
  {
  }

  lemma WrittenStaysValid(d: Device, boot: nat)
    requires d.Valid()
    ensures DataWritten(d, boot).Valid() && DataWritten(d, boot).sent == d.sent
  {
  }

  lemma ReadStaysValid(d: Device, c: Config)
    requires d.Valid()
    ensures DataRead(d, c).Valid() && DataRead(d, c).sent == d.sent
  {
  }
}
