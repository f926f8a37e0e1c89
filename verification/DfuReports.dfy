/** What the host is told about errors: how an error of the DFU bootloader comes about, and how long it outlives its
    reason. */
module DfuReports {
  import opened ByteMemory
  import opened AvrFlash
  import opened DfuDevice
  import opened DfuRuns
  import opened DfuBootloader
  import DfuSession

  // ---- Erase, then blank check ----

  predicate Erases(cmd: Command) {
    |cmd.data| == 5 && cmd.dataSize < 0x1_0000 && cmd.command == COMMAND_WRITE && cmd.data[0] == 0x00
    && cmd.data[1] == 0xFF
  }

  predicate Checks(cmd: Command) {
    |cmd.data| == 5 && cmd.dataSize < 0x1_0000 && cmd.command == COMMAND_DISP_DATA && cmd.data[0] == 0x01
  }

  /** The device has carried out one more command. */
  function Did(d: Device, cmd: Command, c: Config): (e: Device)
    requires d.Valid() && |cmd.data| == 5 && cmd.dataSize < 0x1_0000
    ensures e.Valid() && e.sent == cmd
  {
    ProcessedStaysValid(d.(sent := cmd), c);
    Processed(d.(sent := cmd), c)
  }

  /** The application is in whole pages, and the page buffer is blank. */
  predicate Erasable(d: Device, c: Config) {
    && d.Valid() && d.flash.BufferBlank() && Aligned(d.flash.PageSize(), c.bootStart)
    && c.bootStart <= |d.flash.mem| && c.bootStart <= 0x100_0000
  }

  lemma DidErase(d: Device, erase: Command, c: Config)
    requires Erasable(d, c) && Erases(erase)
    ensures var e := Did(d, erase, c);
            && e == d.(isSecure := false, sent := erase, flash := e.flash) && Erasable(e, c)
            && Cleared(d.flash.mem, e.flash.mem, 0, c.bootStart)
  {
    EraseClearsApplication(d.flash, 0, c.bootStart);
  }

  lemma DidCheck(d: Device, check: Command, c: Config)
    requires Erasable(d, c) && Checks(check) && !d.isSecure
    ensures var e := Did(d, check, c);
            && e == BlankChecked(d.(sent := check), c.bootStart) && Erasable(e, c) && e.flash.mem == d.flash.mem
            && e.isSecure == d.isSecure
  {
  }

  lemma ClearedIsBlank(was: seq<byte>, now: seq<byte>, boot: nat)
    requires Cleared(was, now, 0, boot)
    ensures !NotBlank(now, boot)
  {
  }

  /** An erase leaves nothing for the blank check to find, and neither of them takes an older error back: state, status
      and the reported address are afterwards what they were before. */
  lemma EraseThenCheck(d: Device, erase: Command, check: Command, c: Config)
    requires Erasable(d, c) && Erases(erase) && Checks(check)
    ensures var r := Did(Did(d, erase, c), check, c);
            && r == d.(isSecure := false, sent := check, flash := r.flash)
            && Cleared(d.flash.mem, r.flash.mem, 0, c.bootStart)
            && (r.state == DfuError <==> d.state == DfuError)
            && (r.status == ErrCheckErased <==> d.status == ErrCheckErased)
  {
    hide Processed, EraseFrom, BlankChecked, Cleared;
    var e := Did(d, erase, c);
    DidErase(d, erase, c);
    DidCheck(e, check, c);
    ClearedIsBlank(d.flash.mem, e.flash.mem, c.bootStart);
    CheckOfBlank(e.(sent := check), c);
  }

  lemma CheckOfBlank(d: Device, c: Config)
    requires Erasable(d, c) && !NotBlank(d.flash.mem, c.bootStart)
    ensures BlankChecked(d, c.bootStart) == d.(flash := BlankChecked(d, c.bootStart).flash)
  {
    BlankCheckFindsFirst(d, c.bootStart);
  }

  // ---- Two runs that report an error of blank memory ----

  /** A blank check that fails, an erase, and a blank check of the blank memory: the device still reports the failure,
      and an upload answers with the address that was not blank before. */
  lemma FailureOutlivesErase(d: Device, check: Command, erase: Command, again: Command, c: Config)
    requires Erasable(d, c) && !d.isSecure && NotBlank(d.flash.mem, c.bootStart)
    requires Checks(check) && Erases(erase) && Checks(again)
    ensures var e := Did(d, check, c);
            var r := Did(Did(e, erase, c), again, c);
            && Cleared(d.flash.mem, r.flash.mem, 0, c.bootStart)
            && r.state == DfuError && r.status == ErrCheckErased
            && r.LongAddress() == e.LongAddress() < c.bootStart <= |d.flash.mem|
            && d.flash.mem[r.LongAddress()] != BLANK
            && UploadReply(r) == [r.startAddr % 256, r.startAddr / 256 % 256]
  {
    hide Processed, EraseFrom, BlankChecked, Cleared;
    var e := Did(d, check, c);
    DidCheck(d, check, c);
    BlankCheckFindsFirst(d.(sent := check), c.bootStart);
    EraseThenCheck(e, erase, again, c);
    DidErase(e, erase, c);
    DidCheck(Did(e, erase, c), again, c);
  }

  /** A secure device refuses a command, is erased, and finds its memory blank: it still reports the refusal. */
  lemma RefusalOutlivesErase(d: Device, refused: Command, erase: Command, check: Command, c: Config)
    requires Erasable(d, c) && d.isSecure && |refused.data| == 5 && refused.dataSize < 0x1_0000
    requires !AllowedWhenSecure(d.(sent := refused)) && Erases(erase) && Checks(check)
    ensures var r := Did(Did(Did(d, refused, c), erase, c), check, c);
            && !r.isSecure && Cleared(d.flash.mem, r.flash.mem, 0, c.bootStart)
            && r.state == DfuError && r.status == ErrWrite
  {
    hide EraseFrom, BlankChecked, Cleared;
    EraseThenCheck(Did(d, refused, c), erase, check, c);
  }

  // ---- On the bootloader itself ----

  /** A command without data behind its parameters. */
  function Bare(command: byte, first: byte, second: byte): (cmd: Command)
    ensures |cmd.data| == 5 && cmd.dataSize < 0x1_0000
  {
    Command(command, [first, second, 0, 0, 0], 0)
  }

  /** A download of six bytes that starts no transfer. */
  method Issue(b: Bootloader, command: byte, first: byte, second: byte)
    requires b.Valid() && !b.waitForExit
    requires Did(b.View(), Bare(command, first, second), b.c).state != DfuDnloadIdle
    modifies b
    ensures b.Valid() && b.View() == Did(old(b.View()), Bare(command, first, second), b.c)
  {
    hide Processed;
    var packet := [command, first, second, 0, 0, 0];
    assert packet[1..6] == [first, second, 0, 0, 0];
    DfuSession.Request(b, Dnload(6), [packet], []);
  }

  /** The first of those runs as three downloads and an upload: the device reports an error of memory that is blank, and
      the address that was not blank before. */
  method CheckEraseCheck(b: Bootloader) returns (back: seq<byte>, ghost first: nat)
    requires b.Valid() && Erasable(b.View(), b.c) && !b.isSecure && !b.waitForExit
    requires NotBlank(b.flash.mem, b.c.bootStart)
    modifies b
    ensures b.Valid() && Cleared(old(b.flash.mem), b.flash.mem, 0, b.c.bootStart)
    ensures b.dfuState == DfuError && b.dfuStatus == ErrCheckErased
    ensures first < b.c.bootStart <= |old(b.flash.mem)| && old(b.flash.mem)[first] != BLANK
    ensures back == [first % 256, first / 256 % 256]
  {
    hide Processed, EraseFrom, BlankChecked, Cleared, NotBlank, Erasable, UploadReply;
    ghost var d, c := b.View(), b.c;
    var check, erase := Bare(COMMAND_DISP_DATA, 0x01, 0), Bare(COMMAND_WRITE, 0x00, 0xFF);
    FailureOutlivesErase(d, check, erase, check, c);
    StepByStep(d, check, erase, c);
    Issue(b, COMMAND_DISP_DATA, 0x01, 0);
    Issue(b, COMMAND_WRITE, 0x00, 0xFF);
    Issue(b, COMMAND_DISP_DATA, 0x01, 0);
    ghost var r := b.View();
    first := r.LongAddress();
    SameReply(r);
    LowAddress(r.startAddr, r.page64, first);
    back := DfuSession.Upload(b);
  }

  lemma StepByStep(d: Device, check: Command, erase: Command, c: Config)
    requires Erasable(d, c) && Checks(check) && Erases(erase) && !d.isSecure && !d.waitForExit
    requires NotBlank(d.flash.mem, c.bootStart)
    ensures var e := Did(d, check, c);
            && !e.waitForExit && e.state == DfuError
            && var f := Did(e, erase, c);
               !f.waitForExit && f.state == DfuError
  {
    hide Processed, EraseFrom, Cleared;
    DidCheck(d, check, c);
    BlankCheckFindsFirst(d.(sent := check), c.bootStart);
    DidErase(Did(d, check, c), erase, c);
  }

  lemma SameReply(d: Device)
    requires d.Valid()
    ensures UploadReply(Sized(d, 0)) == UploadReply(d)
  {
  }

  lemma LowAddress(addr: nat, page: byte, a: nat)
    requires addr < 0x1_0000 && a == addr + 0x1_0000 * page
    ensures a % 256 == addr % 256 && a / 256 % 256 == addr / 256 % 256
  {
    var p: int := page;
    assert a == addr + 256 * (256 * p);
  }

  // ---- How long a report lasts ----

  /** The command begins to program a range or to display one. */
  predicate Starts(cmd: Command) {
    |cmd.data| == 5
    && ((cmd.command == COMMAND_PROG_START && (cmd.data[0] == 0x00 || cmd.data[0] == 0x01))
        || (cmd.command == COMMAND_DISP_DATA && (cmd.data[0] == 0x00 || cmd.data[0] == 0x02)))
  }

  /** A request that can take a device out of its error state: an ABORT, or a download whose command, or the one
      repeated before it, begins a transfer. */
  predicate CanClear(d: Device, r: Request, e: Device) {
    r.Abort? || (r.Dnload? && (Starts(e.sent) || (d.waitForExit && Starts(d.sent))))
  }

  /** An error state is left only by beginning a transfer, and the status is not reset. */
  predicate ErrorKept(d: Device, e: Device) {
    && (d.state == DfuError && e.state != DfuError ==> Starts(d.sent)) && (d.status != Ok ==> e.status != Ok)
    && e.sent == d.sent
  }

  lemma DisplayKeepsError(d: Device, boot: nat)
    requires d.Valid() && d.sent.command == COMMAND_DISP_DATA
    ensures ErrorKept(d, DataDisplayed(d, boot))
  {
    hide FirstNonBlank;
  }

  /** No command takes an error back but by beginning a transfer, and none resets the status. */
  lemma ProcessedKeepsError(d: Device, c: Config)
    requires d.Valid()
    ensures ErrorKept(d, Processed(d, c))
  {
    hide EraseFrom, DataDisplayed;
    if d.sent.command == COMMAND_DISP_DATA {
      DisplayKeepsError(d, c.bootStart);
    }
  }

  lemma StartsWhatever(a: Command, b: Command)
    requires b == a.(dataSize := b.dataSize)
    ensures Starts(a) == Starts(b)
  {
  }

  lemma StreamedKeepsError(d: Device, e: Device)
    requires Streamed(d, e)
    ensures d.state == DfuError ==> e.state == DfuError
    ensures e.status == d.status && e.sent == d.sent
  {
  }

  lemma StepKeepsError(d: Device, r: Request, e: Device, c: Config)
    requires Step(d, r, e, c)
    ensures d.state == DfuError && e.state != DfuError ==> CanClear(d, r, e)
    ensures d.status != Ok && e.status == Ok ==> r.ClrStatus?
  {
    hide Processed, Flash.Valid, Streamed, Starts;
    if r.Dnload? {
      var s := Sized(d, r.wLength);
      var a := Finished(s, c);
      ProcessedKeepsError(s, c);
      StartsWhatever(d.sent, s.sent);
      if a.sent.dataSize == 0 {
        StreamedKeepsError(a, e);
      } else if e != a {
        var sent: Command :| LoadedStep(a, sent, e, c);
        ProcessedKeepsError(a.(sent := sent), c);
        StreamedKeepsError(Processed(a.(sent := sent), c), e);
      }
    }
  }

  /** In every run an error state lasts until an ABORT or the beginning of a transfer; erasing the memory does not end
      it. */
  lemma {:induction false} ErrorLasts(ds: seq<Device>, rs: seq<Request>, c: Config, i: nat, j: nat)
    requires IsRun(ds, rs, c) && i <= j < |ds| && ds[i].state == DfuError
    requires forall k :: i <= k < j ==> !CanClear(ds[k], rs[k], ds[k + 1])
    ensures ds[j].state == DfuError
    decreases j
  {
    hide Step, CanClear;
    if i < j {
      ErrorLasts(ds, rs, c, i, j - 1);
      assert Step(ds[j - 1], rs[j - 1], ds[j - 1 + 1], c);
      StepKeepsError(ds[j - 1], rs[j - 1], ds[j], c);
    }
  }

  /** In every run a status other than OK lasts until a CLRSTATUS. */
  lemma {:induction false} StatusLasts(ds: seq<Device>, rs: seq<Request>, c: Config, i: nat, j: nat)
    requires IsRun(ds, rs, c) && i <= j < |ds| && ds[i].status != Ok
    requires forall k :: i <= k < j ==> !rs[k].ClrStatus?
    ensures ds[j].status != Ok
    decreases j
  {
    hide Step;
    if i < j {
      StatusLasts(ds, rs, c, i, j - 1);
      assert Step(ds[j - 1], rs[j - 1], ds[j - 1 + 1], c);
      StepKeepsError(ds[j - 1], rs[j - 1], ds[j], c);
    }
  }
}
