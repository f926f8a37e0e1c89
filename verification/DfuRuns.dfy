/** What holds in every run of DFU requests: memory is out of reach until it has been erased, and the
    bootloader ends only after a two-step handshake. */
module DfuRuns {
  import opened AvrFlash
  import opened DfuDevice

  /** The class requests, with the length of their data stage. */
  datatype Request = Dnload(wLength: nat) | Upload(wLength: nat) | Query(wLength: nat)
                   | ClrStatus(wLength: nat) | Abort(wLength: nat)

  function Sized(d: Device, wLength: nat): Device { d.(sent := d.sent.(dataSize := wLength)) }

  /** While the device waits to exit, a DNLOAD first runs the previous command again. */
  function Finished(d: Device, c: Config): Device
    requires d.Valid()
  {
    if d.waitForExit then Processed(d, c).(waitForExit := false) else d
  }

  /** The firmware stage of a DNLOAD: it writes memory, and only in the download state. */
  predicate Streamed(d: Device, e: Device) {
    if d.state != DfuDnloadIdle then e == d
    else if d.sent.dataSize == 0 then e == d.(state := DfuIdle)
    else e == d.(flash := e.flash, eeprom := e.eeprom, startAddr := e.startAddr) && d.flash.log <= e.flash.log
  }

  /** A DNLOAD, whatever its data stage holds and whether or not the host completes it. */
  ghost predicate DnloadStep(d: Device, wLength: nat, e: Device, c: Config)
    requires d.Valid() && wLength < 0x1_0000
  {
    var a := Finished(Sized(d, wLength), c);
    if a.sent.dataSize == 0 then Streamed(a, e)
    else e == a || exists sent: Command :: LoadedStep(a, sent, e, c)
  }

  predicate LoadedStep(a: Device, sent: Command, e: Device, c: Config) {
    a.(sent := sent).Valid() && Streamed(Processed(a.(sent := sent), c), e)
  }

  ghost predicate UploadStep(d: Device, e: Device) {
    if d.state != DfuUploadIdle then e == d
    else e == d.(flash := e.flash, startAddr := e.startAddr, state := DfuIdle)
         && e.flash.mem == d.flash.mem && e.flash.buffer == d.flash.buffer && d.flash.log <= e.flash.log
  }

  /** What one request may do. */
  ghost predicate Step(d: Device, r: Request, e: Device, c: Config) {
    && d.Valid() && e.Valid() && r.wLength < 0x1_0000
    && var s := Sized(d, r.wLength);
       match r
       case Dnload(n) => DnloadStep(d, n, e, c)
       case Upload(_) => UploadStep(s, e)
       case Query(_) => e == s
       case ClrStatus(_) => e == s.(status := Ok)
       case Abort(_) => e == s.(state := DfuIdle)
  }

  ghost predicate IsRun(ds: seq<Device>, rs: seq<Request>, c: Config) {
    |ds| == |rs| + 1 && forall i :: 0 <= i < |rs| ==> Step(ds[i], rs[i], ds[i + 1], c)
  }

  // ---- Secure mode ----

  /** Flash as it comes out of reset: nothing done yet, page buffer blank, application in whole pages. */
  predicate FreshFlash(f: Flash, c: Config) {
    && f.Valid() && f.BufferBlank() && f.log == []
    && c.bootStart <= |f.mem| && Aligned(f.PageSize(), c.bootStart)
  }

  /** Locked: nothing has been done to the memory, and no transfer is under way. */
  predicate Locked(d: Device, f: Flash) {
    d.isSecure && !d.waitForExit && d.flash == f && (d.state == DfuIdle || d.state == DfuError)
  }

  /** Just unlocked: exactly the application section was erased. */
  ghost predicate JustErased(d: Device, f: Flash, c: Config)
    requires FreshFlash(f, c)
  {
    && !d.isSecure && (d.state == DfuIdle || d.state == DfuError)
    && Cleared(f.mem, d.flash.mem, 0, c.bootStart)
    && d.flash.log == EraseEvents(0, c.bootStart, f.PageSize())
  }

  lemma LockedStep(d: Device, r: Request, e: Device, f: Flash, c: Config)
    requires FreshFlash(f, c) && Locked(d, f) && Step(d, r, e, c)
    ensures Locked(e, f) || JustErased(e, f, c)
  {
    EraseEvent(f, c);
    if r.Dnload? {
      var a := Sized(d, r.wLength);
      assert Finished(a, c) == a;
      if a.sent.dataSize != 0 && e != a {
        var sent: Command :| LoadedStep(a, sent, e, c);
        LockedCommand(a.(sent := sent), f, c);
      }
    }
  }

  lemma EraseEvent(f: Flash, c: Config)
    requires FreshFlash(f, c)
    ensures Cleared(f.mem, EraseFrom(f, 0, c.bootStart).mem, 0, c.bootStart)
    ensures EraseFrom(f, 0, c.bootStart).log == EraseEvents(0, c.bootStart, f.PageSize())
  {
    EraseClearsApplication(f, 0, c.bootStart);
    FirstEvents(f, c.bootStart);
  }

  lemma FirstEvents(f: Flash, boot: nat)
    requires f.Valid() && f.log == []
    ensures EraseFrom(f, 0, boot).log == EraseEvents(0, boot, f.PageSize())
  {
    var events := EraseEvents(0, boot, f.PageSize());
    EraseTouchesEachPageOnce(f, 0, boot);
    assert [] + events == events;
  }

  lemma LockedCommand(d: Device, f: Flash, c: Config)
    requires FreshFlash(f, c) && d.Valid() && Locked(d, f)
    ensures Locked(Processed(d, c), f) || JustErased(Processed(d, c), f, c)
  {
    hide EraseFrom, EraseEvents, Cleared;
    EraseEvent(f, c);
  }

  /** What any command keeps: the log only grows, secure mode is not entered, a wait for exit is not ended, and
      `RunBootloader` is only cleared by beginning such a wait. */
  predicate Kept(d: Device, e: Device) {
    && d.flash.log <= e.flash.log && (!d.isSecure ==> !e.isSecure) && (d.waitForExit ==> e.waitForExit)
    && (e.runBootloader != d.runBootloader ==> !e.runBootloader && e.waitForExit)
  }

  lemma {:induction false} EraseLogGrows(f: Flash, addr: nat, boot: nat)
    requires f.Valid()
    ensures f.log <= EraseFrom(f, addr, boot).log
    decreases boot - addr
  {
    if addr < boot {
      EraseLogGrows(f.Erase(addr).Write(addr), addr + f.PageSize(), boot);
    }
  }

  lemma StartKeeps(d: Device)
    requires d.Valid()
    ensures Kept(d, ProgStarted(d))
  {
    hide Flash.Valid, Flash.Erase;
    ErasedLog(d.flash, d.AddressesLoaded().LongAddress());
  }

  lemma ErasedLog(f: Flash, addr: nat)
    requires f.Valid()
    ensures f.log <= f.Erase(addr).log
  {
  }

  lemma DisplayKeeps(d: Device, boot: nat)
    requires d.Valid()
    ensures Kept(d, DataDisplayed(d, boot))
  {
    hide FirstNonBlank;
  }

  lemma WriteKeeps(d: Device, boot: nat)
    requires d.Valid()
    ensures Kept(d, DataWritten(d, boot))
  {
    hide EraseFrom;
    EraseLogGrows(d.flash, 0, boot);
  }

  lemma ReadKeeps(d: Device, c: Config)
    requires d.Valid()
    ensures Kept(d, DataRead(d, c))
  {
  }

  lemma CommandKeeps(d: Device, c: Config)
    requires d.Valid()
    ensures Kept(d, Processed(d, c))
  {
    hide ProgStarted, DataDisplayed, DataWritten, DataRead;
    StartKeeps(d);
    DisplayKeeps(d, c.bootStart);
    WriteKeeps(d, c.bootStart);
    ReadKeeps(d, c);
  }

  lemma UnlockedStaysUnlocked(d: Device, r: Request, e: Device, c: Config)
    requires !d.isSecure && Step(d, r, e, c)
    ensures !e.isSecure && d.flash.log <= e.flash.log
  {
    hide Processed, Flash.Valid;
    if r.Dnload? {
      var a := Finished(Sized(d, r.wLength), c);
      CommandKeeps(Sized(d, r.wLength), c);
      if a.sent.dataSize != 0 && e != a {
        var sent: Command :| LoadedStep(a, sent, e, c);
        CommandKeeps(a.(sent := sent), c);
      }
    }
  }

  /** A secure device is locked; an unlocked one has erased every application page before anything else. */
  predicate Guarded(d: Device, f: Flash, c: Config)
    requires FreshFlash(f, c)
  {
    if d.isSecure then Locked(d, f) else EraseEvents(0, c.bootStart, f.PageSize()) <= d.flash.log
  }

  lemma GuardedStep(d: Device, r: Request, e: Device, f: Flash, c: Config)
    requires FreshFlash(f, c) && Guarded(d, f, c) && Step(d, r, e, c)
    ensures Guarded(e, f, c)
    ensures d.isSecure && !e.isSecure ==> JustErased(e, f, c)
    ensures !d.isSecure ==> !e.isSecure
  {
    if d.isSecure {
      LockedStep(d, r, e, f, c);
    } else {
      UnlockedStaysUnlocked(d, r, e, c);
    }
  }

  lemma {:induction false} GuardedThroughout(ds: seq<Device>, rs: seq<Request>, f: Flash, c: Config, i: nat)
    requires FreshFlash(f, c) && IsRun(ds, rs, c) && Locked(ds[0], f) && i < |ds|
    ensures Guarded(ds[i], f, c)
  {
    hide Step;
    if i > 0 {
      GuardedThroughout(ds, rs, f, c, i - 1);
      assert Step(ds[i - 1], rs[i - 1], ds[i - 1 + 1], c);
      GuardedStep(ds[i - 1], rs[i - 1], ds[i], f, c);
    }
  }

  /** In every run that starts locked: as long as the device is secure it is idle or in error and memory is
      untouched; once it is not secure, the first things ever done to memory are the erasure of every
      application page, so no program or read comes before it; and the request that ends secure mode leaves
      exactly the application section blank. */
  lemma SecureUntilErased(ds: seq<Device>, rs: seq<Request>, f: Flash, c: Config, i: nat)
    requires FreshFlash(f, c) && IsRun(ds, rs, c) && Locked(ds[0], f) && i < |rs|
    ensures ds[i].isSecure ==> Locked(ds[i], f)
    ensures !ds[i].isSecure ==> EraseEvents(0, c.bootStart, f.PageSize()) <= ds[i].flash.log
    ensures ds[i].isSecure && !ds[i + 1].isSecure ==> JustErased(ds[i + 1], f, c)
  {
    GuardedThroughout(ds, rs, f, c, i);
    assert Step(ds[i], rs[i], ds[i + 1], c);
    GuardedStep(ds[i], rs[i], ds[i + 1], f, c);
  }

  /** Secure mode, once left, never comes back. */
  lemma {:induction false} SecureNeverReturns(ds: seq<Device>, rs: seq<Request>, c: Config, i: nat, j: nat)
    requires IsRun(ds, rs, c) && i <= j < |ds| && !ds[i].isSecure
    ensures !ds[j].isSecure
    decreases j
  {
    hide Step;
    if i < j {
      SecureNeverReturns(ds, rs, c, i, j - 1);
      assert Step(ds[j - 1], rs[j - 1], ds[j - 1 + 1], c);
      UnlockedStaysUnlocked(ds[j - 1], rs[j - 1], ds[j], c);
    }
  }

  // ---- The exit handshake ----

  /** The main loop goes on while this does not hold. */
  predicate Exits(d: Device) { !d.runBootloader && !d.waitForExit }

  /** Request i of the run is a DNLOAD that makes the device wait for exit. */
  ghost predicate Announces(ds: seq<Device>, rs: seq<Request>, i: nat) {
    i < |rs| && |ds| == |rs| + 1 && rs[i].Dnload? && !ds[i].waitForExit && ds[i + 1].waitForExit
  }

  /** Request j of the run is a DNLOAD that finds the device waiting and ends the wait. */
  ghost predicate Confirms(ds: seq<Device>, rs: seq<Request>, j: nat) {
    j < |rs| && |ds| == |rs| + 1 && rs[j].Dnload? && ds[j].waitForExit && !ds[j + 1].waitForExit
  }

  ghost predicate ShookHands(ds: seq<Device>, rs: seq<Request>, n: nat) {
    exists i: nat, j: nat :: i < j < n && Announces(ds, rs, i) && Confirms(ds, rs, j)
  }

  /** Only a DNLOAD touches the two flags; clearing `RunBootloader` while not waiting starts a wait, and
      `RunBootloader` is never set again. */
  lemma HandshakeStep(d: Device, r: Request, e: Device, c: Config)
    requires Step(d, r, e, c)
    ensures !r.Dnload? ==> e.runBootloader == d.runBootloader && e.waitForExit == d.waitForExit
    ensures d.runBootloader && !e.runBootloader && !d.waitForExit ==> e.waitForExit
    ensures !d.runBootloader ==> !e.runBootloader
  {
    hide Processed, Flash.Valid;
    if r.Dnload? {
      var a := Finished(Sized(d, r.wLength), c);
      CommandKeeps(Sized(d, r.wLength), c);
      if a.sent.dataSize != 0 && e != a {
        var sent: Command :| LoadedStep(a, sent, e, c);
        CommandKeeps(a.(sent := sent), c);
      }
    }
  }

  lemma {:induction false} WaitWasAnnounced(ds: seq<Device>, rs: seq<Request>, n: nat, c: Config) returns (i: nat)
    requires IsRun(ds, rs, c) && !ds[0].waitForExit && n <= |rs| && ds[n].waitForExit
    ensures i < n && Announces(ds, rs, i)
    decreases n
  {
    hide Step;
    assert n > 0;
    assert Step(ds[n - 1], rs[n - 1], ds[n - 1 + 1], c);
    HandshakeStep(ds[n - 1], rs[n - 1], ds[n], c);
    if ds[n - 1].waitForExit {
      i := WaitWasAnnounced(ds, rs, n - 1, c);
    } else {
      i := n - 1;
    }
  }

  /** Once `RunBootloader` is cleared the device waits, or the handshake is complete. */
  lemma {:induction false} WaitsOrShookHands(ds: seq<Device>, rs: seq<Request>, n: nat, c: Config)
    requires IsRun(ds, rs, c) && ds[0].runBootloader && !ds[0].waitForExit
    requires n <= |rs| && !ds[n].runBootloader
    ensures ds[n].waitForExit || ShookHands(ds, rs, n)
    decreases n
  {
    hide Step;
    if n > 0 {
      assert Step(ds[n - 1], rs[n - 1], ds[n - 1 + 1], c);
      HandshakeStep(ds[n - 1], rs[n - 1], ds[n], c);
      if !ds[n - 1].runBootloader {
        WaitsOrShookHands(ds, rs, n - 1, c);
      }
      if ds[n - 1].waitForExit && !ds[n].waitForExit {
        var i := WaitWasAnnounced(ds, rs, n - 1, c);
        assert Announces(ds, rs, i) && Confirms(ds, rs, n - 1);
      }
    }
  }

  /** In every run, the main loop can end only after one DNLOAD made the device wait for exit and a later
      DNLOAD ended the wait. */
  lemma ExitNeedsTwoDnloads(ds: seq<Device>, rs: seq<Request>, n: nat, c: Config)
    requires IsRun(ds, rs, c) && ds[0].runBootloader && !ds[0].waitForExit
    requires n <= |rs| && Exits(ds[n])
    ensures exists i: nat, j: nat :: i < j < n && Announces(ds, rs, i) && Confirms(ds, rs, j)
  {
    WaitsOrShookHands(ds, rs, n, c);
  }
}
