/** The CDC bootloader's commands: how long each is, what it does to the device, and what it answers. */
module CdcDevice {
  import opened Arithmetic
  import opened ByteMemory
  import opened AvrFlash
  import opened Packets

  const CR: byte := 0x0D
  const QUESTION: byte := 0x3F
  const TYPE_EEPROM: byte := 0x45
  const TYPE_FLASH: byte := 0x46
  const CMD_SET_ADDRESS: byte := 0x41
  const CMD_WRITE_BLOCK: byte := 0x42
  const CMD_READ_BLOCK: byte := 0x67

  /** The firmware's 32-bit address variable. */
  type address = a: int | 0 <= a < 0x1_0000_0000

  /** Build and fuse constants. */
  datatype Config = Config(bootStart: nat, signature: seq<byte>, lockBits: byte, lowFuse: byte, highFuse: byte,
                           extendedFuse: byte)
  {
    predicate Valid() { |signature| == 3 }
  }

  datatype Machine = Machine(flash: Flash, eeprom: map<int, byte>, currAddress: address, runBootloader: bool,
                             boottimeout: byte) {
    predicate Valid() { flash.Valid() }
  }

  /** Bytes a command is made of: its letter, its parameters, and the data of a block write. */
  function CommandLength(input: seq<byte>): (n: nat)
    requires input != []
    ensures n > 0
  {
    match input[0]
    case 0x54 => 2  // 'T'
    case 0x6C => 2  // 'l'
    case 0x43 => 2  // 'C'
    case 0x63 => 2  // 'c'
    case 0x44 => 2  // 'D'
    case 0x41 => 3  // 'A'
    case 0x67 => 4  // 'g'
    case 0x42 =>    // 'B'
      if |input| >= 4 && (input[3] == TYPE_EEPROM || input[3] == TYPE_FLASH) then 4 + BlockSize(input) else 4
    case _ => 1
  }

  function BlockSize(cmd: seq<byte>): (n: nat)
    requires |cmd| >= 3
    ensures n < 0x1_0000
  {
    var high: int, low: int := cmd[1], cmd[2];
    high * 256 + low
  }

  predicate Complete(cmd: seq<byte>) { cmd != [] && |cmd| == CommandLength(cmd) }

  // ---- Addresses ----

  /** 'A' shifts the high byte left by nine in sixteen signed bits, so it sign-extends when bit 6 is set. */
  function AddressOf(high: byte, low: byte): address
  {
    var shifted: int := high * 512 % 0x1_0000;
    var extended: int := if shifted < 0x8000 then shifted else shifted + 0xFFFF_0000;
    extended + low * 2
  }

  /** The word address arrives intact exactly when it is below 32 KB of bytes. */
  lemma AddressIsExact(high: byte, low: byte)
    ensures AddressOf(high, low) == 2 * (256 * high + low) <==> high < 64
  {
    var h: int := high;
    assert h * 512 % 0x1_0000 == if h < 128 then h * 512 else (h - 128) * 512;
  }

  function Plus2(a: address): address { if a + 2 < 0x1_0000_0000 then a + 2 else a + 2 - 0x1_0000_0000 }

  /** An address with its lowest bit set. */
  function OrOne(a: address): address { if a % 2 == 0 then a + 1 else a }

  // ---- Memory blocks ----

  /** The bytes a flash block read sends: both bytes of a word, then the next word. */
  function FlashBytes(f: Flash, addr: address, high: bool, n: nat): (s: seq<byte>)
    ensures |s| == n
    decreases n
  {
    if n == 0 then []
    else if high then [f.Peek(OrOne(addr))] + FlashBytes(f, Plus2(addr), false, n - 1)
    else [f.Peek(addr)] + FlashBytes(f, addr, true, n - 1)
  }

  /** The address after a block of flash bytes. */
  function FlashEnd(addr: address, high: bool, n: nat): address
    decreases n
  {
    if n == 0 then addr else if high then FlashEnd(Plus2(addr), false, n - 1) else FlashEnd(addr, true, n - 1)
  }

  /** EEPROM pointers are sixteen bits wide, and step through the words of the address. */
  function CellOf(addr: address): int { addr / 2 % 0x1_0000 }

  function Cell(eeprom: map<int, byte>, addr: address): byte {
    if CellOf(addr) in eeprom then eeprom[CellOf(addr)] else BLANK
  }

  function EepromBytes(eeprom: map<int, byte>, addr: address, n: nat): (s: seq<byte>)
    ensures |s| == n
    decreases n
  {
    if n == 0 then [] else [Cell(eeprom, addr)] + EepromBytes(eeprom, Plus2(addr), n - 1)
  }

  function EepromWritten(eeprom: map<int, byte>, addr: address, data: seq<byte>): map<int, byte>
    decreases |data|
  {
    if data == [] then eeprom else EepromWritten(eeprom[CellOf(addr) := data[0]], Plus2(addr), data[1..])
  }

  function AddressAfter(addr: address, n: nat): address
    decreases n
  {
    if n == 0 then addr else AddressAfter(Plus2(addr), n - 1)
  }

  /** The page buffer after a block's bytes: the first byte of a word waits for the second, and one
      that is left over at the end is dropped. */
  function WordsFilled(f: Flash, addr: address, high: bool, low: byte, data: seq<byte>): (r: Flash)
    requires f.Valid()
    ensures r.Valid() && |r.buffer| == |f.buffer| && r.mem == f.mem
    decreases |data|
  {
    if data == [] then f
    else if high then WordsFilled(f.Fill(addr, low, data[0]), Plus2(addr), false, low, data[1..])
    else WordsFilled(f, addr, true, data[0], data[1..])
  }

  /** A block write to flash: the page is erased, filled and written. */
  function BlockWritten(f: Flash, addr: address, data: seq<byte>): (r: Flash)
    requires f.Valid()
    ensures r.Valid() && |r.buffer| == |f.buffer| && |r.mem| == |f.mem| && r.BufferBlank()
  {
    WordsFilled(f.Erase(addr), addr, false, 0, data).Write(addr)
  }

  /** The erase command as written: the address grows by a page and one byte each round. */
  function EraseRounds(f: Flash, addr: nat, boot: nat): (r: Flash)
    requires f.Valid()
    ensures r.Valid()
    decreases boot - addr
  {
    if addr < boot then EraseRounds(f.Erase(addr).Write(addr), addr + f.PageSize() + 1, boot) else f
  }

  // ---- Commands ----

  /** The device after a complete command. */
  function Executed(m: Machine, cmd: seq<byte>, c: Config): (r: Machine)
    requires m.Valid() && Complete(cmd)
  {
    var k := m.(boottimeout := 0);
    match cmd[0]
    case 0x45 => k.(runBootloader := false)                                                     // 'E'
    case 0x41 => k.(currAddress := AddressOf(cmd[1], cmd[2]))                                   // 'A'
    case 0x65 => k.(flash := EraseRounds(m.flash, 0, c.bootStart))                              // 'e'
    case 0x43 => k.(flash := m.flash.Fill(m.currAddress, cmd[1], 0))                            // 'C'
    case 0x63 => k.(flash := m.flash.Fill(OrOne(m.currAddress), cmd[1], 0), currAddress := Plus2(m.currAddress))  // 'c'
    case 0x6D => k.(flash := m.flash.Write(m.currAddress))                                      // 'm'
    case 0x67 =>                                                                                // 'g'
      if cmd[3] == TYPE_FLASH then k.(currAddress := FlashEnd(m.currAddress, false, BlockSize(cmd)))
      else if cmd[3] == TYPE_EEPROM then k.(currAddress := AddressAfter(m.currAddress, BlockSize(cmd)))
      else k
    case 0x42 =>                                                                                // 'B'
      if cmd[3] == TYPE_FLASH then
        k.(flash := BlockWritten(m.flash, m.currAddress, cmd[4..]),
           currAddress := FlashEnd(m.currAddress, false, |cmd| - 4))
      else if cmd[3] == TYPE_EEPROM then
        k.(eeprom := EepromWritten(m.eeprom, m.currAddress, cmd[4..]),
           currAddress := AddressAfter(m.currAddress, |cmd| - 4))
      else k
    case 0x44 =>                                                                                // 'D'
      k.(eeprom := m.eeprom[CellOf(m.currAddress) := cmd[1]], currAddress := Plus2(m.currAddress))
    case 0x64 => k.(currAddress := Plus2(m.currAddress))                                        // 'd'
    case _ => k
  }

  /** What a complete command answers. */
  function Response(m: Machine, cmd: seq<byte>, c: Config): seq<byte>
    requires m.Valid() && c.Valid() && Complete(cmd)
  {
    match cmd[0]
    case 0x74 => [0x44, 0x00]                                                                   // 't'
    case 0x61 => [0x59]                                                                         // 'a'
    case 0x70 => [0x53]                                                                         // 'p'
    case 0x53 => [0x4C, 0x55, 0x46, 0x41, 0x43, 0x44, 0x43]                                     // 'S'
    case 0x56 => [0x31, 0x30]                                                                   // 'V'
    case 0x73 => [c.signature[2], c.signature[1], c.signature[0]]                               // 's'
    case 0x62 => [0x59, m.flash.PageSize() / 256 % 256, m.flash.PageSize() % 256]               // 'b'
    case 0x72 => [c.lockBits]                                                                   // 'r'
    case 0x46 => [c.lowFuse]                                                                    // 'F'
    case 0x4E => [c.highFuse]                                                                   // 'N'
    case 0x51 => [c.extendedFuse]                                                               // 'Q'
    case 0x67 =>                                                                                // 'g'
      if cmd[3] == TYPE_FLASH then FlashBytes(m.flash, m.currAddress, false, BlockSize(cmd))
      else if cmd[3] == TYPE_EEPROM then EepromBytes(m.eeprom, m.currAddress, BlockSize(cmd))
      else [QUESTION]
    case 0x42 => if cmd[3] == TYPE_FLASH || cmd[3] == TYPE_EEPROM then [CR] else [QUESTION]      // 'B'
    case 0x52 => [m.flash.Peek(m.currAddress + 1), m.flash.Peek(m.currAddress)]                 // 'R'
    case 0x64 => [Cell(m.eeprom, m.currAddress)]                                                // 'd'
    case 27 => []
    case k => if k in Acknowledged then [CR] else [QUESTION]
  }

  /** Every command is answered, also one that is not known: only a sync byte and the reading of an empty block are met
      with silence. */
  lemma EveryCommandIsAnswered(m: Machine, cmd: seq<byte>, c: Config)
    requires m.Valid() && c.Valid() && Complete(cmd)
    ensures Response(m, cmd, c) == [] <==>
            cmd[0] == 27 || (cmd[0] == 0x67 && cmd[1] == cmd[2] == 0 && cmd[3] in {0x45, 0x46})
  {
    if cmd[0] == 0x67 && cmd[3] in {0x45, 0x46} {
      var high: int, low: int := cmd[1], cmd[2];
      assert |Response(m, cmd, c)| == high * 256 + low;
    }
  }

  /** Commands that read parameters or change the device. */
  predicate Acts(letter: byte) {
    letter in Acknowledged || letter == CMD_READ_BLOCK || letter == CMD_WRITE_BLOCK || letter == 0x64
  }

  /** Commands answered by a carriage return alone: L P T E A e l C c m D. */
  const Acknowledged: set<byte> := {0x4C, 0x50, 0x54, 0x45, 0x41, 0x65, 0x6C, 0x43, 0x63, 0x6D, 0x44}

  // ---- Runs ----

  type command = cmd: seq<byte> | Complete(cmd) witness [27]

  /** The device after a list of commands. */
  function Ran(m: Machine, cmds: seq<command>, c: Config): (r: Machine)
    requires m.Valid()
    ensures r.Valid()
    decreases |cmds|
  {
    if cmds == [] then m else Executed(Ran(m, cmds[..|cmds| - 1], c), cmds[|cmds| - 1], c)
  }

  /** The packets that answer a list of commands, when the IN endpoint holds `size` bytes. */
  function Answers(m: Machine, cmds: seq<command>, c: Config, size: nat): seq<seq<byte>>
    requires m.Valid() && c.Valid() && size > 0
    decreases |cmds|
  {
    if cmds == [] then []
    else
      var before := cmds[..|cmds| - 1];
      Answers(m, before, c, size) + Split(Response(Ran(m, before, c), cmds[|cmds| - 1], c), size)
  }

  lemma OneMore(m: Machine, cmds: seq<command>, cmd: command, c: Config, size: nat)
    requires m.Valid() && c.Valid() && size > 0
    ensures Ran(m, cmds + [cmd], c) == Executed(Ran(m, cmds, c), cmd, c)
    ensures Answers(m, cmds + [cmd], c, size) ==
        Answers(m, cmds, c, size) + Split(Response(Ran(m, cmds, c), cmd, c), size)
  {
    assert (cmds + [cmd])[..|cmds|] == cmds;
  }

  lemma RanOne(m: Machine, cmd: command, c: Config)
    requires m.Valid()
    ensures Ran(m, [cmd], c) == Executed(m, cmd, c)
  {
    assert [cmd][..0] == [];
  }

  lemma {:induction false} RanAppend(m: Machine, first: seq<command>, second: seq<command>, c: Config, size: nat)
    requires m.Valid() && c.Valid() && size > 0
    ensures Ran(m, first + second, c) == Ran(Ran(m, first, c), second, c)
    ensures Answers(m, first + second, c, size) ==
        Answers(m, first, c, size) + Answers(Ran(m, first, c), second, c, size)
    decreases |second|
  {
    if second == [] {
      assert first + second == first;
    } else {
      var k := |second| - 1;
      var before, last := second[..k], second[k];
      LastOf(first, second, before, last);
      RanAppend(m, first, before, c, size);
      OneMore(m, first + before, last, c, size);
      OneMore(Ran(m, first, c), before, last, c, size);
      Regroup(Answers(m, first, c, size), Answers(Ran(m, first, c), before, c, size),
              Split(Response(Ran(m, first + before, c), last, c), size));
    }
  }

  lemma LastOf<T>(first: seq<T>, second: seq<T>, before: seq<T>, last: T)
    requires second != [] && before == second[..|second| - 1] && last == second[|second| - 1]
    ensures second == before + [last] && first + second == (first + before) + [last]
  {
  }
}
