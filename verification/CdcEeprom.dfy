/** EEPROM through the CDC bootloader: which bytes a block command writes and reads, stated by their numbers. */
module CdcEeprom {
  import opened ByteMemory
  import opened AvrFlash
  import opened Packets
  import opened CdcDevice
  import CdcImage

  const SPACE: nat := 0x1_0000
  const WORDS: nat := 0x1_0000_0000

  /** What an EEPROM byte reads as. */
  function ByteAt(eeprom: map<int, byte>, k: nat): byte { if k in eeprom then eeprom[k] else BLANK }

  /** The number of the EEPROM byte `i` bytes behind the one that address `a` stands for: half the address, around the
      end of the space. */
  function Number(a: address, i: nat): (k: nat)
    ensures k < SPACE
  {
    (a / 2 + i) % SPACE
  }

  lemma HalfNext(a: address)
    ensures Number(Plus2(a), 0) == Number(a, 1)
  {
    if a + 2 >= WORDS {
      assert a / 2 + 1 == 0x8000_0000 + (a + 2 - WORDS) / 2;
    } else {
      assert (a + 2) / 2 == a / 2 + 1;
    }
  }

  lemma NumberNext(a: address, i: nat, j: nat)
    requires j == i + 1
    ensures Number(Plus2(a), i) == Number(a, j)
  {
    HalfNext(a);
    if a + 2 >= WORDS {
      assert a / 2 + j == 0x8000_0000 + ((a + 2 - WORDS) / 2 + i);
    } else {
      assert (a + 2) / 2 + i == a / 2 + j;
    }
  }

  /** Fewer than 64 K bytes apart means different ones. */
  lemma NumbersDiffer(a: address, i: nat, j: nat)
    requires i < j < i + SPACE
    ensures Number(a, i) != Number(a, j)
  {
    var x, y := a / 2 + i, a / 2 + j;
    assert y - x < SPACE;
  }

  /** How far behind the address's own byte another one lies. */
  lemma DistanceOf(a: address, i: nat, k: nat)
    requires i < SPACE && k == Number(a, i)
    ensures (k - a / 2) % 0x1_0000 == i
  {
    assert k - a / 2 == i - (a / 2 + i) / SPACE * SPACE;
  }

  /** The address has advanced by two for each byte, around the end of its range. */
  lemma {:induction false} AdvancedBy(a: address, n: nat)
    requires n < SPACE
    ensures AddressAfter(a, n) == if a + 2 * n < WORDS then a + 2 * n else a + 2 * n - WORDS
    decreases n
  {
    if n > 0 {
      AdvancedBy(Plus2(a), n - 1);
    }
  }

  /** A block writes byte i to the byte of that number, and no other one. */
  lemma {:induction false} WrittenBytes(eeprom: map<int, byte>, a: address, data: seq<byte>, k: nat)
    requires |data| < SPACE && k < SPACE
    ensures (forall i :: 0 <= i < |data| ==> k != Number(a, i)) ==>
              ByteAt(EepromWritten(eeprom, a, data), k) == ByteAt(eeprom, k)
    ensures forall i :: 0 <= i < |data| && k == Number(a, i) ==> ByteAt(EepromWritten(eeprom, a, data), k) == data[i]
    decreases |data|
  {
    if data != [] {
      var rest, next := data[1..], Plus2(a);
      forall i: nat | i < |rest|
        ensures Number(next, i) == Number(a, i + 1) != Number(a, 0)
      {
        NumberNext(a, i, i + 1);
        NumbersDiffer(a, 0, i + 1);
      }
      WrittenBytes(eeprom[CellOf(a) := data[0]], next, rest, k);
      assert CellOf(a) == Number(a, 0);
      forall i | 0 <= i < |data| && k == Number(a, i)
        ensures ByteAt(EepromWritten(eeprom, a, data), k) == data[i]
      {
        if i > 0 {
          assert k == Number(next, i - 1) && data[i] == rest[i - 1];
        }
      }
    }
  }

  lemma OtherByte(eeprom: map<int, byte>, a: address, data: seq<byte>, k: nat)
    requires |data| < SPACE && k < SPACE && (k - a / 2) % 0x1_0000 >= |data|
    ensures ByteAt(EepromWritten(eeprom, a, data), k) == ByteAt(eeprom, k)
  {
    forall i | 0 <= i < |data|
      ensures k != Number(a, i)
    {
      if k == Number(a, i) {
        DistanceOf(a, i, k);
      }
    }
    WrittenBytes(eeprom, a, data, k);
  }

  /** A block reads the bytes of those numbers. */
  lemma {:induction false} ReadBytes(eeprom: map<int, byte>, a: address, n: nat, i: nat)
    requires i < n
    ensures EepromBytes(eeprom, a, n)[i] == ByteAt(eeprom, Number(a, i))
    decreases n
  {
    if i > 0 {
      ReadBytes(eeprom, Plus2(a), n - 1, i - 1);
      NumberNext(a, i - 1, i);
    }
  }

  // ---- The commands ----

  /** Block commands for EEPROM: the letter, the size high byte first, 'E', and the data. */
  function WriteEeprom(data: seq<byte>): (cmd: command)
    requires |data| < SPACE
  {
    [0x42, |data| / 256, |data| % 256, 0x45] + data
  }

  function ReadEeprom(n: nat): (cmd: command)
    requires n < SPACE
  {
    [0x67, n / 256, n % 256, 0x45]
  }

  /** After a block write at address a, EEPROM byte (a / 2 + i) % 64 K holds byte i of the block, every other byte and
      the flash are as before, and the address has advanced by two for each byte. */
  lemma BlockWrites(m: Machine, data: seq<byte>, c: Config)
    requires m.Valid() && c.Valid() && |data| < SPACE
    ensures var r := Executed(m, WriteEeprom(data), c);
            && r == m.(boottimeout := 0, eeprom := r.eeprom, currAddress := r.currAddress)
            && r.currAddress == (if m.currAddress + 2 * |data| < WORDS then m.currAddress + 2 * |data|
                                 else m.currAddress + 2 * |data| - WORDS)
            && (forall i :: 0 <= i < |data| ==> ByteAt(r.eeprom, (m.currAddress / 2 + i) % 0x1_0000) == data[i])
            && (forall k: nat :: k < 0x1_0000 && (k - m.currAddress / 2) % 0x1_0000 >= |data| ==>
                  ByteAt(r.eeprom, k) == ByteAt(m.eeprom, k))
    ensures Response(m, WriteEeprom(data), c) == [0x0D]
  {
    hide EepromWritten, AddressAfter, ByteAt;
    var cmd := WriteEeprom(data);
    assert cmd[0] == 0x42 && cmd[3] == 0x45 && cmd[4..] == data;
    var r := Executed(m, cmd, c);
    AdvancedBy(m.currAddress, |data|);
    forall i | 0 <= i < |data|
      ensures ByteAt(r.eeprom, (m.currAddress / 2 + i) % 0x1_0000) == data[i]
    {
      WrittenBytes(m.eeprom, m.currAddress, data, Number(m.currAddress, i));
    }
    forall k: nat | k < 0x1_0000 && (k - m.currAddress / 2) % 0x1_0000 >= |data|
      ensures ByteAt(r.eeprom, k) == ByteAt(m.eeprom, k)
    {
      OtherByte(m.eeprom, m.currAddress, data, k);
    }
  }

  /** A block read answers those bytes and advances the address in the same way. */
  lemma BlockReads(m: Machine, n: nat, c: Config)
    requires m.Valid() && c.Valid() && n < SPACE
    ensures var answer := Response(m, ReadEeprom(n), c);
            |answer| == n
            && forall i :: 0 <= i < n ==> answer[i] == ByteAt(m.eeprom, (m.currAddress / 2 + i) % 0x1_0000)
    ensures var r := Executed(m, ReadEeprom(n), c);
            && r == m.(boottimeout := 0, currAddress := r.currAddress)
            && r.currAddress == if m.currAddress + 2 * n < WORDS then m.currAddress + 2 * n
                                else m.currAddress + 2 * n - WORDS
  {
    var cmd := ReadEeprom(n);
    assert cmd[0] == 0x67 && cmd[3] == 0x45;
    AdvancedBy(m.currAddress, n);
    forall i: nat | i < n
      ensures EepromBytes(m.eeprom, m.currAddress, n)[i] == ByteAt(m.eeprom, (m.currAddress / 2 + i) % 0x1_0000)
    {
      ReadBytes(m.eeprom, m.currAddress, n, i);
    }
  }

  /** One byte, by 'D' and 'd'. */
  lemma OneByte(m: Machine, b: byte, c: Config)
    requires m.Valid() && c.Valid()
    ensures Executed(m, [0x44, b], c) == Executed(m, WriteEeprom([b]), c)
    ensures Response(m, [0x44, b], c) == [0x0D]
    ensures Executed(m, [0x64], c) == Executed(m, ReadEeprom(1), c)
    ensures Response(m, [0x64], c) == Response(m, ReadEeprom(1), c)
    ensures Response(m, [0x64], c) == [ByteAt(m.eeprom, m.currAddress / 2 % 0x1_0000)]
  {
    var w := WriteEeprom([b]);
    assert w[4..] == [b] && w[3] == 0x45 && w[0] == 0x42;
    assert EepromWritten(m.eeprom, m.currAddress, [b]) == m.eeprom[CellOf(m.currAddress) := b] by {
      assert [b][1..] == [];
    }
    assert AddressAfter(m.currAddress, 1) == Plus2(m.currAddress);
    assert EepromBytes(m.eeprom, m.currAddress, 1) == [Cell(m.eeprom, m.currAddress)];
  }

  // ---- A session ----

  /** Setting an address, writing a block, setting the address back and reading it answers carriage returns and then
      exactly the data; the bytes lie from the address's word number on. */
  lemma WriteThenReadEeprom(m: Machine, high: byte, low: byte, data: seq<byte>, c: Config, packet: nat)
    requires m.Valid() && c.Valid() && |data| < SPACE && packet > 1
    ensures var cmds: seq<command> :=
              [CdcImage.SetAddress(high, low), WriteEeprom(data), CdcImage.SetAddress(high, low),
               ReadEeprom(|data|)];
            && Answers(m, cmds, c, packet) == [[0x0D], [0x0D], [0x0D]] + Split(data, packet)
            && Ran(m, cmds, c).flash == m.flash
            && (high < 64 ==> forall i :: 0 <= i < |data| ==>
                  ByteAt(Ran(m, cmds, c).eeprom, (256 * high + low + i) % 0x1_0000) == data[i])
  {
    hide Executed, Response, Answers, Ran, AddressOf, Split, WriteEeprom, ReadEeprom, CdcImage.SetAddress, ByteAt;
    var seek: command := CdcImage.SetAddress(high, low);
    var m1 := m.(boottimeout := 0, currAddress := AddressOf(high, low));
    var m2 := Executed(m1, WriteEeprom(data), c);
    var m3 := m2.(boottimeout := 0, currAddress := AddressOf(high, low));
    SessionSteps(m, high, low, data, c, m1, m2, m3);
    FourCommands(m, seek, WriteEeprom(data), seek, ReadEeprom(|data|), c, packet, m1, m2, m3);
    OneByteIsOnePacket(0x0D, packet);
    if high < 64 {
      AddressIsExact(high, low);
    }
  }

  /** The same for one byte with 'D' and 'd'. */
  lemma WriteThenReadOneByte(m: Machine, high: byte, low: byte, b: byte, c: Config, packet: nat)
    requires m.Valid() && c.Valid() && packet > 1
    ensures var seek: command := CdcImage.SetAddress(high, low);
            var cmds: seq<command> := [seek, [0x44, b], seek, [0x64]];
            && Answers(m, cmds, c, packet) == [[0x0D], [0x0D], [0x0D], [b]]
            && Ran(m, cmds, c).flash == m.flash
            && (high < 64 ==> ByteAt(Ran(m, cmds, c).eeprom, 256 * high + low) == b)
  {
    hide Executed, Response, Answers, Ran, AddressOf, Split, WriteEeprom, ReadEeprom, CdcImage.SetAddress, ByteAt;
    var seek: command := CdcImage.SetAddress(high, low);
    var m1 := m.(boottimeout := 0, currAddress := AddressOf(high, low));
    var m2 := Executed(m1, WriteEeprom([b]), c);
    var m3 := m2.(boottimeout := 0, currAddress := AddressOf(high, low));
    SessionSteps(m, high, low, [b], c, m1, m2, m3);
    OneByte(m1, b, c);
    OneByte(m3, b, c);
    FourCommands(m, seek, [0x44, b], seek, [0x64], c, packet, m1, m2, m3);
    OneByteIsOnePacket(0x0D, packet);
    OneByteIsOnePacket(b, packet);
    if high < 64 {
      AddressIsExact(high, low);
      assert (AddressOf(high, low) / 2 + 0) % 0x1_0000 == 256 * high + low;
    }
  }

  lemma SessionSteps(m: Machine, high: byte, low: byte, data: seq<byte>, c: Config, m1: Machine, m2: Machine,
                     m3: Machine)
    requires m.Valid() && c.Valid() && |data| < SPACE
    requires m1 == m.(boottimeout := 0, currAddress := AddressOf(high, low))
    requires m2 == Executed(m1, WriteEeprom(data), c)
    requires m3 == m2.(boottimeout := 0, currAddress := AddressOf(high, low))
    ensures var seek: command := CdcImage.SetAddress(high, low);
            && Executed(m, seek, c) == m1 && Executed(m2, seek, c) == m3
            && Response(m, seek, c) == Response(m2, seek, c) == [0x0D]
    ensures Response(m1, WriteEeprom(data), c) == [0x0D] && Response(m3, ReadEeprom(|data|), c) == data
    ensures Executed(m3, ReadEeprom(|data|), c).flash == m2.flash == m.flash
    ensures Executed(m3, ReadEeprom(|data|), c).eeprom == m2.eeprom
    ensures forall i :: 0 <= i < |data| ==> ByteAt(m2.eeprom, (AddressOf(high, low) / 2 + i) % 0x1_0000) == data[i]
  {
    hide Executed, Response, AddressOf, WriteEeprom, ReadEeprom, CdcImage.SetAddress, ByteAt;
    BlockWrites(m1, data, c);
    SameAddress(m, m2, high, low, c);
    BlockReads(m3, |data|, c);
    ReadsTheData(m1, m2, m3, data, Response(m3, ReadEeprom(|data|), c));
  }

  lemma ReadsTheData(m1: Machine, m2: Machine, m3: Machine, data: seq<byte>, answer: seq<byte>)
    requires |answer| == |data| && m3.eeprom == m2.eeprom && m3.currAddress == m1.currAddress
    requires forall i :: 0 <= i < |data| ==> ByteAt(m2.eeprom, (m1.currAddress / 2 + i) % 0x1_0000) == data[i]
    requires forall i :: 0 <= i < |data| ==> answer[i] == ByteAt(m3.eeprom, (m3.currAddress / 2 + i) % 0x1_0000)
    ensures answer == data
  {
  }

  lemma SameAddress(m: Machine, n: Machine, high: byte, low: byte, c: Config)
    requires m.Valid() && n.Valid() && c.Valid()
    ensures var seek: command := CdcImage.SetAddress(high, low);
            && Executed(m, seek, c) == m.(boottimeout := 0, currAddress := AddressOf(high, low))
            && Executed(n, seek, c) == n.(boottimeout := 0, currAddress := AddressOf(high, low))
            && Response(m, seek, c) == Response(n, seek, c) == [0x0D]
  {
  }

  lemma OneByteIsOnePacket(b: byte, packet: nat)
    requires packet > 1
    ensures Split([b], packet) == [[b]]
  {
  }

  lemma FirstCommand(m: Machine, a: command, c: Config, packet: nat)
    requires m.Valid() && c.Valid() && packet > 0
    ensures Ran(m, [a], c) == Executed(m, a, c)
    ensures Answers(m, [a], c, packet) == Split(Response(m, a, c), packet)
  {
    hide Executed, Response, Split;
    assert [a][..0] == [];
  }

  lemma FourCommands(m: Machine, a: command, b: command, d: command, e: command, c: Config, packet: nat,
                     m1: Machine, m2: Machine, m3: Machine)
    requires m.Valid() && c.Valid() && packet > 0
    requires m1.Valid() && m2.Valid() && m3.Valid()
    requires m1 == Executed(m, a, c) && m2 == Executed(m1, b, c) && m3 == Executed(m2, d, c)
    ensures && Ran(m, [a, b, d, e], c) == Executed(m3, e, c)
            && Answers(m, [a, b, d, e], c, packet) ==
               Split(Response(m, a, c), packet) + Split(Response(m1, b, c), packet)
               + Split(Response(m2, d, c), packet) + Split(Response(m3, e, c), packet)
  {
    hide Executed, Response, Split, Ran, Answers;
    FirstCommand(m, a, c, packet);
    OneMore(m, [a], b, c, packet);
    assert [a] + [b] == [a, b];
    OneMore(m, [a, b], d, c, packet);
    assert [a, b] + [d] == [a, b, d];
    OneMore(m, [a, b, d], e, c, packet);
    assert [a, b, d] + [e] == [a, b, d, e];
  }
}
