/** Writing an image page by page through the CDC bootloader, and reading it back. */
module CdcImage {
  import opened ByteMemory
  import opened AvrFlash
  import opened Packets
  import opened CdcDevice

  // ---- The host's commands ----

  function SetAddress(high: byte, low: byte): (cmd: command)
  {
    [CMD_SET_ADDRESS, high, low]
  }

  function WriteBlock(data: seq<byte>): (cmd: command)
    requires |data| < 0x1_0000
  {
    [CMD_WRITE_BLOCK, |data| / 256, |data| % 256, TYPE_FLASH] + data
  }

  function ReadBlock(n: nat): (cmd: command)
    requires n < 0x1_0000
  {
    [CMD_READ_BLOCK, n / 256, n % 256, TYPE_FLASH]
  }

  /** One block for each page of the image. */
  function WriteCommands(image: seq<byte>, size: nat): (cmds: seq<command>)
    requires 0 < size < 0x1_0000
    decreases |image|
  {
    if |image| <= size then [WriteBlock(image)] else [WriteBlock(image[..size])] + WriteCommands(image[size..], size)
  }

  // ---- One block ----

  lemma {:induction false} WholeWords(f: Flash, n: nat, base: nat, before: seq<byte>, data: seq<byte>, addr: address,
                                      low: byte)
    requires f.Valid() && f.PageSize() == n && Aligned(n, base) && addr == base + |before| && base + n < 0x1_0000_0000
    requires Even(|before|) && Even(|data|) && |before| + |data| <= n && f.buffer == Padded(before, n)
    ensures WordsFilled(f, addr, false, low, data).buffer == Padded(before + data, n)
    ensures FlashEnd(addr, false, |data|) == addr + |data|
    decreases |data|
  {
    hide Flash.Fill;
    if data == [] {
      assert before + data == before;
    } else {
      var word, rest := [data[0], data[1]], data[2..];
      NextEven(|before|);
      EvenRest(|data|, 2, |rest|);
      assert |before + word| == |before| + 2;
      FillAppends(f, base, before, addr, data[0], data[1]);
      var g := f.Fill(addr, data[0], data[1]);
      assert data[1..][0] == data[1] && data[1..][1..] == rest;
      WholeWords(g, n, base, before + word, rest, addr + 2, data[0]);
      assert before + word + rest == before + data;
    }
  }

  /** A block written `k` bytes into a page leaves the rest of that page blank, in front of the block and behind it. */
  lemma BlockAt(f: Flash, base: nat, k: nat, data: seq<byte>, addr: address)
    requires f.Valid() && f.BufferBlank() && IsPage(f, base) && addr == base + k && |f.mem| < 0x1_0000_0000
    requires Even(k) && Even(|data|) && k + |data| <= f.PageSize() && k < f.PageSize()
    ensures BlockWritten(f, addr, data).mem == Overwrite(f.mem, base, Padded(Repeat(BLANK, k) + data, f.PageSize()))
    ensures FlashEnd(addr, false, |data|) == addr + |data|
  {
    var n, before := f.PageSize(), Repeat(BLANK, k);
    WithinPage(n, base, k, addr);
    WithinPage(n, base, 0, base);
    assert Padded(before, n) == Repeat(BLANK, n);
    EraseIsPatch(f, base);
    var e := f.Erase(addr);
    assert e.mem == f.Erase(base).mem;
    WholeWords(e, n, base, before, data, addr, 0);
    var g := WordsFilled(e, addr, false, 0, data);
    assert [] + Repeat(BLANK, n) == Repeat(BLANK, n) && [] + Padded(before + data, n) == Padded(before + data, n);
    PatchTail(f.mem, base, [], Repeat(BLANK, n), Padded(before + data, n), base);
    WriteToErased(g, base, before + data);
    assert g.Write(addr).mem == g.Write(base).mem;
  }

  /** What a write command does `k` bytes into a page. */
  lemma BlockCommand(m: Machine, base: nat, k: nat, data: seq<byte>, c: Config)
    requires m.Valid() && m.flash.BufferBlank() && IsPage(m.flash, base) && m.currAddress == base + k
    requires |m.flash.mem| < 0x1_0000_0000
    requires Even(k) && Even(|data|) && k + |data| <= m.flash.PageSize() && k < m.flash.PageSize()
    ensures var r := Executed(m, WriteBlock(data), c);
            && r.flash.mem == Overwrite(m.flash.mem, base, Padded(Repeat(BLANK, k) + data, m.flash.PageSize()))
            && r.flash.BufferBlank() && r.flash.PageSize() == m.flash.PageSize()
            && r.currAddress == m.currAddress + |data|
  {
    var cmd := WriteBlock(data);
    assert cmd[4..] == data && cmd[0] == CMD_WRITE_BLOCK && cmd[3] == TYPE_FLASH;
    BlockAt(m.flash, base, k, data, m.currAddress);
  }

  /** What it does at a page boundary. */
  lemma PageBlock(m: Machine, data: seq<byte>, c: Config)
    requires m.Valid() && m.flash.BufferBlank() && IsPage(m.flash, m.currAddress) && |m.flash.mem| < 0x1_0000_0000
    requires Even(|data|) && |data| <= m.flash.PageSize()
    ensures var r := Executed(m, WriteBlock(data), c);
            && r.flash.mem == Overwrite(m.flash.mem, m.currAddress, Padded(data, m.flash.PageSize()))
            && r.flash.BufferBlank() && r.flash.PageSize() == m.flash.PageSize()
            && r.currAddress == m.currAddress + |data|
  {
    assert Repeat(BLANK, 0) + data == data;
    BlockCommand(m, m.currAddress, 0, data, c);
  }

  // ---- The whole image ----

  lemma {:induction false} ImageWritten(m: Machine, image: seq<byte>, c: Config, size: nat, start: nat)
    requires m.Valid() && m.flash.BufferBlank() && m.flash.PageSize() == size && m.currAddress == start
    requires c.Valid() && Aligned(size, start) && image != [] && Even(|image|) && |m.flash.mem| < 0x1_0000_0000
    requires start + |image| + PadLength(size, |image|) <= |m.flash.mem|
    ensures var r := Ran(m, WriteCommands(image, size), c);
            r.flash.mem == Programmed(m.flash.mem, start, image, size) && r.flash.PageSize() == size
                && r.flash.BufferBlank()
    decreases |image|
  {
    var cmds := WriteCommands(image, size);
    if |image| <= size {
      PadOfLastPage(size, 0, |image|);
      PageBlock(m, image, c);
      RanOne(m, cmds[0], c);
    } else {
      var page, rest, next := image[..size], image[size..], start + size;
      CutAt(image, size, page, rest);
      FullPage(m, page, c, size, start, next);
      PadOfRest(size, |image|, |rest|);
      EvenRest(|image|, size, |rest|);
      var more := WriteCommands(rest, size);
      RanAppend(m, [cmds[0]], more, c, 1);
      RanOne(m, cmds[0], c);
      ImageWritten(Executed(m, cmds[0], c), rest, c, size, next);
      PageThenRest(m.flash.mem, start, page, rest, image, size, next);
    }
  }

  /** A block that fills its page. */
  lemma FullPage(m: Machine, page: seq<byte>, c: Config, size: nat, start: nat, next: nat)
    requires m.Valid() && m.flash.BufferBlank() && m.flash.PageSize() == size && m.currAddress == start
    requires next == start + size
    requires Aligned(size, start) && |page| == size && start < |m.flash.mem| < 0x1_0000_0000
    ensures var r := Executed(m, WriteBlock(page), c);
            && next <= |m.flash.mem| && r.flash.mem == Overwrite(m.flash.mem, start, page)
            && r.flash.BufferBlank() && r.flash.PageSize() == size && r.currAddress == next
    ensures Aligned(size, next)
  {
    NextPage(size, start, next);
    PageFits(size, start, |m.flash.mem|);
    PageBlock(m, page, c);
    assert Padded(page, size) == page;
  }

  lemma CutAt(image: seq<byte>, size: nat, page: seq<byte>, rest: seq<byte>)
    requires size <= |image| && page == image[..size] && rest == image[size..]
    ensures image == page + rest && |page| == size && |rest| == |image| - size
  {
  }

  lemma PageThenRest(mem: seq<byte>, start: nat, page: seq<byte>, rest: seq<byte>, image: seq<byte>, size: nat,
                     next: nat)
    requires 0 < size < |image| && |page| == size && image == page + rest && next == start + size
    requires start + |image| + PadLength(size, |image|) <= |mem| && PadLength(size, |rest|) == PadLength(size, |image|)
    ensures Programmed(Overwrite(mem, start, page), next, rest, size) == Programmed(mem, start, image, size)
  {
    var tail := rest + Repeat(BLANK, PadLength(size, |rest|));
    assert page + tail == image + Repeat(BLANK, PadLength(size, |image|));
    PatchNext(mem, start, page, tail, next);
  }

  lemma EvenRest(x: int, y: int, z: int)
    requires Even(x) && Even(y) && z == x - y
    ensures Even(z)
  {
  }

  lemma PadOfRest(size: nat, length: nat, rest: nat)
    requires 0 < size < length && rest == length - size
    ensures PadLength(size, rest) == PadLength(size, length)
  {
  }

  /** A flash read in whole bytes from an even address returns the memory there. */
  lemma {:induction false} ReadsMemory(f: Flash, addr: address, n: nat)
    requires Even(addr) && addr + n <= |f.mem| < 0x1_0000_0000
    ensures FlashBytes(f, addr, false, n) == f.mem[addr..addr + n]
    decreases n
  {
    if n == 1 {
      assert f.mem[addr..addr + 1] == [f.mem[addr]];
      assert FlashBytes(f, addr, true, 0) == [];
    } else if n > 1 {
      NextEven(addr);
      var rest := FlashBytes(f, addr + 2, false, n - 2);
      assert addr + 2 <= |f.mem|;
      if n > 2 {
        ReadsMemory(f, addr + 2, n - 2);
      }
      assert f.mem[addr..addr + n] == [f.mem[addr], f.mem[addr + 1]] + f.mem[addr + 2..addr + n];
    }
  }

  // ---- Writing, then reading ----

  predicate Acks(cmd: command) { cmd[0] == CMD_SET_ADDRESS || (cmd[0] == CMD_WRITE_BLOCK && cmd[3] == TYPE_FLASH) }

  /** Address and block commands are answered by a carriage return and nothing else. */
  lemma {:induction false} Acknowledgements(m: Machine, cmds: seq<command>, c: Config, size: nat)
    requires m.Valid() && c.Valid() && size > 1
    requires forall i :: 0 <= i < |cmds| ==> Acks(cmds[i])
    ensures Answers(m, cmds, c, size) == seq(|cmds|, i => [CR])
    decreases |cmds|
  {
    if cmds != [] {
      Acknowledgements(m, cmds[..|cmds| - 1], c, size);
    }
  }

  function WriteSession(high: byte, low: byte, image: seq<byte>, size: nat): (cmds: seq<command>)
    requires 0 < size < 0x1_0000
  {
    [SetAddress(high, low)] + WriteCommands(image, size) + [SetAddress(high, low)]
  }

  /** The device when the image has been written and the address set back to its start. */
  lemma SessionWrites(m: Machine, high: byte, low: byte, image: seq<byte>, c: Config, start: nat, size: nat)
    requires m.Valid() && c.Valid() && m.flash.BufferBlank() && |m.flash.mem| < 0x1_0000_0000
    requires m.flash.PageSize() == size
    requires high < 64 && start == 2 * (256 * high + low) && Aligned(size, start)
    requires image != [] && Even(|image|) && start + |image| + PadLength(size, |image|) <= |m.flash.mem|
    ensures var r := Ran(m, WriteSession(high, low, image, size), c);
            r.flash.mem == Programmed(m.flash.mem, start, image, size) && r.currAddress == start
                && r.flash.PageSize() == size
  {
    var seek, pages := SetAddress(high, low), WriteCommands(image, size);
    AddressIsExact(high, low);
    RanOne(m, seek, c);
    var m1 := Ran(m, [seek], c);
    ImageWritten(m1, image, c, size, start);
    RanAppend(m, [seek], pages, c, 1);
    OneMore(m, [seek] + pages, seek, c, 1);
  }

  /** A page-aligned image of whole words below 32 KB that is written one page to a block is in flash afterwards,
      and reading it back returns it, packet by packet. */
  lemma WriteThenRead(m: Machine, high: byte, low: byte, image: seq<byte>, c: Config, start: nat, size: nat,
                      packet: nat)
    requires m.Valid() && c.Valid() && m.flash.BufferBlank() && |m.flash.mem| < 0x1_0000_0000
    requires m.flash.PageSize() == size
    requires high < 64 && start == 2 * (256 * high + low) && Aligned(size, start)
    requires image != [] && Even(|image|) && |image| < 0x1_0000
    requires start + |image| + PadLength(size, |image|) <= |m.flash.mem|
    requires packet > 1
    ensures var writes := WriteSession(high, low, image, size);
            && Ran(m, writes, c).flash.mem == Programmed(m.flash.mem, start, image, size)
            && Answers(m, writes + [ReadBlock(|image|)], c, packet) == seq(|writes|, i => [CR]) + Split(image, packet)
  {
    var writes := WriteSession(high, low, image, size);
    SessionWrites(m, high, low, image, c, start, size);
    var r := Ran(m, writes, c);
    OneMore(m, writes, ReadBlock(|image|), c, packet);
    EvenDouble(256 * high + low, start);
    ReadImage(r, start, image, m.flash.mem, c, size);
    SessionAcks(high, low, image, size, writes);
    Acknowledgements(m, writes, c, packet);
  }

  lemma ReadImage(r: Machine, start: nat, image: seq<byte>, mem: seq<byte>, c: Config, size: nat)
    requires r.Valid() && size > 0 && c.Valid() && r.currAddress == start && Even(start) && |image| < 0x1_0000
    requires |mem| < 0x1_0000_0000
    requires start + |image| + PadLength(size, |image|) <= |mem| && r.flash.mem == Programmed(mem, start, image, size)
    ensures Response(r, ReadBlock(|image|), c) == image
  {
    ReadsMemory(r.flash, start, |image|);
    assert r.flash.mem[start..start + |image|] == image;
  }

  lemma EvenDouble(x: int, y: int)
    requires y == 2 * x
    ensures Even(y)
  {
  }

  lemma {:induction false} PagesAck(image: seq<byte>, size: nat)
    requires 0 < size < 0x1_0000
    ensures forall i :: 0 <= i < |WriteCommands(image, size)| ==> Acks(WriteCommands(image, size)[i])
    decreases |image|
  {
    if |image| <= size {
      BlockAcks(image);
    } else {
      BlockAcks(image[..size]);
      PagesAck(image[size..], size);
    }
  }

  lemma BlockAcks(data: seq<byte>)
    requires |data| < 0x1_0000
    ensures Acks(WriteBlock(data))
  {
    assert WriteBlock(data)[0] == CMD_WRITE_BLOCK && WriteBlock(data)[3] == TYPE_FLASH;
  }

  lemma SessionAcks(high: byte, low: byte, image: seq<byte>, size: nat, writes: seq<command>)
    requires 0 < size < 0x1_0000 && writes == WriteSession(high, low, image, size)
    ensures forall i :: 0 <= i < |writes| ==> Acks(writes[i])
  {
    PagesAck(image, size);
  }

  // ---- Short blocks ----

  /** A block that does not reach the end of its page is lost when the next one is written, unless all its bytes are
      blank: the next block erases the page again. */
  lemma ShortBlockSurvives(m: Machine, first: seq<byte>, second: seq<byte>, c: Config, base: nat, mid: address,
                           end: nat)
    requires m.Valid() && m.flash.BufferBlank() && IsPage(m.flash, base) && |m.flash.mem| < 0x1_0000_0000 && c.Valid()
    requires Even(|first|) && Even(|second|) && |first| < m.flash.PageSize() && |first| + |second| <= m.flash.PageSize()
    requires m.currAddress == base && mid == base + |first| && end == mid + |second|
    ensures var r := Ran(m, [WriteBlock(first), WriteBlock(second)], c);
            && end <= |r.flash.mem| && r.flash.mem[mid..end] == second
            && (r.flash.mem[base..mid] == first <==> first == Repeat(BLANK, |first|))
  {
    PageBlock(m, first, c);
    var one, two := WriteBlock(first), WriteBlock(second);
    RanOne(m, one, c);
    OneMore(m, [one], two, c, 1);
    assert [one, two] == [one] + [two];
    var m1 := Executed(m, one, c);
    BlockCommand(m1, base, |first|, second, c);
    var after := Ran(m, [one, two], c).flash.mem;
    SecondOverFirst(m1.flash.mem, base, mid, end, first, second, m1.flash.PageSize(), after);
  }

  lemma SecondOverFirst(mem: seq<byte>, base: nat, mid: nat, end: nat, first: seq<byte>, second: seq<byte>, n: nat,
                        after: seq<byte>)
    requires |first| + |second| <= n && base + n <= |mem| && mid == base + |first| && end == mid + |second|
    requires after == Overwrite(mem, base, Padded(Repeat(BLANK, |first|) + second, n))
    ensures end <= |after| && after[mid..end] == second
    ensures after[base..mid] == first <==> first == Repeat(BLANK, |first|)
  {
    assert after[base..mid] == Repeat(BLANK, |first|);
  }
}
