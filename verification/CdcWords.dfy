/** The CDC bootloader's commands for single words of flash: filling, writing and reading one. */
module CdcWords {
  import opened Arithmetic
  import opened ByteMemory
  import opened AvrFlash
  import opened Packets
  import opened CdcDevice
  import opened CdcEeprom

  lemma AndZero(b: byte)
    ensures And(b, 0) == 0 && And(0, b) == 0
  {
    assert (b as bv8) & 0 == 0;
    assert 0 & (b as bv8) == 0;
  }

  /** In pages of even size the two bytes of a word lie in one page. */
  lemma {:induction false} OffsetOfWord(n: nat, a: nat)
    requires n > 0 && Even(n)
    ensures Even(Offset(n, a)) <==> Even(a)
    ensures Even(a) ==> Offset(n, a + 1) == Offset(n, a) + 1
    decreases a
  {
    hide Even;
    WordParity(n, a);
    if a >= n {
      OffsetOfWord(n, a - n);
    }
  }

  lemma WordParity(n: nat, a: nat)
    requires n > 0 && Even(n)
    ensures Even(a) && a < n ==> a + 1 < n
    ensures a >= n ==> (Even(a - n) <==> Even(a))
  {
  }

  lemma SameWord(n: nat, a: address, at: nat)
    requires n > 0 && Even(n) && at == a % n / 2 * 2
    ensures WordOffset(n, a) == at && WordOffset(n, OrOne(a)) == at && at + 1 < n
  {
    OffsetIsRemainder(n, a);
    OffsetOfWord(n, a);
  }

  lemma WordFilledBy(f: Flash, a: address, v: byte, at: nat)
    requires f.Valid() && at == WordOffset(f.PageSize(), a)
    ensures f.Fill(a, v, 0).buffer == f.buffer[at := And(f.buffer[at], v)][at + 1 := 0]
    ensures f.Fill(a, v, 0).mem == f.mem
  {
    AndZero(f.buffer[at + 1]);
  }

  /** 'C' and 'c' both fill the word of the address with their byte as the low one and zero as the high one, because
      they pass a byte where a word is asked for. Only 'c' goes on to the next word. */
  lemma FillCommands(m: Machine, v: byte, c: Config, at: nat)
    requires m.Valid() && at == m.currAddress % m.flash.PageSize() / 2 * 2
    ensures at + 1 < |m.flash.buffer|
    ensures Executed(m, [0x43, v], c).Valid() && Executed(m, [0x63, v], c).Valid()
    ensures var b := m.flash.buffer;
            var high, low := Executed(m, [0x43, v], c), Executed(m, [0x63, v], c);
            && high.flash.buffer == low.flash.buffer == b[at := And(b[at], v)][at + 1 := 0]
            && high.flash.mem == low.flash.mem == m.flash.mem
            && high == m.(boottimeout := 0, flash := high.flash)
            && low == m.(boottimeout := 0, flash := low.flash, currAddress := low.currAddress)
            && low.currAddress == (m.currAddress + 2) % 0x1_0000_0000
  {
    hide Flash.Fill, OrOne, And;
    SameWord(m.flash.PageSize(), m.currAddress, at);
    WordFilledBy(m.flash, m.currAddress, v, at);
    WordFilledBy(m.flash, OrOne(m.currAddress), v, at);
  }

  /** 'm' keeps, in the page of the address, the bits that are set in the page buffer too. */
  lemma WriteCommand(m: Machine, c: Config, j: nat, base: nat)
    requires m.Valid() && base == m.currAddress / m.flash.PageSize() * m.flash.PageSize() && j < |m.flash.mem|
    ensures var r := Executed(m, [0x6D], c);
            && r == m.(boottimeout := 0, flash := r.flash) && |r.flash.mem| == |m.flash.mem|
            && r.flash.mem[j] == if base <= j < base + m.flash.PageSize()
                                 then And(m.flash.mem[j], m.flash.buffer[j - base])
                                 else m.flash.mem[j]
  {
    hide Flash.Write, And;
    PageStart(m.flash.PageSize(), m.currAddress, m.currAddress / m.flash.PageSize());
    PageKept(m.flash, m.currAddress, base, j);
  }

  lemma PageKept(f: Flash, a: nat, base: nat, j: nat)
    requires f.Valid() && base == PageBase(f.PageSize(), a) && Aligned(f.PageSize(), base) && j < |f.mem|
    ensures f.Write(a).mem[j] ==
            if base <= j < base + f.PageSize() then And(f.mem[j], f.buffer[j - base]) else f.mem[j]
  {
    hide And, Offset;
    if base <= j < base + f.PageSize() {
      PageFits(f.PageSize(), base, |f.mem|);
    }
  }

  lemma PageStart(n: nat, a: nat, page: nat)
    requires n > 0 && page == a / n
    ensures PageBase(n, a) == page * n && Aligned(n, page * n)
  {
    OffsetIsRemainder(n, a);
    QuotientUnique(page * n, page, n, 0);
    OffsetIsRemainder(n, page * n);
  }

  /** 'R' answers the word at an even address high byte first, which a block read of two bytes answers low byte first;
      'b' answers the size of a page high byte first. */
  lemma ReadCommands(m: Machine, c: Config)
    requires m.Valid() && c.Valid()
    ensures Even(m.currAddress) ==>
              var word, bytes := Response(m, [0x52], c), Response(m, [0x67, 0x00, 0x02, 0x46], c);
              |word| == |bytes| == 2 && word[0] == bytes[1] && word[1] == bytes[0]
    ensures var page := Response(m, [0x62], c);
            |page| == 3 && page[0] == 0x59 && BlockSize(page) == m.flash.PageSize()
  {
    if Even(m.currAddress) {
      var a := m.currAddress;
      assert FlashBytes(m.flash, a, false, 2) == [m.flash.Peek(a)] + FlashBytes(m.flash, a, true, 1);
      assert FlashBytes(m.flash, a, true, 1) == [m.flash.Peek(a + 1)] + FlashBytes(m.flash, Plus2(a), false, 0);
    }
  }

  /** The place of a word in its page, and of its second byte. */
  lemma PlaceOfWord(n: nat, a: nat, at: nat, base: nat)
    requires n > 0 && Even(n) && Even(a) && at == a % n / 2 * 2 && base == a / n * n
    ensures base <= a && a + 1 < base + n && a - base == at
  {
    OffsetIsRemainder(n, a);
    OffsetOfWord(n, a);
    WordFits(Offset(n, a), n);
  }

  lemma WordsPlace(m: Machine, at: nat) returns (base: nat)
    requires m.Valid() && Even(m.currAddress) && at == m.currAddress % m.flash.PageSize() / 2 * 2
    ensures base == m.currAddress / m.flash.PageSize() * m.flash.PageSize()
    ensures base <= m.currAddress && m.currAddress + 1 < base + m.flash.PageSize() && m.currAddress - base == at
  {
    base := m.currAddress / m.flash.PageSize() * m.flash.PageSize();
    PlaceOfWord(m.flash.PageSize(), m.currAddress, at, base);
  }

  /** Writing a word byte by byte, with the page buffer blank before: 'C' and its first byte, 'c' and its second one,
      the address again, 'm'. The first byte of the word keeps the bits that are set in both, and the second one is
      zero. */
  lemma WordByBytes(m: Machine, high: byte, low: byte, v: byte, w: byte, c: Config, a: nat)
    requires m.Valid() && c.Valid() && m.flash.BufferBlank()
    requires high < 64 && a == 2 * (256 * high + low) == m.currAddress && a + 1 < |m.flash.mem|
    ensures var f := Ran(m, [[0x43, v], [0x63, w], [0x41, high, low], [0x6D]], c).flash;
            f.Peek(a) == And(m.flash.Peek(a), And(v, w)) && f.Peek(a + 1) == 0
  {
    hide Executed, Response, Split, Ran, Answers, And;
    var m1, m2 := BothFilled(m, v, w, c);
    var m3 := m2.(boottimeout := 0, currAddress := a);
    SeekBack(m2, high, low, c);
    WordWritten(m3, c, And(v, w), a % m.flash.PageSize() / 2 * 2);
    FourCommands(m, [0x43, v], [0x63, w], [0x41, high, low], [0x6D], c, 1, m1, m2, m3);
  }

  lemma BothFilled(m: Machine, v: byte, w: byte, c: Config) returns (m1: Machine, m2: Machine)
    requires m.Valid() && m.flash.BufferBlank()
    ensures m1.Valid() && m2.Valid() && m1 == Executed(m, [0x43, v], c) && m2 == Executed(m1, [0x63, w], c)
    ensures m2.flash.mem == m.flash.mem && m2.flash.PageSize() == m.flash.PageSize()
    ensures var at := m.currAddress % m.flash.PageSize() / 2 * 2;
            at + 1 < |m.flash.buffer| && m2.flash.buffer[at] == And(v, w) && m2.flash.buffer[at + 1] == 0
  {
    hide Executed, And;
    var at := m.currAddress % m.flash.PageSize() / 2 * 2;
    m1 := Executed(m, [0x43, v], c);
    FillCommands(m, v, c, at);
    m2 := Executed(m1, [0x63, w], c);
    FillCommands(m1, w, c, at);
    AndBlank(v);
  }

  lemma WordWritten(m: Machine, c: Config, b: byte, at: nat)
    requires m.Valid() && Even(m.currAddress) && m.currAddress + 1 < |m.flash.mem|
    requires at == m.currAddress % m.flash.PageSize() / 2 * 2
    requires at + 1 < |m.flash.buffer| && m.flash.buffer[at] == b && m.flash.buffer[at + 1] == 0
    ensures var f, a := Executed(m, [0x6D], c).flash, m.currAddress;
            f.Peek(a) == And(m.flash.mem[a], b) && f.Peek(a + 1) == 0
  {
    hide Executed, And;
    var base := WordsPlace(m, at);
    WriteCommand(m, c, m.currAddress, base);
    WriteCommand(m, c, m.currAddress + 1, base);
    AndZero(m.flash.mem[m.currAddress + 1]);
  }

  lemma SeekBack(m: Machine, high: byte, low: byte, c: Config)
    requires m.Valid() && high < 64
    ensures Executed(m, [0x41, high, low], c) == m.(boottimeout := 0, currAddress := 2 * (256 * high + low))
  {
    AddressIsExact(high, low);
  }

  /** So of all words exactly zero arrives in erased memory. */
  lemma OnlyZeroArrives(m: Machine, high: byte, low: byte, v: byte, w: byte, c: Config, a: nat)
    requires m.Valid() && c.Valid() && m.flash.BufferBlank()
    requires high < 64 && a == 2 * (256 * high + low) == m.currAddress && a + 1 < |m.flash.mem|
    requires m.flash.mem[a] == BLANK
    ensures var f := Ran(m, [[0x43, v], [0x63, w], [0x41, high, low], [0x6D]], c).flash;
            f.Peek(a) == v && f.Peek(a + 1) == w <==> v == 0 && w == 0
  {
    hide Executed, Ran, And;
    WordByBytes(m, high, low, v, w, c, a);
    AndBlank(And(v, w));
    AndZero(v);
  }
}
