/** Self-programmed flash memory: pages are erased to 0xFF, and programming a page can only clear the
    bits that are clear in the page buffer. */
module AvrFlash {
  import opened Arithmetic
  import opened ByteMemory

  const BLANK: byte := 0xFF

  function And(a: byte, b: byte): byte { ((a as bv8) & (b as bv8)) as byte }

  lemma AndBlank(b: byte)
    ensures And(BLANK, b) == b && And(b, BLANK) == b
  {
    assert 0xFF as bv8 & (b as bv8) == b as bv8;
    assert (b as bv8) & 0xFF as bv8 == b as bv8;
  }

  /** What the firmware did to the memory, oldest first. */
  datatype Event = Erased(addr: nat) | Filled(addr: nat) | Wrote(addr: nat) | WasRead(addr: nat)

  predicate Even(x: int) { x % 2 == 0 }

  lemma NextEven(x: int)
    requires Even(x)
    ensures Even(x + 2)
  {
  }

  /** Where in its page an address lies: the remainder of the address by the page size. */
  function Offset(size: nat, addr: nat): (r: nat)
    requires size > 0
    ensures r < size
    decreases addr
  {
    if addr < size then addr else Offset(size, addr - size)
  }

  lemma {:induction false} OffsetIsRemainder(size: nat, addr: nat)
    requires size > 0
    ensures Offset(size, addr) == addr % size
    decreases addr
  {
    if addr >= size {
      OffsetIsRemainder(size, addr - size);
      var q := (addr - size) / size;
      assert addr - size == q * size + (addr - size) % size;
      QuotientUnique(addr, q + 1, size, (addr - size) % size);
    } else {
      QuotientUnique(addr, 0, size, addr);
    }
  }

  /** Where in its page the word at an address lies. */
  function WordOffset(size: nat, addr: nat): (at: nat)
    requires size > 0 && Even(size)
    ensures at + 1 < size
  {
    WordFits(Offset(size, addr), size);
    Offset(size, addr) / 2 * 2
  }

  lemma WordFits(r: nat, size: nat)
    requires r < size && Even(size)
    ensures r / 2 * 2 + 1 < size && (Even(r) ==> r / 2 * 2 == r)
  {
  }

  /** First address of the page that an address lies in. */
  function PageBase(size: nat, addr: nat): (base: nat)
    requires size > 0
    ensures base <= addr < base + size && base == addr - Offset(size, addr)
  {
    addr - Offset(size, addr)
  }

  /** What programming makes of a page: the bits that are set in it and in the buffer. */
  function Anded(page: seq<byte>, buffer: seq<byte>): (r: seq<byte>)
    requires |page| == |buffer|
    ensures |r| == |buffer|
  {
    seq(|buffer|, j requires 0 <= j < |buffer| => And(page[j], buffer[j]))
  }

  lemma AndedWithBlank(buffer: seq<byte>)
    ensures Anded(Repeat(BLANK, |buffer|), buffer) == buffer
  {
    forall j | 0 <= j < |buffer|
      ensures And(BLANK, buffer[j]) == buffer[j]
    {
      AndBlank(buffer[j]);
    }
  }

  datatype Flash = Flash(mem: seq<byte>, buffer: seq<byte>, log: seq<Event>) {

    function PageSize(): nat { |buffer| }

    predicate Valid() {
      && 0 < |buffer| <= 256 && Even(|buffer|)
      && Offset(|buffer|, |mem|) == 0
    }

    predicate BufferBlank() { buffer == Repeat(BLANK, |buffer|) }

    /** boot_page_erase. Addresses beyond the memory select nothing. */
    function Erase(addr: nat): (f: Flash)
      requires Valid()
      ensures f.Valid() && f.buffer == buffer && |f.mem| == |mem|
    {
      var base := PageBase(|buffer|, addr);
      var after := this.(log := log + [Erased(addr)]);
      if base + |buffer| <= |mem| then
        after.(mem := mem[..base] + Repeat(BLANK, |buffer|) + mem[base + |buffer|..])
      else after
    }

    /** boot_page_fill: one little-endian word goes to its place in the page buffer. */
    function Fill(addr: nat, low: byte, high: byte): (f: Flash)
      requires Valid()
      ensures f.Valid() && f.mem == mem && |f.buffer| == |buffer|
    {
      var at := WordOffset(|buffer|, addr);
      this.(buffer := buffer[at := And(buffer[at], low)][at + 1 := And(buffer[at + 1], high)],
            log := log + [Filled(addr)])
    }

    /** boot_page_write: the page keeps only the bits that are set in the buffer too; the buffer is
        blank afterwards. */
    function Write(addr: nat): (f: Flash)
      requires Valid()
      ensures f.Valid() && |f.buffer| == |buffer| && f.BufferBlank() && |f.mem| == |mem|
    {
      var base := PageBase(|buffer|, addr);
      var after := this.(buffer := Repeat(BLANK, |buffer|), log := log + [Wrote(addr)]);
      if base + |buffer| <= |mem| then
        after.(mem := mem[..base]
                      + Anded(mem[base..base + |buffer|], buffer)
                      + mem[base + |buffer|..])
      else after
    }

    /** pgm_read_byte; addresses beyond the memory read as blank. */
    function Peek(addr: nat): byte { if addr < |mem| then mem[addr] else BLANK }

    function Read(addr: nat): (f: Flash)
      requires Valid()
      ensures f.Valid() && f.mem == mem && f.buffer == buffer
    {
      this.(log := log + [WasRead(addr)])
    }
  }

  // ---- Addresses of pages ----

  /** Is this address the first of a page? */
  predicate Aligned(size: nat, addr: nat)
    requires size > 0
  {
    Offset(size, addr) == 0
  }

  lemma {:induction false} WithinPage(size: nat, base: nat, r: nat, a: nat)
    requires r < size && Aligned(size, base) && a == base + r
    ensures Offset(size, a) == r && PageBase(size, a) == base
    decreases base
  {
    if base >= size {
      WithinPage(size, base - size, r, a - size);
    }
  }

  lemma {:induction false} NextPage(size: nat, base: nat, next: nat)
    requires size > 0 && Aligned(size, base) && next == base + size
    ensures Aligned(size, next)
    decreases base
  {
    if base >= size {
      NextPage(size, base - size, next - size);
    }
  }

  /** Pages do not overlap. */
  lemma {:induction false} PageFits(size: nat, base: nat, limit: nat)
    requires size > 0 && Aligned(size, base) && Aligned(size, limit) && base < limit
    ensures base + size <= limit
    decreases base
  {
    if base >= size {
      PageFits(size, base - size, limit - size);
    }
  }

  // ---- Programming one erased page ----

  /** A page image that is shorter than the page, filled up with blank bytes. */
  function Padded(data: seq<byte>, size: nat): (p: seq<byte>)
    requires |data| <= size
    ensures |p| == size
  {
    data + Repeat(BLANK, size - |data|)
  }

  lemma FillAppends(f: Flash, base: nat, data: seq<byte>, addr: nat, low: byte, high: byte)
    requires f.Valid() && Aligned(f.PageSize(), base) && addr == base + |data|
    requires Even(|data|) && |data| + 2 <= f.PageSize() && f.buffer == Padded(data, f.PageSize())
    ensures f.Fill(addr, low, high).buffer == Padded(data + [low, high], f.PageSize())
  {
    WithinPage(f.PageSize(), base, |data|, addr);
    AndBlank(low);
    AndBlank(high);
    WordFits(|data|, |f.buffer|);
    var at := WordOffset(|f.buffer|, addr);
    assert at == |data|;
    assert f.buffer[at] == BLANK && f.buffer[at + 1] == BLANK;
  }

  /** Is the page at `base` inside the memory? */
  predicate IsPage(f: Flash, base: nat)
    requires f.Valid()
  {
    Aligned(f.PageSize(), base) && base + f.PageSize() <= |f.mem|
  }

  lemma WriteToErased(f: Flash, base: nat, data: seq<byte>)
    requires f.Valid() && IsPage(f, base) && |data| <= f.PageSize()
    requires f.buffer == Padded(data, f.PageSize())
    requires f.mem[base..base + f.PageSize()] == Repeat(BLANK, f.PageSize())
    ensures f.Write(base).mem == Overwrite(f.mem, base, Padded(data, f.PageSize()))
  {
    WithinPage(f.PageSize(), base, 0, base);
    AndedWithBlank(f.buffer);
  }

  lemma EraseIsPatch(f: Flash, base: nat)
    requires f.Valid() && IsPage(f, base)
    ensures f.Erase(base).mem == Overwrite(f.mem, base, Repeat(BLANK, f.PageSize()))
  {
    WithinPage(f.PageSize(), base, 0, base);
  }

  /** A patch over the tail of a patch. */
  lemma PatchTail(mem: seq<byte>, start: nat, a: seq<byte>, x: seq<byte>, y: seq<byte>, at: nat)
    requires |x| == |y| && start + |a| + |x| <= |mem| && at == start + |a|
    ensures Overwrite(Overwrite(mem, start, a + x), at, y) == Overwrite(mem, start, a + y)
    ensures Overwrite(mem, start, a + x)[at..at + |x|] == x
  {
  }

  /** A patch right behind a patch. */
  lemma PatchNext(mem: seq<byte>, start: nat, a: seq<byte>, b: seq<byte>, at: nat)
    requires start + |a| + |b| <= |mem| && at == start + |a|
    ensures Overwrite(Overwrite(mem, start, a), at, b) == Overwrite(mem, start, a + b)
  {
  }

  /** Erasing a page and writing a blank buffer to it leaves it blank. */
  lemma EraseThenWriteBlank(f: Flash, base: nat)
    requires f.Valid() && f.BufferBlank() && IsPage(f, base)
    ensures f.Erase(base).Write(base).mem == Overwrite(f.mem, base, Repeat(BLANK, f.PageSize()))
  {
    var n, blank := f.PageSize(), Repeat(BLANK, f.PageSize());
    EraseIsPatch(f, base);
    assert Padded([], n) == blank && [] + blank == blank;
    PatchTail(f.mem, base, [], blank, blank, base);
    WriteToErased(f.Erase(base), base, []);
  }

  // ---- A whole image ----

  /** Blank bytes behind an image, up to the end of its last page. Programming begins by erasing the first page, so
      there is a whole page of them behind an image of no bytes. */
  function PadLength(size: nat, length: nat): (p: nat)
    requires size > 0
    ensures p <= size
  {
    if length > 0 && Offset(size, length) == 0 then 0 else size - Offset(size, length)
  }

  /** The memory after an image has been programmed at a page boundary: the image, the rest of its last
      page blank, every other page as it was. */
  function Programmed(mem: seq<byte>, start: nat, image: seq<byte>, size: nat): (m: seq<byte>)
    requires size > 0 && start + |image| + PadLength(size, |image|) <= |mem|
    ensures |m| == |mem|
  {
    Overwrite(mem, start, image + Repeat(BLANK, PadLength(size, |image|)))
  }

  /** The pages before byte `done` of the image are programmed, the page that begins there, at address
      `page`, is erased, and the buffer holds the bytes of the image up to `filled`. */
  ghost predicate Programming(f: Flash, n: nat, mem: seq<byte>, start: nat, image: seq<byte>, done: nat, page: nat,
                              filled: nat) {
    && f.Valid() && f.PageSize() == n && Aligned(n, page) && page == start + done && Aligned(n, done)
    && done <= filled <= |image| && filled - done <= n && Even(filled - done)
    && page + n <= |mem|
    && f.mem == Overwrite(mem, start, image[..done] + Repeat(BLANK, n))
    && f.buffer == Padded(image[done..filled], n)
  }

  /** One more word in the buffer. */
  lemma WordFilled(f: Flash, n: nat, mem: seq<byte>, start: nat, image: seq<byte>, done: nat, page: nat, filled: nat,
                   addr: nat)
    requires Programming(f, n, mem, start, image, done, page, filled) && addr == start + filled
    requires filled + 2 <= |image| && filled + 2 - done <= n
    ensures Programming(f.Fill(addr, image[filled], image[filled + 1]), n, mem, start, image, done, page, filled + 2)
  {
    var part := image[done..filled];
    assert image[done..filled + 2] == part + [image[filled], image[filled + 1]];
    NextEven(filled - done);
    assert filled + 2 - done == filled - done + 2;
    FillAppends(f, page, part, addr, image[filled], image[filled + 1]);
  }

  /** Writing the buffer over the erased page. */
  lemma PageWritten(f: Flash, n: nat, mem: seq<byte>, start: nat, image: seq<byte>, done: nat, page: nat, filled: nat)
    requires Programming(f, n, mem, start, image, done, page, filled)
    ensures f.Write(page).mem == Overwrite(mem, start, image[..done] + Padded(image[done..filled], n))
  {
    PatchTail(mem, start, image[..done], Repeat(BLANK, n), Padded(image[done..filled], n), page);
    WriteToErased(f, page, image[done..filled]);
  }

  /** A full page needs no filling up, and an empty one nothing else. */
  lemma FullPage(image: seq<byte>, done: nat, filled: nat, n: nat)
    requires done + n == filled <= |image|
    ensures image[..done] + Padded(image[done..filled], n) == image[..filled]
    ensures Padded(image[filled..filled], n) == Repeat(BLANK, n)
  {
  }

  /** The page is full: it is written, and the next page erased. */
  lemma PageTurned(f: Flash, n: nat, mem: seq<byte>, start: nat, image: seq<byte>, done: nat, page: nat, next: nat)
    requires Programming(f, n, mem, start, image, done, page, done + n)
    requires next == page + n && next + n <= |mem|
    ensures Programming(f.Write(page).Erase(next), n, mem, start, image, done + n, next, done + n)
  {
    hide Overwrite, Padded, Offset;
    var filled, blank := done + n, Repeat(BLANK, n);
    PageWritten(f, n, mem, start, image, done, page, filled);
    NextPage(n, page, next);
    NextPage(n, done, filled);
    FullPage(image, done, filled, n);
    EraseIsPatch(f.Write(page), next);
    PatchNext(mem, start, image[..filled], blank, next);
  }

  /** The last page is written: the image is complete. */
  lemma ImageComplete(f: Flash, n: nat, mem: seq<byte>, start: nat, image: seq<byte>, done: nat, page: nat)
    requires Programming(f, n, mem, start, image, done, page, |image|) && done < |image|
    ensures start + |image| + PadLength(n, |image|) <= |mem|
    ensures f.Write(page).mem == Programmed(mem, start, image, n)
  {
    PageWritten(f, n, mem, start, image, done, page, |image|);
    PadOfLastPage(n, done, |image|);
    LastPage(image, done, n);
  }

  /** What the next word of an image makes of a programming run: it is only buffered, or it fills its page,
      or it ends the image. `left` counts the words after it, and `next` is the address after it. */
  lemma WordProgrammed(f: Flash, n: nat, mem: seq<byte>, start: nat, image: seq<byte>, done: nat, page: nat,
                       filled: nat, left: nat, addr: nat, next: nat, low: byte, high: byte)
    requires Programming(f, n, mem, start, image, done, page, filled) && filled - done < n
    requires filled + 2 + 2 * left == |image| && start + |image| + PadLength(n, |image|) <= |mem|
    requires addr == start + filled && next == addr + 2 && low == image[filled] && high == image[filled + 1]
    ensures var g := f.Fill(addr, low, high);
            && (left > 0 && filled + 2 < done + n ==> Programming(g, n, mem, start, image, done, page, filled + 2))
            && (left > 0 && filled + 2 == done + n ==>
                  Programming(g.Write(page).Erase(next), n, mem, start, image, done + n, next, filled + 2))
            && (left == 0 ==> g.Write(page).mem == Programmed(mem, start, image, n))
    ensures filled + 2 <= done + n
  {
    EvenBelow(filled - done, n);
    WordFilled(f, n, mem, start, image, done, page, filled, addr);
    var g := f.Fill(addr, low, high);
    if left == 0 {
      ImageComplete(g, n, mem, start, image, done, page);
    } else if filled + 2 == done + n {
      NextPage(n, page, next);
      PageFits(n, next, |f.mem|);
      PageTurned(g, n, mem, start, image, done, page, next);
    }
  }

  lemma EvenBelow(x: int, n: int)
    requires Even(x) && Even(n) && x < n
    ensures x + 2 <= n
  {
  }

  lemma LastPage(image: seq<byte>, done: nat, n: nat)
    requires done <= |image| <= done + n
    ensures image[..done] + Padded(image[done..|image|], n) == image + Repeat(BLANK, done + n - |image|)
  {
  }

  lemma PadOfLastPage(size: nat, done: nat, length: nat)
    requires size > 0 && Aligned(size, done) && done < length <= done + size
    ensures PadLength(size, length) == done + size - length
  {
    if length < done + size {
      WithinPage(size, done, length - done, length);
    } else {
      NextPage(size, done, length);
    }
  }
}
