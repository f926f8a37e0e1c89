/** The CDC bootloader's erase command. Its loop adds the size of a page in its body and one more byte in its header, so
    that it drifts through the pages and now and then steps over one. */
module CdcErase {
  import opened Arithmetic
  import opened ByteMemory
  import opened AvrFlash
  import opened CdcDevice

  /** Pages that the loop steps over: with pages of n bytes, each page whose number leaves n when divided by n + 1. */
  predicate Skipped(n: nat, page: nat) { page % (n + 1) == n }

  predicate InSkippedPage(n: nat, j: nat) { n > 0 && j / n % (n + 1) == n }

  /** The round that erases a page that is not stepped over. */
  function RoundOf(n: nat, page: nat): (k: nat) {
    QuotientSmall(page, n + 1);
    page - page / (n + 1)
  }

  lemma QuotientSmall(a: nat, d: nat)
    requires d > 0
    ensures 0 <= a / d <= a
  {
    QuotientOrder(a, a * d, d);
    QuotientUnique(a * d, a, d, 0);
    assert a * d == a + a * (d - 1);
  }

  lemma OneMoreEach(a: nat, n: nat)
    ensures a * (n + 1) == a * n + a
  {
  }

  lemma NextRound(n: nat, k: nat, addr: nat)
    requires addr == k * (n + 1)
    ensures addr + n + 1 == (k + 1) * (n + 1)
  {
  }

  /** Round k, which is at byte k * (n + 1), erases page k + k / n. */
  lemma RoundHits(n: nat, k: nat, page: nat)
    requires n > 0
    ensures page == k + k / n <==> !Skipped(n, page) && RoundOf(n, page) == k
  {
    if page == k + k / n {
      HitIsNotSkipped(n, k, page);
    }
    if !Skipped(n, page) && RoundOf(n, page) == k {
      NotSkippedIsHit(n, k, page);
    }
  }

  lemma HitIsNotSkipped(n: nat, k: nat, page: nat)
    requires n > 0 && page == k + k / n
    ensures !Skipped(n, page) && RoundOf(n, page) == k
  {
    QuotientSmall(k, n);
    var a, b: nat := k / n, k % n;
    OneMoreEach(a, n);
    QuotientUnique(page, a, n + 1, b);
  }

  lemma NotSkippedIsHit(n: nat, k: nat, page: nat)
    requires n > 0 && !Skipped(n, page) && RoundOf(n, page) == k
    ensures page == k + k / n
  {
    QuotientSmall(page, n + 1);
    var a: nat, b: nat := page / (n + 1), page % (n + 1);
    OneMoreEach(a, n);
    QuotientUnique(k, a, n, b);
  }

  lemma RoundAddress(n: nat, k: nat, page: nat)
    requires n > 0 && page == k + k / n
    ensures PageBase(n, k * (n + 1)) == page * n
    ensures page * n <= k * (n + 1) < page * n + n
  {
    var addr := k * (n + 1);
    assert k == k / n * n + k % n;
    assert addr == page * n + k % n;
    QuotientUnique(addr, page, n, k % n);
    OffsetIsRemainder(n, addr);
  }

  /** The round happens exactly when its page is one of the first `pages`. */
  lemma RoundHappens(n: nat, k: nat, page: nat, pages: nat)
    requires n > 0 && page == k + k / n
    ensures k * (n + 1) < pages * n <==> page < pages
  {
    RoundAddress(n, k, page);
    if page < pages {
      ProductStep(page, pages, n);
    } else if pages < page {
      ProductStep(pages, page, n);
    }
  }

  lemma PageOfByte(n: nat, page: nat, j: nat)
    requires n > 0
    ensures j / n == page <==> page * n <= j < page * n + n
    ensures j / n == page ==> j % n == j - page * n
  {
    if page * n <= j < page * n + n {
      QuotientUnique(j, page, n, j - page * n);
    }
    assert j == j / n * n + j % n;
  }

  /** A round replaces its page by the page buffer. */
  lemma OneRound(f: Flash, k: nat, addr: nat, page: nat, j: nat)
    requires f.Valid() && addr == k * (f.PageSize() + 1)
    requires page == k + k / f.PageSize() && page * f.PageSize() + f.PageSize() <= |f.mem| && j < |f.mem|
    ensures var n := f.PageSize();
            var g := f.Erase(addr).Write(addr);
            && g.Valid() && g.BufferBlank() && g.PageSize() == n && |g.mem| == |f.mem|
            && g.mem[j] == if j / n == page then f.buffer[j % n] else f.mem[j]
  {
    hide Flash.Erase, Flash.Write, Flash.BufferBlank, Offset;
    var n := f.PageSize();
    RoundAddress(n, k, page);
    PageOfByte(n, page, j);
    PageReplaced(f, addr, page * n, j);
  }

  lemma PageReplaced(f: Flash, a: nat, base: nat, j: nat)
    requires f.Valid() && base == PageBase(f.PageSize(), a) && base + f.PageSize() <= |f.mem| && j < |f.mem|
    ensures var g := f.Erase(a).Write(a);
            && g.Valid() && g.BufferBlank() && g.PageSize() == f.PageSize() && |g.mem| == |f.mem|
            && g.mem[j] == if base <= j < base + f.PageSize() then f.buffer[j - base] else f.mem[j]
  {
    hide Flash.Erase, Flash.Write, Offset;
    var erased := f.Erase(a);
    ErasedThere(f, a, base);
    assert erased.mem[base..base + f.PageSize()] == Repeat(BLANK, f.PageSize());
    WrittenThere(erased, a, base);
  }

  lemma ErasedThere(f: Flash, a: nat, base: nat)
    requires f.Valid() && base == PageBase(f.PageSize(), a) && base + f.PageSize() <= |f.mem|
    ensures f.Erase(a).mem == Overwrite(f.mem, base, Repeat(BLANK, f.PageSize()))
  {
  }

  lemma WrittenThere(f: Flash, a: nat, base: nat)
    requires f.Valid() && base == PageBase(f.PageSize(), a) && base + f.PageSize() <= |f.mem|
    requires f.mem[base..base + f.PageSize()] == Repeat(BLANK, f.PageSize())
    ensures f.Write(a).mem == Overwrite(f.mem, base, f.buffer)
  {
    AndedWithBlank(f.buffer);
  }

  /** From round k on, with a blank page buffer. */
  lemma {:induction false} RestErased(f: Flash, k: nat, pages: nat, addr: nat, boot: nat, j: nat, q: nat)
    requires f.Valid() && f.BufferBlank() && boot == pages * f.PageSize() <= |f.mem|
    requires j < |f.mem| && q == j / f.PageSize()
    requires addr == k * (f.PageSize() + 1)
    ensures var n := f.PageSize();
            var r := EraseRounds(f, addr, boot);
            && |r.mem| == |f.mem| && r.BufferBlank() && r.PageSize() == n
            && r.mem[j] == if q < pages && !Skipped(n, q) && RoundOf(n, q) >= k then BLANK else f.mem[j]
    decreases boot - addr
  {
    hide Skipped, RoundOf, Flash.Erase, Flash.Write;
    var n := f.PageSize();
    QuotientSmall(k, n);
    var page: nat := k + k / n;
    RoundHappens(n, k, page, pages);
    RoundHits(n, k, q);
    if addr < boot {
      ProductStep(page, pages, n);
      OneRound(f, k, addr, page, j);
      NextRound(n, k, addr);
      var g := f.Erase(addr).Write(addr);
      RestErased(g, k + 1, pages, addr + n + 1, boot, j, q);
      assert EraseRounds(f, addr, boot) == EraseRounds(g, addr + n + 1, boot);
    } else if q < pages && !Skipped(n, q) && RoundOf(n, q) >= k {
      RoundsOver(n, k, pages, q);
    }
  }

  /** When round k is out of range, the pages in range have had their rounds. */
  lemma RoundsOver(n: nat, k: nat, pages: nat, q: nat)
    requires n > 0 && k * (n + 1) >= pages * n && q < pages && !Skipped(n, q)
    ensures RoundOf(n, q) < k
  {
    hide Skipped, RoundOf;
    var later := RoundOf(n, q);
    RoundHits(n, later, q);
    RoundHappens(n, later, q, pages);
    if k <= later {
      RoundsInOrder(k, later, n + 1);
    }
  }

  lemma RoundsInOrder(a: nat, b: nat, d: nat)
    requires a <= b
    ensures a * d <= b * d
  {
    if a < b {
      ProductStep(a, b, d);
    }
  }

  /** The application section's size in pages. */
  lemma WholePages(n: nat, boot: nat)
    requires n > 0 && Aligned(n, boot)
    ensures boot == boot / n * n
    ensures forall j: nat :: j < boot <==> j / n < boot / n
  {
    OffsetIsRemainder(n, boot);
    forall j: nat
      ensures j < boot <==> j / n < boot / n
    {
      if j < boot {
        assert j == j / n * n + j % n;
        if boot / n < j / n {
          ProductStep(boot / n, j / n, n);
        }
      } else {
        QuotientOrder(boot, j, n);
      }
    }
  }

  lemma FirstRound(f: Flash, pages: nat, boot: nat, j: nat, q: nat)
    requires f.Valid() && 0 < boot == pages * f.PageSize() <= |f.mem| && j < |f.mem| && q == j / f.PageSize()
    ensures var r := EraseRounds(f, 0, boot);
            && |r.mem| == |f.mem| && r.BufferBlank()
            && r.mem[j] == if q == 0 then f.buffer[j]
                           else if q < pages && !Skipped(f.PageSize(), q) then BLANK
                           else f.mem[j]
  {
    hide Skipped, RoundOf, Flash.Erase, Flash.Write, Flash.Valid, Flash.BufferBlank;
    var n := f.PageSize();
    assert 0 / n == 0;
    RoundHappens(n, 0, 0, pages);
    ProductStep(0, pages, n);
    OneRound(f, 0, 0, 0, j);
    RestErased(f.Erase(0).Write(0), 1, pages, n + 1, boot, j, q);
    RoundHits(n, 0, q);
    PageOfByte(n, 0, j);
  }

  lemma SectionErased(f: Flash, n: nat, boot: nat, j: nat, q: nat)
    requires f.Valid() && n == f.PageSize() && boot <= |f.mem| && Aligned(n, boot) && j < |f.mem| && q == j / n
    ensures var r := EraseRounds(f, 0, boot);
            && |r.mem| == |f.mem| && (boot > 0 ==> r.BufferBlank())
            && r.mem[j] == if j >= boot || InSkippedPage(n, j) then f.mem[j] else if j < n then f.buffer[j] else BLANK
  {
    if boot > 0 {
      hide EraseRounds, Flash.BufferBlank, Aligned, Flash.Valid, Skipped, InSkippedPage;
      var pages := InSection(n, boot, j, q);
      FirstPage(n, q, j);
      FirstRound(f, pages, boot, j, q);
    }
  }

  lemma InSection(n: nat, boot: nat, j: nat, q: nat) returns (pages: nat)
    requires n > 0 && Aligned(n, boot) && q == j / n
    ensures boot == pages * n
    ensures j < boot <==> q < pages
  {
    WholePages(n, boot);
    pages := boot / n;
  }

  lemma FirstPage(n: nat, q: nat, j: nat)
    requires n > 0 && q == j / n
    ensures q == 0 <==> j < n
    ensures Skipped(n, q) <==> InSkippedPage(n, j)
    ensures q == 0 ==> !Skipped(n, q)
  {
    PageOfByte(n, 0, j);
  }

  /** What 'e' does, byte by byte: the first page gets what the page buffer held, every other page of the application
      section is blanked unless the loop steps over it, and everything else is as before. */
  lemma EraseCommand(m: Machine, c: Config, j: nat, n: nat)
    requires m.Valid() && c.Valid() && c.bootStart <= |m.flash.mem| && n == m.flash.PageSize()
    requires Aligned(n, c.bootStart) && j < |m.flash.mem|
    ensures var r := Executed(m, [0x65], c);
            && r == m.(boottimeout := 0, flash := r.flash) && |r.flash.mem| == |m.flash.mem|
            && r.flash.mem[j] == (if j >= c.bootStart || InSkippedPage(n, j) then m.flash.mem[j]
                                  else if j < n then m.flash.buffer[j]
                                  else 0xFF)
            && (c.bootStart > 0 ==> r.flash.BufferBlank())
    ensures Response(m, [0x65], c) == [0x0D]
  {
    hide EraseRounds, Flash.BufferBlank, Aligned, InSkippedPage;
    var f, boot := m.flash, c.bootStart;
    SectionErased(f, n, boot, j, j / n);
  }

  /** From a blank page buffer the command blanks the application section exactly when the pages stepped over are blank
      already. */
  lemma BlankExactly(m: Machine, c: Config, n: nat)
    requires m.Valid() && c.Valid() && c.bootStart <= |m.flash.mem| && n == m.flash.PageSize()
    requires Aligned(n, c.bootStart) && m.flash.BufferBlank()
    ensures (forall j: nat :: j < c.bootStart ==> Executed(m, [0x65], c).flash.Peek(j) == 0xFF) <==>
            (forall j: nat :: j < c.bootStart && InSkippedPage(n, j) ==> m.flash.Peek(j) == 0xFF)
  {
    hide Executed, Response, InSkippedPage;
    forall j: nat | j < c.bootStart
      ensures Executed(m, [0x65], c).flash.Peek(j) == if InSkippedPage(n, j) then m.flash.Peek(j) else 0xFF
    {
      ByteAfterErase(m, c, j, n);
    }
  }

  lemma ByteAfterErase(m: Machine, c: Config, j: nat, n: nat)
    requires m.Valid() && c.Valid() && c.bootStart <= |m.flash.mem| && n == m.flash.PageSize()
    requires Aligned(n, c.bootStart) && m.flash.BufferBlank() && j < c.bootStart
    ensures Executed(m, [0x65], c).flash.Peek(j) == if InSkippedPage(n, j) then m.flash.Peek(j) else 0xFF
  {
    hide Executed, Response, InSkippedPage;
    EraseCommand(m, c, j, n);
  }

  /** No page is stepped over exactly when there are no more pages than bytes in a page. */
  lemma NothingSkipped(n: nat, boot: nat)
    requires n > 0 && Aligned(n, boot)
    ensures (forall j: nat :: j < boot ==> !InSkippedPage(n, j)) <==> boot <= n * n
  {
    hide InSkippedPage;
    if boot <= n * n {
      forall j: nat | j < boot
        ensures !InSkippedPage(n, j)
      {
        EarlyByte(n, j, j / n);
      }
    } else {
      FirstSkippedByte(n, n * n);
    }
  }

  lemma EarlyByte(n: nat, j: nat, page: nat)
    requires n > 0 && j < n * n && page == j / n
    ensures !InSkippedPage(n, j)
  {
    if n <= page {
      RoundsInOrder(n, page, n);
    }
    QuotientUnique(page, 0, n + 1, page);
  }

  lemma FirstSkippedByte(n: nat, j: nat)
    requires n > 0 && j == n * n
    ensures InSkippedPage(n, j)
  {
    QuotientUnique(j, n, n, 0);
    QuotientUnique(n, 0, n + 1, n);
  }

  /** On the device that the makefile names, with pages of 128 bytes and the bootloader at 0x7000, the bytes from 0x4000
      to 0x407F survive, and only they do. */
  lemma OnePageSurvives(m: Machine, c: Config, j: nat)
    requires m.Valid() && c.Valid() && m.flash.PageSize() == 128 && c.bootStart == 0x7000 && |m.flash.mem| == 0x8000
    requires m.flash.BufferBlank() && j < 0x7000
    ensures Executed(m, [0x65], c).flash.Peek(j) == if 0x4000 <= j < 0x4080 then m.flash.Peek(j) else 0xFF
  {
    hide Executed, Response;
    OffsetIsRemainder(128, 0x7000);
    EraseCommand(m, c, j, 128);
    assert j / 128 < 224;
  }
}
