/** The flat array of bytes that the chips, pages and buffers of a Dataflash board stand for. */
module BlockStore {
  import opened ByteMemory
  import opened Dataflash

  const BLOCK_SIZE: nat := 512

  /** Address of the first byte of a page. */
  function Base(g: Geometry, page: nat): nat {
    if page == 0 then 0 else Base(g, page - 1) + g.pageSize
  }

  lemma {:induction false} BaseIsProduct(g: Geometry, page: nat)
    ensures Base(g, page) == page * g.pageSize
  {
    if page > 0 {
      BaseIsProduct(g, page - 1);
    }
  }

  lemma {:induction false} BaseOrder(g: Geometry, p: nat, q: nat)
    requires p < q
    ensures Base(g, p) + g.pageSize <= Base(g, q)
  {
    if p + 1 < q {
      BaseOrder(g, p, q - 1);
    }
  }

  lemma BaseMonotone(g: Geometry, p: nat, q: nat)
    requires p <= q
    ensures Base(g, p) <= Base(g, q)
  {
    if p < q {
      BaseOrder(g, p, q);
    }
  }

  function Bytes(g: Geometry): nat { Base(g, g.TotalPages()) }

  lemma PageInStore(g: Geometry, page: nat, a: nat)
    requires Base(g, page) <= a < Bytes(g)
    ensures page < g.TotalPages()
  {
    if page >= g.TotalPages() {
      BaseMonotone(g, g.TotalPages(), page);
    }
  }

  /** VIRTUAL_MEMORY_BLOCKS */
  function Blocks(g: Geometry): nat { Bytes(g) / BLOCK_SIZE }

  /** The page that a block starts in, and the page that a range of blocks ends in. */
  function PageOf(g: Geometry, block: nat): nat
    requires g.pageSize > 0
  {
    block * BLOCK_SIZE / g.pageSize
  }

  function LastPage(g: Geometry, block: nat, count: nat): nat
    requires g.pageSize > 0 && count > 0
  {
    ((block + count) * BLOCK_SIZE - 1) / g.pageSize
  }

  lemma QuotientBound(a: nat, n: nat, d: nat)
    requires d > 0 && a / d >= n
    ensures a >= n * d
  {
    assert a == (a / d) * d + a % d;
    assert (a / d - n) * d >= 0;
  }

  lemma AddressSplits(g: Geometry, a: nat)
    requires g.Valid() && a < Bytes(g)
    ensures a / g.pageSize < g.TotalPages()
    ensures Base(g, a / g.pageSize) + a % g.pageSize == a
  {
    BaseIsProduct(g, a / g.pageSize);
    BaseIsProduct(g, g.TotalPages());
    if a / g.pageSize >= g.TotalPages() {
      QuotientBound(a, g.TotalPages(), g.pageSize);
    }
  }

  /** The whole store as one sequence of bytes. */
  ghost function Store(g: Geometry, chips: seq<Chip>): (s: seq<byte>)
    requires ShapedBoard(g, chips)
    ensures |s| == Bytes(g)
  {
    seq(Bytes(g), a requires 0 <= a < Bytes(g) =>
      AddressSplits(g, a);
      assert |PageAt(g, chips, a / g.pageSize)| == g.pageSize by {
        PagePlacesAreDistinct(g, a / g.pageSize, 0);
      }
      PageAt(g, chips, a / g.pageSize)[a % g.pageSize])
  }

  /** What a write of `data` at byte address `start` makes of one page. */
  function Overlay(g: Geometry, was: Page, page: nat, start: nat, data: seq<byte>): (r: Page)
    requires |was| == g.pageSize
    ensures |r| == g.pageSize
  {
    seq(g.pageSize, j requires 0 <= j < g.pageSize =>
      var a := Base(g, page) + j;
      if start <= a < start + |data| then data[a - start] else was[j])
  }

  lemma PageSize(g: Geometry, chips: seq<Chip>, page: nat)
    requires ShapedBoard(g, chips) && page < g.TotalPages()
    ensures |PageAt(g, chips, page)| == g.pageSize
  {
    PagePlacesAreDistinct(g, page, page);
  }

  /** Every page of `now` is the page of `was` with the write laid over it. */
  ghost predicate WrittenOver(g: Geometry, was: seq<Chip>, now: seq<Chip>, start: nat, data: seq<byte>)
    requires ShapedBoard(g, was) && ShapedBoard(g, now)
  {
    forall q :: 0 <= q < g.TotalPages() ==>
      |PageAt(g, was, q)| == g.pageSize && PageAt(g, now, q) == Overlay(g, PageAt(g, was, q), q, start, data)
  }

  lemma WrittenOverIsOverwrite(g: Geometry, was: seq<Chip>, now: seq<Chip>, start: nat, data: seq<byte>)
    requires ShapedBoard(g, was) && ShapedBoard(g, now)
    requires start + |data| <= Bytes(g)
    requires WrittenOver(g, was, now, start, data)
    ensures Store(g, now) == Overwrite(Store(g, was), start, data)
  {
    forall a | 0 <= a < Bytes(g)
      ensures Store(g, now)[a] == Overwrite(Store(g, was), start, data)[a]
    {
      AddressSplits(g, a);
      var q, j := a / g.pageSize, a % g.pageSize;
      assert PageAt(g, now, q) == Overlay(g, PageAt(g, was, q), q, start, data);
      assert Overlay(g, PageAt(g, was, q), q, start, data)[j] ==
        if start <= a < start + |data| then data[a - start] else PageAt(g, was, q)[j];
    }
  }

  lemma SamePagesSameStore(g: Geometry, was: seq<Chip>, now: seq<Chip>)
    requires ShapedBoard(g, was) && ShapedBoard(g, now)
    requires forall q :: 0 <= q < g.TotalPages() ==> PageAt(g, now, q) == PageAt(g, was, q)
    ensures Store(g, now) == Store(g, was)
  {
    forall a | 0 <= a < Bytes(g)
      ensures Store(g, now)[a] == Store(g, was)[a]
    {
      AddressSplits(g, a);
      assert PageAt(g, now, a / g.pageSize) == PageAt(g, was, a / g.pageSize);
    }
  }
}
