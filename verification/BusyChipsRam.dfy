/** Which chips a write from a RAM buffer meets at work. Up to the switch of buffers it sends the commands of a write
    from the endpoint. Behind it, it opens the first buffer again for every page, also while its chip programs from
    that buffer. */
module BusyChipsRam {
  import opened Dataflash
  import opened BlockStore
  import opened BusyChips

  // ---- The switch ----

  /** The switch comes after the first page on the last chip. */
  lemma FirstSwitch(g: Geometry, first: nat, q: nat)
    requires g.Valid() && first <= q
    ensures q + g.ChipOf(first) < first + g.chips ==> !SecondAt(g, first, q)
    ensures q + g.ChipOf(first) == first + g.chips ==> SecondAt(g, first, q)
  {
  }

  /** The guard of the switch, from the range alone: the last page comes no later than the first one on the last chip.
      */
  predicate EndsBeforeSwitch(g: Geometry, block: nat, count: nat)
    requires g.pageSize > 0 && count > 0
  {
    LastPage(g, block, count) + g.ChipOf(PageOf(g, block)) < PageOf(g, block) + g.chips
  }

  // ---- What a write meets ----

  /** What the chip of `page` is doing when the write comes to open that page: it may still program the page before
      on the same chip. `l` is what it was doing before the write. */
  function LoadBefore(g: Geometry, first: nat, l: Load, page: nat): Load
    requires first <= page
  {
    if first + g.chips <= page then Using(Buffer(SecondAt(g, first, page - g.chips))) else l
  }

  /** Does the command that opens `page` meet its chip at work? It always opens the first buffer, and waits only for a
      page copy. */
  predicate MetAtPage(g: Geometry, block: nat, count: nat, l: Load, page: nat)
    requires g.pageSize > 0 && PageOf(g, block) <= page
  {
    if page == PageOf(g, block) then MetAtFirst(g, l)
    else !Preloads(g, Unfinished(g, block, count, page)) && InUse(LoadBefore(g, PageOf(g, block), l, page), false)
  }

  /** Has a write that has come to `page` met chip `i` at work? */
  ghost predicate RamMetUpTo(g: Geometry, block: nat, count: nat, l: Load, i: nat, page: nat)
    requires g.pageSize > 0
  {
    exists q: nat :: PageOf(g, block) <= q <= page && i == g.ChipOf(q) && MetAtPage(g, block, count, l, q)
  }

  /** Does a write meet chip `i` at work? */
  ghost predicate RamMeets(g: Geometry, block: nat, count: nat, l: Load, i: nat)
    requires g.pageSize > 0 && count > 0
  {
    RamMetUpTo(g, block, count, l, i, LastPage(g, block, count))
  }

  /** What a whole write has met, and what it leaves the chips doing. */
  ghost predicate RamHandled(g: Geometry, block: nat, count: nat, was: seq<Chip>, now: seq<Chip>)
    requires g.pageSize > 0 && count > 0
  {
    && |was| == |now|
    && forall i :: 0 <= i < |now| ==>
         && (now[i].hazard <==> was[i].hazard || RamMeets(g, block, count, LoadOf(was[i]), i))
         && LoadOf(now[i]) == WriteLeaves(g, block, count, LoadOf(was[i]), i)
  }

  // ---- When it meets one ----

  /** The write comes to `page` when the second buffer is in use, and does not copy that page. */
  predicate Refills(g: Geometry, block: nat, count: nat, page: nat)
    requires g.pageSize > 0
  {
    PageOf(g, block) <= page && SecondAt(g, PageOf(g, block), page) && !Preloads(g, Unfinished(g, block, count, page))
  }

  /** A chip that has had a page before is met at work exactly where the second buffer is in use and not copied to: the
      first one is refilled while the chip programs from it. */
  lemma MetBehind(g: Geometry, block: nat, count: nat, l: Load, page: nat)
    requires g.Valid() && PageOf(g, block) + g.chips <= page
    ensures MetAtPage(g, block, count, l, page) <==> Refills(g, block, count, page)
  {
    BuffersStayFree(g, PageOf(g, block), page);
  }

  /** Page `q` of chip `i` refills a buffer that the same chip is programming. */
  predicate Refilled(g: Geometry, block: nat, count: nat, i: nat, q: nat)
    requires g.pageSize > 0 && count > 0
  {
    && PageOf(g, block) + g.chips <= q <= LastPage(g, block, count) && i == g.ChipOf(q)
    && Refills(g, block, count, q)
  }

  /** The first command to the other chip of two, which has had no page yet. */
  predicate MetAtOther(g: Geometry, block: nat, count: nat, l: Load)
    requires g.pageSize > 0
  {
    !Preloads(g, Unfinished(g, block, count, PageOf(g, block) + 1)) && InUse(l, false)
  }

  lemma OtherChip(g: Geometry, first: nat, q: nat)
    requires g.Valid() && first < q
    ensures q < first + g.chips <==> q == first + 1 && g.ChipOf(q) != g.ChipOf(first)
  {
  }

  /** A page is the chip's first one, for what the chip was doing before, or one behind it. */
  lemma FirstOrBehind(g: Geometry, block: nat, count: nat, l: Load, q: nat)
    requires g.Valid() && count > 0 && PageOf(g, block) <= q <= LastPage(g, block, count)
    ensures MetAtPage(g, block, count, l, q) <==>
            if q == PageOf(g, block) then MetAtFirst(g, l)
            else if g.ChipOf(q) != g.ChipOf(PageOf(g, block)) && q == PageOf(g, block) + 1
            then MetAtOther(g, block, count, l)
            else Refilled(g, block, count, g.ChipOf(q), q)
  {
    hide PageOf, LastPage, Unfinished, Preloads, SecondAt, Geometry.ChipOf;
    if PageOf(g, block) < q {
      OtherChip(g, PageOf(g, block), q);
    }
    if PageOf(g, block) + g.chips <= q {
      MetBehind(g, block, count, l, q);
    }
  }

  /** When a write meets a chip at work: at its first page for what the chip was doing before, or at a later page that
      refills the buffer being programmed. */
  lemma RamMeetsExactly(g: Geometry, block: nat, count: nat, l: Load, i: nat)
    requires g.Valid() && count > 0 && i < g.chips
    ensures RamMeets(g, block, count, l, i) <==>
            || (if i == g.ChipOf(PageOf(g, block)) then MetAtFirst(g, l)
                else PageOf(g, block) < LastPage(g, block, count) && MetAtOther(g, block, count, l))
            || exists q: nat :: Refilled(g, block, count, i, q)
  {
    hide MetAtPage, Refills, MetAtFirst, MetAtOther, LastPage, PageOf;
    var first, last := PageOf(g, block), LastPage(g, block, count);
    PagesInOrder(g, block, count);
    forall q: nat | first <= q <= last
      ensures MetAtPage(g, block, count, l, q) <==>
              if q == first then MetAtFirst(g, l)
              else if g.ChipOf(q) != g.ChipOf(first) && q == first + 1 then MetAtOther(g, block, count, l)
              else Refilled(g, block, count, g.ChipOf(q), q)
    {
      FirstOrBehind(g, block, count, l, q);
    }
    assert MetAtPage(g, block, count, l, first) <==> MetAtFirst(g, l);
    if i != g.ChipOf(first) && first < last {
      assert MetAtPage(g, block, count, l, first + 1) <==> MetAtOther(g, block, count, l);
    }
    if q: nat :| Refilled(g, block, count, i, q) {
      assert MetAtPage(g, block, count, l, q);
    }
  }

  /** Before the switch it meets what a write from the endpoint meets. */
  lemma SameBeforeSwitch(g: Geometry, block: nat, count: nat, l: Load, i: nat)
    requires g.Valid() && count > 0 && i < g.chips && EndsBeforeSwitch(g, block, count)
    ensures RamMeets(g, block, count, l, i) <==> WriteMeets(g, block, count, l, i)
  {
    RamMeetsExactly(g, block, count, l, i);
    PagesInOrder(g, block, count);
    FirstSwitch(g, PageOf(g, block), PageOf(g, block));
  }

  lemma HandledBeforeSwitch(g: Geometry, block: nat, count: nat, was: seq<Chip>, now: seq<Chip>)
    requires g.Valid() && count > 0 && |was| == g.chips && EndsBeforeSwitch(g, block, count)
    ensures RamHandled(g, block, count, was, now) <==> Handled(g, true, block, count, was, now)
  {
    forall i: nat | i < |was|
      ensures RamMeets(g, block, count, LoadOf(was[i]), i) <==> WriteMeets(g, block, count, LoadOf(was[i]), i)
    {
      SameBeforeSwitch(g, block, count, LoadOf(was[i]), i);
    }
  }

  /** From idle chips, a write meets one at work exactly when it refills a buffer that is being programmed; with pages
      of at most a block, whenever it goes on to a second page of some chip. */
  lemma FromIdle(g: Geometry, block: nat, count: nat, was: seq<Chip>, now: seq<Chip>)
    requires g.Valid() && count > 0 && |was| == g.chips && Calm(was) && RamHandled(g, block, count, was, now)
    ensures !NeverMetBusy(now) <==> exists q: nat :: Refilled(g, block, count, g.ChipOf(q), q)
    ensures g.pageSize <= BLOCK_SIZE ==>
        (!NeverMetBusy(now) <==> PageOf(g, block) + g.chips <= LastPage(g, block, count))
  {
    var second := PageOf(g, block) + g.chips;
    forall i: nat | i < g.chips
      ensures now[i].hazard <==> exists q: nat :: Refilled(g, block, count, i, q)
    {
      RamMeetsExactly(g, block, count, Idle, i);
    }
    if q: nat :| Refilled(g, block, count, g.ChipOf(q), q) {
      assert now[g.ChipOf(q)].hazard;
    }
    BuffersStayFree(g, PageOf(g, block), second);
    if g.pageSize <= BLOCK_SIZE && second <= LastPage(g, block, count) {
      assert Refilled(g, block, count, g.ChipOf(second), second);
    }
  }

  // ---- A write on its way ----

  /** Chip `i`, which was `was` before the write and is `now` when the write has come to `page`. */
  ghost predicate RamTracked(g: Geometry, block: nat, count: nat, was: Chip, now: Chip, i: nat, page: nat)
    requires g.pageSize > 0 && PageOf(g, block) <= page
  {
    && (now.hazard <==> was.hazard || RamMetUpTo(g, block, count, LoadOf(was), i, page))
    && (i != g.ChipOf(page) ==> LoadOf(now) == LoadUpTo(g, block, LoadOf(was), page))
  }

  ghost predicate AllRamTracked(g: Geometry, block: nat, count: nat, was: seq<Chip>, now: seq<Chip>, page: nat)
    requires g.pageSize > 0
  {
    && PageOf(g, block) <= page && |was| == |now| == g.chips
    && (0 < |now| ==> RamTracked(g, block, count, was[0], now[0], 0, page))
    && (1 < |now| ==> RamTracked(g, block, count, was[1], now[1], 1, page))
  }

  lemma RamTrackedKept(g: Geometry, block: nat, count: nat, was: seq<Chip>, now: seq<Chip>, page: nat, c: nat,
                       after: Chip)
    requires g.pageSize > 0 && AllRamTracked(g, block, count, was, now, page)
    requires c < |now| && after.busy == now[c].busy && after.hazard == now[c].hazard
    ensures AllRamTracked(g, block, count, was, now[c := after], page)
  {
    hide RamMetUpTo;
  }

  /** From the full `page`, whose buffer is `second`, the write has gone on to the next one. */
  ghost predicate RamTurned(g: Geometry, before: seq<Chip>, after: seq<Chip>, page: nat, second: bool, left: nat) {
    var c, n := g.ChipOf(page), g.ChipOf(page + 1);
    && |before| == |after| == g.chips && c < |after| && n < |after|
    && (c != n ==> after[c].hazard == before[c].hazard && LoadOf(after[c]) == Using(Buffer(second)))
    && var l := if c == n then Using(Buffer(second)) else LoadOf(before[n]);
       (after[n].hazard <==> before[n].hazard || (!Preloads(g, left) && InUse(l, false)))
  }

  lemma OnePageFurther(g: Geometry, block: nat, count: nat, l: Load, i: nat, page: nat)
    requires g.pageSize > 0 && PageOf(g, block) <= page
    ensures RamMetUpTo(g, block, count, l, i, page + 1) <==>
            || RamMetUpTo(g, block, count, l, i, page)
            || (i == g.ChipOf(page + 1) && MetAtPage(g, block, count, l, page + 1))
  {
  }

  lemma RamTrackedThroughTurn(g: Geometry, block: nat, count: nat, was: seq<Chip>, before: seq<Chip>,
                              after: seq<Chip>, page: nat, second: bool, left: nat, next: nat)
    requires g.Valid() && next == page + 1
    requires AllRamTracked(g, block, count, was, before, page) && RamTurned(g, before, after, page, second, left)
    requires second == SecondAt(g, PageOf(g, block), page) && left == Unfinished(g, block, count, next)
    ensures AllRamTracked(g, block, count, was, after, next)
  {
    hide RamMetUpTo;
    OnePageFurther(g, block, count, LoadOf(was[0]), 0, page);
    if g.chips == 2 {
      OnePageFurther(g, block, count, LoadOf(was[1]), 1, page);
    }
  }

  lemma RamTrackedAtStart(g: Geometry, block: nat, count: nat, was: seq<Chip>, now: seq<Chip>)
    requires g.Valid() && Begun(g, was, now, g.ChipOf(PageOf(g, block)))
    ensures AllRamTracked(g, block, count, was, now, PageOf(g, block))
  {
    var first := PageOf(g, block);
    forall i: nat | i < |was|
      ensures RamMetUpTo(g, block, count, LoadOf(was[i]), i, first) <==>
              i == g.ChipOf(first) && MetAtFirst(g, LoadOf(was[i]))
    {
      assert MetAtPage(g, block, count, LoadOf(was[i]), first) <==> MetAtFirst(g, LoadOf(was[i]));
    }
  }

  lemma RamTrackedAtEnd(g: Geometry, block: nat, count: nat, was: seq<Chip>, before: seq<Chip>, page: nat, after: Chip)
    requires g.Valid() && count > 0 && page == LastPage(g, block, count)
    requires AllRamTracked(g, block, count, was, before, page) && g.ChipOf(page) < |before|
    requires LoadOf(after) == Idle && after.hazard == before[g.ChipOf(page)].hazard
    ensures RamHandled(g, block, count, was, before[g.ChipOf(page) := after])
  {
    hide RamMetUpTo;
  }
}
