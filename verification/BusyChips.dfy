/** Which chips of a board may still be at work when a command is sent to them, during a write and after it.

    The chips are independent: what a write meets and leaves on one of them depends on the write's range and on what
    that chip was doing before. */
module BusyChips {
  import opened Arithmetic
  import opened Dataflash
  import opened BlockStore

  /** What a chip may still be working on: nothing, or one of its two buffers. */
  datatype Load = Idle | Using(buffer: nat)

  function LoadOf(c: Chip): Load { if c.busy.Ready? then Idle else Using(c.busy.buffer) }

  function Buffer(second: bool): nat { if second then 1 else 0 }

  predicate InUse(l: Load, second: bool) { l == Using(Buffer(second)) }

  /** Every chip is idle, and none has been met at work. */
  ghost predicate Calm(chips: seq<Chip>) {
    forall i :: 0 <= i < |chips| ==> LoadOf(chips[i]) == Idle && !chips[i].hazard
  }

  ghost predicate NeverMetBusy(chips: seq<Chip>) {
    forall i :: 0 <= i < |chips| ==> !chips[i].hazard
  }

  // ---- Which buffer is used for which page ----

  /** The buffer flag after a page on `chip`: it changes once the last chip has had its turn. */
  function NextSecond(g: Geometry, chip: nat, second: bool): bool {
    if chip + 1 == g.chips then !second else second
  }

  /** Does a write that began at page `first` use the second buffer for page `q`? */
  function SecondAt(g: Geometry, first: nat, q: nat): bool
    requires first <= q
    decreases q
  {
    if q == first then false else NextSecond(g, g.ChipOf(q - 1), SecondAt(g, first, q - 1))
  }

  /** The buffers alternate from page to page of a chip. */
  lemma {:induction false} SecondAtParity(g: Geometry, first: nat, q: nat)
    requires g.Valid() && first <= q
    ensures g.LocalPage(first) <= g.LocalPage(q)
    ensures SecondAt(g, first, q) <==> (g.LocalPage(q) - g.LocalPage(first)) % 2 == 1
    decreases q
  {
    if q > first {
      SecondAtParity(g, first, q - 1);
      LocalPageSteps(g, q - 1);
    }
  }

  lemma LocalPageSteps(g: Geometry, q: nat)
    requires g.Valid()
    ensures g.LocalPage(q + 1) == g.LocalPage(q) + if g.ChipOf(q) + 1 == g.chips then 1 else 0
  {
  }

  /** Hence the buffer for a page is never the one that the same chip is still programming into the page before, for
      either parity of the starting page and for one chip or two. */
  lemma BuffersStayFree(g: Geometry, first: nat, page: nat)
    requires g.Valid() && first + g.chips <= page
    ensures g.ChipOf(page - g.chips) == g.ChipOf(page)
    ensures SecondAt(g, first, page) != SecondAt(g, first, page - g.chips)
  {
    SecondAtParity(g, first, page);
    SecondAtParity(g, first, page - g.chips);
  }

  // ---- What a write meets ----

  /** The test for a page that the write will not cover, with its 16-bit product; `left` counts the blocks to come. */
  predicate Preloads(g: Geometry, left: nat) {
    g.pageSize > BLOCK_SIZE && (left * (BLOCK_SIZE / 16)) % 0x1_0000 < g.pageSize / 16
  }

  /** Blocks not yet finished when a write comes to the start of a page. */
  function Unfinished(g: Geometry, block: nat, count: nat, page: nat): nat {
    var finished := Base(g, page) / BLOCK_SIZE;
    if finished <= block + count then block + count - finished else 0
  }

  /** The first command goes to the first page's chip unguarded: a page copy meets the chip doing anything, a buffer
      write meets it using the first buffer. */
  predicate MetAtFirst(g: Geometry, l: Load) { if g.pageSize > BLOCK_SIZE then l != Idle else InUse(l, false) }

  /** On a two-chip board so does the first command to the other chip, unless a page copy makes the driver wait. */
  predicate MetAtSecond(g: Geometry, block: nat, count: nat, l: Load)
    requires g.pageSize > 0
  {
    var first := PageOf(g, block);
    !Preloads(g, Unfinished(g, block, count, first + 1)) && InUse(l, SecondAt(g, first, first + 1))
  }

  /** Has a write that has come to `page` met chip `i` at work? `l` is what the chip was doing before the write. */
  predicate MetUpTo(g: Geometry, block: nat, count: nat, l: Load, i: nat, page: nat)
    requires g.pageSize > 0
  {
    if i == g.ChipOf(PageOf(g, block)) then MetAtFirst(g, l)
    else PageOf(g, block) < page && MetAtSecond(g, block, count, l)
  }

  /** What a chip other than that of `page` is doing when a write has come there. */
  function LoadUpTo(g: Geometry, block: nat, l: Load, page: nat): Load
    requires g.pageSize > 0 && PageOf(g, block) <= page
  {
    if PageOf(g, block) < page then Using(Buffer(SecondAt(g, PageOf(g, block), page - 1))) else l
  }

  /** Does a write meet chip `i` at work? */
  predicate WriteMeets(g: Geometry, block: nat, count: nat, l: Load, i: nat)
    requires g.pageSize > 0
  {
    MetUpTo(g, block, count, l, i, if count == 0 then PageOf(g, block) else LastPage(g, block, count))
  }

  /** What a write leaves chip `i` doing. It waits for the chip of its last page only. */
  function WriteLeaves(g: Geometry, block: nat, count: nat, l: Load, i: nat): Load
    requires g.pageSize > 0
  {
    if count == 0 then (if i == g.ChipOf(PageOf(g, block)) && g.pageSize > BLOCK_SIZE then Idle else l)
    else if i == g.ChipOf(LastPage(g, block, count)) then Idle
    else PagesInOrder(g, block, count); LoadUpTo(g, block, l, LastPage(g, block, count))
  }

  lemma PagesInOrder(g: Geometry, block: nat, count: nat)
    requires g.pageSize > 0 && count > 0
    ensures PageOf(g, block) <= LastPage(g, block, count)
  {
    QuotientOrder(block * BLOCK_SIZE, (block + count) * BLOCK_SIZE - 1, g.pageSize);
  }

  /** Does a read of this range send a command to chip `i`? One of no blocks still opens its first page. */
  predicate Touches(g: Geometry, block: nat, count: nat, i: nat)
    requires g.pageSize > 0
  {
    i == g.ChipOf(PageOf(g, block)) || (count > 0 && PageOf(g, block) < LastPage(g, block, count))
  }

  /** Does a transfer meet chip `i` at work, when the chip was doing `l`? A read sends its first command to a chip
      without waiting, and a page read conflicts with anything. */
  predicate Meets(g: Geometry, write: bool, block: nat, count: nat, l: Load, i: nat)
    requires g.pageSize > 0
  {
    if write then WriteMeets(g, block, count, l, i) else l != Idle && Touches(g, block, count, i)
  }

  function Leaves(g: Geometry, write: bool, block: nat, count: nat, l: Load, i: nat): Load
    requires g.pageSize > 0
  {
    if write then WriteLeaves(g, block, count, l, i) else l
  }

  /** What a whole transfer has met, and what it leaves the chips doing. */
  ghost predicate Handled(g: Geometry, write: bool, block: nat, count: nat, was: seq<Chip>, now: seq<Chip>)
    requires g.pageSize > 0
  {
    && |was| == |now|
    && forall i :: 0 <= i < |now| ==>
         && (now[i].hazard <==> was[i].hazard || Meets(g, write, block, count, LoadOf(was[i]), i))
         && LoadOf(now[i]) == Leaves(g, write, block, count, LoadOf(was[i]), i)
  }

  // ---- A write on its way ----

  /** Chip `i`, which was `was` before the write and is `now` when the write has come to `page`. */
  ghost predicate Tracked(g: Geometry, block: nat, count: nat, was: Chip, now: Chip, i: nat, page: nat)
    requires g.pageSize > 0 && PageOf(g, block) <= page
  {
    && (now.hazard <==> was.hazard || MetUpTo(g, block, count, LoadOf(was), i, page))
    && (i != g.ChipOf(page) ==> LoadOf(now) == LoadUpTo(g, block, LoadOf(was), page))
  }

  ghost predicate AllTracked(g: Geometry, block: nat, count: nat, was: seq<Chip>, now: seq<Chip>, page: nat)
    requires g.pageSize > 0 && PageOf(g, block) <= page
  {
    && |was| == |now| == g.chips
    && (0 < |now| ==> Tracked(g, block, count, was[0], now[0], 0, page))
    && (1 < |now| ==> Tracked(g, block, count, was[1], now[1], 1, page))
  }

  lemma TrackedKept(g: Geometry, block: nat, count: nat, was: seq<Chip>, now: seq<Chip>, page: nat, c: nat, after: Chip)
    requires g.pageSize > 0 && PageOf(g, block) <= page && AllTracked(g, block, count, was, now, page)
    requires c < |now| && after.busy == now[c].busy && after.hazard == now[c].hazard
    ensures AllTracked(g, block, count, was, now[c := after], page)
  {
  }

  /** From the full `page`, whose buffer is `second`, the write has gone on to the next one. */
  ghost predicate Turned(g: Geometry, before: seq<Chip>, after: seq<Chip>, page: nat, second: bool, left: nat) {
    var c, n := g.ChipOf(page), g.ChipOf(page + 1);
    && |before| == |after| == g.chips && c < |after| && n < |after|
    && after[c].hazard == before[c].hazard
    && (c != n ==>
         && LoadOf(after[c]) == Using(Buffer(second))
         && (after[n].hazard <==> before[n].hazard
                                  || (!Preloads(g, left) && InUse(LoadOf(before[n]), NextSecond(g, c, second)))))
  }

  /** Only the very first turn of a page can meet a chip at work. */
  lemma TrackedThroughTurn(g: Geometry, block: nat, count: nat, was: seq<Chip>, before: seq<Chip>, after: seq<Chip>,
                           page: nat, second: bool, left: nat, next: nat)
    requires g.Valid() && PageOf(g, block) <= page && next == page + 1
    requires AllTracked(g, block, count, was, before, page) && Turned(g, before, after, page, second, left)
    requires second == SecondAt(g, PageOf(g, block), page) && left == Unfinished(g, block, count, next)
    ensures AllTracked(g, block, count, was, after, next)
  {
    var first := PageOf(g, block);
    if g.chips == 2 && first < page {
      BuffersStayFree(g, first, next);
    }
  }

  // ---- Its beginning and its end ----

  /** The first command has been sent to chip `c`. */
  ghost predicate Begun(g: Geometry, was: seq<Chip>, now: seq<Chip>, c: nat) {
    && |was| == |now| == g.chips && c < |now|
    && forall i :: 0 <= i < |now| ==>
         && (now[i].hazard <==> was[i].hazard || (i == c && MetAtFirst(g, LoadOf(was[i]))))
         && LoadOf(now[i]) == if i == c && g.pageSize > BLOCK_SIZE then Idle else LoadOf(was[i])
  }

  lemma TrackedAtStart(g: Geometry, block: nat, count: nat, was: seq<Chip>, now: seq<Chip>)
    requires g.Valid() && Begun(g, was, now, g.ChipOf(PageOf(g, block)))
    ensures AllTracked(g, block, count, was, now, PageOf(g, block))
    ensures Handled(g, true, block, 0, was, now)
  {
  }

  lemma TrackedAtEnd(g: Geometry, block: nat, count: nat, was: seq<Chip>, before: seq<Chip>, page: nat, after: Chip)
    requires g.Valid() && PageOf(g, block) <= page && count > 0 && page == LastPage(g, block, count)
    requires AllTracked(g, block, count, was, before, page) && g.ChipOf(page) < |before|
    requires LoadOf(after) == Idle && after.hazard == before[g.ChipOf(page)].hazard
    ensures Handled(g, true, block, count, was, before[g.ChipOf(page) := after])
  {
  }
}
