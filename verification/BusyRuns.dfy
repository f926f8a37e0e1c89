/** Runs of WRITE (10) and READ (10) commands that begin with idle chips: when does a command meet a busy chip? On a
    board with one chip, never. On a board with two, exactly when some write leaves a chip busy and a later request
    goes to that chip, in conflict with what it is doing, before another write has used it. */
module BusyRuns {
  import opened ByteMemory
  import opened Endpoints
  import opened Dataflash
  import opened BlockStore
  import opened BusyChips
  import opened DataflashManager
  import opened Scsi

  // ---- One chip ----

  lemma {:induction false} OneChipIsNeverMetBusy(g: Geometry, requests: seq<Request>)
    requires g.Valid() && g.chips == 1 && AllInRange(Bytes(g), requests)
    ensures !RunMeets(g, requests, Idle, 0) && LoadAfter(g, requests, Idle, 0) == Idle
  {
    if requests != [] {
      OneChipIsNeverMetBusy(g, requests[..|requests| - 1]);
    }
  }

  // ---- Two chips ----

  /** A write of several pages leaves the chip busy that does not get the last one. */
  predicate LeavesBusy(g: Geometry, r: Request, i: nat)
    requires g.pageSize > 0 && r.count > 0
  {
    && r.WriteRequest? && PageOf(g, r.block) < LastPage(g, r.block, r.count)
    && i != g.ChipOf(LastPage(g, r.block, r.count))
  }

  /** The buffer that chip is programming: the one for the last page but one. */
  function BufferLeft(g: Geometry, r: Request): Load
    requires g.pageSize > 0 && r.count > 0
  {
    var last := LastPage(g, r.block, r.count);
    var turns: int := if last == 0 then 0 else g.LocalPage(last - 1) - g.LocalPage(PageOf(g, r.block));
    Using(Buffer(turns % 2 == 1))
  }

  predicate WritesTo(g: Geometry, r: Request, i: nat)
    requires g.pageSize > 0
  {
    r.WriteRequest? && Touches(g, r.block, r.count, i)
  }

  /** Request m is the last write that used chip `i`, and it left it busy. */
  ghost predicate LastUseLeavesBusy(g: Geometry, requests: seq<Request>, m: nat, i: nat)
    requires g.pageSize > 0 && AllInRange(Bytes(g), requests)
  {
    && m < |requests| && LeavesBusy(g, requests[m], i)
    && forall j :: m < j < |requests| ==> !WritesTo(g, requests[j], i)
  }

  /** One more request: a read, and a write that does not use the chip, leave it as it is. */
  lemma LoadAfterRequest(g: Geometry, r: Request, l: Load, i: nat)
    requires g.Valid() && g.chips == 2 && r.count > 0
    ensures Leaves(g, r.WriteRequest?, r.block, r.count, l, i) ==
            if LeavesBusy(g, r, i) then BufferLeft(g, r) else if WritesTo(g, r, i) then Idle else l
    ensures LeavesBusy(g, r, i) ==> WritesTo(g, r, i)
  {
    var first, last := PageOf(g, r.block), LastPage(g, r.block, r.count);
    PagesInOrder(g, r.block, r.count);
    if first < last {
      SecondAtParity(g, first, last - 1);
    }
  }

  /** A chip is busy after a run exactly when the last write that used it left it so. */
  lemma {:induction false} BusyAfterRun(g: Geometry, requests: seq<Request>, i: nat)
    requires g.Valid() && g.chips == 2 && AllInRange(Bytes(g), requests)
    ensures LoadAfter(g, requests, Idle, i) != Idle <==> exists m: nat :: LastUseLeavesBusy(g, requests, m, i)
    ensures forall m: nat :: LastUseLeavesBusy(g, requests, m, i) ==>
        LoadAfter(g, requests, Idle, i) == BufferLeft(g, requests[m])
  {
    if requests != [] {
      var n := |requests| - 1;
      var before := requests[..n];
      BusyAfterRun(g, before, i);
      LoadAfterRequest(g, requests[n], LoadAfter(g, before, Idle, i), i);
      if WritesTo(g, requests[n], i) {
        assert LeavesBusy(g, requests[n], i) ==> LastUseLeavesBusy(g, requests, n, i);
      } else {
        forall m: nat
          ensures LastUseLeavesBusy(g, requests, m, i) <==> LastUseLeavesBusy(g, before, m, i)
        {
          SameLastUse(g, requests, n, m, i);
        }
      }
    }
  }

  lemma SameLastUse(g: Geometry, requests: seq<Request>, n: nat, m: nat, i: nat)
    requires g.Valid() && g.chips == 2 && AllInRange(Bytes(g), requests) && n + 1 == |requests|
    requires !WritesTo(g, requests[n], i)
    ensures LastUseLeavesBusy(g, requests, m, i) <==> LastUseLeavesBusy(g, requests[..n], m, i)
  {
    LoadAfterRequest(g, requests[n], Idle, i);
    if LastUseLeavesBusy(g, requests[..n], m, i) {
      forall j | m < j < |requests|
        ensures !WritesTo(g, requests[j], i)
      {
        assert j < n ==> requests[..n][j] == requests[j];
      }
    }
  }

  /** Request n meets chip `i` busy with what request m left it doing. */
  ghost predicate Clash(g: Geometry, requests: seq<Request>, m: nat, n: nat, i: nat)
    requires g.pageSize > 0 && AllInRange(Bytes(g), requests)
  {
    && m < n < |requests| && LeavesBusy(g, requests[m], i)
    && (forall j :: m < j < n ==> !WritesTo(g, requests[j], i))
    && RequestMeets(g, requests[n], BufferLeft(g, requests[m]), i)
  }

  lemma ClashIsMeeting(g: Geometry, requests: seq<Request>, n: nat, i: nat)
    requires g.Valid() && g.chips == 2 && AllInRange(Bytes(g), requests) && n < |requests|
    ensures RequestMeets(g, requests[n], LoadAfter(g, requests[..n], Idle, i), i) <==>
            exists m: nat :: Clash(g, requests, m, n, i)
  {
    var before := requests[..n];
    BusyAfterRun(g, before, i);
    forall m: nat
      ensures Clash(g, requests, m, n, i) <==>
              LastUseLeavesBusy(g, before, m, i) && RequestMeets(g, requests[n], BufferLeft(g, requests[m]), i)
    {
      LastUseInPrefix(g, requests, m, n, i);
    }
    if RequestMeets(g, requests[n], LoadAfter(g, before, Idle, i), i) {
      var m: nat :| LastUseLeavesBusy(g, before, m, i);
      assert Clash(g, requests, m, n, i);
    }
  }

  lemma LastUseInPrefix(g: Geometry, requests: seq<Request>, m: nat, n: nat, i: nat)
    requires g.pageSize > 0 && AllInRange(Bytes(g), requests) && n <= |requests|
    ensures LastUseLeavesBusy(g, requests[..n], m, i) <==>
            m < n && LeavesBusy(g, requests[m], i) && forall j :: m < j < n ==> !WritesTo(g, requests[j], i)
  {
    if m < n && LeavesBusy(g, requests[m], i) && forall j :: m < j < n ==> !WritesTo(g, requests[j], i) {
      assert forall j :: m < j < n ==> requests[..n][j] == requests[j];
    }
    if LastUseLeavesBusy(g, requests[..n], m, i) {
      forall j | m < j < n
        ensures !WritesTo(g, requests[j], i)
      {
        assert requests[..n][j] == requests[j];
      }
    }
  }

  ghost predicate Clashes(g: Geometry, requests: seq<Request>, i: nat)
    requires g.pageSize > 0 && AllInRange(Bytes(g), requests)
  {
    exists m: nat, n: nat :: Clash(g, requests, m, n, i)
  }

  /** A run meets chip `i` busy exactly when two of its requests clash on it. */
  lemma {:induction false} RunMeetsExactly(g: Geometry, requests: seq<Request>, i: nat)
    requires g.Valid() && g.chips == 2 && AllInRange(Bytes(g), requests)
    ensures RunMeets(g, requests, Idle, i) <==> Clashes(g, requests, i)
  {
    if requests != [] {
      var k := |requests| - 1;
      RunMeetsExactly(g, requests[..k], i);
      ClashIsMeeting(g, requests, k, i);
      forall m: nat, n: nat | n < k
        ensures Clash(g, requests, m, n, i) <==> Clash(g, requests[..k], m, n, i)
      {
        LastUseInPrefix(g, requests, m, n, i);
        LastUseInPrefix(g, requests[..k], m, n, i);
        assert requests[..k][..n] == requests[..n];
      }
    }
  }

  lemma MetOnChip(g: Geometry, requests: seq<Request>, was: seq<Chip>, now: seq<Chip>, i: nat)
    requires g.pageSize > 0 && i < |was| && Calm(was) && RunHandled(g, requests, was, now)
    ensures now[i].hazard <==> RunMeets(g, requests, Idle, i)
  {
  }

  /** A run that begins with idle chips sends no command to a busy one if and only if no two of its requests clash. */
  lemma NoCommandMeetsBusyChip(g: Geometry, requests: seq<Request>, was: seq<Chip>, now: seq<Chip>)
    requires g.Valid() && AllInRange(Bytes(g), requests) && |was| == g.chips
    requires Calm(was) && RunHandled(g, requests, was, now)
    ensures g.chips == 1 ==> NeverMetBusy(now)
    ensures g.chips == 2 ==> (NeverMetBusy(now) <==> !Clashes(g, requests, 0) && !Clashes(g, requests, 1))
  {
    MetOnChip(g, requests, was, now, 0);
    if g.chips == 1 {
      OneChipIsNeverMetBusy(g, requests);
    } else {
      MetOnChip(g, requests, was, now, 1);
      RunMeetsExactly(g, requests, 0);
      RunMeetsExactly(g, requests, 1);
    }
  }

  // ---- Two runs that do ----

  /** Two blocks written on a two-chip board with 512-byte pages, and the first read back: the read meets the first
      chip still programming. */
  method ReadAfterWriteMeetsBusyChip(disk: Disk, packets: seq<seq<byte>>)
    requires Quiet(disk.board) && disk.board.g.chips == 2 && disk.board.g.pageSize == 512 && disk.board.g.FitsBlocks()
    requires InChunks(packets) && |Flat(packets)| == 1024 && 1024 <= Bytes(disk.board.g)
    modifies disk, disk.board
    ensures Quiet(disk.board) && disk.board.chips[0].hazard
  {
    var run := [WriteRequest(0, 2, packets), ReadRequest(0, 1)];
    TwoBlocksLeaveFirstChipBusy(disk.board.g, packets, LoadOf(disk.board.chips[0]), run[1]);
    var replies := Serve(disk, run, 64);
  }

  /** The same write, and its first block written again: the bytes go into the buffer that is being programmed. */
  method WriteAfterWriteMeetsBusyBuffer(disk: Disk, packets: seq<seq<byte>>, packets': seq<seq<byte>>)
    requires Quiet(disk.board) && disk.board.g.chips == 2 && disk.board.g.pageSize == 512 && disk.board.g.FitsBlocks()
    requires InChunks(packets) && |Flat(packets)| == 1024 && 1024 <= Bytes(disk.board.g)
    requires InChunks(packets') && |Flat(packets')| == 512
    modifies disk, disk.board
    ensures Quiet(disk.board) && disk.board.chips[0].hazard
  {
    var run := [WriteRequest(0, 2, packets), WriteRequest(0, 1, packets')];
    TwoBlocksLeaveFirstChipBusy(disk.board.g, packets, LoadOf(disk.board.chips[0]), run[1]);
    var replies := Serve(disk, run, 64);
  }

  lemma TwoBlocksLeaveFirstChipBusy(g: Geometry, packets: seq<seq<byte>>, l: Load, next: Request)
    requires g.chips == 2 && g.pageSize == 512 && next.block == 0 && next.count == 1
    ensures RunMeets(g, [WriteRequest(0, 2, packets), next], l, 0)
  {
    var write := WriteRequest(0, 2, packets);
    assert [write, next][..1] == [write];
    assert LastPage(g, 0, 2) == 1 && SecondAt(g, 0, 0) == false;
    assert LoadAfter(g, [], l, 0) == l;
    assert LoadAfter(g, [write], l, 0) == Using(0);
  }
}
