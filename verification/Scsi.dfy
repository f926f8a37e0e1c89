/** The SCSI layer: WRITE (10) and READ (10) commands on the block store, and whole runs of them. */
module Scsi {
  import opened ByteMemory
  import opened Endpoints
  import opened Dataflash
  import opened BlockStore
  import opened BusyChips
  import opened DataflashManager
  import opened DataflashReader

  const INQUIRY: byte := 0x12
  const REQUEST_SENSE: byte := 0x03
  const TEST_UNIT_READY: byte := 0x00
  const READ_CAPACITY_10: byte := 0x25
  const SEND_DIAGNOSTIC: byte := 0x1D
  const PREVENT_ALLOW_MEDIUM_REMOVAL: byte := 0x1E
  const WRITE_10: byte := 0x2A
  const READ_10: byte := 0x28
  const VERIFY_10: byte := 0x2F

  datatype Sense = Sense(key: byte, code: byte, qualifier: byte)

  const GOOD := Sense(0x00, 0x00, 0x00)
  const INVALID_COMMAND := Sense(0x05, 0x20, 0x00)
  const OUT_OF_RANGE := Sense(0x05, 0x21, 0x00)

  /** The big-endian block address and block count of a ten-byte command. */
  function BlockAddress(cdb: seq<byte>): (a: nat)
    requires |cdb| == 16
    ensures a < 0x1_0000_0000
  {
    var b2: int, b3: int, b4: int, b5: int := cdb[2], cdb[3], cdb[4], cdb[5];
    ((b2 * 256 + b3) * 256 + b4) * 256 + b5
  }

  function TotalBlocks(cdb: seq<byte>): (n: nat)
    requires |cdb| == 16
    ensures n < 0x1_0000
  {
    var b7: int, b8: int := cdb[7], cdb[8];
    b7 * 256 + b8
  }

  /** The command block a host sends. */
  function Cdb(op: byte, block: nat, count: nat): (cdb: seq<byte>)
    ensures |cdb| == 16 && cdb[0] == op
  {
    [op, 0, block / 0x100_0000 % 256, block / 0x1_0000 % 256, block / 256 % 256, block % 256, 0,
     count / 256 % 256, count % 256, 0, 0, 0, 0, 0, 0, 0]
  }

  lemma CdbRoundTrip(op: byte, block: nat, count: nat)
    requires block < 0x1_0000_0000 && count < 0x1_0000
    ensures BlockAddress(Cdb(op, block, count)) == block
    ensures TotalBlocks(Cdb(op, block, count)) == count
  {
    var q := block / 256;
    assert q / 256 == block / 0x1_0000 && q / 256 / 256 == block / 0x100_0000;
  }

  class Disk {
    const board: Board
    var sense: Sense
    var dataTransferLength: nat

    constructor (board: Board)
      ensures this.board == board
    {
      this.board, sense, dataTransferLength := board, GOOD, 0;
    }

    /** What a WRITE (10) needs of its data stage: whole chunks, as many bytes as announced. */
    ghost predicate Supplied(cdb: seq<byte>, data: OutEndpoint)
      requires |cdb| == 16
      reads data
    {
      && data.Valid() && |data.bank| % 16 == 0 && InChunks(data.queue)
      && TotalBlocks(cdb) * BLOCK_SIZE <= |data.Stream()|
      && (TotalBlocks(cdb) == 0 ==> !data.received && data.queue == [])
    }

    ghost predicate Ready(cdb: seq<byte>, data: OutEndpoint, reply: InEndpoint)
      requires |cdb| == 16
      reads board, data, reply
    {
      && Quiet(board) && board.g.FitsBlocks() && (cdb[0] == WRITE_10 ==> Supplied(cdb, data))
      && reply.Valid() && reply.bank == [] && reply.size % 16 == 0 && BLOCK_SIZE % reply.size == 0
      && (BlockAddress(cdb) < Blocks(board.g) ==> BlockAddress(cdb) + TotalBlocks(cdb) <= Blocks(board.g))
    }

    /** WRITE (10) or READ (10): a start beyond the medium is refused and changes nothing; any other
        command moves exactly the named blocks. */
    method ReadWrite10(cdb: seq<byte>, isRead: bool, data: OutEndpoint, reply: InEndpoint) returns (success: bool)
      requires |cdb| == 16 && isRead == (cdb[0] != WRITE_10) && Ready(cdb, data, reply)
      modifies this, board, data, reply
      ensures Quiet(board) && reply.Valid() && reply.bank == []
      ensures success == (BlockAddress(cdb) < Blocks(board.g))
      ensures !success ==> sense == OUT_OF_RANGE && dataTransferLength == old(dataTransferLength)
                           && board.chips == old(board.chips) && reply.sent == old(reply.sent)
      ensures success ==>
        && sense == old(sense)
        && dataTransferLength == (old(dataTransferLength) - TotalBlocks(cdb) * BLOCK_SIZE) % 0x1_0000_0000
        && BlockAddress(cdb) * BLOCK_SIZE + TotalBlocks(cdb) * BLOCK_SIZE <= Bytes(board.g)
        && Handled(board.g, !isRead, BlockAddress(cdb), TotalBlocks(cdb), old(board.chips), board.chips)
      ensures success && isRead ==>
        && Store(board.g, board.chips) == old(Store(board.g, board.chips))
        && reply.Stream() ==
           old(reply.Stream()) +
           Store(board.g, board.chips)[BlockAddress(cdb) * BLOCK_SIZE..][..TotalBlocks(cdb) * BLOCK_SIZE]
        && SameMemory(old(board.chips), board.chips)
      ensures success && !isRead ==>
        && Store(board.g, board.chips) == Overwrite(old(Store(board.g, board.chips)), BlockAddress(cdb) * BLOCK_SIZE,
                                                    old(data.Stream())[..TotalBlocks(cdb) * BLOCK_SIZE])
        && reply.sent == old(reply.sent)
    {
      var blockAddress := BlockAddress(cdb);
      var totalBlocks := TotalBlocks(cdb);
      if blockAddress >= Blocks(board.g) {
        sense := OUT_OF_RANGE;
        return false;
      }
      if isRead {
        ReadBlocks(board, reply, blockAddress, totalBlocks);
      } else {
        WriteBlocks(board, data, blockAddress, totalBlocks);
      }
      dataTransferLength := (dataTransferLength - totalBlocks * BLOCK_SIZE) % 0x1_0000_0000;
      return true;
    }

    /** Dispatch on the command's opcode. Success clears the sense data, an unknown command sets it. */
    method DecodeSCSICommand(cdb: seq<byte>, data: OutEndpoint, reply: InEndpoint) returns (success: bool)
      requires |cdb| == 16 && cdb[0] != INQUIRY && cdb[0] != REQUEST_SENSE && cdb[0] != SEND_DIAGNOSTIC
      requires Ready(cdb, data, reply) && reply.size >= 8
      modifies this, board, data, reply
      ensures Quiet(board) && reply.Valid() && reply.bank == []
      ensures success ==> sense == GOOD
      ensures success == (match cdb[0]
                          case WRITE_10 => BlockAddress(cdb) < Blocks(board.g)
                          case READ_10 => BlockAddress(cdb) < Blocks(board.g)
                          case op => op in {TEST_UNIT_READY, READ_CAPACITY_10, PREVENT_ALLOW_MEDIUM_REMOVAL, VERIFY_10})
      ensures !success ==> sense == (if cdb[0] == WRITE_10 || cdb[0] == READ_10 then OUT_OF_RANGE else INVALID_COMMAND)
                           && board.chips == old(board.chips) && reply.sent == old(reply.sent)
      ensures success && (cdb[0] == WRITE_10 || cdb[0] == READ_10) ==>
        Handled(board.g, cdb[0] == WRITE_10, BlockAddress(cdb), TotalBlocks(cdb), old(board.chips), board.chips)
      ensures success && cdb[0] == WRITE_10 ==>
        && BlockAddress(cdb) * BLOCK_SIZE + TotalBlocks(cdb) * BLOCK_SIZE <= Bytes(board.g)
        && Store(board.g, board.chips) == Overwrite(old(Store(board.g, board.chips)), BlockAddress(cdb) * BLOCK_SIZE,
                                                    old(data.Stream())[..TotalBlocks(cdb) * BLOCK_SIZE])
        && reply.sent == old(reply.sent)
      ensures success && cdb[0] == READ_10 ==>
        && BlockAddress(cdb) * BLOCK_SIZE + TotalBlocks(cdb) * BLOCK_SIZE <= Bytes(board.g)
        && Store(board.g, board.chips) == old(Store(board.g, board.chips))
        && reply.Stream() ==
           old(reply.Stream()) +
           Store(board.g, board.chips)[BlockAddress(cdb) * BLOCK_SIZE..][..TotalBlocks(cdb) * BLOCK_SIZE]
        && SameMemory(old(board.chips), board.chips)
      ensures success && cdb[0] != WRITE_10 && cdb[0] != READ_10 ==> board.chips == old(board.chips)
      ensures success && cdb[0] in {TEST_UNIT_READY, PREVENT_ALLOW_MEDIUM_REMOVAL, VERIFY_10} ==>
        dataTransferLength == 0 && reply.sent == old(reply.sent)
      ensures success && cdb[0] == READ_CAPACITY_10 ==>
        reply.Stream() == old(reply.Stream()) + BigEndian32(Blocks(board.g) - 1) + BigEndian32(BLOCK_SIZE)
    {
      success := false;
      match cdb[0] {
        case READ_CAPACITY_10 =>
          success := ReadCapacity10(reply);
        case WRITE_10 =>
          success := ReadWrite10(cdb, false, data, reply);
        case READ_10 =>
          success := ReadWrite10(cdb, true, data, reply);
        case op =>
          if op == TEST_UNIT_READY || op == PREVENT_ALLOW_MEDIUM_REMOVAL || op == VERIFY_10 {
            success := true;
            dataTransferLength := 0;
          } else {
            sense := INVALID_COMMAND;
          }
      }
      if success {
        sense := GOOD;
      }
    }

    /** READ CAPACITY (10): the last block's address and the block size. */
    method ReadCapacity10(reply: InEndpoint) returns (success: bool)
      requires reply.Valid() && reply.bank == [] && reply.size >= 8
      modifies this, reply
      ensures success && reply.Valid() && reply.bank == []
      ensures reply.Stream() == old(reply.Stream()) + BigEndian32(Blocks(board.g) - 1) + BigEndian32(BLOCK_SIZE)
      ensures dataTransferLength == (old(dataTransferLength) - 8) % 0x1_0000_0000
    {
      WriteStream(reply, BigEndian32(Blocks(board.g) - 1));
      WriteStream(reply, BigEndian32(BLOCK_SIZE));
      reply.ClearIN();
      dataTransferLength := (dataTransferLength - 8) % 0x1_0000_0000;
      return true;
    }
  }

  /** The four bytes of a 32-bit value, most significant first; -1 is the largest. */
  function BigEndian32(x: int): (b: seq<byte>)
    ensures |b| == 4
  {
    [x / 0x100_0000 % 256, x / 0x1_0000 % 256, x / 256 % 256, x % 256]
  }

  /** A host that puts them together, most significant first, has the value back. */
  lemma BigEndianReadsBack(x: nat)
    requires x < 0x1_0000_0000
    ensures var b := BigEndian32(x);
            var b0: int, b1: int, b2: int, b3: int := b[0], b[1], b[2], b[3];
            b0 * 0x100_0000 + b1 * 0x1_0000 + b2 * 0x100 + b3 == x
  {
    var q := x / 256;
    assert q / 256 == x / 0x1_0000 && q / 256 / 256 == x / 0x100_0000;
  }

  method WriteStream(reply: InEndpoint, bytes: seq<byte>)
    requires reply.Valid() && |reply.bank| + |bytes| <= reply.size
    modifies reply
    ensures reply.Valid() && |reply.bank| == old(|reply.bank|) + |bytes|
    ensures reply.Stream() == old(reply.Stream()) + bytes
  {
    for i := 0 to |bytes|
      invariant reply.Valid() && |reply.bank| == old(|reply.bank|) + i
      invariant reply.Stream() == old(reply.Stream()) + bytes[..i]
    {
      assert bytes[..i + 1] == bytes[..i] + [bytes[i]];
      reply.WriteByte(bytes[i]);
    }
  }

  // ---- Runs of commands ----

  /** What a host asks for: a write with its data stage in packets, or a read. */
  datatype Request = WriteRequest(block: nat, count: nat, packets: seq<seq<byte>>) | ReadRequest(block: nat, count: nat)

  /** A request that names at least one block and only blocks of the medium. */
  ghost predicate InRange(bytes: nat, r: Request) {
    && 0 < r.count < 0x1_0000 && r.block < 0x1_0000_0000
    && (r.block + r.count) * BLOCK_SIZE <= bytes
    && (r.WriteRequest? ==> InChunks(r.packets) && |Flat(r.packets)| == r.count * BLOCK_SIZE)
  }

  ghost predicate AllInRange(bytes: nat, requests: seq<Request>) {
    forall i :: 0 <= i < |requests| ==> InRange(bytes, requests[i])
  }

  /** The flat array after one request. */
  ghost function Apply(store: seq<byte>, r: Request): (s: seq<byte>)
    requires InRange(|store|, r)
    ensures |s| == |store|
  {
    if r.WriteRequest? then Overwrite(store, r.block * BLOCK_SIZE, Flat(r.packets)) else store
  }

  /** The flat array after a run of requests. */
  ghost function Run(store: seq<byte>, requests: seq<Request>): (s: seq<byte>)
    requires AllInRange(|store|, requests)
    ensures |s| == |store|
  {
    if requests == [] then store
    else Apply(Run(store, requests[..|requests| - 1]), requests[|requests| - 1])
  }

  /** What the flat array answers to a request. */
  ghost function Answer(store: seq<byte>, r: Request): seq<byte>
    requires InRange(|store|, r)
  {
    if r.ReadRequest? then store[r.block * BLOCK_SIZE..][..r.count * BLOCK_SIZE] else []
  }

  /** What the flat array answers to a run of requests, each in the state the earlier ones left. */
  ghost function Answers(store: seq<byte>, requests: seq<Request>): (replies: seq<seq<byte>>)
    requires AllInRange(|store|, requests)
    ensures |replies| == |requests|
  {
    if requests == [] then []
    else
      var before, last := requests[..|requests| - 1], requests[|requests| - 1];
      Answers(store, before) + [Answer(Run(store, before), last)]
  }

  /** Reply i is the answer of the array as the first i requests left it. */
  lemma {:induction false} AnswersAt(store: seq<byte>, requests: seq<Request>, i: nat)
    requires AllInRange(|store|, requests) && i < |requests|
    ensures Answers(store, requests)[i] == Answer(Run(store, requests[..i]), requests[i])
    decreases |requests|
  {
    var n := |requests| - 1;
    if i < n {
      AnswersAt(store, requests[..n], i);
      assert requests[..n][..i] == requests[..i];
    }
  }

  predicate Covers(r: Request, a: nat) {
    r.WriteRequest? && r.block * BLOCK_SIZE <= a < (r.block + r.count) * BLOCK_SIZE
  }

  /** Request i of the run is the last one to write byte `a`. */
  predicate LastToWrite(requests: seq<Request>, a: nat, i: nat) {
    && i < |requests| && Covers(requests[i], a)
    && forall j :: i < j < |requests| ==> !Covers(requests[j], a)
  }

  lemma ApplyAt(store: seq<byte>, r: Request, a: nat)
    requires InRange(|store|, r) && a < |store|
    ensures Covers(r, a) ==> r.block * BLOCK_SIZE <= a < r.block * BLOCK_SIZE + |Flat(r.packets)|
                             && Apply(store, r)[a] == Flat(r.packets)[a - r.block * BLOCK_SIZE]
    ensures !Covers(r, a) ==> Apply(store, r)[a] == store[a]
  {
  }

  /** After any run, a byte holds what the last write to it sent... */
  lemma {:induction false} LastWriteWins(store: seq<byte>, requests: seq<Request>, a: nat, i: nat)
    requires AllInRange(|store|, requests) && a < |store| && LastToWrite(requests, a, i)
    ensures requests[i].block * BLOCK_SIZE <= a < requests[i].block * BLOCK_SIZE + |Flat(requests[i].packets)|
    ensures Run(store, requests)[a] == Flat(requests[i].packets)[a - requests[i].block * BLOCK_SIZE]
  {
    var n := |requests| - 1;
    ApplyAt(Run(store, requests[..n]), requests[n], a);
    if i < n {
      assert LastToWrite(requests[..n], a, i);
      LastWriteWins(store, requests[..n], a, i);
    }
  }

  /** ... and a byte that no write covers holds what it held at the start. */
  lemma {:induction false} UnwrittenBytesStay(store: seq<byte>, requests: seq<Request>, a: nat)
    requires AllInRange(|store|, requests) && a < |store|
    requires forall i :: 0 <= i < |requests| ==> !Covers(requests[i], a)
    ensures Run(store, requests)[a] == store[a]
  {
    if requests != [] {
      var n := |requests| - 1;
      ApplyAt(Run(store, requests[..n]), requests[n], a);
      UnwrittenBytesStay(store, requests[..n], a);
    }
  }

  // ---- Commands that meet a busy chip ----

  predicate RequestMeets(g: Geometry, r: Request, l: Load, i: nat)
    requires g.pageSize > 0
  {
    Meets(g, r.WriteRequest?, r.block, r.count, l, i)
  }

  /** What a run leaves chip `i` doing, when it was doing `l` before. */
  function LoadAfter(g: Geometry, requests: seq<Request>, l: Load, i: nat): Load
    requires g.pageSize > 0
  {
    if requests == [] then l
    else
      var last := requests[|requests| - 1];
      Leaves(g, last.WriteRequest?, last.block, last.count, LoadAfter(g, requests[..|requests| - 1], l, i), i)
  }

  /** Does any request of a run meet chip `i` at work? */
  predicate RunMeets(g: Geometry, requests: seq<Request>, l: Load, i: nat)
    requires g.pageSize > 0
  {
    if requests == [] then false
    else
      var before, last := requests[..|requests| - 1], requests[|requests| - 1];
      RunMeets(g, before, l, i) || RequestMeets(g, last, LoadAfter(g, before, l, i), i)
  }

  /** What a run has met, and what it leaves the chips doing. */
  ghost predicate RunHandled(g: Geometry, requests: seq<Request>, was: seq<Chip>, now: seq<Chip>)
    requires g.pageSize > 0
  {
    && |was| == |now|
    && forall i :: 0 <= i < |now| ==>
         && (now[i].hazard <==> was[i].hazard || RunMeets(g, requests, LoadOf(was[i]), i))
         && LoadOf(now[i]) == LoadAfter(g, requests, LoadOf(was[i]), i)
  }

  lemma OneMoreHandled(g: Geometry, requests: seq<Request>, n: nat, was: seq<Chip>, before: seq<Chip>, now: seq<Chip>)
    requires g.pageSize > 0 && n < |requests| && RunHandled(g, requests[..n], was, before)
    requires Handled(g, requests[n].WriteRequest?, requests[n].block, requests[n].count, before, now)
    ensures RunHandled(g, requests[..n + 1], was, now)
  {
    assert requests[..n + 1][..n] == requests[..n];
  }

  /** Serves a run of requests, each as one command block with its own data stage. The board answers as
      the flat array does, and each chip is met at work exactly as the ranges of the requests imply. */
  method Serve(disk: Disk, requests: seq<Request>, packetSize: nat) returns (replies: seq<seq<byte>>)
    requires Quiet(disk.board) && disk.board.g.FitsBlocks() && AllInRange(Bytes(disk.board.g), requests)
    requires 8 <= packetSize && packetSize % 16 == 0 && BLOCK_SIZE % packetSize == 0
    modifies disk, disk.board
    ensures Quiet(disk.board)
    ensures Store(disk.board.g, disk.board.chips) == Run(old(Store(disk.board.g, disk.board.chips)), requests)
    ensures replies == Answers(old(Store(disk.board.g, disk.board.chips)), requests)
    ensures RunHandled(disk.board.g, requests, old(disk.board.chips), disk.board.chips)
  {
    ghost var was := disk.board.chips;
    ghost var store := Store(disk.board.g, was);
    replies := [];
    for n := 0 to |requests|
      invariant Quiet(disk.board)
      invariant Store(disk.board.g, disk.board.chips) == Run(store, requests[..n])
      invariant replies == Answers(store, requests[..n])
      invariant RunHandled(disk.board.g, requests[..n], was, disk.board.chips)
    {
      OneRequestMore(store, requests, n);
      ghost var before := disk.board.chips;
      var reply := ServeOne(disk, requests[n], packetSize);
      OneMoreHandled(disk.board.g, requests, n, was, before, disk.board.chips);
      replies := replies + [reply];
    }
    assert requests[..|requests|] == requests;
  }

  lemma OneRequestMore(store: seq<byte>, requests: seq<Request>, n: nat)
    requires AllInRange(|store|, requests) && n < |requests|
    ensures Run(store, requests[..n + 1]) == Apply(Run(store, requests[..n]), requests[n])
    ensures Answers(store, requests[..n + 1]) ==
        Answers(store, requests[..n]) + [Answer(Run(store, requests[..n]), requests[n])]
  {
    assert requests[..n + 1][..n] == requests[..n];
  }

  lemma WithinBlocks(bytes: nat, r: Request)
    requires InRange(bytes, r)
    ensures r.block < bytes / BLOCK_SIZE && r.block + r.count <= bytes / BLOCK_SIZE
  {
  }

  method ServeOne(disk: Disk, r: Request, packetSize: nat) returns (reply: seq<byte>)
    requires Quiet(disk.board) && disk.board.g.FitsBlocks() && InRange(Bytes(disk.board.g), r)
    requires 8 <= packetSize && packetSize % 16 == 0 && BLOCK_SIZE % packetSize == 0
    modifies disk, disk.board
    ensures Quiet(disk.board)
    ensures Store(disk.board.g, disk.board.chips) == Apply(old(Store(disk.board.g, disk.board.chips)), r)
    ensures reply == Answer(old(Store(disk.board.g, disk.board.chips)), r)
    ensures Handled(disk.board.g, r.WriteRequest?, r.block, r.count, old(disk.board.chips), disk.board.chips)
  {
    var op := if r.WriteRequest? then WRITE_10 else READ_10;
    var cdb := Cdb(op, r.block, r.count);
    CdbRoundTrip(op, r.block, r.count);
    WithinBlocks(Bytes(disk.board.g), r);
    var data := new OutEndpoint(if r.WriteRequest? then r.packets else []);
    var answer := new InEndpoint(packetSize);
    assert data.Stream() == if r.WriteRequest? then Flat(r.packets) else [];
    assert answer.Stream() == [];
    ghost var store, want := Store(disk.board.g, disk.board.chips), r.count * BLOCK_SIZE;
    assert r.WriteRequest? ==> Flat(r.packets)[..want] == Flat(r.packets);
    var success := disk.DecodeSCSICommand(cdb, data, answer);
    reply := Flat(answer.sent);
    assert answer.Stream() == reply + [] == reply;
    if r.ReadRequest? {
      assert reply == [] + store[r.block * BLOCK_SIZE..][..want] == store[r.block * BLOCK_SIZE..][..want];
    }
  }
}
