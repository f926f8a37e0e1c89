/** USB data endpoints as the firmware sees them: a bank holding the current packet,
    and the packets still to come (OUT) or already sent (IN). */
module Endpoints {
  import opened ByteMemory

  /** The bytes of a list of packets, in order. */
  function Flat(packets: seq<seq<byte>>): seq<byte> {
    if packets == [] then [] else packets[0] + Flat(packets[1..])
  }

  lemma {:induction false} FlatAppend(packets: seq<seq<byte>>, last: seq<byte>)
    ensures Flat(packets + [last]) == Flat(packets) + last
  {
    if packets == [] {
      assert packets + [last] == [last];
      assert Flat([last]) == last + Flat([last][1..]);
    } else {
      assert (packets + [last])[1..] == packets[1..] + [last];
      FlatAppend(packets[1..], last);
    }
  }

  /** Host-to-device endpoint. `received` says whether the bank holds a packet the firmware has
      not acknowledged yet; an acknowledged bank is empty. */
  class OutEndpoint {
    var bank: seq<byte>
    var received: bool
    var queue: seq<seq<byte>>

    ghost predicate Valid()
      reads this
    {
      !received ==> bank == []
    }

    /** Everything the firmware can still read, whatever the packet boundaries. */
    ghost function Stream(): seq<byte>
      reads this
    {
      bank + Flat(queue)
    }

    constructor (packets: seq<seq<byte>>)
      ensures Valid() && bank == [] && !received && queue == packets
    {
      bank, received, queue := [], false, packets;
    }

    /** The host queues packets for this endpoint. */
    method HostSends(packets: seq<seq<byte>>)
      modifies this`queue
      ensures queue == old(queue) + packets
    {
      queue := queue + packets;
    }

    /** Acknowledges the packet in the bank, dropping whatever of it was not read. */
    method ClearOUT()
      modifies this
      ensures Valid() && bank == [] && !received && queue == old(queue)
    {
      bank, received := [], false;
    }

    /** Waits for a packet. The answer is false when the host sends nothing more. */
    method WaitUntilReady() returns (ready: bool)
      requires Valid()
      modifies this
      ensures Valid() && Stream() == old(Stream())
      ensures ready == (old(received) || old(queue) != []) && received == ready
      ensures old(received) || old(queue) == [] ==> bank == old(bank) && queue == old(queue)
      ensures !old(received) && old(queue) != [] ==> bank == old(queue)[0] && queue == old(queue)[1..]
    {
      if !received && queue != [] {
        bank, queue, received := queue[0], queue[1..], true;
      }
      ready := received;
    }

    method ReadByte() returns (b: byte)
      requires Valid() && bank != []
      modifies this
      ensures Valid() && received == old(received) && queue == old(queue)
      ensures b == old(bank)[0] && bank == old(bank)[1..]
      ensures old(Stream()) == [b] + Stream()
    {
      b, bank := bank[0], bank[1..];
    }
  }

  /** Device-to-host endpoint: a bank of `size` bytes that is sent as one packet when cleared. */
  class InEndpoint {
    const size: nat
    var bank: seq<byte>
    var sent: seq<seq<byte>>

    ghost predicate Valid()
      reads this
    {
      0 < size && |bank| <= size
    }

    /** Everything written so far, whatever the packet boundaries. */
    ghost function Stream(): seq<byte>
      reads this
    {
      Flat(sent) + bank
    }

    constructor (size: nat)
      requires 0 < size
      ensures Valid() && this.size == size && bank == [] && sent == []
    {
      this.size, bank, sent := size, [], [];
    }

    /** Sends the bank as one packet. */
    method ClearIN()
      requires Valid()
      modifies this
      ensures Valid() && bank == [] && sent == old(sent) + [old(bank)]
      ensures Stream() == old(Stream())
    {
      FlatAppend(sent, bank);
      bank, sent := [], sent + [bank];
    }

    method WriteByte(b: byte)
      requires Valid() && |bank| < size
      modifies this
      ensures Valid() && bank == old(bank) + [b] && sent == old(sent)
      ensures Stream() == old(Stream()) + [b]
    {
      bank := bank + [b];
    }
  }
}
