/** How a response of any length leaves through a bulk IN endpoint. */
module Packets {
  import opened ByteMemory
  import opened Endpoints

  /** The packets of a transfer: full ones, and a shorter one, possibly empty, that ends it. */
  function Split(response: seq<byte>, size: nat): (packets: seq<seq<byte>>)
    requires size > 0
    decreases |response|
  {
    if |response| < size then [response] else [response[..size]] + Split(response[size..], size)
  }

  /** A bulk transfer as section 5.8.3 of the USB 2.0 specification delimits it. */
  ghost predicate EndsShort(packets: seq<seq<byte>>, size: nat) {
    && packets != []
    && (forall i :: 0 <= i < |packets| - 1 ==> |packets[i]| == size)
    && |packets[|packets| - 1]| < size
  }

  lemma {:induction false} SplitIsATransfer(response: seq<byte>, size: nat)
    requires size > 0
    ensures EndsShort(Split(response, size), size) && Flat(Split(response, size)) == response
    decreases |response|
  {
    if |response| < size {
      assert Flat([response]) == response + Flat([response][1..]);
    } else {
      SplitIsATransfer(response[size..], size);
      var rest := Split(response[size..], size);
      var all := [response[..size]] + rest;
      assert all[1..] == rest;
      assert all[|all| - 1] == rest[|rest| - 1];
      assert response[..size] + response[size..] == response;
    }
  }

  /** There is only one such way to send a response. */
  lemma {:induction false} TransferIsUnique(packets: seq<seq<byte>>, size: nat)
    requires size > 0 && EndsShort(packets, size)
    ensures packets == Split(Flat(packets), size)
  {
    var rest := packets[1..];
    if rest == [] {
      assert Flat(packets) == packets[0] + [] == packets[0];
      assert packets == [packets[0]];
    } else {
      assert forall i :: 0 <= i < |rest| ==> rest[i] == packets[i + 1];
      TransferIsUnique(rest, size);
      assert Flat(packets)[..size] == packets[0] && Flat(packets)[size..] == Flat(rest);
      assert packets == [packets[0]] + rest;
    }
  }

  /** The packets that have left while the last one is still in the bank, full or not. */
  function Gone(response: seq<byte>, size: nat): seq<seq<byte>>
    requires size > 0
    decreases |response|
  {
    if |response| <= size then [] else [response[..size]] + Gone(response[size..], size)
  }

  /** The bank's part of the response so far. */
  function Held(response: seq<byte>, size: nat): (bank: seq<byte>)
    requires size > 0
    ensures |bank| <= size
    decreases |response|
  {
    if |response| <= size then response else Held(response[size..], size)
  }

  lemma {:induction false} OneByteMore(response: seq<byte>, b: byte, size: nat)
    requires size > 0
    ensures var more := response + [b];
            if |Held(response, size)| == size
            then Gone(more, size) == Gone(response, size) + [Held(response, size)] && Held(more, size) == [b]
            else Gone(more, size) == Gone(response, size) && Held(more, size) == Held(response, size) + [b]
    decreases |response|
  {
    var more := response + [b];
    if |response| > size {
      OneByteMore(response[size..], b, size);
      assert more[..size] == response[..size] && more[size..] == response[size..] + [b];
    } else if |response| == size {
      assert more[..size] == response && more[size..] == [b];
    }
  }

  lemma {:induction false} LastPacket(response: seq<byte>, size: nat)
    requires size > 0
    ensures Split(response, size) ==
            Gone(response, size) + (if |Held(response, size)| == size then [Held(response, size), []]
                else [Held(response, size)])
    decreases |response|
  {
    if |response| > size {
      LastPacket(response[size..], size);
    } else if |response| == size {
      assert response[..size] == response && response[size..] == [];
    }
  }

  /** An IN endpoint that is part of the way through sending a response. */
  ghost predicate Sending(ep: InEndpoint, before: seq<seq<byte>>, response: seq<byte>)
    reads ep
  {
    ep.Valid() && ep.sent == before + Gone(response, ep.size) && ep.bank == Held(response, ep.size)
  }

  /** WriteNextResponseByte: the bank is sent when it is full, and only then. */
  method WriteNextResponseByte(ep: InEndpoint, b: byte, ghost before: seq<seq<byte>>, ghost response: seq<byte>)
    requires Sending(ep, before, response)
    modifies ep
    ensures Sending(ep, before, response + [b])
  {
    OneByteMore(response, b, ep.size);
    if |ep.bank| == ep.size {
      ep.ClearIN();
    }
    ep.WriteByte(b);
  }

  /** The end of a command: the bank is sent, and after a full one an empty packet. */
  method FinishResponse(ep: InEndpoint, ghost before: seq<seq<byte>>, ghost response: seq<byte>)
    requires Sending(ep, before, response)
    modifies ep
    ensures ep.Valid() && ep.bank == [] && ep.sent == before + Split(response, ep.size)
  {
    LastPacket(response, ep.size);
    var isEndpointFull := |ep.bank| == ep.size;
    ep.ClearIN();
    if isEndpointFull {
      ep.ClearIN();
    }
  }
}
