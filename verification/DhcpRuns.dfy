/** Every run of the DHCP client: an address is only installed after a complete exchange. */
module DhcpRuns {
  import opened ByteMemory
  import opened DhcpClient

  predicate Valid(events: seq<Event>) { forall i :: 0 <= i < |events| ==> events[i].Valid() }

  predicate Initial(c: Client) { c.Valid() && c.state == SendDiscover && !c.haveIP }

  /** The client after the first `n` calls of its callback. */
  function At(c: Client, events: seq<Event>, n: nat): (r: Client)
    requires c.Valid() && Valid(events) && n <= |events|
    ensures r.Valid()
    decreases n
  {
    if n == 0 then c else Step(At(c, events, n - 1), events[n - 1])
  }

  /** From call `from` up to the state after call `to - 1`, the client is in one state. */
  ghost predicate Stays(c: Client, events: seq<Event>, from: nat, to: nat, state: State)
    requires c.Valid() && Valid(events) && to <= |events|
  {
    forall k: nat :: from <= k <= to ==> At(c, events, k).state == state
  }

  /** Call `d` sent a DISCOVER, and the client has waited for its offer ever since. */
  ghost predicate Discovering(c: Client, events: seq<Event>, d: nat, n: nat)
    requires c.Valid() && Valid(events) && n <= |events|
  {
    && d < n && At(c, events, d).state == SendDiscover && Stays(c, events, d + 1, n, WaitForOffer)
    && At(c, events, n).offer[..16] == Repeat(0, 16) && !At(c, events, n).haveIP
  }

  /** The packet of call `o` was accepted as the answer. */
  ghost predicate Offered(c: Client, events: seq<Event>, d: nat, o: nat)
    requires c.Valid() && Valid(events) && o < |events|
  {
    && Discovering(c, events, d, o) && events[o].Is(OFFER)
    && At(c, events, o + 1).state == SendRequest && At(c, events, o + 1).offer[..16] == OfferOf(events[o])
    && !At(c, events, o + 1).haveIP
  }

  /** Call `o + 1` sent a REQUEST, and the client has waited for its acknowledgement ever since. */
  ghost predicate Requesting(c: Client, events: seq<Event>, d: nat, o: nat, n: nat)
    requires c.Valid() && Valid(events) && n <= |events|
  {
    && o + 1 < n && Offered(c, events, d, o) && Stays(c, events, o + 2, n, WaitForAck)
    && At(c, events, n).offer[..16] == OfferOf(events[o]) && !At(c, events, n).haveIP
  }

  /** The packet of call `a` was accepted as the acknowledgement, and the address is that of the offer. */
  ghost predicate Leased(c: Client, events: seq<Event>, d: nat, o: nat, a: nat, n: nat)
    requires c.Valid() && Valid(events) && n <= |events|
  {
    && a < n && Requesting(c, events, d, o, a) && events[a].Is(ACK) && Stays(c, events, a + 1, n, AddressLeased)
    && At(c, events, n).haveIP && At(c, events, n).hostaddr == events[o].YourIP()
    && At(c, events, n).netmask == OfferOf(events[o])[4..8]
    && At(c, events, n).draddr == OfferOf(events[o])[8..12]
  }

  /** How the client got into the state it is in. */
  ghost predicate Explained(c: Client, events: seq<Event>, n: nat)
    requires c.Valid() && Valid(events) && n <= |events|
  {
    match At(c, events, n).state
    case SendDiscover => !At(c, events, n).haveIP
    case WaitForOffer => exists d: nat :: Discovering(c, events, d, n)
    case SendRequest => exists d: nat, o: nat :: o + 1 == n && Offered(c, events, d, o)
    case WaitForAck => exists d: nat, o: nat :: Requesting(c, events, d, o, n)
    case AddressLeased => exists d: nat, o: nat, a: nat :: Leased(c, events, d, o, a, n)
  }

  lemma DiscoverSent(c: Client, events: seq<Event>, n: nat)
    requires c.Valid() && Valid(events) && n < |events| && At(c, events, n).state == SendDiscover
    requires !At(c, events, n).haveIP
    ensures Discovering(c, events, n, n + 1)
  {
    var s := At(c, events, n + 1);
    assert s == Step(At(c, events, n), events[n]);
  }

  lemma OfferAwaited(c: Client, events: seq<Event>, d: nat, n: nat)
    requires c.Valid() && Valid(events) && n < |events| && Discovering(c, events, d, n)
    ensures Explained(c, events, n + 1)
  {
    hide Taken, OfferOf;
    var s, t := At(c, events, n), At(c, events, n + 1);
    assert t == Step(s, events[n]) && s.state == WaitForOffer;
    if t.state == WaitForOffer {
      assert Discovering(c, events, d, n + 1);
    } else if t.state == SendRequest {
      OptionsAreShort(events[n]);
      OfferDataTaken(s.offer, events[n]);
      assert Offered(c, events, d, n);
    }
  }

  lemma RequestSent(c: Client, events: seq<Event>, d: nat, o: nat, n: nat)
    requires c.Valid() && Valid(events) && n < |events| && n == o + 1 && Offered(c, events, d, o)
    ensures Requesting(c, events, d, o, n + 1)
  {
    assert At(c, events, n + 1) == Step(At(c, events, n), events[n]);
  }

  lemma Parts(memory: seq<byte>, offer: seq<byte>)
    requires |memory| == MEMORY && |offer| == 16 && memory[..16] == offer
    ensures memory[0..4] == offer[0..4] && memory[4..8] == offer[4..8] && memory[8..12] == offer[8..12]
  {
    assert forall i, j :: 0 <= i <= j <= 16 ==> memory[i..j] == memory[..16][i..j];
  }

  lemma AckAwaited(c: Client, events: seq<Event>, d: nat, o: nat, n: nat)
    requires c.Valid() && Valid(events) && n < |events| && Requesting(c, events, d, o, n)
    ensures Explained(c, events, n + 1)
  {
    hide Taken, OfferOf;
    var s, t := At(c, events, n), At(c, events, n + 1);
    assert t == Step(s, events[n]) && s.state == WaitForAck;
    if t.state == WaitForAck {
      assert Requesting(c, events, d, o, n + 1);
    } else if t.state == AddressLeased {
      OfferDataOf(events[o]);
      Parts(s.offer, OfferOf(events[o]));
      assert Leased(c, events, d, o, n, n + 1);
    }
  }

  lemma LeaseKept(c: Client, events: seq<Event>, d: nat, o: nat, a: nat, n: nat)
    requires c.Valid() && Valid(events) && n < |events| && Leased(c, events, d, o, a, n)
    ensures Leased(c, events, d, o, a, n + 1)
  {
    assert At(c, events, n).state == AddressLeased;
    assert At(c, events, n + 1) == At(c, events, n);
  }

  lemma {:induction false} EveryStateIsExplained(c: Client, events: seq<Event>, n: nat)
    requires Initial(c) && Valid(events) && n <= |events|
    ensures Explained(c, events, n)
    decreases n
  {
    if n > 0 {
      var k := n - 1;
      EveryStateIsExplained(c, events, k);
      match At(c, events, k).state {
        case SendDiscover =>
          DiscoverSent(c, events, k);
        case WaitForOffer =>
          var d: nat :| Discovering(c, events, d, k);
          OfferAwaited(c, events, d, k);
        case SendRequest =>
          var d: nat, o: nat :| o + 1 == k && Offered(c, events, d, o);
          RequestSent(c, events, d, o, k);
        case WaitForAck =>
          var d: nat, o: nat :| Requesting(c, events, d, o, k);
          AckAwaited(c, events, d, o, k);
        case AddressLeased => {
          var d: nat, o: nat, a: nat :| Leased(c, events, d, o, a, k);
          LeaseKept(c, events, d, o, a, k);
        }
      }
    }
  }

  /** An IP configuration is the result of a DISCOVER, an accepted OFFER, a REQUEST and an accepted ACK, in that order
      and with no restart between them, and it is the configuration of that offer. */
  lemma LeaseNeedsHandshake(c: Client, events: seq<Event>, n: nat)
    requires Initial(c) && Valid(events) && n <= |events|
    ensures At(c, events, n).haveIP <==> At(c, events, n).state == AddressLeased
    ensures At(c, events, n).haveIP ==> exists d: nat, o: nat, a: nat :: Leased(c, events, d, o, a, n)
  {
    EveryStateIsExplained(c, events, n);
  }
}
