/** The DHCP client makes progress: it starts again when a wait times out, and a complete exchange ends in a lease. */
module DhcpProgress {
  import opened ByteMemory
  import opened DhcpOptions
  import opened DhcpClient
  import opened DhcpRuns
  import opened DhcpMessages

  /** An answer in the client's transaction (0x13245466, as it lies in memory) whose message type is this. */
  predicate Answers(e: Event, kind: byte) {
    && e.newData && 240 < |e.packet| && e.packet[4..8] == [0x66, 0x54, 0x24, 0x13] && WellFormed(e.packet, 240)
    && Lookup(Entries(e.packet, 240), 53) == Found([kind])
  }

  /** A call in which nothing happens that the client waits for: no packet and no timeout, or the packet of somebody
      else, or one with no message type or another one. */
  predicate Passes(e: Event, kind: byte) {
    if !e.newData then !e.expired
    else
      240 < |e.packet|
      && (e.packet[4..8] == [0x66, 0x54, 0x24, 0x13] ==>
            WellFormed(e.packet, 240)
            && match Lookup(Entries(e.packet, 240), 53)
               case Absent => true
               case Found(data) => data != [] && data[0] != kind)
  }

  /** Waiting for an offer (2) or an acknowledgement (5). */
  predicate WaitsFor(c: Client, kind: byte) {
    (c.state == WaitForOffer && kind == 2) || (c.state == WaitForAck && kind == 5)
  }

  /** What a call does to a waiting client. A call without a packet leads back to the start exactly when the timer has
      expired, and changes nothing else. */
  lemma WaitingCall(c: Client, e: Event, kind: byte)
    requires c.Valid() && e.Valid() && WaitsFor(c, kind)
    ensures !e.newData && e.expired ==> At(c, [e], 1) == c.(state := SendDiscover)
    ensures !e.newData && !e.expired ==> At(c, [e], 1) == c
    ensures Passes(e, kind) ==> At(c, [e], 1) == c
    ensures Answers(e, kind) ==> At(c, [e], 1).state == if kind == 2 then SendRequest else AddressLeased
    ensures At(c, [e], 1).state == SendDiscover ==> !e.newData && e.expired
  {
    assert At(c, [e], 0) == c;
    hide Taken;
  }

  // ---- A complete exchange ----

  /** A wait that nothing ends. */
  lemma {:induction false} WaitGoesOn(c: Client, events: seq<Event>, from: nat, n: nat, kind: byte)
    requires c.Valid() && DhcpRuns.Valid(events) && from <= n <= |events|
    requires WaitsFor(At(c, events, from), kind) && forall i :: from <= i < n ==> Passes(events[i], kind)
    ensures At(c, events, n) == At(c, events, from)
    decreases n
  {
    if from < n {
      WaitGoesOn(c, events, from, n - 1, kind);
      OneCall(c, events, n - 1, kind);
    }
  }

  lemma OneStep(c: Client, events: seq<Event>, n: nat)
    requires c.Valid() && DhcpRuns.Valid(events) && n < |events|
    ensures At(c, events, n + 1) == At(At(c, events, n), [events[n]], 1)
  {
    hide Step;
    var before := At(c, events, n);
    assert At(before, [events[n]], 0) == before;
  }

  lemma OneCall(c: Client, events: seq<Event>, n: nat, kind: byte)
    requires c.Valid() && DhcpRuns.Valid(events) && n < |events| && WaitsFor(At(c, events, n), kind)
    ensures At(c, events, n + 1) == At(At(c, events, n), [events[n]], 1)
    ensures Passes(events[n], kind) ==> At(c, events, n + 1) == At(c, events, n)
  {
    OneStep(c, events, n);
    WaitingCall(At(c, events, n), events[n], kind);
  }

  /** The calls of an exchange: one that sends the DISCOVER, then calls that pass until an offer of the client's
      transaction comes in call `o`, one that sends the REQUEST, then calls that pass until its acknowledgement comes in
      call `a`. */
  ghost predicate Exchange(events: seq<Event>, o: nat, a: nat) {
    && 0 < o && o + 1 < a < |events| && Answers(events[o], 2) && Answers(events[a], 5)
    && (forall i :: 0 < i < o ==> Passes(events[i], 2))
    && (forall i :: o + 1 < i < a ==> Passes(events[i], 5))
  }

  /** The states of an exchange, whatever offer data and addresses the client had before. */
  lemma ExchangeStates(c: Client, events: seq<Event>, o: nat, a: nat)
    requires c.Valid() && c.state == SendDiscover && DhcpRuns.Valid(events) && Exchange(events, o, a)
    ensures forall i :: 0 < i <= o ==> At(c, events, i) == At(c, events, 1)
    ensures At(c, events, 1).state == WaitForOffer && At(c, events, o + 1).state == SendRequest
    ensures forall i :: o + 1 < i <= a ==> At(c, events, i) == At(c, events, o + 2)
    ensures At(c, events, o + 2).state == WaitForAck && At(c, events, a + 1).state == AddressLeased
  {
    hide Taken;
    assert At(c, events, 0) == c;
    forall i | 0 < i <= o
      ensures At(c, events, i) == At(c, events, 1)
    {
      WaitGoesOn(c, events, 1, i, 2);
    }
    WaitingCall(At(c, events, o), events[o], 2);
    OneCall(c, events, o, 2);
    forall i | o + 1 < i <= a
      ensures At(c, events, i) == At(c, events, o + 2)
    {
      WaitGoesOn(c, events, o + 2, i, 5);
    }
    WaitingCall(At(c, events, a), events[a], 5);
    OneCall(c, events, a, 5);
  }

  /** A complete exchange ends with the offered address in use. */
  lemma ExchangeLeases(c: Client, events: seq<Event>, o: nat, a: nat)
    requires c.Valid() && c.state == SendDiscover && DhcpRuns.Valid(events) && Exchange(events, o, a)
    ensures var offered, leased := At(c, events, o + 1), At(c, events, a + 1);
            && offered.offer[0..4] == events[o].packet[16..20] && offered.offer[12..16] == OfferOf(events[o])[12..16]
            && offered.hostaddr == [0, 0, 0, 0]
            && leased.state == AddressLeased && leased.haveIP && leased.hostaddr == events[o].packet[16..20]
            && leased.netmask == OfferOf(events[o])[4..8] && leased.draddr == OfferOf(events[o])[8..12]
  {
    hide Taken, OfferOf;
    ExchangeStates(c, events, o, a);
    assert At(c, events, 0) == c;
    AfterDiscover(c, events[0]);
    AfterOffer(At(c, events, o), events[o]);
    AfterAck(At(c, events, a), events[a], OfferOf(events[o]));
    assert At(c, events, o + 2) == Step(At(c, events, o + 1), events[o + 1]);
    OfferDataOf(events[o]);
  }

  lemma AfterDiscover(c: Client, e: Event)
    requires c.Valid() && e.Valid() && c.state == SendDiscover
    ensures Step(c, e).offer[..16] == Repeat(0, 16) && Step(c, e).hostaddr == [0, 0, 0, 0]
  {
  }

  lemma AfterOffer(c: Client, e: Event)
    requires c.Valid() && e.Valid() && c.state == WaitForOffer && c.offer[..16] == Repeat(0, 16) && Answers(e, 2)
    ensures Step(c, e).offer[..16] == OfferOf(e) && Step(c, e).offer[0..4] == e.packet[16..20]
    ensures Step(c, e).offer[12..16] == OfferOf(e)[12..16] && Step(c, e).hostaddr == c.hostaddr
  {
    OptionsAreShort(e);
    OfferDataTaken(c.offer, e);
    TakenAddress(c.offer, e);
    assert Step(c, e).offer[..16][12..16] == Step(c, e).offer[12..16];
  }

  lemma AfterAck(c: Client, e: Event, offer: seq<byte>)
    requires c.Valid() && e.Valid() && c.state == WaitForAck && Answers(e, 5)
    requires |offer| == 16 && c.offer[..16] == offer
    ensures Step(c, e).haveIP && Step(c, e).hostaddr == offer[0..4]
    ensures Step(c, e).netmask == offer[4..8] && Step(c, e).draddr == offer[8..12]
  {
    Parts(c.offer, offer);
  }

  // ---- On the client itself ----

  /** What a call sends, by the state it finds. */
  ghost predicate Sends(c: Client, mac: seq<byte>, bytes: seq<byte>)
    requires c.Valid()
  {
    match c.state
    case SendDiscover => IsDiscover(bytes, mac)
    case SendRequest => IsRequest(bytes, mac, c.hostaddr, c.offer[0..4], c.offer[12..16])
    case _ => bytes == []
  }

  /** One call of the callback, with the packet that has arrived in the buffer; the bytes it sends. */
  method Call(app: DhcpApp, e: Event) returns (bytes: seq<byte>)
    requires app.Valid() && e.Valid() && |e.packet| == app.packet.Length
    modifies app, app.offer, app.packet
    ensures app.Valid() && app.View() == At(old(app.View()), [e], 1)
    ensures Sends(old(app.View()), app.mac, bytes)
  {
    ghost var before := app.View();
    Copy(app.packet, 0, e.packet);
    assert app.packet[..] == e.packet;
    assert At(before, [e], 0) == before;
    var size := app.Callback(e.newData, e.expired, e.stale);
    bytes := app.packet[..size];
    if before.state == SendDiscover {
      AfterDiscover(before, e);
      DiscoverBytes(app.packet[..], size, app.View(), app.mac);
    } else if before.state == SendRequest {
      RequestBytes(app.packet[..], size, app.View(), app.mac);
    }
  }

  /** A client that waits and hears nothing until its timer expires sends a complete DISCOVER in its next call, whatever
      that call brings. */
  method Restart(app: DhcpApp, timeout: Event, next: Event) returns (silence: seq<byte>, bytes: seq<byte>)
    requires app.Valid() && timeout.Valid() && next.Valid()
    requires |timeout.packet| == |next.packet| == app.packet.Length
    requires app.currentState == WaitForOffer || app.currentState == WaitForAck
    requires !timeout.newData && timeout.expired
    modifies app, app.offer, app.packet
    ensures app.Valid() && app.currentState == WaitForOffer
    ensures silence == [] && IsDiscover(bytes, app.mac)
  {
    WaitingCall(app.View(), timeout, if app.currentState == WaitForOffer then 2 else 5);
    silence := Call(app, timeout);
    ghost var start := app.View();
    bytes := Call(app, next);
    assert At(start, [next], 0) == start;
  }

  /** A run of calls. */
  method Play(app: DhcpApp, calls: seq<Event>) returns (sends: seq<seq<byte>>)
    requires app.Valid() && DhcpRuns.Valid(calls) && forall e :: e in calls ==> |e.packet| == app.packet.Length
    modifies app, app.offer, app.packet
    ensures app.Valid() && app.View() == At(old(app.View()), calls, |calls|)
    ensures |sends| == |calls|
    ensures forall i :: 0 <= i < |calls| ==> Sends(At(old(app.View()), calls, i), app.mac, sends[i])
  {
    hide Sends, Step;
    ghost var start := app.View();
    sends := [];
    for i := 0 to |calls|
      invariant app.Valid() && app.View() == At(start, calls, i) && |sends| == i
      invariant forall k :: 0 <= k < i ==> Sends(At(start, calls, k), app.mac, sends[k])
    {
      OneStep(start, calls, i);
      var bytes := Call(app, calls[i]);
      sends := sends + [bytes];
    }
  }

  /** A complete exchange: the client sends the DISCOVER in its first call and, right after the offer, a REQUEST that
      names the offered address and the server of the offer; it sends nothing else, and uses that address at the end. */
  method Lease(app: DhcpApp, calls: seq<Event>, o: nat, a: nat) returns (sends: seq<seq<byte>>)
    requires app.Valid() && app.currentState == SendDiscover && DhcpRuns.Valid(calls)
    requires forall e :: e in calls ==> |e.packet| == app.packet.Length
    requires Exchange(calls, o, a) && a + 1 == |calls|
    modifies app, app.offer, app.packet
    ensures app.Valid() && app.currentState == AddressLeased && app.haveIPConfiguration
    ensures app.hostaddr == calls[o].packet[16..20]
    ensures |sends| == a + 1 && IsDiscover(sends[0], app.mac)
    ensures IsRequest(sends[o + 1], app.mac, [0, 0, 0, 0], calls[o].packet[16..20], OfferOf(calls[o])[12..16])
    ensures forall i :: 0 < i <= a && i != o + 1 ==> sends[i] == []
  {
    hide Step, Taken, OfferOf, IsDiscover, IsRequest;
    ghost var start := app.View();
    sends := Play(app, calls);
    ExchangeStates(start, calls, o, a);
    ExchangeLeases(start, calls, o, a);
  }
}
