/** The DHCP client: the packets it sends, the answers it accepts, and its lease. */
module DhcpClient {
  import opened ByteMemory
  import opened DhcpOptions

  const OPTIONS: nat := 240 // size of the fixed header
  const MEMORY: nat := 267 // the offer data, and as much behind it as the last option can reach
  const DISCOVER: byte := 1
  const OFFER: byte := 2
  const REQUEST: byte := 3
  const ACK: byte := 5
  const SUBNET_MASK: byte := 1
  const ROUTER: byte := 3
  const DNS_SERVER: byte := 6
  const REQ_IPADDR: byte := 50
  const MSG_TYPE: byte := 53
  const SERVER_ID: byte := 54
  const REQ_LIST: byte := 55
  const TRANSACTION_ID: seq<byte> := [0x66, 0x54, 0x24, 0x13] // 0x13245466, as the processor stores it
  const COOKIE: seq<byte> := [0x63, 0x82, 0x53, 0x63]

  // ---- The client's state ----

  datatype State = SendDiscover | WaitForOffer | SendRequest | WaitForAck | AddressLeased

  /** `offer` holds the allocated address, the netmask, the gateway and the server, four bytes each, and then the memory
      that lies behind them, which belongs to something else. */
  datatype Client = Client(state: State, offer: seq<byte>, hostaddr: seq<byte>, netmask: seq<byte>, draddr: seq<byte>,
                           haveIP: bool) {
    predicate Valid() { |offer| == MEMORY && |hostaddr| == 4 && |netmask| == 4 && |draddr| == 4 }
  }

  /** One call of the callback: whether a packet has arrived, whether the timer has expired, the packet buffer, and what
      the uninitialised local for the message type happens to hold. */
  datatype Event = Event(newData: bool, expired: bool, packet: seq<byte>, stale: byte) {
    /** What the option search relies on in a packet of the client's transaction; others are not looked into. */
    predicate Valid() {
      newData ==> OPTIONS < |packet| && (Ours() ==> WellFormed(packet, OPTIONS))
    }

    predicate Ours()
      requires OPTIONS < |packet|
    {
      packet[4..8] == TRANSACTION_ID
    }

    function Option(code: byte): Found
      requires OPTIONS < |packet| && WellFormed(packet, OPTIONS)
    {
      Lookup(Entries(packet, OPTIONS), code)
    }

    /** The options copied from an offer end within `size` bytes. */
    predicate Room(size: nat)
      requires OPTIONS < |packet| && WellFormed(packet, OPTIONS)
    {
      FitsAt(4, Option(SUBNET_MASK), size) && FitsAt(8, Option(ROUTER), size) && FitsAt(12, Option(SERVER_ID), size)
    }

    /** The client's transaction and the right message type: nothing else is checked. A message type without data leaves
        the local as it was, and of a longer one the first byte counts. */
    predicate Is(kind: byte)
      requires Valid()
    {
      newData && Ours() && match Option(MSG_TYPE)
                           case Found(data) => (if data == [] then stale else data[0]) == kind
                           case Absent => false
    }

    function YourIP(): (ip: seq<byte>)
      requires OPTIONS < |packet|
      ensures |ip| == 4
    {
      packet[16..20]
    }
  }

  predicate FitsAt(at: nat, f: Found, size: nat) { f.Found? ==> at + |f.data| <= size }

  function Put(offer: seq<byte>, at: nat, f: Found): (o: seq<byte>)
    requires FitsAt(at, f, |offer|)
    ensures |o| == |offer|
  {
    if f.Found? then Overwrite(offer, at, f.data) else offer
  }

  /** A packet whose options can be copied into memory of this size. */
  predicate Copyable(e: Event, size: nat) {
    4 <= size && OPTIONS < |e.packet| && WellFormed(e.packet, OPTIONS) && e.Room(size)
  }

  /** What an offer makes of the memory that begins with the client's sixteen bytes of offer data. */
  function Taken(memory: seq<byte>, e: Event): (m: seq<byte>)
    requires Copyable(e, |memory|)
    ensures |m| == |memory|
  {
    Put(Put(Put(Overwrite(memory, 0, e.YourIP()), 4, e.Option(SUBNET_MASK)), 8, e.Option(ROUTER)), 12,
        e.Option(SERVER_ID))
  }

  /** The copies leave the memory behind those sixteen bytes alone, whatever it holds, if and only if the options fit:
      at most twelve bytes of netmask, eight of routers and four of server. */
  lemma CopiesStayInside(e: Event, size: nat)
    requires 16 < size && Copyable(e, size)
    ensures (forall m: seq<byte> | |m| == size :: Taken(m, e)[16..] == m[16..]) <==> e.Room(16)
  {
    if e.Room(16) {
      forall m: seq<byte> | |m| == size
        ensures Taken(m, e)[16..] == m[16..]
      {
        InsideKeepsRest(m, e);
      }
    } else {
      var b := ByteBehind(e, size);
      var other: byte := if b == 0 then 1 else 0;
      ByteBehindIs(Repeat(other, size), e, b);
      assert Taken(Repeat(other, size), e)[16..][0] != Repeat(other, size)[16..][0];
    }
  }

  lemma InsideKeepsRest(m: seq<byte>, e: Event)
    requires 16 <= |m| && Copyable(e, |m|) && e.Room(16)
    ensures Taken(m, e)[16..] == m[16..]
  {
    var a := Overwrite(m, 0, e.YourIP());
    var b := Put(a, 4, e.Option(SUBNET_MASK));
    var c := Put(b, 8, e.Option(ROUTER));
    PutInside(a, 4, e.Option(SUBNET_MASK));
    PutInside(b, 8, e.Option(ROUTER));
    PutInside(c, 12, e.Option(SERVER_ID));
    assert a[16..] == m[16..];
  }

  lemma PutInside(m: seq<byte>, at: nat, f: Found)
    requires FitsAt(at, f, 16) && 16 <= |m|
    ensures Put(m, at, f)[16..] == m[16..]
  {
  }

  lemma PutAt(m: seq<byte>, at: nat, f: Found)
    requires FitsAt(at, f, |m|) && 16 < |m| && at <= 16
    ensures Put(m, at, f)[16] == if FitsAt(at, f, 16) then m[16] else f.data[16 - at]
  {
  }

  /** The byte that the last copy to reach so far puts behind the offer data. */
  function ByteBehind(e: Event, size: nat): byte
    requires Copyable(e, size) && !e.Room(16)
  {
    if !FitsAt(12, e.Option(SERVER_ID), 16) then e.Option(SERVER_ID).data[4]
    else if !FitsAt(8, e.Option(ROUTER), 16) then e.Option(ROUTER).data[8]
    else e.Option(SUBNET_MASK).data[12]
  }

  lemma ByteBehindIs(m: seq<byte>, e: Event, b: byte)
    requires 16 < |m| && Copyable(e, |m|) && !e.Room(16) && b == ByteBehind(e, |m|)
    ensures Taken(m, e)[16] == b
  {
    var a := Overwrite(m, 0, e.YourIP());
    var c := Put(a, 4, e.Option(SUBNET_MASK));
    PutAt(a, 4, e.Option(SUBNET_MASK));
    PutAt(c, 8, e.Option(ROUTER));
    PutAt(Put(c, 8, e.Option(ROUTER)), 12, e.Option(SERVER_ID));
  }

  /** An offer with three routers, as section 3.5 of RFC 2132 allows. */
  function ThreeRouters(): (packet: seq<byte>)
    ensures |packet| == OPTIONS + 18
  {
    Repeat(0, 4) + TRANSACTION_ID + Repeat(0, 232) + [MSG_TYPE, 1, OFFER, ROUTER, 12] + Repeat(1, 12) + [OPTION_END]
  }

  /** It is accepted, and its third address lands behind the offer data. */
  lemma ThreeRoutersOverflow(memory: seq<byte>)
    requires 20 == |memory|
    ensures var e := Event(true, false, ThreeRouters(), 0);
            && e.Ours() && WellFormed(e.packet, OPTIONS) && e.Option(MSG_TYPE) == Found([OFFER])
            && Copyable(e, 20) && !e.Room(16) && Taken(memory, e)[16..20] == Repeat(1, 4)
  {
    var p := ThreeRouters();
    assert p[4..8] == TRANSACTION_ID;
    assert p[240] == MSG_TYPE && p[241] == 1 && p[243] == ROUTER && p[244] == 12 && p[257] == OPTION_END;
    assert WellFormed(p, 257) && Entries(p, 257) == [];
    assert p[245..257] == Repeat(1, 12) && p[242..243] == [OFFER];
    assert Entries(p, 243) == [Entry(ROUTER, Repeat(1, 12))] + [];
    assert Entries(p, 240) == [Entry(MSG_TYPE, [OFFER])] + Entries(p, 243);
    ThirdRouter(memory, Event(true, false, p, 0));
  }

  lemma OfTwo(a: Entry, b: Entry, code: byte)
    ensures Lookup([a, b], code) == if code == a.code then Found(a.data) else if code == b.code then Found(b.data)
        else Absent
  {
    assert Lookup([b], code) == if code == b.code then Found(b.data) else Absent;
    assert [a, b][1..] == [b];
  }

  lemma ThirdRouter(memory: seq<byte>, e: Event)
    requires 20 == |memory| && OPTIONS < |e.packet| && WellFormed(e.packet, OPTIONS)
    requires Entries(e.packet, OPTIONS) == [Entry(MSG_TYPE, [OFFER]), Entry(ROUTER, Repeat(1, 12))]
    ensures e.Option(MSG_TYPE) == Found([OFFER]) && Copyable(e, 20) && !e.Room(16)
    ensures Taken(memory, e)[16..20] == Repeat(1, 4)
  {
    var kind, routers := Entry(MSG_TYPE, [OFFER]), Entry(ROUTER, Repeat(1, 12));
    OfTwo(kind, routers, MSG_TYPE);
    OfTwo(kind, routers, SUBNET_MASK);
    OfTwo(kind, routers, ROUTER);
    OfTwo(kind, routers, SERVER_ID);
    var a := Overwrite(memory, 0, e.YourIP());
    assert Taken(memory, e) == Overwrite(a, 8, Repeat(1, 12));
  }

  /** The address survives: the options are copied behind it. */
  lemma TakenAddress(offer: seq<byte>, e: Event)
    requires Copyable(e, |offer|)
    ensures Taken(offer, e)[0..4] == e.YourIP()
  {
    var a := Overwrite(offer, 0, e.YourIP());
    assert a[0..4] == e.YourIP();
    Behind(a, 4, e.Option(SUBNET_MASK));
    var b := Put(a, 4, e.Option(SUBNET_MASK));
    Behind(b, 8, e.Option(ROUTER));
    Behind(Put(b, 8, e.Option(ROUTER)), 12, e.Option(SERVER_ID));
  }

  lemma Behind(offer: seq<byte>, at: nat, f: Found)
    requires 4 <= |offer| && at >= 4 && FitsAt(at, f, |offer|)
    ensures Put(offer, at, f)[0..4] == offer[0..4]
  {
  }

  lemma OptionsAreShort(e: Event)
    requires OPTIONS < |e.packet| && WellFormed(e.packet, OPTIONS)
    ensures Copyable(e, MEMORY)
  {
    DataIsShort(e.packet, OPTIONS, SUBNET_MASK);
    DataIsShort(e.packet, OPTIONS, ROUTER);
    DataIsShort(e.packet, OPTIONS, SERVER_ID);
  }

  /** The sixteen bytes of offer data that an offer leaves, when they were zero before. */
  ghost function OfferOf(e: Event): (o: seq<byte>)
    requires OPTIONS < |e.packet| && WellFormed(e.packet, OPTIONS)
    ensures |o| == 16
  {
    OptionsAreShort(e);
    Taken(Repeat(0, MEMORY), e)[..16]
  }

  /** The address is the offered one, whatever the lengths of the options; and with options of four bytes the offer data
      are the address and those options. */
  lemma OfferDataOf(e: Event)
    requires OPTIONS < |e.packet| && WellFormed(e.packet, OPTIONS)
    ensures OfferOf(e)[0..4] == e.YourIP()
    ensures var mask, routers, server := e.Option(SUBNET_MASK), e.Option(ROUTER), e.Option(SERVER_ID);
            mask.Found? && |mask.data| == 4 && routers.Found? && |routers.data| == 4 && server.Found?
            && |server.data| == 4 ==>
              OfferOf(e) == e.YourIP() + mask.data + routers.data + server.data
  {
    OptionsAreShort(e);
    TakenAddress(Repeat(0, MEMORY), e);
    assert OfferOf(e)[0..4] == Taken(Repeat(0, MEMORY), e)[0..4];
  }

  /** They do not depend on the memory behind them. */
  lemma OfferDataTaken(memory: seq<byte>, e: Event)
    requires |memory| == MEMORY && Copyable(e, MEMORY) && memory[..16] == Repeat(0, 16)
    ensures Taken(memory, e)[..16] == OfferOf(e)
  {
    var z := Repeat(0, MEMORY);
    assert z[..16] == Repeat(0, 16);
    var a, b := Overwrite(memory, 0, e.YourIP()), Overwrite(z, 0, e.YourIP());
    assert a[..16] == b[..16] by {
      SameStart(memory, z, 0, Found(e.YourIP()));
    }
    SameStart(a, b, 4, e.Option(SUBNET_MASK));
    var a1, b1 := Put(a, 4, e.Option(SUBNET_MASK)), Put(b, 4, e.Option(SUBNET_MASK));
    SameStart(a1, b1, 8, e.Option(ROUTER));
    SameStart(Put(a1, 8, e.Option(ROUTER)), Put(b1, 8, e.Option(ROUTER)), 12, e.Option(SERVER_ID));
  }

  lemma SameStart(m: seq<byte>, z: seq<byte>, at: nat, f: Found)
    requires |m| == |z| && 16 <= |m| && m[..16] == z[..16] && FitsAt(at, f, |m|)
    ensures Put(m, at, f)[..16] == Put(z, at, f)[..16]
  {
    assert forall i :: 0 <= i < 16 ==> m[i] == m[..16][i] == z[..16][i] == z[i];
  }

  function Cleared(memory: seq<byte>): (m: seq<byte>)
    requires |memory| == MEMORY
    ensures |m| == MEMORY && m[..16] == Repeat(0, 16) && m[16..] == memory[16..]
  {
    Overwrite(memory, 0, Repeat(0, 16))
  }

  function Step(c: Client, e: Event): (r: Client)
    requires c.Valid() && e.Valid()
    ensures r.Valid()
  {
    match c.state
    case SendDiscover => c.(offer := Cleared(c.offer), hostaddr := Repeat(0, 4), state := WaitForOffer)
    case WaitForOffer =>
      if !e.newData then if e.expired then c.(state := SendDiscover) else c
      else if e.Is(OFFER) then OptionsAreShort(e); c.(offer := Taken(c.offer, e), state := SendRequest)
      else c
    case SendRequest => c.(state := WaitForAck)
    case WaitForAck =>
      if !e.newData then if e.expired then c.(state := SendDiscover) else c
      else if e.Is(ACK) then
        c.(hostaddr := c.offer[0..4], netmask := c.offer[4..8], draddr := c.offer[8..12], haveIP := true, state :=
            AddressLeased)
      else c
    case AddressLeased => c
  }

  // ---- The header ----

  /** The fixed header and the first option, which says what kind of message it is. */
  function Header(kind: byte, hostaddr: seq<byte>, offer: seq<byte>, mac: seq<byte>): (h: seq<byte>)
    requires |hostaddr| == 4 && 16 <= |offer| && |mac| == 6
    ensures |h| == OPTIONS + 4
  {
    [1, 1, 6, 0] + TRANSACTION_ID + [0, 0, 0x80, 0] + hostaddr + offer[0..4] + offer[12..16] + Repeat(0, 4)
    + mac + Repeat(0, 10) + Repeat(0, 64) + Repeat(0, 128) + COOKIE + [MSG_TYPE, 1, kind, OPTION_END]
  }

  lemma HeaderFields(h: seq<byte>, kind: byte, hostaddr: seq<byte>, offer: seq<byte>, mac: seq<byte>)
    requires |hostaddr| == 4 && 16 <= |offer| && |mac| == 6 && h == Header(kind, hostaddr, offer, mac)
    ensures h[0..4] == [1, 1, 6, 0] && h[4..8] == TRANSACTION_ID && h[8..12] == [0, 0, 0x80, 0]
    ensures h[12..16] == hostaddr && h[16..20] == offer[0..4] && h[20..24] == offer[12..16]
    ensures h[28..34] == mac && h[236..240] == COOKIE && h[240..244] == [MSG_TYPE, 1, kind, OPTION_END]
    ensures forall i :: 24 <= i < 28 || 34 <= i < 236 ==> h[i] == 0
  {
  }

  /** A packet that starts with the header holds one option. */
  lemma HeaderOptions(p: seq<byte>, kind: byte, hostaddr: seq<byte>, offer: seq<byte>, mac: seq<byte>)
    requires |hostaddr| == 4 && 16 <= |offer| && |mac| == 6
    requires OPTIONS + 4 <= |p| && p[..OPTIONS + 4] == Header(kind, hostaddr, offer, mac)
    ensures WellFormed(p, OPTIONS) && EndAt(p, OPTIONS) == OPTIONS + 3
    ensures Entries(p, OPTIONS) == [Entry(MSG_TYPE, [kind])]
  {
    var h := p[..OPTIONS + 4];
    HeaderFields(h, kind, hostaddr, offer, mac);
    assert forall i :: 240 <= i < 244 ==> p[i] == h[240..244][i - 240];
    assert p[240] == MSG_TYPE && p[241] == 1 && p[242] == kind && p[243] == OPTION_END;
    assert WellFormed(p, 243) && Entries(p, 243) == [] && EndAt(p, 243) == 243;
    assert p[242..243] == [kind];
  }

  /** The header is written up to `k`, and the rest of it is still zero. */
  ghost predicate Written(p: seq<byte>, h: seq<byte>, k: nat, tail: seq<byte>) {
    && |h| == OPTIONS + 4 && k <= |h| <= |p| && p[|h|..] == tail
    && p[..k] == h[..k] && forall i :: k <= i < OPTIONS ==> p[i] == 0
  }

  method PutField(packet: array<byte>, at: nat, data: seq<byte>, ghost h: seq<byte>, ghost k: nat,
                  ghost tail: seq<byte>)
    requires Written(packet[..], h, k, tail) && k <= at <= OPTIONS && (forall i :: k <= i < at ==> h[i] == 0)
    requires at + |data| <= |h| && data == h[at..at + |data|]
    modifies packet
    ensures Written(packet[..], h, at + |data|, tail)
  {
    Copy(packet, at, data);
  }

  /** FillDHCPHeader: returns the size of the packet so far, End marker included. */
  method FillDHCPHeader(packet: array<byte>, kind: byte, hostaddr: seq<byte>, offer: seq<byte>, mac: seq<byte>)
    returns (size: nat)
    requires |hostaddr| == 4 && 16 <= |offer| && |mac| == 6 && OPTIONS + 4 <= packet.Length
    modifies packet
    ensures packet[..OPTIONS + 4] == Header(kind, hostaddr, offer, mac)
    ensures packet[OPTIONS + 4..] == old(packet[OPTIONS + 4..])
    ensures size == OPTIONS + 4
  {
    ghost var h, tail := Header(kind, hostaddr, offer, mac), packet[OPTIONS + 4..];
    HeaderFields(h, kind, hostaddr, offer, mac);
    Copy(packet, 0, Repeat(0, OPTIONS));
    PutField(packet, 0, [1, 1, 6, 0], h, 0, tail);
    PutField(packet, 4, TRANSACTION_ID, h, 4, tail);
    PutField(packet, 8, [0, 0, 0x80, 0], h, 8, tail);
    PutField(packet, 12, hostaddr, h, 12, tail);
    PutField(packet, 16, offer[0..4], h, 16, tail);
    PutField(packet, 20, offer[12..16], h, 20, tail);
    PutField(packet, 28, mac, h, 24, tail);
    PutField(packet, 236, COOKIE, h, 34, tail);
    PutField(packet, 240, [MSG_TYPE, 1, kind, OPTION_END], h, 240, tail);
    assert packet[..OPTIONS + 4] == h[..OPTIONS + 4] == h;
    size := OPTIONS + 4;
  }

  // ---- The callback ----

  /** A message as it is sent: the fixed header, the message type and some options, and nothing behind the End marker.
      */
  ghost predicate IsMessage(p: seq<byte>, size: nat, kind: byte, c: Client, mac: seq<byte>, options: seq<Entry>)
    requires c.Valid() && |mac| == 6
  {
    && OPTIONS < size <= |p| && p[..OPTIONS] == Header(kind, c.hostaddr, c.offer, mac)[..OPTIONS]
    && WellFormed(p, OPTIONS) && Entries(p, OPTIONS) == [Entry(MSG_TYPE, [kind])] + options
    && size == EndAt(p, OPTIONS) + 1
  }

  const WANTED: seq<byte> := [SUBNET_MASK, ROUTER, DNS_SERVER]

  function DiscoverOptions(): seq<Entry> { [Entry(REQ_LIST, WANTED)] }

  function RequestOptions(offer: seq<byte>): seq<Entry>
    requires 16 <= |offer|
  {
    [Entry(REQ_IPADDR, offer[0..4]), Entry(SERVER_ID, offer[12..16])]
  }

  /** The server finds what the client put into its request. */
  lemma ServerReadsRequest(p: seq<byte>, size: nat, c: Client, mac: seq<byte>)
    requires c.Valid() && |mac| == 6 && IsMessage(p, size, REQUEST, c, mac, RequestOptions(c.offer))
    ensures Lookup(Entries(p, OPTIONS), MSG_TYPE) == Found([REQUEST])
    ensures Lookup(Entries(p, OPTIONS), REQ_IPADDR) == Found(c.offer[0..4])
    ensures Lookup(Entries(p, OPTIONS), SERVER_ID) == Found(c.offer[12..16])
  {
    var first, address, server :=
        Entry(MSG_TYPE, [REQUEST]), Entry(REQ_IPADDR, c.offer[0..4]), Entry(SERVER_ID, c.offer[12..16]);
    assert Entries(p, OPTIONS) == ([first] + [address]) + [server];
    forall code: byte
      ensures Lookup(Entries(p, OPTIONS), code) ==
              if code == MSG_TYPE then Found(first.data) else if code == REQ_IPADDR then Found(address.data)
              else if code == SERVER_ID then Found(server.data) else Absent
    {
      LookupAppended([first], address, code);
      LookupAppended([first] + [address], server, code);
      assert Lookup([first], code) == if code == MSG_TYPE then Found(first.data) else Absent;
    }
  }

  class DhcpApp {
    const mac: seq<byte>
    /** uip_appdata: a packet that has arrived, and then the one that is sent. */
    const packet: array<byte>
    const offer: array<byte>
    var currentState: State
    var hostaddr: seq<byte>
    var netmask: seq<byte>
    var draddr: seq<byte>
    var haveIPConfiguration: bool

    ghost predicate Valid()
      reads this, offer
    {
      packet != offer && OPTIONS + 16 <= packet.Length && offer.Length == MEMORY && |mac| == 6 && View().Valid()
    }

    ghost function View(): Client
      reads this, offer
    {
      Client(currentState, offer[..], hostaddr, netmask, draddr, haveIPConfiguration)
    }

    /** The state after DHCPClientApp_Init. */
    constructor (mac: seq<byte>, packet: array<byte>)
      requires |mac| == 6 && OPTIONS + 16 <= packet.Length
      ensures Valid() && this.mac == mac && this.packet == packet && fresh(offer)
      ensures View() == Client(SendDiscover, Repeat(0, MEMORY), Repeat(0, 4), Repeat(0, 4), Repeat(0, 4), false)
    {
      this.mac, this.packet := mac, packet;
      offer := new byte[MEMORY](i => 0);
      currentState, hostaddr, netmask, draddr, haveIPConfiguration :=
          SendDiscover, Repeat(0, 4), Repeat(0, 4), Repeat(0, 4), false;
    }

    /** Has a message of this kind arrived for our transaction? The local for the message type has one byte; what lies
        behind it on the stack is overwritten by a longer one. */
    method Arrived(kind: byte, stale: byte, ghost e: Event) returns (yes: bool)
      requires Valid() && e.Valid() && e.newData && e.packet == packet[..] && e.stale == stale
      ensures yes == e.Is(kind)
    {
      var messageType := new byte[255](i => stale);
      var ours := packet[4..8] == TRANSACTION_ID;
      if ours {
        DataIsShort(e.packet, OPTIONS, MSG_TYPE);
        var found := GetOption(packet, OPTIONS, MSG_TYPE, messageType, 0);
        yes := found && messageType[0] == kind;
      } else {
        yes := false;
      }
    }

    method TakeOffer(ghost e: Event)
      requires Valid() && e.packet == packet[..] && Copyable(e, MEMORY)
      modifies offer
      ensures Valid() && offer[..] == Taken(old(offer[..]), e)
    {
      Copy(offer, 0, packet[16..20]);
      var _ := GetOption(packet, OPTIONS, SUBNET_MASK, offer, 4);
      var _ := GetOption(packet, OPTIONS, ROUTER, offer, 8);
      var _ := GetOption(packet, OPTIONS, SERVER_ID, offer, 12);
    }

    /** Writes the header and the first option. */
    method Begin(kind: byte) returns (size: nat)
      requires Valid()
      modifies packet
      ensures Valid() && IsMessage(packet[..], size, kind, View(), mac, []) && size == OPTIONS + 4
    {
      size := FillDHCPHeader(packet, kind, hostaddr, offer[..], mac);
      HeaderOptions(packet[..], kind, hostaddr, offer[..], mac);
      assert packet[..][..OPTIONS] == packet[..OPTIONS + 4][..OPTIONS];
    }

    /** Adds an option to the message. */
    method Add(kind: byte, size: nat, option: byte, data: seq<byte>, ghost options: seq<Entry>) returns (grown: nat)
      requires Valid() && IsMessage(packet[..], size, kind, View(), mac, options)
      requires option != OPTION_END && |data| <= 4 && size + 2 + |data| <= packet.Length
      modifies packet
      ensures Valid() && IsMessage(packet[..], grown, kind, View(), mac, options + [Entry(option, data)])
      ensures grown == size + 2 + |data|
    {
      var added := SetOption(packet, OPTIONS, option, data);
      grown := size + added;
      assert [Entry(MSG_TYPE, [kind])] + (options + [Entry(option, data)]) ==
          [Entry(MSG_TYPE, [kind])] + options + [Entry(option, data)];
    }

    /** DHCPClientApp_Callback: the size of the packet it sends, or zero. */
    method Callback(newData: bool, expired: bool, stale: byte) returns (sent: nat)
      requires Valid() && Event(newData, expired, packet[..], stale).Valid()
      modifies this, offer, packet
      ensures Valid() && View() == Step(old(View()), Event(newData, expired, old(packet[..]), stale))
      ensures old(currentState) == SendDiscover ==>
                sent == 249 && IsMessage(packet[..], sent, DISCOVER, View(), mac, DiscoverOptions())
      ensures old(currentState) == SendRequest ==>
                sent == 256 && IsMessage(packet[..], sent, REQUEST, View(), mac, RequestOptions(old(offer[..])))
      ensures old(currentState) != SendDiscover && old(currentState) != SendRequest ==> sent == 0
      ensures (old(currentState) == WaitForOffer || old(currentState) == WaitForAck) && !newData ==>
                View() == old(View()).(state := if expired then SendDiscover else old(currentState))
    {
      ghost var e := Event(newData, expired, packet[..], stale);
      sent := 0;
      match currentState {
        case SendDiscover =>
          sent := Discover();
        case WaitForOffer =>
          if !newData {
            if expired {
              currentState := SendDiscover;
            }
          } else {
            var accepted := Arrived(OFFER, stale, e);
            if accepted {
              OptionsAreShort(e);
              TakeOffer(e);
              currentState := SendRequest;
            }
          }
        case SendRequest =>
          sent := Request();
        case WaitForAck =>
          if !newData {
            if expired {
              currentState := SendDiscover;
            }
          } else {
            var accepted := Arrived(ACK, stale, e);
            if accepted {
              hostaddr, netmask, draddr := offer[0..4], offer[4..8], offer[8..12];
              haveIPConfiguration := true;
              currentState := AddressLeased;
            }
          }
        case AddressLeased => {
        }
      }
    }

    method Discover() returns (sent: nat)
      requires Valid()
      modifies this`hostaddr, this`currentState, offer, packet
      ensures Valid() && sent == 249 && IsMessage(packet[..], sent, DISCOVER, View(), mac, DiscoverOptions())
      ensures View() == old(View()).(offer := Cleared(old(offer[..])), hostaddr := Repeat(0, 4), state := WaitForOffer)
    {
      Copy(offer, 0, Repeat(0, 16));
      hostaddr := offer[0..4];
      sent := Begin(DISCOVER);
      sent := Add(DISCOVER, sent, REQ_LIST, WANTED, []);
      assert [] + [Entry(REQ_LIST, WANTED)] == DiscoverOptions();
      currentState := WaitForOffer;
    }

    method Request() returns (sent: nat)
      requires Valid()
      modifies this`currentState, packet
      ensures Valid() && sent == 256 && IsMessage(packet[..], sent, REQUEST, View(), mac, RequestOptions(offer[..]))
      ensures View() == old(View()).(state := WaitForAck)
    {
      sent := Begin(REQUEST);
      sent := Add(REQUEST, sent, REQ_IPADDR, offer[0..4], []);
      sent := Add(REQUEST, sent, SERVER_ID, offer[12..16], [] + [Entry(REQ_IPADDR, offer[0..4])]);
      assert [] + [Entry(REQ_IPADDR, offer[0..4])] + [Entry(SERVER_ID, offer[12..16])] == RequestOptions(offer[..]);
      currentState := WaitForAck;
    }
  }
}
