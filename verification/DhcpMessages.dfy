/** The DHCP client's messages, byte by byte. */
module DhcpMessages {
  import opened ByteMemory
  import opened DhcpOptions
  import opened DhcpClient

  /** The bytes of an option list, End marker included. */
  function ListBytes(entries: seq<Entry>): (bytes: seq<byte>)
    requires forall i :: 0 <= i < |entries| ==> |entries[i].data| < 256
  {
    if entries == [] then [OPTION_END]
    else [entries[0].code, |entries[0].data|] + entries[0].data + ListBytes(entries[1..])
  }

  /** The entries that a list is read as determine its bytes. */
  lemma {:induction false} EntriesAreBytes(p: seq<byte>, at: nat)
    requires WellFormed(p, at)
    ensures forall i :: 0 <= i < |Entries(p, at)| ==> |Entries(p, at)[i].data| < 256
    ensures p[at..EndAt(p, at) + 1] == ListBytes(Entries(p, at))
    decreases |p| - at
  {
    if p[at] != OPTION_END {
      var next := at + 2 + p[at + 1];
      EntriesAreBytes(p, next);
      var entries, end := Entries(p, at), EndAt(p, at) + 1;
      assert entries[1..] == Entries(p, next) && entries[0] == Entry(p[at], p[at + 2..next]);
      assert ListBytes(entries) == [p[at], p[at + 1]] + p[at + 2..next] + p[next..end];
      Chained(p, at, next, end);
    }
  }

  lemma Chained(p: seq<byte>, at: nat, next: nat, end: nat)
    requires at + 2 <= next <= end <= |p|
    ensures p[at..end] == [p[at], p[at + 1]] + p[at + 2..next] + p[next..end]
  {
  }

  /** The fixed part of a message: a request over Ethernet, the transaction, the broadcast flag, the client's, the
      offered and the server's address, the hardware address, and the magic cookie. */
  predicate HasHeader(p: seq<byte>, mac: seq<byte>, own: seq<byte>, address: seq<byte>, server: seq<byte>) {
    && 240 <= |p| && p[0..4] == [0x01, 0x01, 0x06, 0x00] && p[4..8] == [0x66, 0x54, 0x24, 0x13]
    && p[8..12] == [0x00, 0x00, 0x80, 0x00] && p[12..16] == own && p[16..20] == address && p[20..24] == server
    && p[24..28] == [0, 0, 0, 0] && p[28..34] == mac && (forall i :: 34 <= i < 236 ==> p[i] == 0)
    && p[236..240] == [0x63, 0x82, 0x53, 0x63]
  }

  /** A DISCOVER: no addresses yet, and a request for the netmask, the router and the name server. */
  predicate IsDiscover(p: seq<byte>, mac: seq<byte>) {
    && |p| == 249 && HasHeader(p, mac, [0, 0, 0, 0], [0, 0, 0, 0], [0, 0, 0, 0])
    && p[240..] == [53, 1, 1, 55, 3, 1, 3, 6, 255]
  }

  /** A REQUEST for an address that a server has offered. */
  predicate IsRequest(p: seq<byte>, mac: seq<byte>, own: seq<byte>, address: seq<byte>, server: seq<byte>) {
    && |p| == 256 && HasHeader(p, mac, own, address, server)
    && p[240..] == [53, 1, 3, 50, 4] + address + [54, 4] + server + [255]
  }

  lemma MessageHeader(p: seq<byte>, size: nat, kind: byte, c: Client, mac: seq<byte>, options: seq<Entry>)
    requires c.Valid() && |mac| == 6 && IsMessage(p, size, kind, c, mac, options)
    ensures HasHeader(p[..size], mac, c.hostaddr, c.offer[0..4], c.offer[12..16])
  {
    hide WellFormed, Entries, EndAt;
    var h := Header(kind, c.hostaddr, c.offer, mac);
    HeaderFields(h, kind, c.hostaddr, c.offer, mac);
    HeaderShows(h, p[..size], mac, c.hostaddr, c.offer[0..4], c.offer[12..16]) by {
      assert p[..size][..240] == p[..240];
    }
  }

  lemma HeaderShows(h: seq<byte>, p: seq<byte>, mac: seq<byte>, own: seq<byte>, address: seq<byte>, server: seq<byte>)
    requires |h| == 244 && 240 <= |p| && p[..240] == h[..240] && |mac| == 6
    requires h[0..4] == [1, 1, 6, 0] && h[4..8] == TRANSACTION_ID && h[8..12] == [0, 0, 0x80, 0]
    requires h[12..16] == own && h[16..20] == address && h[20..24] == server
    requires h[28..34] == mac && h[236..240] == COOKIE
    requires forall i :: 24 <= i < 28 || 34 <= i < 236 ==> h[i] == 0
    ensures HasHeader(p, mac, own, address, server)
  {
    assert forall i :: 0 <= i < 240 ==> p[i] == p[..240][i] == h[..240][i] == h[i];
    assert forall i, j :: 0 <= i <= j <= 240 ==> p[i..j] == h[i..j];
  }

  /** What the client sends when it has no offer yet. */
  lemma DiscoverBytes(p: seq<byte>, size: nat, c: Client, mac: seq<byte>)
    requires c.Valid() && |mac| == 6 && IsMessage(p, size, DISCOVER, c, mac, DiscoverOptions()) && size == 249
    requires c.hostaddr == Repeat(0, 4) && c.offer[..16] == Repeat(0, 16)
    ensures IsDiscover(p[..size], mac)
  {
    MessageHeader(p, size, DISCOVER, c, mac, DiscoverOptions());
    assert c.offer[0..4] == c.offer[..16][0..4] == [0, 0, 0, 0] && c.offer[12..16] == c.offer[..16][12..16];
    assert Repeat(0, 4) == [0, 0, 0, 0];
    var entries := [Entry(53, [1])] + [Entry(55, [1, 3, 6])];
    EntriesAreBytes(p, 240);
    assert Entries(p, 240) == entries;
    TwoEntries(53, [1], 55, [1, 3, 6]);
    assert p[..size][240..] == p[240..size];
  }

  lemma TwoEntries(a: byte, x: seq<byte>, b: byte, y: seq<byte>)
    requires |x| < 256 && |y| < 256
    ensures ListBytes([Entry(a, x)] + [Entry(b, y)]) == [a, |x|] + x + ([b, |y|] + y + [255])
  {
    var l := [Entry(a, x)] + [Entry(b, y)];
    assert l[1..] == [Entry(b, y)] && l[1..][1..] == [];
    assert ListBytes(l[1..]) == [b, |y|] + y + [255];
    assert ListBytes(l) == [a, |x|] + x + ListBytes(l[1..]);
  }

  /** What it sends when it has one. */
  lemma RequestBytes(p: seq<byte>, size: nat, c: Client, mac: seq<byte>)
    requires c.Valid() && |mac| == 6 && size == 256
    requires IsMessage(p, size, REQUEST, c, mac, RequestOptions(c.offer))
    ensures IsRequest(p[..size], mac, c.hostaddr, c.offer[0..4], c.offer[12..16])
  {
    MessageHeader(p, size, REQUEST, c, mac, RequestOptions(c.offer));
    var address, server := c.offer[0..4], c.offer[12..16];
    EntriesAreBytes(p, 240);
    var l := [Entry(53, [3])] + [Entry(50, address), Entry(54, server)];
    assert Entries(p, 240) == l;
    assert l[1..] == [Entry(50, address)] + [Entry(54, server)];
    TwoEntries(50, address, 54, server);
    assert ListBytes(l) == [53, 1] + [3] + ListBytes(l[1..]);
    assert ListBytes(l) == [53, 1, 3, 50, 4] + address + [54, 4] + server + [255];
    var m := p[..size];
    assert m[240..] == p[240..size] && HasHeader(m, mac, c.hostaddr, address, server);
    assert m[240..] == [53, 1, 3, 50, 4] + address + [54, 4] + server + [255];
  }
}
