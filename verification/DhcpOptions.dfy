/** The option list of a DHCP packet: entries of a code, a length and that many bytes, up to an End marker
    (sections 2 and 3.2 of RFC 2132), read and extended in place. */
module DhcpOptions {
  import opened ByteMemory

  const OPTION_END: byte := 255

  datatype Entry = Entry(code: byte, data: seq<byte>)

  datatype Found = Found(data: seq<byte>) | Absent

  /** The list that starts at `at` reaches an End marker. */
  predicate WellFormed(p: seq<byte>, at: nat)
    decreases |p| - at
  {
    at < |p| && (p[at] == OPTION_END || (at + 2 < |p| && WellFormed(p, at + 2 + p[at + 1])))
  }

  /** Where the End marker is. */
  function EndAt(p: seq<byte>, at: nat): (end: nat)
    requires WellFormed(p, at)
    ensures at <= end < |p| && p[end] == OPTION_END
    decreases |p| - at
  {
    if p[at] == OPTION_END then at else EndAt(p, at + 2 + p[at + 1])
  }

  function Entries(p: seq<byte>, at: nat): (entries: seq<Entry>)
    requires WellFormed(p, at)
    decreases |p| - at
  {
    if p[at] == OPTION_END then []
    else
      var next := at + 2 + p[at + 1];
      assert WellFormed(p, next);
      [Entry(p[at], p[at + 2..next])] + Entries(p, next)
  }

  /** The first entry with a code counts. */
  function Lookup(entries: seq<Entry>, code: byte): Found
  {
    if entries == [] then Absent
    else if entries[0].code == code then Found(entries[0].data)
    else Lookup(entries[1..], code)
  }

  /** A length is one byte. */
  lemma {:induction false} DataIsShort(p: seq<byte>, at: nat, code: byte)
    requires WellFormed(p, at)
    ensures var f := Lookup(Entries(p, at), code); f.Found? ==> |f.data| <= 255
    decreases |p| - at
  {
    if p[at] != OPTION_END {
      DataIsShort(p, at + 2 + p[at + 1], code);
    }
  }

  /** An appended entry is found unless an earlier one has its code, and every other lookup stays as it was. */
  lemma {:induction false} LookupAppended(entries: seq<Entry>, e: Entry, code: byte)
    ensures Lookup(entries + [e], code) ==
            if Lookup(entries, code) == Absent && e.code == code then Found(e.data) else Lookup(entries, code)
    decreases |entries|
  {
    if entries == [] {
      assert entries + [e] == [e];
    } else {
      assert (entries + [e])[1..] == entries[1..] + [e];
      LookupAppended(entries[1..], e, code);
    }
  }

  /** The bytes of one entry, followed by an End marker. */
  function Encoded(e: Entry): (bytes: seq<byte>)
    requires |e.data| < 256
    ensures |bytes| == |e.data| + 3
  {
    [e.code, |e.data|] + e.data + [OPTION_END]
  }

  /** Writing an entry over the End marker appends it to the list. */
  lemma {:induction false} Appended(p: seq<byte>, at: nat, e: Entry, end: nat)
    requires WellFormed(p, at) && end == EndAt(p, at) && e.code != OPTION_END && |e.data| < 256
    requires end + 2 + |e.data| < |p|
    ensures var q := Overwrite(p, end, Encoded(e));
            && WellFormed(q, at) && EndAt(q, at) == end + 2 + |e.data|
            && Entries(q, at) == Entries(p, at) + [e]
    decreases |p| - at
  {
    hide Overwrite, Encoded;
    if p[at] == OPTION_END {
      WrittenHere(p, at, e);
    } else {
      var next := at + 2 + p[at + 1];
      Before(p, at, next, Encoded(e), end);
      Appended(p, next, e, end);
    }
  }

  lemma WrittenHere(p: seq<byte>, at: nat, e: Entry)
    requires e.code != OPTION_END && |e.data| < 256 && at + 2 + |e.data| < |p|
    ensures var q := Overwrite(p, at, Encoded(e));
            WellFormed(q, at) && EndAt(q, at) == at + 2 + |e.data| && Entries(q, at) == [] + [e]
  {
    var q, next := Overwrite(p, at, Encoded(e)), at + 2 + |e.data|;
    assert q[at] == e.code && q[at + 1] == |e.data| && q[next] == OPTION_END;
    assert q[at + 2..next] == e.data;
    assert WellFormed(q, next) && Entries(q, next) == [];
  }

  lemma Before(p: seq<byte>, at: nat, next: nat, data: seq<byte>, end: nat)
    requires at + 2 <= next <= end && end + |data| <= |p|
    ensures var q := Overwrite(p, end, data);
            q[at] == p[at] && q[at + 1] == p[at + 1] && q[at + 2..next] == p[at + 2..next]
  {
  }

  // ---- Reading and writing in place ----

  /** memcpy */
  method Copy(dest: array<byte>, at: nat, data: seq<byte>)
    requires at + |data| <= dest.Length
    modifies dest
    ensures dest[..] == Overwrite(old(dest[..]), at, data)
  {
    for i := 0 to |data|
      invariant forall j :: 0 <= j < dest.Length ==> dest[j] == if at <= j < at + i then data[j - at] else old(dest[j])
    {
      dest[at + i] := data[i];
    }
  }

  /** An entry and the End marker behind it. */
  method WriteEntry(packet: array<byte>, at: nat, option: byte, optionData: seq<byte>)
    requires |optionData| < 256 && at + 2 + |optionData| < packet.Length
    modifies packet
    ensures packet[..] == Overwrite(old(packet[..]), at, Encoded(Entry(option, optionData)))
  {
    packet[at] := option;
    packet[at + 1] := |optionData|;
    Copy(packet, at + 2, optionData);
    packet[2 + |optionData| + at] := OPTION_END;
  }

  /** SetOption: returns the number of bytes the packet has grown by, in eight bits. */
  method SetOption(packet: array<byte>, list: nat, option: byte, optionData: seq<byte>) returns (added: byte)
    requires WellFormed(packet[..], list) && option != OPTION_END && |optionData| < 256
    requires EndAt(packet[..], list) + 2 + |optionData| < packet.Length
    modifies packet
    ensures WellFormed(packet[..], list)
    ensures Entries(packet[..], list) == old(Entries(packet[..], list)) + [Entry(option, optionData)]
    ensures EndAt(packet[..], list) == old(EndAt(packet[..], list)) + 2 + |optionData|
    ensures packet[..list] == old(packet[..list])
    ensures added == (2 + |optionData|) % 256
  {
    ghost var was, end := packet[..], EndAt(packet[..], list);
    var at := list;
    while packet[at] != OPTION_END
      invariant list <= at && WellFormed(was, at) && EndAt(was, at) == end
      decreases |was| - at
    {
      var length: int := packet[at + 1];
      at := at + length + 2;
    }
    ghost var e := Entry(option, optionData);
    Appended(was, list, e, end);
    WriteEntry(packet, at, option, optionData);
    added := (2 + |optionData|) % 256;
  }

  /** GetOption: the data of the first entry with this code is copied to its destination. */
  method GetOption(packet: array<byte>, list: nat, option: byte, dest: array<byte>, to: nat) returns (found: bool)
    requires packet != dest && WellFormed(packet[..], list) && option != OPTION_END
    requires var f := Lookup(Entries(packet[..], list), option); f.Found? ==> to + |f.data| <= dest.Length
    modifies dest
    ensures var f := Lookup(Entries(packet[..], list), option);
            found == f.Found? && dest[..] == if f.Found? then Overwrite(old(dest[..]), to, f.data) else old(dest[..])
  {
    ghost var f := Lookup(Entries(packet[..], list), option);
    var at := list;
    while packet[at] != OPTION_END
      invariant WellFormed(packet[..], at) && Lookup(Entries(packet[..], at), option) == f
      invariant dest[..] == old(dest[..])
      decreases packet.Length - at
    {
      var length: int := packet[at + 1];
      if packet[at] == option {
        Copy(dest, to, packet[at + 2..at + 2 + length]);
        return true;
      }
      at := at + length + 2;
    }
    found := false;
  }
}
