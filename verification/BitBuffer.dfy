/** The packed circular bit buffer: masks and byte pointers refine a ring of bits. */
module BitBuffers {
  import opened BitOverrun
  import opened BitRing

  // ---- Bytes and masks ----

  /** 1 << k, the mask of one bit. */
  function Mask(k: nat): (m: bv8)
    requires k < 8
  {
    if k == 0 then 0x01 else if k == 1 then 0x02 else if k == 2 then 0x04 else if k == 3 then 0x08
    else if k == 4 then 0x10 else if k == 5 then 0x20 else if k == 6 then 0x40 else 0x80
  }

  predicate Meets(b: bv8, m: bv8) { b & m != 0 }

  predicate Has(b: bv8, k: nat)
    requires k < 8
  {
    Meets(b, Mask(k))
  }

  lemma Apart(j: nat, k: nat)
    requires j < 8 && k < 8
    ensures Meets(Mask(j), Mask(k)) <==> j == k
  {
  }

  lemma Or(b: bv8, m: bv8, n: bv8, same: bool, c: bv8)
    requires (same ==> m == n) && (Meets(m, n) <==> same) && c == b | m
    ensures Meets(c, n) <==> same || Meets(b, n)
  {
    if same {
      assert c & m == m;
    } else {
      assert c & n == b & n;
    }
  }

  lemma AndNot(b: bv8, m: bv8, n: bv8, same: bool, c: bv8)
    requires (same ==> m == n) && (Meets(m, n) <==> same) && c == b & !m
    ensures Meets(c, n) <==> !same && Meets(b, n)
  {
    if same {
      assert c & m == 0;
    } else {
      assert c & n == b & n;
    }
  }

  lemma BitSet(b: bv8, j: nat, k: nat, c: bv8)
    requires j < 8 && k < 8 && c == b | Mask(j)
    ensures Has(c, k) <==> j == k || Has(b, k)
  {
    hide Mask, Meets;
    Apart(j, k);
    Or(b, Mask(j), Mask(k), j == k, c);
  }

  lemma BitCleared(b: bv8, j: nat, k: nat, c: bv8)
    requires j < 8 && k < 8 && c == b & !Mask(j)
    ensures Has(c, k) <==> j != k && Has(b, k)
  {
    hide Mask, Meets;
    Apart(j, k);
    AndNot(b, Mask(j), Mask(k), j == k, c);
  }

  lemma LastMask(k: nat)
    requires k < 8
    ensures Mask(k) == 0x80 <==> k == 7
    ensures k < 7 ==> Mask(k) << 1 == Mask(k + 1)
  {
  }

  function IsSet(data: seq<bv8>, p: nat): bool
    requires p < 8 * |data|
  {
    Has(data[p / 8], p % 8)
  }

  function Unpacked(data: seq<bv8>): (bits: seq<bool>)
    ensures |bits| == 8 * |data|
  {
    seq(8 * |data|, p requires 0 <= p < 8 * |data| => IsSet(data, p))
  }

  lemma Bits(data: seq<bv8>, byte: nat, k: nat, at: nat)
    requires byte < |data| && k < 8 && at == 8 * byte + k
    ensures at < 8 * |data| && Unpacked(data)[at] == Has(data[byte], k)
  {
  }

  /** A byte that differs in one bit. */
  lemma OneBitDiffers(data: seq<bv8>, byte: nat, k: nat, at: nat, b: bv8, bit: bool)
    requires byte < |data| && k < 8 && at == 8 * byte + k
    requires forall j :: 0 <= j < 8 ==> Has(b, j) == (if j == k then bit else Has(data[byte], j))
    ensures Unpacked(data[byte := b]) == Unpacked(data)[at := bit]
  {
    forall p: nat | p < 8 * |data|
      ensures IsSet(data[byte := b], p) == (if p == at then bit else IsSet(data, p))
    {
      if p / 8 == byte {
        assert p == at <==> p % 8 == k;
      }
    }
  }

  lemma SetOne(data: seq<bv8>, byte: nat, k: nat, at: nat)
    requires byte < |data| && k < 8 && at == 8 * byte + k
    ensures Unpacked(data[byte := data[byte] | Mask(k)]) == Unpacked(data)[at := true]
  {
    forall j: nat | j < 8
      ensures Has(data[byte] | Mask(k), j) == (if j == k then true else Has(data[byte], j))
    {
      BitSet(data[byte], k, j, data[byte] | Mask(k));
    }
    OneBitDiffers(data, byte, k, at, data[byte] | Mask(k), true);
  }

  lemma ClearOne(data: seq<bv8>, byte: nat, k: nat, at: nat)
    requires byte < |data| && k < 8 && at == 8 * byte + k
    ensures Unpacked(data[byte := data[byte] & !Mask(k)]) == Unpacked(data)[at := false]
  {
    forall j: nat | j < 8
      ensures Has(data[byte] & !Mask(k), j) == (if j == k then false else Has(data[byte], j))
    {
      BitCleared(data[byte], k, j, data[byte] & !Mask(k));
    }
    OneBitDiffers(data, byte, k, at, data[byte] & !Mask(k), false);
  }

  // ---- The buffer ----

  /** A byte pointer and a mask are stepped as one bit pointer. */
  method Advance(size: nat, currentByte: nat, byteMask: bv8, ghost k: nat, ghost at: nat, ghost bits: nat)
    returns (nextByte: nat, nextMask: bv8, ghost next: nat)
    requires currentByte < size && k < 8 && byteMask == Mask(k) && at == 8 * currentByte + k && bits == 8 * size
    ensures nextByte < size && next < 8 && nextMask == Mask(next)
    ensures 8 * nextByte + next == if at + 1 == bits then 0 else at + 1
  {
    LastMask(k);
    if byteMask == 0x80 {
      if currentByte != size - 1 {
        nextByte := currentByte + 1;
      } else {
        nextByte := 0;
      }
      nextMask, next := 1, 0;
    } else {
      nextByte, nextMask, next := currentByte, byteMask << 1, k + 1;
    }
  }

  class BitBuffer {
    const data: array<bv8>
    var elements: nat
    var inByte: nat
    var inMask: bv8
    ghost var inBit: nat
    var outByte: nat
    var outMask: bv8
    ghost var outBit: nat
    /** What retrieving gives, oldest first: the bits that have been stored and not yet retrieved, but for those whose
        places were not free. */
    ghost var queue: seq<bool>

    ghost predicate Formed()
      reads this, data
    {
      && 0 < 8 * data.Length < 0x1_0000 && inByte < data.Length && outByte < data.Length
      && inBit < 8 && inMask == Mask(inBit) && outBit < 8 && outMask == Mask(outBit) && elements < 0x1_0000
    }

    ghost function View(): (r: Ring)
      requires Formed()
      reads this, data
      ensures r.Formed()
    {
      Ring(Unpacked(data[..]), elements, 8 * inByte + inBit, 8 * outByte + outBit)
    }

    ghost predicate Valid()
      reads this, data
    {
      Formed() && Carries(View(), queue)
    }

    /** A buffer in zeroed memory, initialised. */
    constructor (size: nat)
      requires 0 < 8 * size < 0x1_0000
      ensures Valid() && queue == [] && data.Length == size && fresh(data)
    {
      data := new bv8[size](i => 0);
      elements, inByte, inMask, inBit, outByte, outMask, outBit, queue := 0, 0, 1, 0, 0, 1, 0, [];
      new;
      forall p: nat | p < 8 * size
        ensures !IsSet(data[..], p)
      {
        assert data[..][p / 8] == 0;
      }
      ResetRefines(Unpacked(data[..]));
      HoldsIsCarries(View(), []);
    }

    /** BitBuffer_Init: the counter and the pointers, but not the data. */
    method Init()
      requires Formed()
      modifies this
      ensures Formed() && data[..] == old(data[..]) && queue == []
      ensures View() == Ring(old(View()).bits, 0, 0, 0)
      ensures Valid() <==> Blank(old(View()).bits)
    {
      elements := 0;
      inByte, inMask, inBit := 0, 1, 0;
      outByte, outMask, outBit := 0, 1, 0;
      queue := [];
      ResetRefines(Unpacked(data[..]));
      HoldsIsCarries(View(), []);
    }

    method SetBits(byte: nat, mask: bv8, ghost k: nat, ghost at: nat)
      requires byte < data.Length && k < 8 && mask == Mask(k) && at == 8 * byte + k
      modifies data
      ensures Unpacked(data[..]) == old(Unpacked(data[..]))[at := true]
    {
      hide Unpacked, Mask;
      SetOne(data[..], byte, k, at);
      ghost var was := data[..];
      data[byte] := data[byte] | mask;
      assert data[..] == was[byte := was[byte] | Mask(k)];
    }

    method ReadBit(byte: nat, mask: bv8, ghost k: nat, ghost at: nat) returns (bit: bool)
      requires byte < data.Length && k < 8 && mask == Mask(k) && at == 8 * byte + k
      ensures bit == Unpacked(data[..])[at]
    {
      Bits(data[..], byte, k, at);
      bit := data[byte] & mask != 0;
    }

    method ClearBits(byte: nat, mask: bv8, ghost k: nat, ghost at: nat)
      requires byte < data.Length && k < 8 && mask == Mask(k) && at == 8 * byte + k
      modifies data
      ensures Unpacked(data[..]) == old(Unpacked(data[..]))[at := false]
    {
      hide Unpacked, Mask;
      ClearOne(data[..], byte, k, at);
      ghost var was := data[..];
      data[byte] := data[byte] & !mask;
      assert data[..] == was[byte := was[byte] & !Mask(k)];
    }

    method StoreNextBit(bit: bool)
      requires Formed()
      modifies this, data
      ensures Formed() && View() == old(View()).Store(bit) && queue == Collect(old(queue), bit, 8 * data.Length)
      ensures |old(queue)| < 8 * data.Length ==> queue == old(queue) + [bit]
      ensures old(Valid()) && |old(queue)| < 0xFFFF ==> Valid()
    {
      hide Unpacked, Mask, Carries, Collect;
      ghost var before := View();
      if bit {
        SetBits(inByte, inMask, inBit, before.inAt);
      }
      elements := (elements + 1) % 0x1_0000;
      inByte, inMask, inBit := Advance(data.Length, inByte, inMask, inBit, before.inAt, |before.bits|);
      assert Unpacked(data[..]) == before.Store(bit).bits;
      StoreKeepsCarrying(before, queue, bit);
      queue := Collect(queue, bit, 8 * data.Length);
    }

    method GetNextBit() returns (bit: bool)
      requires Formed()
      modifies this, data
      ensures Formed() && View() == old(View()).Get() && bit == old(View()).bits[old(View()).outAt]
      ensures old(Valid()) && old(queue) != [] ==> Valid() && bit == old(queue)[0] && queue == old(queue)[1..]
    {
      hide Unpacked, Mask, Carries, Collect;
      ghost var before := View();
      bit := ReadBit(outByte, outMask, outBit, before.outAt);
      ClearBits(outByte, outMask, outBit, before.outAt);
      elements := (elements + 0xFFFF) % 0x1_0000;
      outByte, outMask, outBit := Advance(data.Length, outByte, outMask, outBit, before.outAt, |before.bits|);
      assert Unpacked(data[..]) == before.Get().bits;
      GetKeepsCarrying(before, queue);
      if queue != [] {
        queue := queue[1..];
      }
    }
  }
}
