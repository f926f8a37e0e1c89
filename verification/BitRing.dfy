/** A circular buffer of bits whose store operation can only set a bit, and the queue it refines. */
module BitRing {

  // ---- A ring of bits ----

  /** Storing only ever sets a bit; retrieving clears the one it returns. `elements` is a 16-bit counter. */
  datatype Ring = Ring(bits: seq<bool>, elements: nat, inAt: nat, outAt: nat) {
    predicate Formed() { inAt < |bits| && outAt < |bits| < 0x1_0000 && elements < 0x1_0000 }

    function Next(at: nat): (n: nat)
      requires at < |bits|
      ensures n < |bits|
    {
      if at + 1 == |bits| then 0 else at + 1
    }

    function Store(bit: bool): (r: Ring)
      requires Formed()
      ensures r.Formed() && |r.bits| == |bits|
    {
      Ring(if bit then bits[inAt := true] else bits, (elements + 1) % 0x1_0000, Next(inAt), outAt)
    }

    function Get(): (r: Ring)
      requires Formed()
      ensures r.Formed() && |r.bits| == |bits|
    {
      Ring(bits[outAt := false], (elements + 0xFFFF) % 0x1_0000, inAt, Next(outAt))
    }

    /** The bit that lies `i` places after the next one to be retrieved. */
    function At(i: nat): (p: nat)
      requires Formed() && i <= |bits|
      ensures p < |bits|
    {
      if outAt + i < |bits| then outAt + i else outAt + i - |bits|
    }

    /** The ring holds this queue, and every bit outside it is clear. */
    ghost predicate Holds(queue: seq<bool>) {
      && Formed() && elements == |queue| <= |bits| && inAt == At(|queue|)
      && forall i {:trigger At(i)} :: 0 <= i < |bits| ==> bits[At(i)] == (i < |queue| && queue[i])
    }
  }

  predicate Blank(bits: seq<bool>) { forall p :: 0 <= p < |bits| ==> !bits[p] }

  lemma StoreRefines(r: Ring, queue: seq<bool>, bit: bool)
    requires r.Holds(queue) && |queue| < |r.bits|
    ensures r.Store(bit).Holds(queue + [bit])
  {
    var s := r.Store(bit);
    forall i: nat | i < |r.bits|
      ensures s.bits[s.At(i)] == (i < |queue| + 1 && (queue + [bit])[i])
    {
      assert s.At(i) == r.At(i);
    }
  }

  /** A full ring is not protected: the oldest bit absorbs the new one, and is then also the newest. */
  lemma StoreOnFull(r: Ring, queue: seq<bool>, bit: bool)
    requires r.Holds(queue) && |queue| == |r.bits|
    ensures var s := r.Store(bit);
            && s.bits == r.bits[r.outAt := queue[0] || bit]
            && forall q :: !s.Holds(q)
  {
    assert r.At(0) == r.outAt == r.inAt;
  }

  lemma GetRefines(r: Ring, queue: seq<bool>)
    requires r.Holds(queue) && queue != []
    ensures r.bits[r.outAt] == queue[0] && r.Get().Holds(queue[1..])
  {
    var s := r.Get();
    assert r.At(0) == r.outAt;
    forall i: nat | i < |r.bits|
      ensures s.bits[s.At(i)] == (i < |queue| - 1 && queue[1..][i])
    {
      if i + 1 < |r.bits| {
        assert s.At(i) == r.At(i + 1);
      } else {
        assert s.At(i) == r.At(0);
      }
    }
  }

  /** BitBuffer_Init leaves the data alone, so it gives an empty queue exactly when the data is blank. */
  lemma ResetRefines(bits: seq<bool>)
    requires 0 < |bits| < 0x1_0000
    ensures Ring(bits, 0, 0, 0).Holds([]) <==> Blank(bits)
  {
    var r := Ring(bits, 0, 0, 0);
    forall p | 0 <= p < |bits|
      ensures r.At(p) == p && (r.Holds([]) ==> !bits[p])
    {
      assert r.At(p) == p;
    }
  }

  // ---- Runs ----

  datatype Op = Put(bit: bool) | Take

  /** What a list of operations returns from the ring. */
  function Taken(r: Ring, ops: seq<Op>): seq<bool>
    requires r.Formed()
    decreases |ops|
  {
    if ops == [] then []
    else match ops[0]
      case Put(bit) => Taken(r.Store(bit), ops[1..])
      case Take => [r.bits[r.outAt]] + Taken(r.Get(), ops[1..])
  }

  /** What it returns from a queue. */
  function Dequeued(queue: seq<bool>, ops: seq<Op>, capacity: nat): seq<bool>
    requires WithinCapacity(|queue|, ops, capacity)
    decreases |ops|
  {
    if ops == [] then []
    else match ops[0]
      case Put(bit) => Dequeued(queue + [bit], ops[1..], capacity)
      case Take => [queue[0]] + Dequeued(queue[1..], ops[1..], capacity)
  }

  predicate WithinCapacity(n: nat, ops: seq<Op>, capacity: nat)
    decreases |ops|
  {
    if ops == [] then true
    else if ops[0].Put? then n < capacity && WithinCapacity(n + 1, ops[1..], capacity)
    else 0 < n && WithinCapacity(n - 1, ops[1..], capacity)
  }

  /** First in, first out, however often the ring has wrapped. */
  lemma {:induction false} RunRefines(r: Ring, queue: seq<bool>, ops: seq<Op>)
    requires r.Holds(queue) && WithinCapacity(|queue|, ops, |r.bits|)
    ensures Taken(r, ops) == Dequeued(queue, ops, |r.bits|)
    decreases |ops|
  {
    if ops != [] {
      match ops[0] {
        case Put(bit) =>
          StoreRefines(r, queue, bit);
          RunRefines(r.Store(bit), queue + [bit], ops[1..]);
        case Take =>
          GetRefines(r, queue);
          RunRefines(r.Get(), queue[1..], ops[1..]);
      }
    }
  }

  function Puts(bits: seq<bool>): (ops: seq<Op>)
    ensures |ops| == |bits| && forall i :: 0 <= i < |bits| ==> ops[i] == Put(bits[i])
  {
    seq(|bits|, i requires 0 <= i < |bits| => Put(bits[i]))
  }

  function Takes(n: nat): (ops: seq<Op>)
    ensures |ops| == n && forall i :: 0 <= i < n ==> ops[i] == Take
  {
    seq(n, i => Take)
  }

  /** A reset ring that is not blank mixes its stale bits into what is stored next. */
  lemma StaleBits(stale: seq<bool>, stored: seq<bool>)
    requires 0 < |stale| < 0x1_0000 && |stored| <= |stale|
    ensures var read := Taken(Ring(stale, 0, 0, 0), Puts(stored) + Takes(|stored|));
            && |read| == |stored|
            && (forall i :: 0 <= i < |stored| ==> read[i] == (stored[i] || stale[i]))
            && (read == stored <==> forall i :: 0 <= i < |stored| ==> stale[i] ==> stored[i])
  {
    var r := Ring(stale, 0, 0, 0);
    assert stored == [] + stored;
    StoredOver(r, [], stored, stale);
  }

  function Mixed(stale: seq<bool>, stored: seq<bool>): (m: seq<bool>)
    requires |stored| <= |stale|
    ensures |m| == |stale|
  {
    seq(|stale|, i requires 0 <= i < |stale| => stale[i] || (i < |stored| && stored[i]))
  }

  lemma {:induction false} StoredOver(r: Ring, before: seq<bool>, coming: seq<bool>, stale: seq<bool>)
    requires |before| + |coming| <= |stale| < 0x1_0000 && 0 < |stale|
    requires r == Ring(Mixed(stale, before), |before|, if |before| == |stale| then 0 else |before|, 0)
    ensures Taken(r, Puts(coming) + Takes(|before| + |coming|)) == Mixed(stale, before + coming)[..|before| + |coming|]
    decreases |coming|
  {
    hide Mixed, Puts, Takes;
    var n := |before| + |coming|;
    if coming == [] {
      assert Puts([]) + Takes(n) == Takes(n) && before + coming == before;
      TakenAll(r, n, Mixed(stale, before), 0);
      assert Mixed(stale, before)[0..n] == Mixed(stale, before)[..n];
    } else {
      var more, rest := before + [coming[0]], coming[1..];
      FirstPut(coming, n);
      OneMoreMixed(stale, before, coming[0]);
      StoredOver(r.Store(coming[0]), more, rest, stale);
      Moved(before, coming);
    }
  }

  lemma FirstPut(coming: seq<bool>, n: nat)
    requires coming != []
    ensures (Puts(coming) + Takes(n))[0] == Put(coming[0])
    ensures (Puts(coming) + Takes(n))[1..] == Puts(coming[1..]) + Takes(n)
  {
  }

  lemma OneMoreMixed(stale: seq<bool>, before: seq<bool>, b: bool)
    requires |before| < |stale|
    ensures Mixed(stale, before + [b]) == if b then Mixed(stale, before)[|before| := true] else Mixed(stale, before)
  {
  }

  lemma Moved(before: seq<bool>, coming: seq<bool>)
    requires coming != []
    ensures (before + [coming[0]]) + coming[1..] == before + coming
    ensures |before + [coming[0]]| + |coming[1..]| == |before| + |coming|
  {
  }

  lemma {:induction false} TakenAll(r: Ring, n: nat, bits: seq<bool>, k: nat)
    requires r.Formed() && k + n <= |bits| == |r.bits| && (n > 0 ==> r.outAt == k)
    requires forall p :: k <= p < |bits| ==> r.bits[p] == bits[p]
    ensures Taken(r, Takes(n)) == bits[k..k + n]
    decreases n
  {
    if n > 0 {
      assert Takes(n)[1..] == Takes(n - 1);
      TakenAll(r.Get(), n - 1, bits, k + 1);
      assert bits[k..k + n] == [bits[k]] + bits[k + 1..k + n];
    }
  }
}
