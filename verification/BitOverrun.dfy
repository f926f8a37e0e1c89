/** A track that is longer than its buffer: the ring is not protected, so each place collects every bit that is stored
    in it. */
module BitOverrun {
  import opened Arithmetic
  import opened BitRing

  /** All bits stored into a ring of `n` places, one after the other. */
  function Folded(all: seq<bool>, n: nat): (f: seq<bool>)
    requires 0 < n
    ensures |f| == n
  {
    if all == [] then seq(n, i => false)
    else
      var k := |all| - 1;
      var f := Folded(all[..k], n);
      if all[k] then f[k % n := true] else f
  }

  /** Is some bit that falls into place `i` set? */
  ghost predicate SomeSet(all: seq<bool>, n: nat, i: nat)
    requires 0 < n
  {
    exists j: nat :: j < |all| && j % n == i && all[j]
  }

  lemma {:induction false} FoldedIsSomeSet(all: seq<bool>, n: nat, i: nat)
    requires 0 < n && i < n
    ensures Folded(all, n)[i] <==> SomeSet(all, n, i)
  {
    if all != [] {
      var k := |all| - 1;
      FoldedIsSomeSet(all[..k], n, i);
      if SomeSet(all, n, i) {
        var j: nat :| j < |all| && j % n == i && all[j];
        assert j < k ==> all[..k][j];
      }
      if SomeSet(all[..k], n, i) {
        var j: nat :| j < k && j % n == i && all[..k][j];
        assert all[j];
      }
    }
  }

  /** What does not overrun the ring is in it as it was stored. */
  lemma {:induction false} FoldedFits(queue: seq<bool>, n: nat, i: nat)
    requires 0 < n && |queue| <= n && i < n
    ensures Folded(queue, n)[i] == (i < |queue| && queue[i])
  {
    if queue != [] {
      var k := |queue| - 1;
      QuotientUnique(k, 0, n, k);
      FoldedFits(queue[..k], n, i);
    }
  }

  /** From the next bit to be retrieved on, the ring reads like this. */
  ghost predicate Reads(r: Ring, f: seq<bool>) {
    r.Formed() && |f| == |r.bits| && forall i {:trigger r.At(i)} :: 0 <= i < |f| ==> r.bits[r.At(i)] == f[i]
  }

  /** Everything in `all` has been stored and nothing retrieved. */
  ghost predicate Soaked(r: Ring, all: seq<bool>) {
    && r.Formed() && Reads(r, Folded(all, |r.bits|))
    && r.elements == |all| % 0x1_0000 && r.inAt == r.At(|all| % |r.bits|)
  }

  lemma NextPlace(n: nat, k: nat)
    requires 0 < n
    ensures (k + 1) % n == if k % n + 1 == n then 0 else k % n + 1
  {
    var q, p := k / n, k % n;
    assert k == q * n + p;
    if p + 1 == n {
      assert k + 1 == (q + 1) * n;
      QuotientUnique(k + 1, q + 1, n, 0);
    } else {
      QuotientUnique(k + 1, q, n, p + 1);
    }
  }

  lemma CountUp(k: nat)
    ensures (k % 0x1_0000 + 1) % 0x1_0000 == (k + 1) % 0x1_0000
  {
  }

  lemma HoldsIsSoaked(r: Ring, queue: seq<bool>)
    requires r.Holds(queue)
    ensures Soaked(r, queue)
  {
    var n := |r.bits|;
    forall i: nat | i < n
      ensures r.bits[r.At(i)] == Folded(queue, n)[i]
    {
      FoldedFits(queue, n, i);
    }
    if |queue| == n {
      QuotientUnique(n, 1, n, 0);
    } else {
      QuotientUnique(|queue|, 0, n, |queue|);
    }
  }

  lemma StoreSoaks(r: Ring, all: seq<bool>, bit: bool)
    requires Soaked(r, all)
    ensures Soaked(r.Store(bit), all + [bit])
  {
    hide Reads;
    var s, n, k := r.Store(bit), |r.bits|, |all|;
    NextPlace(n, k);
    CountUp(k);
    assert (all + [bit])[..k] == all;
    StoredAt(r, s, Folded(all, n), k % n, bit);
  }

  lemma StoredAt(r: Ring, s: Ring, f: seq<bool>, p: nat, bit: bool)
    requires Reads(r, f) && p < |f| && r.inAt == r.At(p) && s == r.Store(bit)
    ensures Reads(s, if bit then f[p := true] else f)
    ensures s.inAt == s.At(if p + 1 == |f| then 0 else p + 1)
  {
    forall i: nat | i < |f|
      ensures s.bits[s.At(i)] == (if bit then f[p := true] else f)[i]
    {
      assert s.At(i) == r.At(i);
      assert r.At(i) == r.At(p) <==> i == p;
    }
  }

  /** Retrieving clears a place, so what is read past the ring's end is clear. */
  lemma {:induction false} ReadOnce(r: Ring, f: seq<bool>, m: nat)
    requires Reads(r, f)
    ensures |Taken(r, Takes(m))| == m
    ensures forall i :: 0 <= i < m ==> Taken(r, Takes(m))[i] == (i < |f| && f[i])
    decreases m
  {
    if m > 0 {
      assert Takes(m)[1..] == Takes(m - 1);
      GetReads(r, f);
      var g := f[1..] + [false];
      ReadOnce(r.Get(), g, m - 1);
      assert r.At(0) == r.outAt;
      assert forall i :: 0 < i < m ==> (i < |f| && f[i]) == (i - 1 < |g| && g[i - 1]);
    }
  }

  lemma GetReads(r: Ring, f: seq<bool>)
    requires Reads(r, f)
    ensures Reads(r.Get(), f[1..] + [false]) && r.bits[r.outAt] == f[0]
  {
    var s := r.Get();
    assert r.At(0) == r.outAt;
    forall i: nat | i < |f|
      ensures s.bits[s.At(i)] == (f[1..] + [false])[i]
    {
      if i + 1 < |f| {
        assert s.At(i) == r.At(i + 1);
      } else {
        assert s.At(i) == r.At(0);
      }
    }
  }

  function Stored(r: Ring, bits: seq<bool>): (s: Ring)
    requires r.Formed()
    ensures s.Formed() && |s.bits| == |r.bits|
  {
    if bits == [] then r else Stored(r, bits[..|bits| - 1]).Store(bits[|bits| - 1])
  }

  lemma {:induction false} StoredSoaks(r: Ring, queue: seq<bool>, bits: seq<bool>)
    requires r.Holds(queue)
    ensures Soaked(Stored(r, bits), queue + bits)
  {
    if bits == [] {
      HoldsIsSoaked(r, queue);
      assert queue + [] == queue;
    } else {
      var k := |bits| - 1;
      StoredSoaks(r, queue, bits[..k]);
      StoreSoaks(Stored(r, bits[..k]), queue + bits[..k], bits[k]);
      assert queue + bits == (queue + bits[..k]) + [bits[k]];
    }
  }

  /** A track of any length, stored behind a queue: the counter counts modulo its width, each bit read is set if any bit
      that fell into its place was, and whatever is read beyond the ring's size is clear. */
  lemma TrackOfAnyLength(r: Ring, queue: seq<bool>, bits: seq<bool>, m: nat)
    requires r.Holds(queue)
    ensures var s, all, n := Stored(r, bits), queue + bits, |r.bits|;
            && s.elements == |all| % 0x1_0000
            && |Taken(s, Takes(m))| == m
            && forall i :: 0 <= i < m ==> (Taken(s, Takes(m))[i] <==> i < n && SomeSet(all, n, i))
  {
    var s, all, n := Stored(r, bits), queue + bits, |r.bits|;
    StoredSoaks(r, queue, bits);
    ReadOnce(s, Folded(all, n), m);
    forall i: nat | i < m && i < n
      ensures Folded(all, n)[i] <==> SomeSet(all, n, i)
    {
      FoldedIsSomeSet(all, n, i);
    }
  }

  /** A track that overruns its ring is read back as it was stored exactly when no set bit lies beyond the ring's size:
      clear bits do no harm, and a set one is lost. */
  lemma OverrunReadsBack(r: Ring, queue: seq<bool>, bits: seq<bool>)
    requires r.Holds(queue)
    ensures var all := queue + bits;
            Taken(Stored(r, bits), Takes(|all|)) == all <==> forall j :: |r.bits| <= j < |all| ==> !all[j]
  {
    var all, n := queue + bits, |r.bits|;
    TrackOfAnyLength(r, queue, bits, |all|);
    var read := Taken(Stored(r, bits), Takes(|all|));
    if read == all {
      assert forall j :: n <= j < |all| ==> read[j] == all[j];
    }
    if forall j :: n <= j < |all| ==> !all[j] {
      forall i | 0 <= i < |all|
        ensures read[i] == all[i]
      {
        if i < n {
          QuotientUnique(i, 0, n, i);
          if SomeSet(all, n, i) {
            var j: nat :| j < |all| && j % n == i && all[j];
            QuotientUnique(j, 0, n, j);
          }
        }
      }
    }
  }

  // ---- The queue of a ring that may have been overrun ----

  /** What the reader of a ring of `n` places still gets of these bits: each place once, with all that it collected. */
  function Owed(all: seq<bool>, n: nat): (queue: seq<bool>)
    requires 0 < n
    ensures |queue| == |all|
  {
    var f := Folded(all, n);
    seq(|all|, i requires 0 <= i < |all| => i < n && f[i])
  }

  /** One more bit: it is appended, or its place, which is not free, collects it. */
  function Collect(queue: seq<bool>, bit: bool, n: nat): (q: seq<bool>)
    requires 0 < n
    ensures |q| == |queue| + 1
    ensures |queue| < n ==> q == queue + [bit]
  {
    if |queue| < n then queue + [bit]
    else PlaceInside(|queue|, n); (queue + [false])[|queue| % n := queue[|queue| % n] || bit]
  }

  lemma PlaceInside(k: nat, n: nat)
    requires 0 < n <= k
    ensures k % n < k
  {
  }

  lemma OwedGrows(all: seq<bool>, bit: bool, n: nat)
    requires 0 < n
    ensures Owed(all + [bit], n) == Collect(Owed(all, n), bit, n)
  {
    var k := |all|;
    assert (all + [bit])[..k] == all;
    if k < n {
      QuotientUnique(k, 0, n, k);
      BeyondIsClear(all, n, k);
    } else {
      PlaceInside(k, n);
    }
  }

  lemma BeyondIsClear(all: seq<bool>, n: nat, i: nat)
    requires |all| <= i < n
    ensures !Folded(all, n)[i]
  {
    FoldedFits(all, n, i);
  }

  /** Bits that fit, and what is left of bits that did not, are owed as they are. */
  lemma OwedAsItIs(queue: seq<bool>, n: nat)
    requires 0 < n && forall j :: n <= j < |queue| ==> !queue[j]
    ensures Owed(queue, n) == queue
  {
    forall i: nat | i < |queue|
      ensures Owed(queue, n)[i] == queue[i]
    {
      if i < n {
        FoldedIsSomeSet(queue, n, i);
        QuotientUnique(i, 0, n, i);
        if SomeSet(queue, n, i) {
          var j: nat :| j < |queue| && j % n == i && queue[j];
          QuotientUnique(j, 0, n, j);
        }
      }
    }
  }

  /** The bits owed, one by one. */
  lemma OwedBits(all: seq<bool>, n: nat, i: nat)
    requires 0 < n && i < |all|
    ensures Owed(all, n)[i] <==> i < n && SomeSet(all, n, i)
  {
    if i < n {
      FoldedIsSomeSet(all, n, i);
    }
  }

  /** The ring gives back this queue: its places hold the front of it, and behind them there is nothing set. */
  ghost predicate Carries(r: Ring, queue: seq<bool>) {
    && r.Formed() && r.elements == |queue| && r.inAt == r.At(|queue| % |r.bits|)
    && (forall i {:trigger r.At(i)} :: 0 <= i < |r.bits| ==> r.bits[r.At(i)] == (i < |queue| && queue[i]))
    && (forall j :: |r.bits| <= j < |queue| ==> !queue[j])
  }

  /** As long as the queue fits, that is the ring's own notion of holding it. */
  lemma HoldsIsCarries(r: Ring, queue: seq<bool>)
    requires r.Formed()
    ensures r.Holds(queue) <==> Carries(r, queue) && |queue| <= |r.bits|
  {
    var n := |r.bits|;
    if |queue| == n {
      QuotientUnique(n, 1, n, 0);
    } else if |queue| < n {
      QuotientUnique(|queue|, 0, n, |queue|);
    }
  }

  lemma StoreCarries(r: Ring, queue: seq<bool>, bit: bool)
    requires Carries(r, queue) && |queue| < 0xFFFF
    ensures Carries(r.Store(bit), Collect(queue, bit, |r.bits|))
  {
    var s, n, k := r.Store(bit), |r.bits|, |queue|;
    NextPlace(n, k);
    if k < n {
      QuotientUnique(k, 0, n, k);
    } else {
      PlaceInside(k, n);
    }
    forall i: nat | i < n
      ensures s.bits[s.At(i)] == (i < k + 1 && Collect(queue, bit, n)[i])
    {
      assert s.At(i) == r.At(i);
      assert r.At(i) == r.At(k % n) <==> i == k % n;
    }
  }

  lemma GetCarries(r: Ring, queue: seq<bool>)
    requires Carries(r, queue) && queue != []
    ensures r.bits[r.outAt] == queue[0] && Carries(r.Get(), queue[1..])
  {
    var s, n, k := r.Get(), |r.bits|, |queue|;
    NextPlace(n, k - 1);
    assert r.At(0) == r.outAt;
    forall i: nat | i < n
      ensures s.bits[s.At(i)] == (i < k - 1 && queue[1..][i])
    {
      if i + 1 < n {
        assert s.At(i) == r.At(i + 1);
      } else {
        assert s.At(i) == r.At(0);
      }
    }
  }

  lemma StoreKeepsCarrying(r: Ring, queue: seq<bool>, bit: bool)
    requires r.Formed()
    ensures Carries(r, queue) && |queue| < 0xFFFF ==> Carries(r.Store(bit), Collect(queue, bit, |r.bits|))
  {
    if Carries(r, queue) && |queue| < 0xFFFF {
      StoreCarries(r, queue, bit);
    }
  }

  lemma GetKeepsCarrying(r: Ring, queue: seq<bool>)
    requires r.Formed()
    ensures Carries(r, queue) && queue != [] ==> r.bits[r.outAt] == queue[0] && Carries(r.Get(), queue[1..])
  {
    if Carries(r, queue) && queue != [] {
      GetCarries(r, queue);
    }
  }
}
