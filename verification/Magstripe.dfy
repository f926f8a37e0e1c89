/** The magnetic card reader: from the sampled pins, through one bit queue for each track, to key reports. */
module Magstripe {
  import opened Arithmetic
  import opened BitBuffers
  import opened BitOverrun

  const KEY_NONE: nat := 0
  const KEY_1: nat := 30
  const KEY_0: nat := 39
  const KEY_ENTER: nat := 40
  const TOTAL_TRACKS: nat := 3

  /** Which pins carry what. */
  datatype Pins = Pins(cardPresent: bv8, clock: seq<bv8>, data: seq<bv8>) {
    predicate Valid() { |clock| == TOTAL_TRACKS && |data| == TOTAL_TRACKS }

    predicate Present(sample: bv8) { sample & cardPresent != 0 }

    predicate DataLevel(sample: bv8, track: nat)
      requires Valid() && track < TOTAL_TRACKS
    {
      sample & data[track] != 0
    }

    predicate Rising(previous: bv8, sample: bv8, track: nat)
      requires Valid() && track < TOTAL_TRACKS
    {
      sample & clock[track] != 0 && (sample ^ previous) & clock[track] != 0
    }
  }

  // ---- Sampling ----

  /** The pins one sample earlier; the loop starts from all low. */
  function Before(trace: seq<bv8>, i: nat): bv8
    requires i <= |trace|
  {
    if i == 0 then 0 else trace[i - 1]
  }

  /** The bits a track gains from the first `n` samples. */
  function Sampled(pins: Pins, trace: seq<bv8>, track: nat, n: nat): (bits: seq<bool>)
    requires pins.Valid() && track < TOTAL_TRACKS && n <= |trace|
    ensures |bits| <= n
  {
    if n == 0 then []
    else
      Sampled(pins, trace, track, n - 1)
      + (if pins.Rising(Before(trace, n - 1), trace[n - 1], track) then [pins.DataLevel(trace[n - 1], track)] else [])
  }

  /** How many samples see the card. */
  function Duration(pins: Pins, trace: seq<bv8>): (n: nat)
    ensures n <= |trace|
    ensures forall i :: 0 <= i < n ==> pins.Present(trace[i])
    ensures n < |trace| ==> !pins.Present(trace[n])
    decreases |trace|
  {
    if trace == [] || !pins.Present(trace[0]) then 0 else 1 + Duration(pins, trace[1..])
  }

  lemma AtEnd(pins: Pins, trace: seq<bv8>, n: nat)
    requires Duration(pins, trace) < |trace| && n <= Duration(pins, trace)
    ensures n < Duration(pins, trace) <==> pins.Present(trace[n])
  {
  }

  predicate Clock(pins: Pins, trace: seq<bv8>, track: nat, i: nat)
    requires pins.Valid() && track < TOTAL_TRACKS && i < |trace|
  {
    trace[i] & pins.clock[track] != 0
  }

  /** Sample `i` is a rising edge. Before the first sample the clock was low. */
  predicate Edge(pins: Pins, trace: seq<bv8>, track: nat, i: nat)
    requires pins.Valid() && track < TOTAL_TRACKS && i < |trace|
  {
    Clock(pins, trace, track, i) && (i == 0 || !Clock(pins, trace, track, i - 1))
  }

  /** The samples that are rising edges of a clock pin, in order. */
  function Edges(pins: Pins, trace: seq<bv8>, track: nat, n: nat): (edges: seq<nat>)
    requires pins.Valid() && track < TOTAL_TRACKS && n <= |trace|
    ensures forall i :: 0 <= i < |edges| ==> edges[i] < n && Edge(pins, trace, track, edges[i])
    ensures forall e: nat :: e < n && Edge(pins, trace, track, e) ==> e in edges
    ensures forall i, j :: 0 <= i < j < |edges| ==> edges[i] < edges[j]
  {
    if n == 0 then []
    else Edges(pins, trace, track, n - 1) + (if Edge(pins, trace, track, n - 1) then [n - 1] else [])
  }

  predicate OneBit(mask: bv8) { mask != 0 && mask & (mask - 1) == 0 }

  lemma RisesFromLow(mask: bv8, before: bv8, after: bv8)
    requires OneBit(mask)
    ensures after & mask != 0 && (after ^ before) & mask != 0 <==> after & mask != 0 && before & mask == 0
  {
    assert (after ^ before) & mask == (after & mask) ^ (before & mask);
    assert after & mask == 0 || after & mask == mask;
    assert before & mask == 0 || before & mask == mask;
  }

  lemma {:induction false} LevelsAtEdges(pins: Pins, trace: seq<bv8>, track: nat, n: nat)
    requires pins.Valid() && track < TOTAL_TRACKS && n <= |trace| && OneBit(pins.clock[track])
    ensures var bits, edges := Sampled(pins, trace, track, n), Edges(pins, trace, track, n);
            |bits| == |edges| && forall i :: 0 <= i < |bits| ==> bits[i] == pins.DataLevel(trace[edges[i]], track)
    decreases n
  {
    if n > 0 {
      LevelsAtEdges(pins, trace, track, n - 1);
      RisesFromLow(pins.clock[track], Before(trace, n - 1), trace[n - 1]);
    }
  }

  /** A track's bits are the levels of its data pin at the samples whose clock pin is high and was low one sample
      earlier, in order, no more and no fewer. */
  lemma SampledAtEdges(pins: Pins, trace: seq<bv8>, track: nat, n: nat)
    requires pins.Valid() && track < TOTAL_TRACKS && n <= |trace| && OneBit(pins.clock[track])
    ensures var bits, edges := Sampled(pins, trace, track, n), Edges(pins, trace, track, n);
            && |bits| == |edges|
            && (forall i :: 0 <= i < |bits| ==> edges[i] < n && bits[i] == (trace[edges[i]] & pins.data[track] != 0))
            && (forall i, j :: 0 <= i < j < |edges| ==> edges[i] < edges[j])
            && (forall e: nat :: e < n ==>
                  (e in edges <==> trace[e] & pins.clock[track] != 0
                                   && (e == 0 || trace[e - 1] & pins.clock[track] == 0)))
  {
    hide Sampled, Edges;
    LevelsAtEdges(pins, trace, track, n);
    var edges := Edges(pins, trace, track, n);
    forall e: nat | e < n
      ensures e in edges <==> trace[e] & pins.clock[track] != 0 && (e == 0 || trace[e - 1] & pins.clock[track] == 0)
    {
      assert Edge(pins, trace, track, e) <==>
          trace[e] & pins.clock[track] != 0 && (e == 0 || trace[e - 1] & pins.clock[track] == 0);
    }
  }

  // ---- Reports ----

  function BitKeys(bits: seq<bool>): (keys: seq<nat>)
    ensures |keys| == |bits| && forall i :: 0 <= i < |bits| ==> keys[i] == if bits[i] then KEY_1 else KEY_0
  {
    seq(|bits|, i requires 0 <= i < |bits| => if bits[i] then KEY_1 else KEY_0)
  }

  /** The keys that are still to be sent, from track `current` on. */
  function Keys(queues: seq<seq<bool>>, current: nat): (keys: seq<nat>)
    requires current <= |queues|
    decreases |queues| - current
  {
    if current == |queues| then [] else BitKeys(queues[current]) + [KEY_ENTER] + Keys(queues, current + 1)
  }

  /** The reports a host reads: keys and releases alternate, and after the last key there are only releases. */
  function Reports(release: bool, keys: seq<nat>, n: nat): (reports: seq<nat>)
    ensures |reports| == n
    decreases n
  {
    if n == 0 then []
    else if release || keys == [] then [KEY_NONE] + Reports(!release, keys, n - 1)
    else [keys[0]] + Reports(true, keys[1..], n - 1)
  }

  lemma {:induction false} OnlyReleases(release: bool, n: nat, i: nat)
    requires i < n
    ensures Reports(release, [], n)[i] == KEY_NONE
    decreases n
  {
    if i > 0 {
      OnlyReleases(!release, n - 1, i - 1);
    }
  }

  lemma KeyThenRelease(keys: seq<nat>, n: nat)
    requires n > 1 && keys != []
    ensures Reports(false, keys, n) == [keys[0], KEY_NONE] + Reports(false, keys[1..], n - 2)
  {
    assert Reports(true, keys[1..], n - 1) == [KEY_NONE] + Reports(false, keys[1..], n - 2);
    assert Reports(false, keys, n) == [keys[0]] + Reports(true, keys[1..], n - 1);
  }

  /** From a key on, every second report is a release; the others are the keys in order, and then releases too. */
  lemma {:induction false} ReportsAlternate(keys: seq<nat>, n: nat, i: nat, j: nat)
    requires i < n && i == 2 * j
    ensures Reports(false, keys, n)[i] == if j < |keys| then keys[j] else KEY_NONE
    ensures i + 1 < n ==> Reports(false, keys, n)[i + 1] == KEY_NONE
    decreases j
  {
    if keys == [] {
      OnlyReleases(false, n, i);
      if i + 1 < n {
        OnlyReleases(false, n, i + 1);
      }
    } else if j > 0 {
      KeyThenRelease(keys, n);
      ReportsAlternate(keys[1..], n - 2, i - 2, j - 1);
    } else if n > 1 {
      KeyThenRelease(keys, n);
    }
  }

  // ---- The reader ----

  method NewBuffers(size: nat) returns (tracks: seq<BitBuffer>)
    requires 0 < 8 * size < 0x1_0000
    ensures |tracks| == TOTAL_TRACKS && fresh(tracks)
    ensures fresh(tracks[0].data) && fresh(tracks[1].data) && fresh(tracks[2].data)
    ensures forall i, j :: 0 <= i < j < TOTAL_TRACKS ==> tracks[i] != tracks[j] && tracks[i].data != tracks[j].data
    ensures forall t :: 0 <= t < TOTAL_TRACKS ==>
              tracks[t].Valid() && tracks[t].queue == [] && tracks[t].data.Length == size
  {
    hide Unpacked, Mask, Carries;
    var t1 := new BitBuffer(size);
    var t2 := new BitBuffer(size);
    var t3 := new BitBuffer(size);
    tracks := [t1, t2, t3];
  }

  lemma Three(s: seq<BitBuffer>)
    requires |s| == 3
    ensures forall b :: b in s ==> b == s[0] || b == s[1] || b == s[2]
  {
  }

  class Reader {
    const pins: Pins
    const tracks: seq<BitBuffer>
    /** TOTAL_TRACKS when there is nothing to send. */
    var currentTrack: nat
    var isKeyReleaseReport: bool

    ghost function Footprint(): set<object> { (set b | b in tracks :: b as object)
        + (set b | b in tracks :: b.data as object) }

    /** Nothing has been read and nothing is to be sent. */
    constructor (pins: Pins, size: nat)
      requires pins.Valid() && 0 < 8 * size < 0x1_0000
      ensures Valid() && this.pins == pins && currentTrack == TOTAL_TRACKS && !isKeyReleaseReport
      ensures fresh(Footprint())
      ensures forall t :: 0 <= t < TOTAL_TRACKS ==> tracks[t].queue == [] && tracks[t].data.Length == size
    {
      hide BitBuffer.Valid, Sampled;
      this.pins := pins;
      var buffers := NewBuffers(size);
      tracks := buffers;
      currentTrack, isKeyReleaseReport := TOTAL_TRACKS, false;
      new;
      Three(buffers);
    }

    ghost predicate Separate() {
      && pins.Valid() && |tracks| == TOTAL_TRACKS
      && forall i, j :: 0 <= i < j < TOTAL_TRACKS ==> tracks[i] != tracks[j] && tracks[i].data != tracks[j].data
    }

    ghost predicate Valid()
      reads this`currentTrack, tracks, Footprint()
    {
      Separate() && currentTrack <= TOTAL_TRACKS && forall t :: 0 <= t < TOTAL_TRACKS ==> tracks[t].Valid()
    }

    ghost function Queues(): (q: seq<seq<bool>>)
      reads tracks
    {
      seq(|tracks|, t requires 0 <= t < |tracks| reads tracks => tracks[t].queue)
    }

    ghost function Places(t: nat): (n: nat)
      requires t < |tracks|
    {
      8 * tracks[t].data.Length
    }

    ghost function AllPlaces(): (places: seq<nat>)
      requires |tracks| == TOTAL_TRACKS
      ensures |places| == TOTAL_TRACKS
    {
      [Places(0), Places(1), Places(2)]
    }

    /** A track gives back what it held before the swipe and what it gained from the first `n` samples, each place of
        its buffer once. */
    ghost predicate Gained(before: seq<seq<bool>>, trace: seq<bv8>, t: nat, n: nat)
      requires Separate() && t < TOTAL_TRACKS && |before| == TOTAL_TRACKS && n <= |trace|
      reads tracks[t], tracks[t].data
    {
      tracks[t].Valid() && tracks[t].queue == Owed(before[t] + Sampled(pins, trace, t, n), Places(t))
    }

    /** The 16-bit counter does not wrap. */
    ghost predicate Fits(before: seq<seq<bool>>, trace: seq<bv8>, t: nat, n: nat)
      requires Separate() && t < TOTAL_TRACKS && |before| == TOTAL_TRACKS && n <= |trace|
    {
      |before[t]| + |Sampled(pins, trace, t, n)| < 0x1_0000
    }

    ghost predicate AllGained(before: seq<seq<bool>>, trace: seq<bv8>, from: nat, to: nat, n: nat)
      requires Separate() && |before| == TOTAL_TRACKS && to <= TOTAL_TRACKS && n <= |trace|
      reads tracks, Footprint()
    {
      forall t: nat :: from <= t < to ==> Gained(before, trace, t, n)
    }

    ghost predicate AllFit(before: seq<seq<bool>>, trace: seq<bv8>, n: nat)
      requires Separate() && |before| == TOTAL_TRACKS && n <= |trace|
    {
      forall t: nat :: t < TOTAL_TRACKS ==> Fits(before, trace, t, n)
    }

    /** One sample of one track. */
    method SampleTrack(track: nat, lcl: bv8, prev: bv8, ghost before: seq<seq<bool>>, ghost trace: seq<bv8>,
                       ghost n: nat)
      requires Separate() && track < TOTAL_TRACKS && |before| == TOTAL_TRACKS && n < |trace|
      requires lcl == trace[n] && prev == Before(trace, n)
      requires Gained(before, trace, track, n) && Fits(before, trace, track, n + 1)
      modifies tracks[track], tracks[track].data
      ensures Gained(before, trace, track, n + 1)
    {
      OneSampleMore(pins, before[track], tracks[track].queue, trace, track, n, Places(track));
      var rising, dataPinLevel := Sense(pins, lcl, prev, track);
      if rising {
        Store(tracks[track], dataPinLevel);
      }
    }

    /** One sample of every track. */
    method SampleTracks(lcl: bv8, prev: bv8, ghost before: seq<seq<bool>>, ghost trace: seq<bv8>, ghost n: nat,
                        ghost m: nat)
      requires Separate() && |before| == TOTAL_TRACKS && n < |trace| && m == n + 1 && lcl == trace[n]
      requires prev == Before(trace, n)
      requires AllGained(before, trace, 0, TOTAL_TRACKS, n) && AllFit(before, trace, m)
      modifies Footprint()
      ensures AllGained(before, trace, 0, TOTAL_TRACKS, m)
    {
      hide Gained, Fits;
      for track: nat := 0 to TOTAL_TRACKS
        invariant AllGained(before, trace, 0, track, m) && AllGained(before, trace, track, TOTAL_TRACKS, n)
      {
        assert Gained(before, trace, track, n) && Fits(before, trace, track, m);
        assert tracks[track] in tracks;
        SampleTrack(track, lcl, prev, before, trace, n);
      }
    }

    /** ReadMagstripeData: the samples are taken until one of them sees no card. */
    method ReadMagstripeData(trace: seq<bv8>) returns (n: nat)
      requires Valid() && Duration(pins, trace) < |trace| && AllFit(Queues(), trace, Duration(pins, trace))
      modifies this`currentTrack, Footprint()
      ensures Valid() && currentTrack == 0 && n == Duration(pins, trace)
      ensures AllGained(old(Queues()), trace, 0, TOTAL_TRACKS, n)
    {
      ghost var before := Queues();
      NothingSampled(this, before, trace);
      n := SampleWhilePresent(trace, before);
      currentTrack := 0;
      GainedIsValid(this, before, trace, n);
    }

    method SampleWhilePresent(trace: seq<bv8>, ghost before: seq<seq<bool>>) returns (n: nat)
      requires Separate() && |before| == TOTAL_TRACKS && Duration(pins, trace) < |trace|
      requires AllFit(before, trace, Duration(pins, trace)) && AllGained(before, trace, 0, TOTAL_TRACKS, 0)
      modifies Footprint()
      ensures n == Duration(pins, trace) && AllGained(before, trace, 0, TOTAL_TRACKS, n)
    {
      ghost var end := Duration(pins, trace);
      n := 0;
      var prev: bv8, lcl := 0, trace[0];
      AtEnd(pins, trace, 0);
      while pins.Present(lcl)
        invariant n <= end && (n < end <==> pins.Present(trace[n])) && lcl == trace[n] && prev == Before(trace, n)
        invariant AllGained(before, trace, 0, TOTAL_TRACKS, n)
        decreases |trace| - n
      {
        FitsBefore(this, before, trace, n + 1, end);
        SampleTracks(lcl, prev, before, trace, n, n + 1);
        n := n + 1;
        AtEnd(pins, trace, n);
        prev, lcl := lcl, trace[n];
      }
    }

    /** The keys that are still to be sent. */
    ghost function Pending(): seq<nat>
      requires currentTrack <= |tracks|
      reads this`currentTrack, tracks
    {
      Keys(Queues(), currentTrack)
    }

    /** CreateHIDReport: the next key, unless it is a release's turn or there is nothing to send. */
    method CreateHIDReport() returns (key: nat)
      requires Valid()
      modifies this`currentTrack, this`isKeyReleaseReport, Footprint()
      ensures Valid() && isKeyReleaseReport == !old(isKeyReleaseReport)
      ensures var keys := old(Pending());
              if isKeyReleaseReport || keys == [] then key == KEY_NONE && Pending() == keys
              else IsNext(keys, key, Pending())
    {
      isKeyReleaseReport := !isKeyReleaseReport;
      if isKeyReleaseReport || currentTrack == TOTAL_TRACKS {
        key := KEY_NONE;
      } else {
        key := NextKey();
      }
    }

    method NextKey() returns (key: nat)
      requires Valid() && currentTrack < TOTAL_TRACKS
      modifies this`currentTrack, Footprint()
      ensures Valid() && IsNext(old(Pending()), key, Pending()) && isKeyReleaseReport == old(isKeyReleaseReport)
    {
      hide Unpacked, Carries;
      assert Queues()[currentTrack] == tracks[currentTrack].queue;
      var empty := IsEmpty(tracks[currentTrack]);
      if empty {
        TrackEnds(Queues(), currentTrack);
        key := KEY_ENTER;
        currentTrack := currentTrack + 1;
      } else {
        key := NextBit();
      }
    }

    method NextBit() returns (key: nat)
      requires Valid() && currentTrack < TOTAL_TRACKS && tracks[currentTrack].queue != []
      modifies Footprint()
      ensures Valid() && IsNext(old(Pending()), key, Pending()) && isKeyReleaseReport == old(isKeyReleaseReport)
    {
      ghost var before := Queues();
      assert tracks[currentTrack] in tracks;
      var bit := Retrieve(tracks[currentTrack]);
      key := if bit then KEY_1 else KEY_0;
      forall t | 0 <= t < TOTAL_TRACKS
        ensures tracks[t].Valid() && (t != currentTrack ==> Queues()[t] == before[t])
      {
      }
      TrackGoesOn(before, Queues(), currentTrack);
    }

    /** What the host reads in `n` reports. */
    method SendReports(n: nat) returns (reports: seq<nat>)
      requires Valid()
      modifies this`currentTrack, this`isKeyReleaseReport, Footprint()
      ensures Valid() && reports == Reports(!old(isKeyReleaseReport), old(Pending()), n)
    {
      ghost var all, left := Reports(!isKeyReleaseReport, Pending(), n), n;
      reports := [];
      for i := 0 to n
        invariant Valid() && left == n - i && all == reports + Reports(!isKeyReleaseReport, Pending(), left)
      {
        ghost var release, keys, fewer := !isKeyReleaseReport, Pending(), left - 1;
        var key := CreateHIDReport();
        NextReport(release, keys, left, fewer);
        Regroup(reports, [key], Reports(!isKeyReleaseReport, Pending(), fewer));
        reports, left := reports + [key], fewer;
      }
      NoMoreReports(reports, !isKeyReleaseReport, Pending());
    }

    /** A card is swiped and its tracks are typed, each behind what was still to be sent of it. A track of any length is
        read, as far as the counter goes; one that overruns its buffer is typed as `Owed` says. */
    method Swipe(trace: seq<bv8>, n: nat) returns (reports: seq<nat>)
      requires Valid() && Duration(pins, trace) < |trace| && AllFit(Queues(), trace, Duration(pins, trace))
      modifies this`currentTrack, this`isKeyReleaseReport, Footprint()
      ensures Valid()
      ensures reports == Reports(!old(isKeyReleaseReport),
          CardKeys(pins, AllPlaces(), old(Queues()), trace, Duration(pins, trace)), n)
    {
      hide CardKeys, Keys, Reports, BitBuffer.Valid;
      ghost var before := Queues();
      var d := ReadMagstripeData(trace);
      SwipedKeys(this, before, trace, d);
      reports := SendReports(n);
    }
  }

  lemma NothingSampled(r: Reader, before: seq<seq<bool>>, trace: seq<bv8>)
    requires r.Valid() && before == r.Queues()
    ensures r.AllGained(before, trace, 0, TOTAL_TRACKS, 0)
  {
    forall t: nat | t < TOTAL_TRACKS
      ensures r.Gained(before, trace, t, 0)
    {
      assert before[t] + [] == before[t];
      OwedAsItIs(r.tracks[t].queue, r.Places(t));
    }
  }

  lemma GainedIsValid(r: Reader, before: seq<seq<bool>>, trace: seq<bv8>, n: nat)
    requires r.Separate() && |before| == TOTAL_TRACKS && n <= |trace| && r.currentTrack <= TOTAL_TRACKS
    requires r.AllGained(before, trace, 0, TOTAL_TRACKS, n)
    ensures r.Valid()
  {
    forall t: nat | t < TOTAL_TRACKS
      ensures r.tracks[t].Valid()
    {
      assert r.Gained(before, trace, t, n);
    }
  }

  lemma FitsBefore(r: Reader, before: seq<seq<bool>>, trace: seq<bv8>, n: nat, end: nat)
    requires r.Separate() && |before| == TOTAL_TRACKS && n <= end <= |trace| && r.AllFit(before, trace, end)
    ensures r.AllFit(before, trace, n)
  {
    forall t: nat | t < TOTAL_TRACKS
      ensures r.Fits(before, trace, t, n)
    {
      assert r.Fits(before, trace, t, end);
      SampledGrows(r.pins, trace, t, n, end);
    }
  }

  method Sense(pins: Pins, lcl: bv8, prev: bv8, track: nat) returns (rising: bool, dataPinLevel: bool)
    requires pins.Valid() && track < TOTAL_TRACKS
    ensures rising == pins.Rising(prev, lcl, track) && dataPinLevel == pins.DataLevel(lcl, track)
  {
    dataPinLevel := lcl & pins.data[track] != 0;
    var clockPinLevel := lcl & pins.clock[track] != 0;
    var clockLevelChanged := (lcl ^ prev) & pins.clock[track] != 0;
    rising := clockPinLevel && clockLevelChanged;
  }

  /** What each track gives back in turn, each track ended by Enter. `places` says how many bits each buffer holds. */
  function CardKeys(pins: Pins, places: seq<nat>, before: seq<seq<bool>>, trace: seq<bv8>, n: nat): seq<nat>
    requires pins.Valid() && |before| == TOTAL_TRACKS == |places| && n <= |trace|
    requires 0 < places[0] && 0 < places[1] && 0 < places[2]
  {
    BitKeys(Owed(before[0] + Sampled(pins, trace, 0, n), places[0])) + [KEY_ENTER]
    + BitKeys(Owed(before[1] + Sampled(pins, trace, 1, n), places[1])) + [KEY_ENTER]
    + BitKeys(Owed(before[2] + Sampled(pins, trace, 2, n), places[2])) + [KEY_ENTER]
  }

  /** Of tracks that fit into their buffers, those are the bits themselves. */
  lemma CardThatFits(pins: Pins, places: seq<nat>, before: seq<seq<bool>>, trace: seq<bv8>, n: nat)
    requires pins.Valid() && |before| == TOTAL_TRACKS == |places| && n <= |trace|
    requires forall t :: 0 <= t < TOTAL_TRACKS ==>
               0 < places[t] && |before[t] + Sampled(pins, trace, t, n)| <= places[t]
    ensures CardKeys(pins, places, before, trace, n) ==
            BitKeys(before[0] + Sampled(pins, trace, 0, n)) + [KEY_ENTER]
            + BitKeys(before[1] + Sampled(pins, trace, 1, n)) + [KEY_ENTER]
            + BitKeys(before[2] + Sampled(pins, trace, 2, n)) + [KEY_ENTER]
  {
    OwedAsItIs(before[0] + Sampled(pins, trace, 0, n), places[0]);
    OwedAsItIs(before[1] + Sampled(pins, trace, 1, n), places[1]);
    OwedAsItIs(before[2] + Sampled(pins, trace, 2, n), places[2]);
  }

  lemma SwipedKeys(r: Reader, before: seq<seq<bool>>, trace: seq<bv8>, n: nat)
    requires r.Valid() && r.currentTrack == 0 && |before| == TOTAL_TRACKS && n <= |trace|
    requires r.AllGained(before, trace, 0, TOTAL_TRACKS, n)
    ensures r.Pending() == CardKeys(r.pins, r.AllPlaces(), before, trace, n)
  {
    var q := r.Queues();
    forall t: nat | t < TOTAL_TRACKS
      ensures q[t] == Owed(before[t] + Sampled(r.pins, trace, t, n), r.AllPlaces()[t])
    {
      assert r.Gained(before, trace, t, n);
    }
    ThreeTracks(q);
  }

  lemma ThreeTracks(q: seq<seq<bool>>)
    requires |q| == 3
    ensures Keys(q, 0) == BitKeys(q[0]) + [KEY_ENTER] + BitKeys(q[1]) + [KEY_ENTER] + BitKeys(q[2]) + [KEY_ENTER]
  {
    assert Keys(q, 2) == BitKeys(q[2]) + [KEY_ENTER] + Keys(q, 3);
    assert Keys(q, 1) == BitKeys(q[1]) + [KEY_ENTER] + Keys(q, 2);
  }

  lemma {:induction false} LaterTracks(q: seq<seq<bool>>, r: seq<seq<bool>>, track: nat)
    requires track <= |q| == |r| && forall t :: track <= t < |q| ==> q[t] == r[t]
    ensures Keys(q, track) == Keys(r, track)
    decreases |q| - track
  {
    if track < |q| {
      LaterTracks(q, r, track + 1);
    }
  }

  /** The first key, and the ones behind it. */
  predicate IsNext(keys: seq<nat>, key: nat, rest: seq<nat>) { keys != [] && key == keys[0] && rest == keys[1..] }

  lemma TrackEnds(q: seq<seq<bool>>, track: nat)
    requires track < |q| && q[track] == []
    ensures IsNext(Keys(q, track), KEY_ENTER, Keys(q, track + 1))
  {
    assert BitKeys([]) == [];
  }

  lemma TrackGoesOn(q: seq<seq<bool>>, r: seq<seq<bool>>, track: nat)
    requires track < |q| == |r| && q[track] != [] && r[track] == q[track][1..]
    requires forall t :: track < t < |q| ==> q[t] == r[t]
    ensures IsNext(Keys(q, track), if q[track][0] then KEY_1 else KEY_0, Keys(r, track))
  {
    LaterTracks(q, r, track + 1);
    FirstBit(q[track], if q[track][0] then KEY_1 else KEY_0, Keys(q, track + 1));
  }

  lemma FirstBit(bits: seq<bool>, key: nat, later: seq<nat>)
    requires bits != [] && key == if bits[0] then KEY_1 else KEY_0
    ensures IsNext(BitKeys(bits) + [KEY_ENTER] + later, key, BitKeys(bits[1..]) + [KEY_ENTER] + later)
  {
    assert BitKeys(bits) == [key] + BitKeys(bits[1..]);
  }

  lemma NextReport(release: bool, keys: seq<nat>, n: nat, fewer: nat)
    requires n == fewer + 1
    ensures Reports(release, keys, n) ==
            if release || keys == [] then [KEY_NONE] + Reports(!release, keys, fewer)
            else [keys[0]] + Reports(true, keys[1..], fewer)
  {
  }

  lemma NoMoreReports(reports: seq<nat>, release: bool, keys: seq<nat>)
    ensures reports + Reports(release, keys, 0) == reports
  {
  }

  method IsEmpty(b: BitBuffer) returns (empty: bool)
    requires b.Valid()
    ensures empty <==> b.queue == []
  {
    empty := b.elements == 0;
  }

  method Retrieve(b: BitBuffer) returns (bit: bool)
    requires b.Valid() && b.queue != []
    modifies b, b.data
    ensures b.Valid() && bit == old(b.queue)[0] && b.queue == old(b.queue)[1..]
  {
    bit := b.GetNextBit();
  }

  method Store(b: BitBuffer, bit: bool)
    requires b.Valid() && |b.queue| < 0xFFFF
    modifies b, b.data
    ensures b.Valid() && b.queue == Collect(old(b.queue), bit, 8 * b.data.Length)
  {
    b.StoreNextBit(bit);
  }

  lemma OneSampleMore(pins: Pins, before: seq<bool>, queue: seq<bool>, trace: seq<bv8>, track: nat, n: nat, places: nat)
    requires pins.Valid() && track < TOTAL_TRACKS && n < |trace| && places > 0
    requires queue == Owed(before + Sampled(pins, trace, track, n), places)
    ensures var all := Sampled(pins, trace, track, n + 1);
            if pins.Rising(Before(trace, n), trace[n], track)
            then Collect(queue, pins.DataLevel(trace[n], track), places) == Owed(before + all, places)
                 && |queue| + 1 == |before| + |all|
            else queue == Owed(before + all, places)
  {
    var so := before + Sampled(pins, trace, track, n);
    var level := pins.DataLevel(trace[n], track);
    OwedGrows(so, level, places);
    if pins.Rising(Before(trace, n), trace[n], track) {
      assert so + [level] == before + Sampled(pins, trace, track, n + 1);
    } else {
      assert before + Sampled(pins, trace, track, n + 1) == so;
    }
  }

  lemma {:induction false} SampledGrows(pins: Pins, trace: seq<bv8>, track: nat, n: nat, m: nat)
    requires pins.Valid() && track < TOTAL_TRACKS && n <= m <= |trace|
    ensures |Sampled(pins, trace, track, n)| <= |Sampled(pins, trace, track, m)|
    decreases m
  {
    if n < m {
      SampledGrows(pins, trace, track, n, m - 1);
    }
  }
}
