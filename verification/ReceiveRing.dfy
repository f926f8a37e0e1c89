/** The ring buffer between the receive interrupt and the main loop. The interrupt inserts without testing for room, and
    the main loop cannot interrupt it; it comes between any two steps of the main loop. */
module ReceiveRing {
  import opened ByteMemory
  import opened RingBuffer

  /** A byte arrives, or the main loop takes a step of its own. */
  datatype Event = Receive(data: byte) | Main(step: Step)

  predicate Removes(step: Step) {
    step.CacheCount? || step.StopEarly? || step.LoadByte? || step.AdvanceOut? || step.WrapOut? || step.DropCount?
  }

  function Act(s: State, e: Event): State {
    match e
    case Receive(b) => s.(cells := s.cells.Insert(b), inserted := s.inserted + [b])
    case Main(step) => if Removes(step) then Do(s, step) else s
  }

  function After(s: State, events: seq<Event>): State {
    if events == [] then s else Act(After(s, events[..|events| - 1]), events[|events| - 1])
  }

  /** One while the main loop has read a byte that it still counts. */
  function Held(s: State): nat { if s.rem.Resting? || s.rem.Draining? then 0 else 1 }

  /** Is there a slot whose byte nobody waits for? The one-byte count tells, and whether the main loop holds a byte. */
  predicate Room(n: nat, s: State) { s.cells.count != (n + Held(s)) % 256 }

  // ---- First in, first out ----

  ghost predicate MainOk(n: nat, s: State)
    requires 0 < n
  {
    var k, unread := |s.removed|, |s.inserted| - |s.removed|;
    match s.rem
    case Resting => s.cells.out == Slot(n, k)
    case Draining(left) => s.cells.out == Slot(n, k) && left <= unread
    case Loaded(left, b) => s.cells.out == Slot(n, k) && left < unread && Holds(s, b)
    case OutAdvanced(left, b) => s.cells.out == Slot(n, k) + 1 && left < unread && Holds(s, b)
    case OutWrapped(left, b) => s.cells.out == Slot(n, k + 1) && left < unread && Holds(s, b)
  }

  /** Every byte from the first one not yet read is still in its slot. */
  ghost predicate WaitingIntact(n: nat, s: State)
    requires 0 < n == |s.cells.buf|
  {
    forall k :: |s.removed| + Held(s) <= k < |s.inserted| ==> s.cells.buf[Slot(n, k)] == s.inserted[k]
  }

  /** The bytes taken out are the first ones that came in, each byte that is waiting has a slot of its own and is in it,
      and the count is right modulo its width. */
  ghost predicate InOrder(n: nat, s: State) {
    && 1 <= n <= 255 && |s.cells.buf| == n && s.removed <= s.inserted
    && |s.removed| + Held(s) <= |s.inserted| <= |s.removed| + Held(s) + n
    && s.cells.count == (|s.inserted| - |s.removed|) % 256
    && WaitingIntact(n, s) && s.cells.inp == Slot(n, |s.inserted|) && MainOk(n, s)
  }

  lemma CountUp(unread: nat)
    ensures (unread % 256 + 1) % 256 == (unread + 1) % 256
  {
  }

  lemma CountDown(unread: nat)
    requires unread > 0
    ensures (unread % 256 + 255) % 256 == (unread - 1) % 256
  {
  }

  lemma RoomIsASlot(n: nat, held: nat, unread: nat)
    requires 1 <= n <= 255 && held <= 1 && held <= unread <= held + n
    ensures unread % 256 != (n + held) % 256 <==> unread < held + n
  {
  }

  /** An insert keeps the order exactly when there is room. */
  lemma ReceiveStep(n: nat, s: State, b: byte)
    requires InOrder(n, s)
    ensures InOrder(n, Act(s, Receive(b))) <==> Room(n, s)
  {
    hide Slot, MainOk;
    var k, t := |s.inserted|, Act(s, Receive(b));
    RoomIsASlot(n, Held(s), k - |s.removed|);
    if Room(n, s) {
      NextSlot(n, k);
      CountUp(k - |s.removed|);
      forall j | |s.removed| + Held(s) <= j < k
        ensures t.cells.buf[Slot(n, j)] == t.inserted[j]
      {
        DistinctSlots(n, j, k);
      }
      StillOk(n, s, b);
    }
  }

  lemma StillOk(n: nat, s: State, b: byte)
    requires 0 < n && s.removed <= s.inserted && MainOk(n, s)
    ensures MainOk(n, Act(s, Receive(b)))
  {
  }

  /** No step of the main loop spoils it. */
  lemma MainStep(n: nat, s: State, step: Step)
    requires InOrder(n, s) && Removes(step)
    ensures InOrder(n, Do(s, step))
  {
    hide Slot;
    NextSlot(n, |s.removed|);
    if s.rem.OutWrapped? {
      CountDown(|s.inserted| - |s.removed|);
    }
  }

  ghost predicate OrderKept(n: nat, s: State, events: seq<Event>) {
    forall p :: 0 <= p <= |events| ==> InOrder(n, After(s, events[..p]))
  }

  ghost predicate AlwaysRoom(n: nat, s: State, events: seq<Event>) {
    forall p :: 0 <= p < |events| && events[p].Receive? ==> Room(n, After(s, events[..p]))
  }

  lemma OneEventLess(n: nat, s: State, events: seq<Event>, m: nat)
    requires |events| == m + 1
    ensures OrderKept(n, s, events) <==> OrderKept(n, s, events[..m]) && InOrder(n, After(s, events))
    ensures AlwaysRoom(n, s, events) <==>
            AlwaysRoom(n, s, events[..m]) && (events[m].Receive? ==> Room(n, After(s, events[..m])))
  {
    hide InOrder, Room, After;
    assert forall p :: 0 <= p <= m ==> events[..m][..p] == events[..p];
    assert events[..m + 1] == events;
    if OrderKept(n, s, events) {
      forall p | 0 <= p <= m
        ensures InOrder(n, After(s, events[..m][..p]))
      {
        assert InOrder(n, After(s, events[..p]));
      }
    }
    if OrderKept(n, s, events[..m]) && InOrder(n, After(s, events)) {
      forall p | 0 <= p <= m + 1
        ensures InOrder(n, After(s, events[..p]))
      {
        assert p <= m ==> InOrder(n, After(s, events[..m][..p]));
      }
    }
    RoomOneLess(n, s, events, m);
  }

  lemma RoomOneLess(n: nat, s: State, events: seq<Event>, m: nat)
    requires |events| == m + 1
    ensures AlwaysRoom(n, s, events) <==>
            AlwaysRoom(n, s, events[..m]) && (events[m].Receive? ==> Room(n, After(s, events[..m])))
  {
    hide Room, After;
    forall p | 0 <= p < m
      ensures events[..m][p] == events[p] && events[..m][..p] == events[..p]
    {
    }
  }

  /** In every run, the order is kept throughout if and only if no byte comes in when there is no room. */
  lemma {:induction false} InOrderExactly(n: nat, s: State, events: seq<Event>)
    requires Initial(n, s)
    ensures OrderKept(n, s, events) <==> AlwaysRoom(n, s, events)
    ensures OrderKept(n, s, events) ==> InOrder(n, After(s, events))
  {
    if events == [] {
      FirstSlot(n);
    } else {
      hide InOrder, Room, OrderKept, AlwaysRoom;
      var m := |events| - 1;
      InOrderExactly(n, s, events[..m]);
      OneEventLess(n, s, events, m);
      if InOrder(n, After(s, events[..m])) {
        OneEventMore(n, After(s, events[..m]), events[m]);
      }
    }
  }

  lemma OneEventMore(n: nat, s: State, e: Event)
    requires InOrder(n, s)
    ensures InOrder(n, Act(s, e)) <==> (e.Receive? ==> Room(n, s))
  {
    hide InOrder, Room;
    match e
    case Receive(b) => ReceiveStep(n, s, b);
    case Main(step) =>
      if Removes(step) {
        MainStep(n, s, step);
      }
  }

  // ---- What the host gets after an insert without room ----

  /** Steps of the main loop alone, with no byte coming in. */
  predicate Quiet(events: seq<Event>) { forall i :: 0 <= i < |events| ==> events[i].Main? }

  /** Whatever the main loop does next, what it delivers are the bytes that came in, in order. */
  ghost predicate DeliversInOrder(s: State) {
    forall events: seq<Event> :: Quiet(events) ==> After(s, events).removed <= s.inserted
  }

  /** As `InOrder`, with any number of bytes waiting. */
  ghost predicate Intact(n: nat, s: State) {
    && 1 <= n <= 255 && |s.cells.buf| == n && s.removed <= s.inserted
    && |s.removed| + Held(s) <= |s.inserted|
    && s.cells.count == (|s.inserted| - |s.removed|) % 256
    && WaitingIntact(n, s) && MainOk(n, s)
  }

  /** How many bytes the main loop still means to take before it looks at the count again. */
  function Planned(s: State): nat { if s.rem.Resting? then 0 else s.rem.left }

  /** With 255 places one byte too many makes the count zero. A main loop that has nothing planned then finds nothing to
      take. */
  ghost predicate Stuck(n: nat, s: State) {
    && n == 255 && s.removed <= s.inserted && Planned(s) == 0 && s.cells.count == Held(s)
    && (s.rem.Loaded? || s.rem.OutAdvanced? || s.rem.OutWrapped? ==> Holds(s, s.rem.data))
  }

  lemma IntactStep(n: nat, s: State, step: Step)
    requires Intact(n, s) && Removes(step)
    ensures Intact(n, Do(s, step)) && Do(s, step).inserted == s.inserted
  {
    hide Slot;
    NextSlot(n, |s.removed|);
    if s.rem.OutWrapped? {
      CountDown(|s.inserted| - |s.removed|);
    }
  }

  lemma {:induction false} StaysIntact(n: nat, s: State, events: seq<Event>)
    requires Intact(n, s) && Quiet(events)
    ensures Intact(n, After(s, events)) && After(s, events).inserted == s.inserted
  {
    if events != [] {
      hide Intact;
      var m := |events| - 1;
      StaysIntact(n, s, events[..m]);
      assert events[m].Main?;
      if Removes(events[m].step) {
        IntactStep(n, After(s, events[..m]), events[m].step);
      }
    }
  }

  lemma {:induction false} StaysStuck(n: nat, s: State, events: seq<Event>)
    requires Stuck(n, s) && Quiet(events)
    ensures Stuck(n, After(s, events)) && After(s, events).inserted == s.inserted
  {
    if events != [] {
      var m := |events| - 1;
      StaysStuck(n, s, events[..m]);
      assert events[m].Main?;
    }
  }

  /** The byte that the next insert replaces, when there is no room: the oldest one that waits. */
  function Oldest(s: State): byte
    requires |s.removed| + Held(s) < |s.inserted|
  {
    s.inserted[|s.removed| + Held(s)]
  }

  lemma FullMeansWaiting(n: nat, s: State)
    requires InOrder(n, s) && !Room(n, s)
    ensures |s.inserted| == |s.removed| + Held(s) + n
  {
    RoomIsASlot(n, Held(s), |s.inserted| - |s.removed|);
  }

  /** An insert without room puts its byte into the slot of the oldest one that waits. */
  lemma Replaced(n: nat, s: State, b: byte)
    requires InOrder(n, s) && !Room(n, s)
    ensures |s.inserted| == |s.removed| + Held(s) + n
    ensures var t := Act(s, Receive(b));
            && t.cells.buf == s.cells.buf[Slot(n, |s.removed| + Held(s)) := b]
            && t.cells.count == (|t.inserted| - |t.removed|) % 256 && MainOk(n, t) && |t.cells.buf| == n
            && t.rem == s.rem && t.removed == s.removed && t.inserted == s.inserted + [b] && t.cells.out == s.cells.out
  {
    hide MainOk;
    FullMeansWaiting(n, s);
    SlotRepeats(n, |s.removed| + Held(s));
    CountUp(|s.inserted| - |s.removed|);
    StillOk(n, s, b);
  }

  /** If it is the same byte, everything is still there. */
  lemma SameByteIntact(n: nat, s: State, b: byte)
    requires InOrder(n, s) && !Room(n, s)
    ensures |s.removed| + Held(s) < |s.inserted|
    ensures b == Oldest(s) ==> Intact(n, Act(s, Receive(b)))
  {
    hide MainOk, Slot;
    Replaced(n, s, b);
    if b == Oldest(s) {
      var t := Act(s, Receive(b));
      SlotRepeats(n, |s.removed| + Held(s));
      forall k | |t.removed| + Held(t) <= k < |t.inserted|
        ensures t.cells.buf[Slot(n, k)] == t.inserted[k]
      {
      }
    }
  }

  // ---- A continuation that delivers the wrong byte ----

  lemma {:induction false} AfterBoth(s: State, a: seq<Event>, b: seq<Event>)
    ensures After(s, a + b) == After(After(s, a), b)
  {
    if b == [] {
      assert a + [] == a;
    } else {
      var m := |b| - 1;
      AfterBoth(s, a, b[..m]);
      assert (a + b)[..|a + b| - 1] == a + b[..m];
    }
  }

  lemma AfterOne(s: State, step: Step)
    requires Removes(step)
    ensures After(s, [Main(step)]) == Do(s, step)
  {
    assert After(s, []) == s;
  }

  /** As `Intact`, whatever the bytes that wait are. */
  ghost predicate Placed(n: nat, s: State) {
    && 1 <= n <= 255 && |s.cells.buf| == n && s.removed <= s.inserted
    && |s.removed| + Held(s) <= |s.inserted|
    && s.cells.count == (|s.inserted| - |s.removed|) % 256 && MainOk(n, s)
  }

  lemma PlacedStep(n: nat, s: State, step: Step)
    requires Placed(n, s) && Removes(step) && !step.LoadByte?
    ensures Placed(n, Do(s, step)) && Do(s, step).inserted == s.inserted && Do(s, step).cells.buf == s.cells.buf
    ensures |Do(s, step).removed| + Held(Do(s, step)) == |s.removed| + Held(s)
  {
    hide Slot;
    NextSlot(n, |s.removed|);
    if s.rem.OutWrapped? {
      CountDown(|s.inserted| - |s.removed|);
    }
  }

  /** The main loop gives away the byte it holds. */
  lemma HandsOver(n: nat, s: State) returns (events: seq<Event>)
    requires Placed(n, s)
    ensures Quiet(events)
    ensures var t := After(s, events);
            && Placed(n, t) && t.inserted == s.inserted && t.cells.buf == s.cells.buf && Held(t) == 0
            && |t.removed| == |s.removed| + Held(s) && Planned(t) == Planned(s)
            && t == Do(Do(Do(s, AdvanceOut), WrapOut), DropCount)
  {
    hide Placed;
    events := [Main(AdvanceOut)] + ([Main(WrapOut)] + [Main(DropCount)]);
    var a, b := Do(s, AdvanceOut), Do(Do(s, AdvanceOut), WrapOut);
    PlacedStep(n, s, AdvanceOut);
    PlacedStep(n, a, WrapOut);
    PlacedStep(n, b, DropCount);
    AfterOne(s, AdvanceOut);
    AfterOne(a, WrapOut);
    AfterOne(b, DropCount);
    AfterBoth(a, [Main(WrapOut)], [Main(DropCount)]);
    AfterBoth(s, [Main(AdvanceOut)], [Main(WrapOut)] + [Main(DropCount)]);
  }

  /** It looks at the count. */
  lemma LooksAgain(n: nat, s: State) returns (events: seq<Event>)
    requires Placed(n, s) && Held(s) == 0
    ensures Quiet(events)
    ensures var t := After(s, events);
            && Placed(n, t) && t.inserted == s.inserted && t.cells.buf == s.cells.buf && t.removed == s.removed
            && t.rem == Draining(s.cells.count)
  {
    events := [Main(StopEarly)] + [Main(CacheCount)];
    PlacedStep(n, s, StopEarly);
    PlacedStep(n, Do(s, StopEarly), CacheCount);
    AfterOne(s, StopEarly);
    AfterOne(Do(s, StopEarly), CacheCount);
    AfterBoth(s, [Main(StopEarly)], [Main(CacheCount)]);
  }

  /** It takes the byte that lies where the oldest one should be. */
  lemma TakesNext(n: nat, s: State) returns (events: seq<Event>)
    requires Placed(n, s) && s.rem.Draining? && s.rem.left > 0
    ensures Quiet(events) && After(s, events).removed == s.removed + [s.cells.buf[Slot(n, |s.removed|)]]
  {
    var t := Do(s, LoadByte);
    var a, b := Do(t, AdvanceOut), Do(Do(t, AdvanceOut), WrapOut);
    events := [Main(LoadByte)] + ([Main(AdvanceOut)] + ([Main(WrapOut)] + [Main(DropCount)]));
    AfterOne(s, LoadByte);
    AfterOne(t, AdvanceOut);
    AfterOne(a, WrapOut);
    AfterOne(b, DropCount);
    AfterBoth(a, [Main(WrapOut)], [Main(DropCount)]);
    AfterBoth(t, [Main(AdvanceOut)], [Main(WrapOut)] + [Main(DropCount)]);
    AfterBoth(s, [Main(LoadByte)], [Main(AdvanceOut)] + ([Main(WrapOut)] + [Main(DropCount)]));
  }

  /** Does the main loop take another byte before a next one comes in? With 255 places the count is zero then, and it
      does so only if it had more planned. */
  predicate TakesMore(n: nat, s: State) { n < 255 || Planned(s) > 0 }

  lemma TakesWhatLiesThere(n: nat, s: State) returns (events: seq<Event>)
    requires Placed(n, s) && TakesMore(n, s) && |s.inserted| == |s.removed| + Held(s) + n + 1
    ensures Quiet(events)
    ensures var t := After(s, events);
            && |t.removed| == |s.removed| + Held(s) + 1
            && t.removed[|s.removed| + Held(s)] == s.cells.buf[Slot(n, |s.removed| + Held(s))]
  {
    hide Placed, Slot;
    events := HandsOver(n, s);
    var t := After(s, events);
    if Planned(t) == 0 {
      CountOfPlaced(n, t);
      var more := LooksAgain(n, t);
      AfterBoth(s, events, more);
      events := events + more;
      t := After(s, events);
    }
    var last := TakesNext(n, t);
    AfterBoth(s, events, last);
    events := events + last;
  }

  lemma CountOfPlaced(n: nat, s: State)
    requires Placed(n, s) && n < 255 && |s.inserted| == |s.removed| + n + 1
    ensures s.cells.count == n + 1
  {
  }

  /** After an insert without room, the main loop delivers the bytes in order, whatever it does until the next byte
      comes in, if and only if the byte equals the one it replaced or no more is taken. */
  lemma AfterInsertWithoutRoom(n: nat, s: State, b: byte)
    requires InOrder(n, s) && !Room(n, s)
    ensures |s.removed| + Held(s) < |s.inserted|
    ensures DeliversInOrder(Act(s, Receive(b))) <==> b == Oldest(s) || !TakesMore(n, s)
  {
    var t := Act(s, Receive(b));
    Replaced(n, s, b);
    SameByteIntact(n, s, b);
    if b == Oldest(s) {
      forall events: seq<Event> | Quiet(events)
        ensures After(t, events).removed <= t.inserted
      {
        StaysIntact(n, t, events);
      }
    } else if !TakesMore(n, s) {
      WrappedIsStuck(n, s, b);
      forall events: seq<Event> | Quiet(events)
        ensures After(t, events).removed <= t.inserted
      {
        StaysStuck(n, t, events);
      }
    } else {
      var events := TakesWhatLiesThere(n, t);
      assert t.inserted[|s.removed| + Held(s)] == Oldest(s) != b;
    }
  }

  lemma WrappedIsStuck(n: nat, s: State, b: byte)
    requires InOrder(n, s) && !Room(n, s) && !TakesMore(n, s)
    ensures Stuck(n, Act(s, Receive(b)))
  {
    hide Slot;
    Replaced(n, s, b);
  }
}
