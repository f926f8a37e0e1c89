/** The list of event handlers, whose nodes come from a small static pool, and the queue of events. */
module EventHandler {
  import opened Arithmetic

  const MAX_HANDLERS: nat := 3
  const EVENT_Q_SIZE: nat := 5
  const NULL: int := -1

  /** A callback; 0 is the null pointer. */
  type callback = nat

  datatype Call = Call(cb: callback, event: nat, data: nat)

  /** Does the last of these calls consume its event? The answer may depend on the event, on its data, and on everything
      that was called before. */
  type Answers = seq<Call> -> bool

  /** The calls an event makes after those in `log`: to all handlers up to the first that consumes it. */
  function Delivered(log: seq<Call>, handlers: seq<callback>, event: nat, data: nat, consumes: Answers):
    (calls: seq<Call>)
    ensures |calls| <= |handlers|
    decreases |handlers|
  {
    if handlers == [] then []
    else
      var call := Call(handlers[0], event, data);
      [call] + if consumes(log + [call]) then [] else Delivered(log + [call], handlers[1..], event, data, consumes)
  }

  /** This callback consumes whatever it is called with. */
  ghost predicate ConsumesAll(cb: callback, consumes: Answers) {
    forall calls: seq<Call> :: calls != [] && calls[|calls| - 1].cb == cb ==> consumes(calls)
  }

  /** All calls up to the i-th of an event. */
  function UpTo(log: seq<Call>, calls: seq<Call>, i: nat): (all: seq<Call>)
    requires i < |calls|
    ensures all != [] && all[|all| - 1] == calls[i]
  {
    log + calls[..i + 1]
  }

  /** The calls of one event: to the handlers in order, and only the last one consumes it. */
  ghost predicate OnlyLastConsumes(log: seq<Call>, handlers: seq<callback>, event: nat, data: nat, consumes: Answers,
                                   calls: seq<Call>) {
    && 0 < |calls| <= |handlers|
    && (forall i :: 0 <= i < |calls| ==> calls[i] == Call(handlers[i], event, data))
    && (forall i :: 0 <= i < |calls| ==> (consumes(UpTo(log, calls, i)) <==> i == |calls| - 1))
  }

  /** With a last handler that consumes everything, every event is consumed exactly once, by the first that wants it. */
  lemma {:induction false} ConsumedOnce(log: seq<Call>, handlers: seq<callback>, event: nat, data: nat,
                                        consumes: Answers)
    requires handlers != [] && ConsumesAll(handlers[|handlers| - 1], consumes)
    ensures OnlyLastConsumes(log, handlers, event, data, consumes, Delivered(log, handlers, event, data, consumes))
    decreases |handlers|
  {
    var call := Call(handlers[0], event, data);
    if consumes(log + [call]) {
      assert UpTo(log, [call], 0) == log + [call];
    } else {
      var rest := Delivered(log + [call], handlers[1..], event, data, consumes);
      assert (log + [call])[|log|].cb == handlers[0];
      ConsumedOnce(log + [call], handlers[1..], event, data, consumes);
      OneMoreBefore(log, handlers, event, data, consumes, rest);
    }
  }

  lemma OneMoreBefore(log: seq<Call>, handlers: seq<callback>, event: nat, data: nat, consumes: Answers,
                      rest: seq<Call>)
    requires handlers != [] && !consumes(log + [Call(handlers[0], event, data)])
    requires OnlyLastConsumes(log + [Call(handlers[0], event, data)], handlers[1..], event, data, consumes, rest)
    ensures OnlyLastConsumes(log, handlers, event, data, consumes, [Call(handlers[0], event, data)] + rest)
  {
    var call := Call(handlers[0], event, data);
    var calls := [call] + rest;
    forall i | 0 <= i < |calls|
      ensures consumes(UpTo(log, calls, i)) <==> i == |calls| - 1
    {
      if i == 0 {
        assert UpTo(log, calls, 0) == log + [call];
      } else {
        assert UpTo(log, calls, i) == UpTo(log + [call], rest, i - 1);
      }
    }
  }

  /** The callbacks of the nodes of a list. */
  function Callbacks(cbs: seq<callback>, nodes: seq<nat>): (s: seq<callback>)
    requires forall i :: 0 <= i < |nodes| ==> nodes[i] < |cbs|
    ensures |s| == |nodes| && forall i :: 0 <= i < |nodes| ==> s[i] == cbs[nodes[i]]
  {
    seq(|nodes|, i requires 0 <= i < |nodes| => cbs[nodes[i]])
  }

  /** Following the links from `head` visits these nodes and ends. */
  ghost predicate Linked(nexts: seq<int>, head: int, nodes: seq<nat>)
    decreases |nodes|
  {
    if nodes == [] then head == NULL
    else head == nodes[0] < |nexts| && Linked(nexts, nexts[head], nodes[1..])
  }

  ghost predicate Distinct(nodes: seq<nat>)
    decreases |nodes|
  {
    nodes == [] || (nodes[0] !in nodes[1..] && Distinct(nodes[1..]))
  }

  /** These nodes, in this order, are the list that starts at `head`; a node is in it exactly when its callback is set.
      They are distinct, so the list has no cycle. */
  ghost predicate IsList(cbs: seq<callback>, nexts: seq<int>, head: int, nodes: seq<nat>) {
    && |cbs| == |nexts| == MAX_HANDLERS && Linked(nexts, head, nodes) && Distinct(nodes)
    && (forall i :: 0 <= i < |nodes| ==> nodes[i] < MAX_HANDLERS)
    && (forall n: nat :: n < MAX_HANDLERS ==> (cbs[n] != 0 <==> n in nodes))
  }

  lemma {:induction false} LinkedFrame(nexts: seq<int>, head: int, nodes: seq<nat>, n: nat, v: int)
    requires Linked(nexts, head, nodes) && n !in nodes && n < |nexts|
    ensures Linked(nexts[n := v], head, nodes)
    decreases |nodes|
  {
    if nodes != [] {
      LinkedFrame(nexts, nexts[head], nodes[1..], n, v);
    }
  }

  /** The node that is reached after `k` links. */
  lemma {:induction false} Reached(nexts: seq<int>, head: int, nodes: seq<nat>, k: nat)
    requires Linked(nexts, head, nodes) && k < |nodes|
    ensures nodes[k] < |nexts| && nexts[nodes[k]] == if k + 1 < |nodes| then nodes[k + 1] else NULL
    decreases k
  {
    if k > 0 {
      Reached(nexts, nexts[head], nodes[1..], k - 1);
    }
  }

  lemma Pushed(cbs: seq<callback>, nexts: seq<int>, head: int, nodes: seq<nat>, n: nat, cb: callback, all: seq<nat>)
    requires IsList(cbs, nexts, head, nodes) && n < MAX_HANDLERS && cbs[n] == 0 && cb != 0 && all == [n] + nodes
    ensures IsList(cbs[n := cb], nexts[n := head], n, all)
    ensures Callbacks(cbs[n := cb], all) == [cb] + Callbacks(cbs, nodes)
  {
    hide Callbacks;
    LinkedFrame(nexts, head, nodes, n, head);
    Prepended(nodes, n, all);
    CallbacksPushed(cbs, nodes, n, cb, all);
  }

  lemma Prepended(nodes: seq<nat>, n: nat, all: seq<nat>)
    requires all == [n] + nodes
    ensures all != [] && all[0] == n && all[1..] == nodes && forall k :: k in all <==> k == n || k in nodes
  {
  }

  lemma CallbacksPushed(cbs: seq<callback>, nodes: seq<nat>, n: nat, cb: callback, all: seq<nat>)
    requires n < |cbs| && n !in nodes && all == [n] + nodes && forall i :: 0 <= i < |nodes| ==> nodes[i] < |cbs|
    ensures forall i :: 0 <= i < |all| ==> all[i] < |cbs|
    ensures Callbacks(cbs[n := cb], all) == [cb] + Callbacks(cbs, nodes)
  {
    assert forall i :: 0 < i < |all| ==> all[i] == nodes[i - 1] != n;
  }

  lemma Popped(cbs: seq<callback>, nexts: seq<int>, head: int, nodes: seq<nat>)
    requires IsList(cbs, nexts, head, nodes) && nodes != []
    ensures IsList(cbs[head := 0], nexts, nexts[head], nodes[1..])
    ensures Callbacks(cbs[head := 0], nodes[1..]) == Callbacks(cbs, nodes)[1..]
  {
    assert forall n: nat :: n in nodes <==> n == head || n in nodes[1..];
  }

  lemma {:induction false} DistinctFit(nodes: seq<nat>, s: set<nat>)
    requires Distinct(nodes) && forall n: nat :: n in nodes ==> n in s
    ensures |nodes| <= |s|
    ensures |nodes| == |s| ==> forall n: nat :: n in s ==> n in nodes
    decreases |nodes|
  {
    if nodes != [] {
      DistinctFit(nodes[1..], s - {nodes[0]});
      assert forall n: nat :: n in nodes <==> n == nodes[0] || n in nodes[1..];
    } else if |s| == 0 {
      assert s == {};
    }
  }

  lemma ListFits(cbs: seq<callback>, nexts: seq<int>, head: int, nodes: seq<nat>)
    requires IsList(cbs, nexts, head, nodes)
    ensures |nodes| <= MAX_HANDLERS
    ensures |nodes| == MAX_HANDLERS <==> forall n: nat :: n < MAX_HANDLERS ==> cbs[n] != 0
  {
    DistinctFit(nodes, {0, 1, 2});
    if forall n: nat :: n < MAX_HANDLERS ==> cbs[n] != 0 {
      SetOfSeq(nodes);
      Subsets({0, 1, 2}, set n: nat | n in nodes);
    }
  }

  // ---- The event queue ----

  function Next(x: nat): nat
    requires x < EVENT_Q_SIZE
  {
    if x == EVENT_Q_SIZE - 1 then 0 else x + 1
  }

  /** The events from the tail to the head. One place always stays free. */
  function Queued(q: seq<(nat, nat)>, tail: nat, head: nat): (s: seq<(nat, nat)>)
    requires |q| == EVENT_Q_SIZE && tail < EVENT_Q_SIZE && head < EVENT_Q_SIZE
    ensures |s| < EVENT_Q_SIZE && (s == [] <==> tail == head) && (|s| == EVENT_Q_SIZE - 1 <==> Next(head) == tail)
  {
    if tail <= head then q[tail..head] else q[tail..] + q[..head]
  }

  lemma Enqueued(q: seq<(nat, nat)>, tail: nat, head: nat, e: (nat, nat))
    requires |q| == EVENT_Q_SIZE && tail < EVENT_Q_SIZE && head < EVENT_Q_SIZE && Next(head) != tail
    ensures Queued(q[head := e], tail, Next(head)) == Queued(q, tail, head) + [e]
  {
  }

  lemma Dequeued(q: seq<(nat, nat)>, tail: nat, head: nat)
    requires |q| == EVENT_Q_SIZE && tail < EVENT_Q_SIZE && head < EVENT_Q_SIZE && tail != head
    ensures Queued(q, tail, head) == [q[tail]] + Queued(q, Next(tail), head)
  {
    if tail < head {
      FirstOf(q[tail..head], q[tail + 1..head]);
    } else {
      FirstOf(q[tail..], q[tail + 1..]);
      Regroup([q[tail]], q[tail + 1..], q[..head]);
    }
  }

  lemma FirstOf<T>(s: seq<T>, rest: seq<T>)
    requires s != [] && rest == s[1..]
    ensures s == [s[0]] + rest
  {
  }

  class EventHandlers {
    const cbs: array<callback>
    const nexts: array<int>
    var head: int
    ghost var nodes: seq<nat>
    const eventQ: array<(nat, nat)>
    var qHead: nat
    var qTail: nat
    const consumes: Answers
    /** The callbacks that have been called. */
    var log: seq<Call>

    ghost predicate Valid()
      reads this, cbs, nexts
    {
      IsList(cbs[..], nexts[..], head, nodes)
    }

    /** The events that wait to be dispatched, oldest first. */
    ghost function Waiting(): seq<(nat, nat)>
      requires QueueValid()
      reads this, eventQ
    {
      Queued(eventQ[..], qTail, qHead)
    }

    ghost predicate QueueValid()
      reads this
    {
      eventQ.Length == EVENT_Q_SIZE && qHead < EVENT_Q_SIZE && qTail < EVENT_Q_SIZE
    }

    /** The registered handlers, the most recent first. */
    ghost function Handlers(): (h: seq<callback>)
      requires Valid()
      reads this, cbs, nexts
      ensures |h| <= MAX_HANDLERS
    {
      ListFits(cbs[..], nexts[..], head, nodes);
      Callbacks(cbs[..], nodes)
    }

    /** evt_handler_init */
    constructor (consumes: Answers)
      ensures Valid() && Handlers() == [] && QueueValid() && Waiting() == [] && log == []
      ensures this.consumes == consumes && fresh(cbs) && fresh(nexts) && fresh(eventQ)
    {
      cbs := new nat[MAX_HANDLERS](i => 0);
      nexts := new int[MAX_HANDLERS](i => NULL);
      eventQ := new (nat, nat)[EVENT_Q_SIZE](i => (0, 0));
      qHead, qTail := 0, 0;
      head, nodes, log := NULL, [], [];
      this.consumes := consumes;
    }

    /** The first free node of the pool. */
    method GetNode() returns (n: int)
      requires Valid()
      ensures n == NULL <==> |Handlers()| == MAX_HANDLERS
      ensures n != NULL ==> 0 <= n < MAX_HANDLERS && cbs[n] == 0
    {
      ListFits(cbs[..], nexts[..], head, nodes);
      n := 0;
      while n < MAX_HANDLERS
        invariant 0 <= n <= MAX_HANDLERS && forall k: nat :: k < n ==> cbs[k] != 0
      {
        if cbs[n] == 0 {
          return;
        }
        n := n + 1;
      }
      n := NULL;
    }

    method AddHandler(cb: callback)
      requires Valid()
      modifies this`head, this`nodes, cbs, nexts
      ensures Valid()
      ensures Handlers() == if cb == 0
          || |old(Handlers())| == MAX_HANDLERS then old(Handlers()) else [cb] + old(Handlers())
    {
      if cb == 0 {
        return;
      }
      var n := GetNode();
      if n == NULL {
        return;
      }
      Pushed(cbs[..], nexts[..], head, nodes, n, cb, [n] + nodes);
      ghost var cbsWere, nextsWere := cbs[..], nexts[..];
      cbs[n] := cb;
      nexts[n] := head;
      head := n;
      nodes := [n] + nodes;
      assert cbs[..] == cbsWere[n := cb] && nexts[..] == nextsWere[n := nexts[n]];
    }

    method PopHandler()
      requires Valid()
      modifies this`head, this`nodes, cbs
      ensures Valid()
      ensures Handlers() == if old(Handlers()) == [] then [] else old(Handlers())[1..]
    {
      if head != NULL {
        Popped(cbs[..], nexts[..], head, nodes);
        ghost var cbsWere := cbs[..];
        cbs[head] := 0;
        assert cbs[..] == cbsWere[head := 0];
      } else {
        return;
      }
      head := nexts[head];
      nodes := nodes[1..];
    }

    /** evt_handler_syncevent, with which the menu starts and stops an application; no handler adds or removes one
        then. */
    method SyncEvent(event: nat, data: nat)
      requires Valid()
      modifies this`log
      ensures log == old(log) + Delivered(old(log), Handlers(), event, data, consumes)
    {
      ghost var calls, k := Delivered(log, Handlers(), event, data, consumes), 0;
      var tmp := head;
      assert Handlers()[0..] == Handlers();
      while tmp != NULL
        invariant 0 <= k <= |nodes| && tmp == (if k == |nodes| then NULL else nodes[k])
        invariant old(log) + calls == log + Delivered(log, Handlers()[k..], event, data, consumes)
        decreases |nodes| - k
      {
        Reached(nexts[..], head, nodes, k);
        ghost var called := log + [Call(cbs[tmp], event, data)];
        DeliveredFrom(log, Handlers(), k, event, data, consumes);
        Regroup(log, [Call(cbs[tmp], event, data)], Delivered(called, Handlers()[k + 1..], event, data, consumes));
        log := log + [Call(cbs[tmp], event, data)];
        if consumes(log) {
          return;
        }
        tmp, k := nexts[tmp], k + 1;
      }
    }

    /** evt_handler_event: an event is dropped when the queue is full. */
    method Event(event: nat, data: nat)
      requires QueueValid()
      modifies this`qHead, eventQ
      ensures QueueValid()
      ensures Waiting() == if |old(Waiting())| == EVENT_Q_SIZE - 1 then old(Waiting())
          else old(Waiting()) + [(event, data)]
    {
      if Next(qHead) == qTail {
        return;
      }
      ghost var was := eventQ[..];
      Enqueued(was, qTail, qHead, (event, data));
      eventQ[qHead] := (event, data);
      assert eventQ[..] == was[qHead := (event, data)];
      qHead := Next(qHead);
    }

  }

  lemma DeliveredFrom(log: seq<Call>, handlers: seq<callback>, k: nat, event: nat, data: nat, consumes: Answers)
    requires k < |handlers|
    ensures var call := Call(handlers[k], event, data);
            Delivered(log, handlers[k..], event, data, consumes) ==
            [call] + if consumes(log + [call]) then []
                     else Delivered(log + [call], handlers[k + 1..], event, data, consumes)
  {
    assert handlers[k..][1..] == handlers[k + 1..];
  }

  lemma {:induction false} SetOfSeq(nodes: seq<nat>)
    ensures |set i: nat | i in nodes| <= |nodes|
    decreases |nodes|
  {
    if nodes == [] {
      assert (set i: nat | i in nodes) == {};
    } else {
      SetOfSeq(nodes[1..]);
      assert (set i: nat | i in nodes) == {nodes[0]} + set i: nat | i in nodes[1..];
    }
  }

  lemma Subsets<T>(a: set<T>, b: set<T>)
    requires a <= b
    ensures |a| <= |b|
  {
    assert b == a + (b - a);
  }
}
