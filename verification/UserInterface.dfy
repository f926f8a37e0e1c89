/** Events on their way to the menu. Each one meets the handlers that its predecessors left: a key press that reaches
    the user interface's own handler is one step of the menu, which may add a handler or remove one. */
module UserInterface {
  import opened Arithmetic
  import opened EventHandler
  import opened MenuStates
  import Menu

  const EVENT_KEYPRESS: nat := 0x10

  // ---- One event ----

  /** The calls that an event makes. */
  function CallsOf(u: Ui, event: nat, data: nat, consumes: Answers): seq<Call> {
    Delivered(u.calls, u.handlers, event, data, consumes)
  }

  function Logged(u: Ui, event: nat, data: nat, consumes: Answers): Ui {
    u.(calls := u.calls + CallsOf(u, event, data, consumes))
  }

  /** Does the event reach the user interface's own handler `ui` as a key press? It consumes everything, so its call is
      the last one. */
  predicate ReachesMenu(u: Ui, event: nat, data: nat, consumes: Answers, ui: callback) {
    var calls := CallsOf(u, event, data, consumes);
    event == EVENT_KEYPRESS && calls != [] && calls[|calls| - 1].cb == ui
  }

  /** A key press that reaches the menu does not open a frame beyond its stack. */
  predicate FittingEvent(menus: seq<seq<Entry>>, u: Ui, event: nat, data: nat, consumes: Answers, ui: callback)
    requires u.InStack() && u.Cur().Valid(menus)
  {
    ReachesMenu(u, event, data, consumes, ui) ==> Fits(menus, u, data % 0x100)
  }

  /** The event reaches the menu as a key that opens an application whose handler is refused. */
  predicate RefusedEvent(menus: seq<seq<Entry>>, u: Ui, event: nat, data: nat, consumes: Answers, ui: callback)
    requires u.InStack() && u.Cur().Valid(menus)
  {
    ReachesMenu(u, event, data, consumes, ui) && Refused(menus, u, data % 0x100)
  }

  ghost function Handled(menus: seq<seq<Entry>>, u: Ui, event: nat, data: nat, consumes: Answers, ui: callback): (r: Ui)
    requires u.Structured(menus) && FittingEvent(menus, u, event, data, consumes, ui)
    ensures r.Structured(menus)
  {
    LoggedIsStructured(menus, u, event, data, consumes);
    var v := Logged(u, event, data, consumes);
    if ReachesMenu(u, event, data, consumes, ui) then MenuStates.Next(menus, v, data % 0x100, consumes) else v
  }

  lemma LoggedIsStructured(menus: seq<seq<Entry>>, u: Ui, event: nat, data: nat, consumes: Answers)
    requires u.Structured(menus)
    ensures Logged(u, event, data, consumes).Structured(menus)
    ensures forall base :: InStep(menus, Logged(u, event, data, consumes), base) <==> InStep(menus, u, base)
  {
    var v := Logged(u, event, data, consumes);
    forall i | 0 <= i < u.idx
      ensures v.Leads(menus, i)
    {
      assert u.Leads(menus, i);
    }
    OpenSame(menus, u, v, u.idx);
  }

  lemma HandledInStep(menus: seq<seq<Entry>>, u: Ui, event: nat, data: nat, consumes: Answers, ui: callback,
                      base: seq<callback>)
    requires u.Structured(menus) && FittingEvent(menus, u, event, data, consumes, ui) && InStep(menus, u, base)
    ensures InStep(menus, Handled(menus, u, event, data, consumes, ui), base) <==>
            !RefusedEvent(menus, u, event, data, consumes, ui)
  {
    LoggedIsStructured(menus, u, event, data, consumes);
    if ReachesMenu(u, event, data, consumes, ui) {
      StepInStep(menus, Logged(u, event, data, consumes), data % 0x100, consumes, base);
    }
  }

  // ---- A queue of events ----

  ghost predicate FittingEvents(menus: seq<seq<Entry>>, u: Ui, events: seq<(nat, nat)>, consumes: Answers,
                                   ui: callback)
    requires u.Structured(menus)
    decreases |events|
  {
    events == [] ||
    (var e := events[0];
     && FittingEvent(menus, u, e.0, e.1, consumes, ui)
     && FittingEvents(menus, Handled(menus, u, e.0, e.1, consumes, ui), events[1..], consumes, ui))
  }

  /** What the events make of the menu and the handlers. */
  ghost function Dispatched(menus: seq<seq<Entry>>, u: Ui, events: seq<(nat, nat)>, consumes: Answers, ui: callback):
    (r: Ui)
    requires u.Structured(menus) && FittingEvents(menus, u, events, consumes, ui)
    ensures r.Structured(menus)
    decreases |events|
  {
    if events == [] then u
    else Dispatched(menus, Handled(menus, u, events[0].0, events[0].1, consumes, ui), events[1..], consumes, ui)
  }

  /** Every event of the queue is consumed exactly once, by the first handler that wants it among those its predecessors
      left. */
  ghost predicate EachConsumedOnce(menus: seq<seq<Entry>>, u: Ui, events: seq<(nat, nat)>, consumes: Answers,
                                   ui: callback)
    requires u.Structured(menus) && FittingEvents(menus, u, events, consumes, ui)
    decreases |events|
  {
    events == [] ||
    (var e := events[0];
     && OnlyLastConsumes(u.calls, u.handlers, e.0, e.1, consumes, CallsOf(u, e.0, e.1, consumes))
     && EachConsumedOnce(menus, Handled(menus, u, e.0, e.1, consumes, ui), events[1..], consumes, ui))
  }

  /** The handlers are those of the open frames and the base, before the first event and after each one. */
  ghost predicate AlwaysInStep(menus: seq<seq<Entry>>, u: Ui, events: seq<(nat, nat)>, consumes: Answers,
                               ui: callback, base: seq<callback>)
    requires u.Structured(menus) && FittingEvents(menus, u, events, consumes, ui)
    decreases |events|
  {
    InStep(menus, u, base) &&
    (events == [] || AlwaysInStep(menus, Handled(menus, u, events[0].0, events[0].1, consumes, ui), events[1..],
        consumes, ui, base))
  }

  ghost predicate NoneRefused(menus: seq<seq<Entry>>, u: Ui, events: seq<(nat, nat)>, consumes: Answers, ui: callback)
    requires u.Structured(menus) && FittingEvents(menus, u, events, consumes, ui)
    decreases |events|
  {
    events == [] ||
    (var e := events[0];
     && !RefusedEvent(menus, u, e.0, e.1, consumes, ui)
     && NoneRefused(menus, Handled(menus, u, e.0, e.1, consumes, ui), events[1..], consumes, ui))
  }

  /** Whatever the queue, the menu's frames stay linked; and the handlers are those of the open frames and the base
      throughout if and only if no event opens an application whose handler is refused. */
  lemma {:induction false} DispatchInStep(menus: seq<seq<Entry>>, u: Ui, events: seq<(nat, nat)>, consumes: Answers,
                                          ui: callback, base: seq<callback>)
    requires u.Structured(menus) && FittingEvents(menus, u, events, consumes, ui) && InStep(menus, u, base)
    ensures Dispatched(menus, u, events, consumes, ui).Structured(menus)
    ensures AlwaysInStep(menus, u, events, consumes, ui, base) <==> NoneRefused(menus, u, events, consumes, ui)
    ensures NoneRefused(menus, u, events, consumes, ui) ==>
              InStep(menus, Dispatched(menus, u, events, consumes, ui), base)
    decreases |events|
  {
    if events != [] {
      hide Ui.Structured, InStep;
      var e := events[0];
      var v := Handled(menus, u, e.0, e.1, consumes, ui);
      HandledInStep(menus, u, e.0, e.1, consumes, ui, base);
      if InStep(menus, v, base) {
        DispatchInStep(menus, v, events[1..], consumes, ui, base);
      }
    }
  }

  /** With the user interface's own handler at the bottom, every event of such a queue is consumed exactly once. */
  lemma {:induction false} DispatchConsumesOnce(menus: seq<seq<Entry>>, u: Ui, events: seq<(nat, nat)>,
                                                consumes: Answers, ui: callback, base: seq<callback>)
    requires u.Structured(menus) && FittingEvents(menus, u, events, consumes, ui) && InStep(menus, u, base)
    requires NoneRefused(menus, u, events, consumes, ui)
    requires base != [] && base[|base| - 1] == ui && ConsumesAll(ui, consumes)
    ensures EachConsumedOnce(menus, u, events, consumes, ui)
    decreases |events|
  {
    if events != [] {
      hide Ui.Structured, InStep, ConsumesAll, OnlyLastConsumes;
      var e := events[0];
      HandledInStep(menus, u, e.0, e.1, consumes, ui, base);
      LastOfHandlers(menus, u, base);
      ConsumedOnce(u.calls, u.handlers, e.0, e.1, consumes);
      DispatchConsumesOnce(menus, Handled(menus, u, e.0, e.1, consumes, ui), events[1..], consumes, ui, base);
    }
  }

  lemma LastOfHandlers(menus: seq<seq<Entry>>, u: Ui, base: seq<callback>)
    requires u.Structured(menus) && InStep(menus, u, base) && base != []
    ensures u.handlers != [] && u.handlers[|u.handlers| - 1] == base[|base| - 1]
  {
  }

  // ---- An application that keeps the keys ----

  /** The handler consumes every key press but those with the leaving key. */
  ghost predicate Traps(cb: callback, key: nat, consumes: Answers) {
    forall calls: seq<Call> :: calls != [] ==>
      var call := calls[|calls| - 1];
      call.cb == cb && call.event == EVENT_KEYPRESS && call.data != key ==> consumes(calls)
  }

  predicate WithoutKey(events: seq<(nat, nat)>, key: nat) {
    forall i :: 0 <= i < |events| ==> events[i].0 == EVENT_KEYPRESS ==> events[i].1 != key
  }

  /** While an application in front traps the keys, as the register display does with all but KEY_LEFT, no queue without
      the leaving key changes the menu: only calls are made. */
  lemma {:induction false} TrappedKeysChangeNothing(menus: seq<seq<Entry>>, u: Ui, events: seq<(nat, nat)>,
                                                    consumes: Answers, ui: callback, key: nat)
    requires u.Structured(menus) && u.handlers != [] && u.handlers[0] != ui && Traps(u.handlers[0], key, consumes)
    requires WithoutKey(events, key)
    ensures FittingEvents(menus, u, events, consumes, ui)
    ensures var r := Dispatched(menus, u, events, consumes, ui);
            r == u.(calls := r.calls) && u.calls <= r.calls
    decreases |events|
  {
    if events != [] {
      var e := events[0];
      assert e == events[0];
      TrappedInFront(u, e.0, e.1, consumes, ui, key);
      LoggedIsStructured(menus, u, e.0, e.1, consumes);
      TrappedKeysChangeNothing(menus, Handled(menus, u, e.0, e.1, consumes, ui), events[1..], consumes, ui, key);
    }
  }

  lemma TrappedInFront(u: Ui, event: nat, data: nat, consumes: Answers, ui: callback, key: nat)
    requires u.handlers != [] && u.handlers[0] != ui && Traps(u.handlers[0], key, consumes)
    requires event == EVENT_KEYPRESS ==> data != key
    ensures !ReachesMenu(u, event, data, consumes, ui)
  {
    var call := Call(u.handlers[0], event, data);
    assert (u.calls + [call])[|u.calls|] == call;
  }

  /** The application that a key press opens is the first to get the next event. */
  lemma OpenedIsCalledFirst(menus: seq<seq<Entry>>, u: Ui, data: nat, event: nat, data': nat, consumes: Answers,
                            ui: callback)
    requires u.Structured(menus) && FittingEvent(menus, u, EVENT_KEYPRESS, data, consumes, ui)
    requires ReachesMenu(u, EVENT_KEYPRESS, data, consumes, ui) && data % 0x100 == KEY_RIGHT
    requires u.Cur().Selected(menus).EvtHdl? && !RefusedEvent(menus, u, EVENT_KEYPRESS, data, consumes, ui)
    ensures var v := Handled(menus, u, EVENT_KEYPRESS, data, consumes, ui);
            var calls := CallsOf(v, event, data', consumes);
            && v.handlers == [u.Cur().Selected(menus).cb] + u.handlers
            && calls != [] && calls[0] == Call(u.Cur().Selected(menus).cb, event, data')
  {
    LoggedIsStructured(menus, u, EVENT_KEYPRESS, data, consumes);
  }

  // ---- The dispatcher ----

  /** One callback is called. The user interface's own one hands key presses to the menu. */
  method Notify(menu: Menu.Menu, ui: callback, cb: callback, event: nat, data: nat) returns (consumed: bool)
    requires menu.Valid()
    requires cb == ui && event == EVENT_KEYPRESS ==> Fits(menu.menus, menu.View(), data % 0x100)
    modifies menu, menu.stack, menu.evt`head, menu.evt`nodes, menu.evt`log, menu.evt.cbs, menu.evt.nexts
    ensures menu.Valid()
    ensures var was := old(menu.View());
            var called := was.(calls := was.calls + [Call(cb, event, data)]);
            && consumed == menu.evt.consumes(called.calls)
            && called.Structured(menu.menus)
            && menu.View() == if cb == ui && event == EVENT_KEYPRESS
                              then MenuStates.Next(menu.menus, called, data % 0x100, menu.evt.consumes) else called
    ensures !(cb == ui && event == EVENT_KEYPRESS) ==>
              unchanged(menu.evt`head) && unchanged(menu.evt`nodes) && unchanged(menu.evt.cbs)
              && unchanged(menu.evt.nexts)
  {
    ghost var was := menu.View();
    menu.evt.log := menu.evt.log + [Call(cb, event, data)];
    CallIsStructured(menu.menus, was, Call(cb, event, data), menu.View());
    consumed := menu.evt.consumes(menu.evt.log);
    if cb == ui && event == EVENT_KEYPRESS {
      var visibleLines: nat := *;
      var top, itemsBelow := menu.KeyHandler(data % 0x100, visibleLines);
    }
  }

  lemma CallIsStructured(menus: seq<seq<Entry>>, u: Ui, call: Call, v: Ui)
    requires u.Structured(menus) && v == u.(calls := u.calls + [call])
    ensures v.Structured(menus)
  {
    forall i | 0 <= i < u.idx
      ensures v.Leads(menus, i)
    {
      assert u.Leads(menus, i);
    }
  }

  /** The event has passed `k` handlers, and none of them wanted it. */
  ghost predicate Passed(was: Ui, now: Ui, k: nat, event: nat, data: nat, consumes: Answers, ui: callback) {
    && k <= |was.handlers| && now == was.(calls := now.calls)
    && was.calls + CallsOf(was, event, data, consumes) ==
       now.calls + Delivered(now.calls, was.handlers[k..], event, data, consumes)
    && if k == 0 then now.calls == was.calls
       else |now.calls| > |was.calls| && now.calls[|now.calls| - 1].cb != ui
  }

  lemma PassesOrIsTaken(was: Ui, now: Ui, k: nat, event: nat, data: nat, consumes: Answers, ui: callback, called: Ui)
    requires Passed(was, now, k, event, data, consumes, ui) && k < |was.handlers| && ConsumesAll(ui, consumes)
    requires called == now.(calls := now.calls + [Call(was.handlers[k], event, data)])
    ensures if consumes(called.calls)
            then called == Logged(was, event, data, consumes)
                 && (ReachesMenu(was, event, data, consumes, ui) <==> event == EVENT_KEYPRESS && was.handlers[k] == ui)
            else Passed(was, called, k + 1, event, data, consumes, ui) && was.handlers[k] != ui
  {
    var call := Call(was.handlers[k], event, data);
    DeliveredFrom(now.calls, was.handlers, k, event, data, consumes);
    if consumes(called.calls) {
      assert Logged(was, event, data, consumes).calls == called.calls;
      LastCall(was.calls, CallsOf(was, event, data, consumes), now.calls, call);
    } else {
      Regroup(now.calls, [call], Delivered(called.calls, was.handlers[k + 1..], event, data, consumes));
    }
  }

  lemma LastCall(was: seq<Call>, calls: seq<Call>, now: seq<Call>, call: Call)
    requires was + calls == now + [call] && |was| <= |now|
    ensures calls != [] && calls[|calls| - 1] == call
  {
    assert (was + calls)[|now|] == call;
  }

  lemma NobodyWantsIt(was: Ui, now: Ui, event: nat, data: nat, consumes: Answers, ui: callback)
    requires Passed(was, now, |was.handlers|, event, data, consumes, ui)
    ensures now == Logged(was, event, data, consumes) && !ReachesMenu(was, event, data, consumes, ui)
  {
    var calls := CallsOf(was, event, data, consumes);
    assert now.calls == was.calls + calls;
    if calls != [] {
      assert (was.calls + calls)[|was.calls| + |calls| - 1] == calls[|calls| - 1];
    }
  }

  lemma LastConsumer(was: Ui, now: Ui, k: nat, event: nat, data: nat, consumes: Answers, ui: callback)
    requires Passed(was, now, k, event, data, consumes, ui) && k < |was.handlers| && ConsumesAll(ui, consumes)
    requires was.handlers[k] == ui && event == EVENT_KEYPRESS
    ensures ReachesMenu(was, event, data, consumes, ui)
  {
    var call := Call(ui, event, data);
    assert (now.calls + [call])[|now.calls|].cb == ui;
    PassesOrIsTaken(was, now, k, event, data, consumes, ui, now.(calls := now.calls + [call]));
  }

  /** The next handler in the list is called. */
  method PassTo(menu: Menu.Menu, ui: callback, node: nat, event: nat, data: nat, ghost was: Ui, ghost k: nat)
    returns (consumed: bool)
    requires menu.Valid() && k < |menu.evt.nodes| == |was.handlers| && node == menu.evt.nodes[k] < menu.evt.cbs.Length
    requires was.Structured(menu.menus) && ConsumesAll(ui, menu.evt.consumes)
    requires FittingEvent(menu.menus, was, event, data, menu.evt.consumes, ui)
    requires Passed(was, menu.View(), k, event, data, menu.evt.consumes, ui)
    modifies menu, menu.stack, menu.evt`head, menu.evt`nodes, menu.evt`log, menu.evt.cbs, menu.evt.nexts
    ensures menu.Valid()
    ensures consumed ==> menu.View() == Handled(menu.menus, was, event, data, menu.evt.consumes, ui)
    ensures !consumed ==> Passed(was, menu.View(), k + 1, event, data, menu.evt.consumes, ui)
    ensures !consumed ==>
              unchanged(menu.evt`head) && unchanged(menu.evt`nodes) && unchanged(menu.evt.cbs)
              && unchanged(menu.evt.nexts)
  {
    hide Ui.Structured, Passed, ConsumesAll, ReachesMenu, Delivered, IsList, Fits;
    ghost var now := menu.View();
    SamePlace(menu.menus, was, now, k, event, data, menu.evt.consumes, ui);
    var cb := menu.evt.cbs[node];
    assert cb == was.handlers[k];
    ghost var called := now.(calls := now.calls + [Call(cb, event, data)]);
    PassesOrIsTaken(was, now, k, event, data, menu.evt.consumes, ui, called);
    consumed := Notify(menu, ui, cb, event, data);
  }

  /** One round of the dispatcher: the event goes along the list of handlers until one of them consumes it. The menu may
      change the list, but then its event has been consumed. */
  method DeliverEvent(menu: Menu.Menu, ui: callback, event: nat, data: nat)
    requires menu.Valid() && ConsumesAll(ui, menu.evt.consumes)
    requires FittingEvent(menu.menus, menu.View(), event, data, menu.evt.consumes, ui)
    modifies menu, menu.stack, menu.evt`head, menu.evt`nodes, menu.evt`log, menu.evt.cbs, menu.evt.nexts
    ensures menu.Valid()
    ensures menu.View() == Handled(menu.menus, old(menu.View()), event, data, menu.evt.consumes, ui)
  {
    hide Ui.Structured, Passed, ConsumesAll, ReachesMenu, Delivered, Fits;
    ghost var was, k := menu.View(), 0;
    PassedNobody(was, event, data, menu.evt.consumes, ui);
    var tmp := menu.evt.head;
    assert menu.evt.nodes != [] ==> tmp == menu.evt.nodes[0];
    while tmp != NULL
      invariant menu.Valid() && 0 <= k <= |menu.evt.nodes| == |was.handlers|
      invariant tmp == (if k == |menu.evt.nodes| then NULL else menu.evt.nodes[k])
      invariant Passed(was, menu.View(), k, event, data, menu.evt.consumes, ui)
      decreases |menu.evt.nodes| - k
    {
      Reached(menu.evt.nexts[..], menu.evt.head, menu.evt.nodes, k);
      var consumed := PassTo(menu, ui, tmp, event, data, was, k);
      if consumed {
        return;
      }
      tmp, k := menu.evt.nexts[tmp], k + 1;
    }
    NobodyWantsIt(was, menu.View(), event, data, menu.evt.consumes, ui);
  }

  lemma PassedNobody(was: Ui, event: nat, data: nat, consumes: Answers, ui: callback)
    ensures Passed(was, was, 0, event, data, consumes, ui)
  {
    assert was.handlers[0..] == was.handlers;
  }

  /** Nothing but calls has happened, so the key fits as it did. */
  lemma SamePlace(menus: seq<seq<Entry>>, was: Ui, now: Ui, k: nat, event: nat, data: nat, consumes: Answers,
                  ui: callback)
    requires was.Structured(menus) && ConsumesAll(ui, consumes)
    requires FittingEvent(menus, was, event, data, consumes, ui)
    requires Passed(was, now, k, event, data, consumes, ui) && k < |was.handlers|
    ensures now.InStack() && now.Cur().Valid(menus) && now.handlers == was.handlers
    ensures was.handlers[k] == ui && event == EVENT_KEYPRESS ==> Fits(menus, now, data % 0x100)
  {
    if was.handlers[k] == ui && event == EVENT_KEYPRESS {
      LastConsumer(was, now, k, event, data, consumes, ui);
    }
  }

  /** evt_handler_dispatch: every waiting event is delivered, oldest first, each to the handlers that its predecessors
      left. */
  method Dispatch(menu: Menu.Menu, ui: callback)
    requires menu.Valid() && menu.evt.QueueValid() && ConsumesAll(ui, menu.evt.consumes)
    requires FittingEvents(menu.menus, menu.View(), menu.evt.Waiting(), menu.evt.consumes, ui)
    modifies menu, menu.stack, menu.evt`head, menu.evt`nodes, menu.evt`log, menu.evt.cbs, menu.evt.nexts
    modifies menu.evt`qTail
    ensures menu.Valid() && menu.evt.QueueValid() && menu.evt.Waiting() == []
    ensures menu.View() ==
            Dispatched(menu.menus, old(menu.View()), old(menu.evt.Waiting()), menu.evt.consumes, ui)
  {
    hide ConsumesAll, IsList, Ui.Structured;
    ghost var menus, consumes := menu.menus, menu.evt.consumes;
    ghost var result := Dispatched(menus, menu.View(), menu.evt.Waiting(), consumes, ui);
    while menu.evt.qTail != menu.evt.qHead
      invariant menu.Valid() && menu.evt.QueueValid()
      invariant FittingEvents(menus, menu.View(), menu.evt.Waiting(), consumes, ui)
      invariant result == Dispatched(menus, menu.View(), menu.evt.Waiting(), consumes, ui)
      decreases |menu.evt.Waiting()|
    {
      ghost var waiting, next := menu.evt.Waiting(), EventHandler.Next(menu.evt.qTail);
      Dequeued(menu.evt.eventQ[..], menu.evt.qTail, menu.evt.qHead);
      assert waiting[1..] == Queued(menu.evt.eventQ[..], next, menu.evt.qHead);
      var e := menu.evt.eventQ[menu.evt.qTail];
      DeliverEvent(menu, ui, e.0, e.1);
      menu.evt.qTail := EventHandler.Next(menu.evt.qTail);
      assert menu.evt.Waiting() == waiting[1..];
    }
  }
}
