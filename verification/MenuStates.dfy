/** The menu as a pushdown machine: a stack of frames, kept in step with the list of event handlers. */
module MenuStates {
  import opened EventHandler

  const KEY_UP: nat := 0x80
  const KEY_DOWN: nat := 0x81
  const KEY_LEFT: nat := 0x82
  const KEY_RIGHT: nat := 0x83
  const KEY_SELECT: nat := 0x84
  const EVENT_APP_START: nat := 0x20
  const EVENT_APP_STOP: nat := 0x21
  const SYS_CONTEXT: nat := 1 // stands for the address of the shared context
  const MAX_MENU_DEPTH: nat := 10

  datatype Entry = Dummy | Branch(next: nat) | Exec(action: nat) | Dropdown | EvtHdl(next: nat, cb: callback) {
    predicate IsSubmenu() { Branch? || EvtHdl? }
  }

  /** All menus; a submenu entry names one of them. The selection has seven bits. */
  predicate WellFormed(menus: seq<seq<Entry>>) {
    forall m :: 0 <= m < |menus| ==>
      && 1 <= |menus[m]| <= 128
      && forall e :: 0 <= e < |menus[m]| ==> menus[m][e].IsSubmenu() ==> menus[m][e].next < |menus|
  }

  datatype Frame = Frame(menu: nat, selected: nat, evtHdlSet: bool, numEntries: nat) {
    predicate Valid(menus: seq<seq<Entry>>) {
      menu < |menus| && selected < |menus[menu]| && (numEntries == 0 || numEntries == |menus[menu]|)
    }

    /** The entry the selection is on. */
    function Selected(menus: seq<seq<Entry>>): Entry
      requires Valid(menus)
    {
      menus[menu][selected]
    }
  }

  /** `active` holds the dropdown that has been opened, by its place. */
  datatype Ui = Ui(stack: seq<Frame>, idx: nat, active: set<(nat, nat)>, handlers: seq<callback>, calls: seq<Call>,
                   actions: seq<nat>) {
    predicate InStack() { |stack| == MAX_MENU_DEPTH && idx < MAX_MENU_DEPTH }

    function Cur(): Frame
      requires InStack()
    {
      stack[idx]
    }

    /** Every open frame is in its menu; a suspended one is on the entry that leads to the next; the handler flag is
        set in just those suspended frames whose entry has a handler; a dropdown can only be open under the
        selection. */
    ghost predicate Structured(menus: seq<seq<Entry>>) {
      && WellFormed(menus) && InStack()
      && (forall i :: 0 <= i <= idx ==> stack[i].Valid(menus))
      && (forall i :: 0 <= i < idx ==> Leads(menus, i))
      && (forall i :: idx <= i < MAX_MENU_DEPTH ==> !stack[i].evtHdlSet)
      && (active == {} || (active == {(Cur().menu, Cur().selected)} && Cur().Selected(menus).Dropdown?))
    }

    ghost predicate Leads(menus: seq<seq<Entry>>, i: nat)
      requires InStack() && i < idx && stack[i].Valid(menus)
    {
      var e := stack[i].Selected(menus);
      e.IsSubmenu() && stack[i + 1].menu == e.next && (stack[i].evtHdlSet <==> e.EvtHdl?)
    }

    predicate Active()
      requires InStack()
    {
      (Cur().menu, Cur().selected) in active
    }
  }

  // ---- One key ----

  function Set(u: Ui, f: Frame): (r: Ui)
    requires u.InStack()
    ensures r.InStack() && r.idx == u.idx
  {
    u.(stack := u.stack[u.idx := f])
  }

  /** DrawMenu counts the entries of a menu the first time. */
  function Drawn(menus: seq<seq<Entry>>, u: Ui): (r: Ui)
    requires u.InStack() && u.Cur().menu < |menus|
    ensures r.InStack()
  {
    if u.Cur().numEntries == 0 then Set(u, u.Cur().(numEntries := |menus[u.Cur().menu]|)) else u
  }

  function Added(handlers: seq<callback>, cb: callback): seq<callback> {
    if cb == 0 || |handlers| == MAX_HANDLERS then handlers else [cb] + handlers
  }

  function Entered(menus: seq<seq<Entry>>, u: Ui, e: Entry, consumes: Answers): (r: Ui)
    requires u.InStack() && e.IsSubmenu() && u.idx + 1 < MAX_MENU_DEPTH
    ensures r.InStack()
  {
    var v := if e.EvtHdl? then
               var h := Added(u.handlers, e.cb);
               Set(u, u.Cur().(evtHdlSet := true)).(handlers := h, calls :=
                   u.calls + Delivered(u.calls, h, EVENT_APP_START, SYS_CONTEXT, consumes))
             else u;
    v.(stack := v.stack[u.idx + 1 := v.stack[u.idx + 1].(menu := e.next, selected := 0, numEntries := 0)], idx :=
        u.idx + 1)
  }

  function Left(u: Ui, consumes: Answers): (r: Ui)
    requires u.InStack() && u.idx > 0
    ensures r.InStack()
  {
    var v := u.(idx := u.idx - 1);
    if v.Cur().evtHdlSet then
      var calls := Delivered(u.calls, u.handlers, EVENT_APP_STOP, 0, consumes);
      Set(v, v.Cur().(evtHdlSet := false)).(handlers := if u.handlers == [] then [] else u.handlers[1..],
                                             calls := u.calls + calls)
    else v
  }

  /** What the source assumes of its menus: a key never opens a frame beyond the stack. */
  predicate Fits(menus: seq<seq<Entry>>, u: Ui, k: nat)
    requires u.InStack() && u.Cur().Valid(menus)
  {
    k == KEY_RIGHT && u.Cur().Selected(menus).IsSubmenu() ==> u.idx + 1 < MAX_MENU_DEPTH
  }

  /** The part of KeyHandler before the menu is drawn. */
  function Pressed(menus: seq<seq<Entry>>, u: Ui, k: nat, consumes: Answers): (r: Ui)
    requires u.InStack() && u.Cur().Valid(menus) && Fits(menus, u, k)
    ensures r.InStack()
  {
    var f, e, at := u.Cur(), u.Cur().Selected(menus), (u.Cur().menu, u.Cur().selected);
    if k == KEY_UP then
      if u.Active() then u else Set(u, f.(selected := if f.selected > 0 then f.selected - 1 else 0))
    else if k == KEY_DOWN then
      if u.Active() then u else Set(u,
          f.(selected := if f.selected >= f.numEntries - 1 then f.selected else f.selected + 1))
    else if k == KEY_LEFT then
      if u.Active() then u.(active := u.active - {at}) else if u.idx > 0 then Left(u, consumes) else u
    else if k == KEY_RIGHT then
      if e.Dropdown? && !u.Active() then u.(active := u.active + {at})
      else if e.IsSubmenu() then Entered(menus, u, e, consumes)
      else u
    else if k == KEY_SELECT && e.Exec? then u.(actions := u.actions + [e.action])
    else u
  }

  lemma PressedIsStructured(menus: seq<seq<Entry>>, u: Ui, k: nat, consumes: Answers)
    requires u.Structured(menus) && Fits(menus, u, k)
    ensures Pressed(menus, u, k, consumes).Structured(menus)
  {
    var r := Pressed(menus, u, k, consumes);
    var e := u.Cur().Selected(menus);
    if k == KEY_RIGHT && e.IsSubmenu() {
      EnteredIsStructured(menus, u, consumes);
    } else if k == KEY_LEFT && !u.Active() && u.idx > 0 {
      LeftIsStructured(menus, u, consumes);
    } else {
      forall i | 0 <= i < u.idx
        ensures u.Leads(menus, i) && r.Leads(menus, i)
      {
      }
    }
  }

  lemma EnteredIsStructured(menus: seq<seq<Entry>>, u: Ui, consumes: Answers)
    requires u.Structured(menus) && u.Cur().Selected(menus).IsSubmenu() && u.idx + 1 < MAX_MENU_DEPTH
    ensures Entered(menus, u, u.Cur().Selected(menus), consumes).Structured(menus)
  {
    var r := Entered(menus, u, u.Cur().Selected(menus), consumes);
    forall i | 0 <= i < r.idx
      ensures r.stack[i].Valid(menus) && r.Leads(menus, i)
    {
      if i < u.idx {
        assert u.Leads(menus, i);
      }
    }
  }

  lemma LeftIsStructured(menus: seq<seq<Entry>>, u: Ui, consumes: Answers)
    requires u.Structured(menus) && u.idx > 0 && !u.Active()
    ensures Left(u, consumes).Structured(menus)
  {
    var r := Left(u, consumes);
    assert u.Leads(menus, u.idx - 1);
    forall i | 0 <= i < r.idx
      ensures r.Leads(menus, i)
    {
      assert u.Leads(menus, i);
    }
  }

  /** KeyHandler */
  function Step(menus: seq<seq<Entry>>, u: Ui, k: nat, consumes: Answers): (r: Ui)
    requires u.InStack() && u.Cur().Valid(menus) && Fits(menus, u, k)
    requires Pressed(menus, u, k, consumes).Cur().menu < |menus|
    ensures r.InStack()
  {
    Drawn(menus, Pressed(menus, u, k, consumes))
  }

  lemma DrawnIsStructured(menus: seq<seq<Entry>>, u: Ui)
    requires u.Structured(menus)
    ensures Drawn(menus, u).Structured(menus)
    ensures Drawn(menus, u).Cur().numEntries == |menus[Drawn(menus, u).Cur().menu]|
  {
    var r := Drawn(menus, u);
    forall i | 0 <= i < u.idx
      ensures r.Leads(menus, i)
    {
      assert u.Leads(menus, i);
    }
  }

  /** The selection stays within its menu, and the frames stay linked, whatever key is pressed. */
  lemma StepIsStructured(menus: seq<seq<Entry>>, u: Ui, k: nat, consumes: Answers)
    requires u.Structured(menus) && Fits(menus, u, k)
    ensures Pressed(menus, u, k, consumes).Structured(menus)
    ensures Step(menus, u, k, consumes).Structured(menus)
  {
    PressedIsStructured(menus, u, k, consumes);
    DrawnIsStructured(menus, Pressed(menus, u, k, consumes));
  }

  // ---- The handlers of the open frames ----

  /** The handlers of the first `n` frames, the innermost first. */
  ghost function Open(menus: seq<seq<Entry>>, u: Ui, n: nat): seq<callback>
    requires u.Structured(menus) && n <= u.idx
  {
    if n == 0 then []
    else
      var e := u.stack[n - 1].Selected(menus);
      (if e.EvtHdl? then [e.cb] else []) + Open(menus, u, n - 1)
  }

  /** The handler list is the base handlers and, in front of them, those of the open frames. */
  ghost predicate InStep(menus: seq<seq<Entry>>, u: Ui, base: seq<callback>)
    requires u.Structured(menus)
  {
    u.handlers == Open(menus, u, u.idx) + base
  }

  lemma {:induction false} OpenSame(menus: seq<seq<Entry>>, u: Ui, v: Ui, n: nat)
    requires u.Structured(menus) && v.Structured(menus) && n <= u.idx && n <= v.idx
    requires forall i :: 0 <= i < n ==> u.stack[i].menu == v.stack[i].menu && u.stack[i].selected == v.stack[i].selected
    ensures Open(menus, u, n) == Open(menus, v, n)
  {
    if n > 0 {
      OpenSame(menus, u, v, n - 1);
    }
  }

  /** The push that does not happen: a null callback, or no free node in the pool. */
  predicate Refused(menus: seq<seq<Entry>>, u: Ui, k: nat)
    requires u.InStack() && u.Cur().Valid(menus)
  {
    var e := u.Cur().Selected(menus);
    k == KEY_RIGHT && e.EvtHdl? && (e.cb == 0 || |u.handlers| == MAX_HANDLERS)
  }

  lemma EnteredInStep(menus: seq<seq<Entry>>, u: Ui, consumes: Answers, base: seq<callback>, r: Ui)
    requires u.Structured(menus) && InStep(menus, u, base) && u.Cur().Selected(menus).IsSubmenu()
    requires u.idx + 1 < MAX_MENU_DEPTH
    requires r == Entered(menus, u, u.Cur().Selected(menus), consumes) && r.Structured(menus)
    ensures InStep(menus, r, base) <==> !Refused(menus, u, KEY_RIGHT)
  {
    var e := u.Cur().Selected(menus);
    OpenSame(menus, u, r, u.idx);
    var open := Open(menus, u, u.idx);
    assert Open(menus, r, r.idx) == (if e.EvtHdl? then [e.cb] else []) + open;
    Front(if e.EvtHdl? then e.cb else 0, open, base);
  }

  lemma Front(cb: callback, open: seq<callback>, base: seq<callback>)
    ensures ([cb] + open) + base == [cb] + (open + base) && ([] + open) + base == open + base
    ensures ([cb] + (open + base))[1..] == open + base
  {
  }

  lemma LeftInStep(menus: seq<seq<Entry>>, u: Ui, consumes: Answers, base: seq<callback>, r: Ui)
    requires u.Structured(menus) && InStep(menus, u, base) && u.idx > 0 && r == Left(u, consumes) && r.Structured(menus)
    ensures InStep(menus, r, base)
  {
    var e := u.stack[r.idx].Selected(menus);
    assert u.Leads(menus, r.idx);
    OpenSame(menus, u, r, r.idx);
    var open := Open(menus, u, r.idx);
    assert Open(menus, u, u.idx) == (if e.EvtHdl? then [e.cb] else []) + open;
    Front(if e.EvtHdl? then e.cb else 0, open, base);
  }

  /** One key keeps the handlers in step with the frames, unless its handler is refused; then it does not. */
  lemma StaysInStep(menus: seq<seq<Entry>>, u: Ui, k: nat,
                    consumes: Answers, base: seq<callback>, r: Ui)
    requires u.Structured(menus) && InStep(menus, u, base) && Fits(menus, u, k)
    requires r == Pressed(menus, u, k, consumes) && r.Structured(menus)
    ensures InStep(menus, r, base) <==> !Refused(menus, u, k)
  {
    if k == KEY_RIGHT && u.Cur().Selected(menus).IsSubmenu() {
      EnteredInStep(menus, u, consumes, base, r);
    } else if k == KEY_LEFT && !u.Active() && u.idx > 0 {
      LeftInStep(menus, u, consumes, base, r);
    } else {
      OpenSame(menus, u, r, u.idx);
    }
  }

  lemma DrawnInStep(menus: seq<seq<Entry>>, u: Ui, base: seq<callback>)
    requires u.Structured(menus) && Drawn(menus, u).Structured(menus)
    ensures InStep(menus, Drawn(menus, u), base) <==> InStep(menus, u, base)
  {
    OpenSame(menus, u, Drawn(menus, u), u.idx);
  }

  lemma StepInStep(menus: seq<seq<Entry>>, u: Ui, k: nat, consumes: Answers, base: seq<callback>)
    requires u.Structured(menus) && InStep(menus, u, base) && Fits(menus, u, k)
    ensures Pressed(menus, u, k, consumes).Structured(menus) && Step(menus, u, k, consumes).Structured(menus)
    ensures InStep(menus, Step(menus, u, k, consumes), base) <==> !Refused(menus, u, k)
  {
    var r := Pressed(menus, u, k, consumes);
    StepIsStructured(menus, u, k, consumes);
    StaysInStep(menus, u, k, consumes, base, r);
    DrawnInStep(menus, r, base);
  }

  /** Leaving a frame whose handler was refused removes the handler of a frame that is still open, or a base handler. */
  lemma RefusedThenLeft(menus: seq<seq<Entry>>, u: Ui, consumes: Answers, base: seq<callback>)
    requires u.Structured(menus) && InStep(menus, u, base) && Fits(menus, u, KEY_RIGHT) && Refused(menus, u, KEY_RIGHT)
    requires u.handlers != []
    ensures var entered := Pressed(menus, u, KEY_RIGHT, consumes);
            && entered.InStack() && entered.idx == u.idx + 1 && entered.Structured(menus) && !entered.Active()
            && Left(entered, consumes).handlers == (Open(menus, u, u.idx) + base)[1..]
            && Left(entered, consumes).idx == u.idx
  {
    PressedIsStructured(menus, u, KEY_RIGHT, consumes);
    var entered := Pressed(menus, u, KEY_RIGHT, consumes);
    assert entered.Leads(menus, u.idx);
  }

  /** A menu whose only entry has a handler and leads back to it. */
  function Recursive(cb: callback): (menus: seq<seq<Entry>>)
    requires cb != 0
    ensures WellFormed(menus)
  {
    [[EvtHdl(0, cb)]]
  }

  lemma {:induction false} EveryFrameOpensOne(cb: callback, u: Ui, n: nat)
    requires cb != 0 && u.Structured(Recursive(cb)) && n <= u.idx
    ensures |Open(Recursive(cb), u, n)| == n
  {
    if n > 0 {
      assert u.stack[n - 1].Valid(Recursive(cb));
      EveryFrameOpensOne(cb, u, n - 1);
    }
  }

  /** The pool does run full: in that menu, above one base handler, the third key to the right is refused, and a key to
      the left then removes the handler of a frame that is still open. */
  lemma PoolRunsFull(cb: callback, b: callback, consumes: Answers)
    requires cb != 0
    ensures var menus := Recursive(cb);
            var v := Right(menus, Right(menus, Root(b), consumes), consumes);
            && v.idx == 2 && |v.handlers| == MAX_HANDLERS && v.Structured(menus) && InStep(menus, v, [b])
            && Refused(menus, v, KEY_RIGHT)
            && var w := Left(Right(menus, v, consumes), consumes);
               w.Structured(menus) && w.idx == v.idx && w.handlers == v.handlers[1..] && !InStep(menus, w, [b])
  {
    var menus := Recursive(cb);
    var u := RightInStep(cb, Root(b), consumes, b);
    var v := RightInStep(cb, u, consumes, b);
    EveryFrameOpensOne(cb, v, 2);
    RefusedAgain(cb, v, consumes, b);
  }

  lemma RightInStep(cb: callback, u: Ui, consumes: Answers, b: callback) returns (r: Ui)
    requires cb != 0 && u.Structured(Recursive(cb)) && InStep(Recursive(cb), u, [b]) && u.idx + 1 < MAX_HANDLERS
    ensures r == Right(Recursive(cb), u, consumes) && r.Structured(Recursive(cb)) && InStep(Recursive(cb), r, [b])
    ensures r.idx == u.idx + 1
  {
    EveryFrameOpensOne(cb, u, u.idx);
    StepInStep(Recursive(cb), u, KEY_RIGHT, consumes, [b]);
    r := Right(Recursive(cb), u, consumes);
  }

  lemma RefusedAgain(cb: callback, v: Ui, consumes: Answers, b: callback)
    requires cb != 0 && v.Structured(Recursive(cb)) && InStep(Recursive(cb), v, [b]) && v.idx == 2
    requires Refused(Recursive(cb), v, KEY_RIGHT)
    ensures var w := Left(Right(Recursive(cb), v, consumes), consumes);
            w.Structured(Recursive(cb)) && w.idx == v.idx && w.handlers == v.handlers[1..]
                && !InStep(Recursive(cb), w, [b])
  {
    StepIsStructured(Recursive(cb), v, KEY_RIGHT, consumes);
    var r := Right(Recursive(cb), v, consumes);
    assert r.Leads(Recursive(cb), 2);
    LeftIsStructured(Recursive(cb), r, consumes);
    var w := Left(r, consumes);
    EveryFrameOpensOne(cb, v, 2);
    EveryFrameOpensOne(cb, w, 2);
  }

  /** The root of a menu, drawn, with one base handler. */
  function Root(b: callback): (u: Ui)
    ensures u.InStack()
  {
    Ui(seq(MAX_MENU_DEPTH, i => Frame(0, 0, false, 1)), 0, {}, [b], [], [])
  }

  /** A key to the right. */
  function Right(menus: seq<seq<Entry>>, u: Ui, consumes: Answers): (r: Ui)
    requires u.InStack()
    ensures r.InStack()
  {
    if u.Cur().Valid(menus) && Fits(menus, u, KEY_RIGHT) && Pressed(menus, u, KEY_RIGHT, consumes).Cur().menu < |menus|
    then Step(menus, u, KEY_RIGHT, consumes) else u
  }

  // ---- Runs ----

  /** May this key be pressed: is there a frame for it, and a node for its handler? */
  predicate Admissible(menus: seq<seq<Entry>>, u: Ui, k: nat)
    requires u.InStack() && u.Cur().Valid(menus)
  {
    Fits(menus, u, k) && !Refused(menus, u, k)
  }

  /** Every key of the run is admissible when it is pressed. */
  ghost predicate AdmissibleRun(menus: seq<seq<Entry>>, u: Ui, keys: seq<nat>, consumes: Answers)
    requires u.Structured(menus)
    decreases |keys|
  {
    keys == [] || (Admissible(menus, u, keys[0])
        && AdmissibleRun(menus, Next(menus, u, keys[0], consumes), keys[1..], consumes))
  }

  ghost function Next(menus: seq<seq<Entry>>, u: Ui, k: nat, consumes: Answers): (r: Ui)
    requires u.Structured(menus) && Fits(menus, u, k)
    ensures r.Structured(menus)
  {
    StepIsStructured(menus, u, k, consumes);
    Step(menus, u, k, consumes)
  }

  ghost function Ran(menus: seq<seq<Entry>>, u: Ui, keys: seq<nat>, consumes: Answers): (r: Ui)
    requires u.Structured(menus) && AdmissibleRun(menus, u, keys, consumes)
    ensures r.Structured(menus)
    decreases |keys|
  {
    if keys == [] then u else Ran(menus, Next(menus, u, keys[0], consumes), keys[1..], consumes)
  }

  /** For every admissible key sequence, the handlers are those of the open frames in nesting order, and the base. */
  lemma {:induction false} RunInStep(menus: seq<seq<Entry>>, u: Ui, keys: seq<nat>,
                                     consumes: Answers, base: seq<callback>)
    requires u.Structured(menus) && InStep(menus, u, base) && AdmissibleRun(menus, u, keys, consumes)
    ensures InStep(menus, Ran(menus, u, keys, consumes), base)
    decreases |keys|
  {
    if keys != [] {
      StepInStep(menus, u, keys[0], consumes, base);
      RunInStep(menus, Next(menus, u, keys[0], consumes), keys[1..], consumes, base);
    }
  }

  /** During a run the stack never gets as low as frame `d`. */
  ghost predicate Above(menus: seq<seq<Entry>>, u: Ui, keys: seq<nat>, consumes: Answers, d: nat)
    requires u.Structured(menus) && AdmissibleRun(menus, u, keys, consumes)
    decreases |keys|
  {
    u.idx > d && (keys == [] || Above(menus, Next(menus, u, keys[0], consumes), keys[1..], consumes, d))
  }

  /** A key leaves all frames but the current one alone; only the one it returns to has its flag cleared. */
  lemma OtherFrames(menus: seq<seq<Entry>>, u: Ui, k: nat, consumes: Answers, i: nat)
    requires u.Structured(menus) && Fits(menus, u, k) && i < u.idx
    ensures var r := Next(menus, u, k, consumes);
            if i < r.idx then r.stack[i] == u.stack[i]
            else r.idx == i && r.stack[i].menu == u.stack[i].menu && r.stack[i].selected == u.stack[i].selected
                 && r.stack[i].numEntries == |menus[u.stack[i].menu]|
  {
    PressedIsStructured(menus, u, k, consumes);
    DrawnIsStructured(menus, Pressed(menus, u, k, consumes));
  }

  lemma {:induction false} SuspendedFramesStay(menus: seq<seq<Entry>>, u: Ui, keys: seq<nat>,
                                               consumes: Answers, d: nat)
    requires u.Structured(menus) && AdmissibleRun(menus, u, keys, consumes) && Above(menus, u, keys, consumes, d)
    ensures Ran(menus, u, keys, consumes).idx > d
    ensures forall i :: 0 <= i <= d ==> Ran(menus, u, keys, consumes).stack[i] == u.stack[i]
    decreases |keys|
  {
    if keys != [] {
      var r := Next(menus, u, keys[0], consumes);
      forall i: nat | i <= d
        ensures r.stack[i] == u.stack[i]
      {
        OtherFrames(menus, u, keys[0], consumes, i);
      }
      SuspendedFramesStay(menus, r, keys[1..], consumes, d);
    }
  }

  /** Entering a submenu, doing anything there, and leaving it again restores the frame and the handlers. */
  lemma Restored(menus: seq<seq<Entry>>, u: Ui, keys: seq<nat>, consumes: Answers, base: seq<callback>)
    requires u.Structured(menus) && InStep(menus, u, base) && Admissible(menus, u, KEY_RIGHT)
    requires var inside := Next(menus, u, KEY_RIGHT, consumes);
             && AdmissibleRun(menus, inside, keys, consumes) && Above(menus, inside, keys, consumes, u.idx)
             && Fits(menus, Ran(menus, inside, keys, consumes), KEY_LEFT)
             && Next(menus, Ran(menus, inside, keys, consumes), KEY_LEFT, consumes).idx == u.idx
    ensures var r := Next(menus, Ran(menus, Next(menus, u, KEY_RIGHT, consumes), keys, consumes), KEY_LEFT, consumes);
            && r.handlers == u.handlers && r.Cur() == u.Cur().(numEntries := |menus[u.Cur().menu]|)
            && forall i :: 0 <= i < u.idx ==> r.stack[i] == u.stack[i]
  {
    var inside := Next(menus, u, KEY_RIGHT, consumes);
    var last := Ran(menus, inside, keys, consumes);
    var r := Next(menus, last, KEY_LEFT, consumes);
    StepInStep(menus, u, KEY_RIGHT, consumes, base);
    RunInStep(menus, inside, keys, consumes, base);
    StepInStep(menus, last, KEY_LEFT, consumes, base);
    SuspendedFramesStay(menus, inside, keys, consumes, u.idx);
    EntersFrom(menus, u, consumes);
    OtherFrames(menus, last, KEY_LEFT, consumes, u.idx);
    forall i: nat | i < u.idx
      ensures r.stack[i] == u.stack[i]
    {
      OtherFrames(menus, u, KEY_RIGHT, consumes, i);
      OtherFrames(menus, last, KEY_LEFT, consumes, i);
    }
    OpenSame(menus, u, r, u.idx);
  }

  lemma EntersFrom(menus: seq<seq<Entry>>, u: Ui, consumes: Answers)
    requires u.Structured(menus) && Fits(menus, u, KEY_RIGHT) && Next(menus, u, KEY_RIGHT, consumes).idx > u.idx
    ensures var f := Next(menus, u, KEY_RIGHT, consumes).stack[u.idx];
            f.menu == u.Cur().menu && f.selected == u.Cur().selected
  {
    PressedIsStructured(menus, u, KEY_RIGHT, consumes);
  }

  // ---- The window of visible lines ----

  /** The first visible entry. */
  function Top(selected: nat, visible: nat): (top: int) {
    if selected > visible - 1 then selected - visible + 1 else 0
  }

  function ItemsBelow(top: int, visible: nat, numEntries: nat): bool {
    if numEntries < visible then false else top + visible < numEntries
  }

  /** The selection is in the window; a line is drawn exactly when its entry is in the menu, although the test compares
      the line and not the entry; and the arrow says whether there are entries below the window. */
  lemma WindowShowsSelection(selected: nat, visible: nat, numEntries: nat)
    requires visible > 0 && selected < numEntries
    ensures var top := Top(selected, visible);
            && 0 <= top <= selected < top + visible
            && (forall i {:trigger top + i} :: 0 <= i < visible ==> (i < numEntries <==> top + i < numEntries))
            && (ItemsBelow(top, visible, numEntries) <==> top + visible <= numEntries - 1)
  {
  }
}
