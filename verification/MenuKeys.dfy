/** What each key does to a menu, stated without the code that does it. */
module MenuKeys {
  import opened EventHandler
  import opened MenuStates

  /** The menu has been drawn, so that its entries are counted. */
  ghost predicate Shown(menus: seq<seq<Entry>>, u: Ui)
    requires u.Structured(menus)
  {
    u.Cur().numEntries == |menus[u.Cur().menu]|
  }

  /** The same menu with another entry selected, and nothing else changed. */
  ghost function At(menus: seq<seq<Entry>>, u: Ui, selected: nat): Ui
    requires u.Structured(menus)
  {
    u.(stack := u.stack[u.idx := Frame(u.Cur().menu, selected, u.Cur().evtHdlSet, u.Cur().numEntries)])
  }

  function Min(a: int, b: int): int { if a < b then a else b }

  function Max(a: int, b: int): int { if a < b then b else a }

  /** Up (0x80) and down (0x81) move the selection by one and stop at the ends, and change nothing else. */
  lemma UpAndDown(menus: seq<seq<Entry>>, u: Ui, consumes: Answers)
    requires u.Structured(menus) && Shown(menus, u) && u.active == {}
    ensures MenuStates.Next(menus, u, 0x81, consumes) ==
            At(menus, u, Min(u.Cur().selected + 1, |menus[u.Cur().menu]| - 1))
    ensures MenuStates.Next(menus, u, 0x80, consumes) == At(menus, u, Max(u.Cur().selected - 1, 0))
  {
    assert u.stack == u.stack[u.idx := u.Cur()];
  }

  /** Before a menu has been drawn for the first time, a key down only draws it. */
  lemma NotShownYet(menus: seq<seq<Entry>>, u: Ui, consumes: Answers)
    requires u.Structured(menus) && u.Cur().numEntries == 0 && u.active == {}
    ensures MenuStates.Next(menus, u, 0x81, consumes) ==
            u.(stack := u.stack[u.idx := u.Cur().(numEntries := |menus[u.Cur().menu]|)])
  {
  }

  /** While a dropdown is open, left (0x82) closes it, and no other key moves the selection, enters a menu or runs an
      action. */
  lemma DropdownOpen(menus: seq<seq<Entry>>, u: Ui, consumes: Answers, k: nat)
    requires u.Structured(menus) && Shown(menus, u) && u.active != {}
    ensures Fits(menus, u, k)
    ensures MenuStates.Next(menus, u, k, consumes) == if k == 0x82 then u.(active := {}) else u
  {
    assert (u.Cur().menu, u.Cur().selected) in u.active;
    assert u.active - {(u.Cur().menu, u.Cur().selected)} == {};
  }

  /** Select (0x84) runs the action of an entry that has one, exactly once, and does nothing elsewhere. */
  lemma Select(menus: seq<seq<Entry>>, u: Ui, consumes: Answers)
    requires u.Structured(menus) && Shown(menus, u)
    ensures var e := menus[u.Cur().menu][u.Cur().selected];
            MenuStates.Next(menus, u, 0x84, consumes) == if e.Exec? then u.(actions := u.actions + [e.action]) else u
  {
  }

  /** Right (0x83) opens a dropdown, and does nothing on an entry that leads nowhere. */
  lemma RightInPlace(menus: seq<seq<Entry>>, u: Ui, consumes: Answers)
    requires u.Structured(menus) && Shown(menus, u) && u.active == {}
    requires var e := menus[u.Cur().menu][u.Cur().selected]; e.Dropdown? || e.Dummy? || e.Exec?
    ensures MenuStates.Next(menus, u, 0x83, consumes) ==
            if menus[u.Cur().menu][u.Cur().selected].Dropdown? then u.(active := {(u.Cur().menu, u.Cur().selected)})
            else u
  {
    assert {} + {(u.Cur().menu, u.Cur().selected)} == {(u.Cur().menu, u.Cur().selected)};
  }

  /** The frame of a submenu when it is entered: its first entry is selected, and its entries are counted. */
  ghost predicate AtFirstEntry(menus: seq<seq<Entry>>, r: Ui, menu: nat)
    requires r.Structured(menus)
  {
    r.Cur().menu == menu && r.Cur().selected == 0 && Shown(menus, r)
  }

  /** Right on an entry that leads to a submenu enters it. The frame it came from stays on that entry. The handler of
      the entry is in front of the others, and the first to be called: with the event that starts an application
      (0x20). */
  lemma RightEnters(menus: seq<seq<Entry>>, u: Ui, consumes: Answers)
    requires u.Structured(menus) && Shown(menus, u) && u.active == {} && Admissible(menus, u, 0x83)
    requires var e := menus[u.Cur().menu][u.Cur().selected]; e.Branch? || e.EvtHdl?
    ensures var e, r := menus[u.Cur().menu][u.Cur().selected], MenuStates.Next(menus, u, 0x83, consumes);
            && r.idx == u.idx + 1 && AtFirstEntry(menus, r, e.next) && r.active == {} && r.actions == u.actions
            && r.stack[..u.idx] == u.stack[..u.idx] && r.stack[u.idx] == u.Cur().(evtHdlSet := e.EvtHdl?)
            && (e.Branch? ==> r.handlers == u.handlers && r.calls == u.calls)
            && (e.EvtHdl? ==>
                  && r.handlers == [e.cb] + u.handlers
                  && |u.calls| < |r.calls| && r.calls[..|u.calls|] == u.calls
                  && r.calls[|u.calls|] == Call(e.cb, 0x20, SYS_CONTEXT)
                  && (consumes(u.calls + [Call(e.cb, 0x20, SYS_CONTEXT)]) ==> |r.calls| == |u.calls| + 1))
  {
    StepIsStructured(menus, u, 0x83, consumes);
    DrawnIsStructured(menus, Pressed(menus, u, 0x83, consumes));
  }

  /** Left goes back to the frame before, on the entry it was left on, or does nothing at the root. If that entry has a
      handler, the one in front is the first to be called, with the event that stops an application (0x21), and is
      gone afterwards. */
  lemma LeftReturns(menus: seq<seq<Entry>>, u: Ui, consumes: Answers)
    requires u.Structured(menus) && Shown(menus, u) && u.active == {}
    ensures var r := MenuStates.Next(menus, u, 0x82, consumes);
            if u.idx == 0 then r == u
            else
              var f := u.stack[u.idx - 1];
              && r.idx == u.idx - 1 && r.active == {} && r.actions == u.actions
              && r.stack[..r.idx] == u.stack[..r.idx]
              && r.Cur() == Frame(f.menu, f.selected, false, |menus[f.menu]|)
              && (!menus[f.menu][f.selected].EvtHdl? ==> r.handlers == u.handlers && r.calls == u.calls)
              && (menus[f.menu][f.selected].EvtHdl? && u.handlers != [] ==>
                    && r.handlers == u.handlers[1..]
                    && |u.calls| < |r.calls| && r.calls[..|u.calls|] == u.calls
                    && r.calls[|u.calls|] == Call(u.handlers[0], 0x21, 0)
                    && (consumes(u.calls + [Call(u.handlers[0], 0x21, 0)]) ==> |r.calls| == |u.calls| + 1))
  {
    if u.idx > 0 {
      assert u.Leads(menus, u.idx - 1) && u.stack[u.idx - 1].Valid(menus);
    }
    StepIsStructured(menus, u, 0x82, consumes);
    DrawnIsStructured(menus, Pressed(menus, u, 0x82, consumes));
  }

  /** No other key does anything. */
  lemma OtherKeys(menus: seq<seq<Entry>>, u: Ui, consumes: Answers, k: nat)
    requires u.Structured(menus) && Shown(menus, u) && !(0x80 <= k <= 0x84)
    ensures MenuStates.Next(menus, u, k, consumes) == u
  {
  }

  // ---- Moving along a menu ----

  function Times(k: nat, n: nat): (keys: seq<nat>)
    ensures |keys| == n
  {
    seq(n, i => k)
  }

  lemma StaysShown(menus: seq<seq<Entry>>, u: Ui, selected: nat)
    requires u.Structured(menus) && Shown(menus, u) && u.active == {} && selected < |menus[u.Cur().menu]|
    ensures var r := At(menus, u, selected);
            r.Structured(menus) && Shown(menus, r) && r.active == {} && r.Cur() == u.Cur().(selected := selected)
    ensures forall other: nat :: At(menus, At(menus, u, selected), other) == At(menus, u, other)
  {
    var r := At(menus, u, selected);
    forall i | 0 <= i < u.idx
      ensures r.Leads(menus, i)
    {
      assert u.Leads(menus, i);
    }
  }

  /** n keys down go n entries down, or to the last one. */
  lemma {:induction false} Downs(menus: seq<seq<Entry>>, u: Ui, consumes: Answers, n: nat)
    requires u.Structured(menus) && Shown(menus, u) && u.active == {}
    ensures AdmissibleRun(menus, u, Times(0x81, n), consumes)
    ensures Ran(menus, u, Times(0x81, n), consumes) ==
            At(menus, u, Min(u.Cur().selected + n, |menus[u.Cur().menu]| - 1))
    decreases n
  {
    if n > 0 {
      var next := Min(u.Cur().selected + 1, |menus[u.Cur().menu]| - 1);
      UpAndDown(menus, u, consumes);
      StaysShown(menus, u, next);
      Downs(menus, At(menus, u, next), consumes, n - 1);
      assert Times(0x81, n)[1..] == Times(0x81, n - 1);
    } else {
      assert u.stack[u.idx := u.Cur()] == u.stack;
    }
  }

  /** n keys up go n entries up, or to the first one. */
  lemma {:induction false} Ups(menus: seq<seq<Entry>>, u: Ui, consumes: Answers, n: nat)
    requires u.Structured(menus) && Shown(menus, u) && u.active == {}
    ensures AdmissibleRun(menus, u, Times(0x80, n), consumes)
    ensures Ran(menus, u, Times(0x80, n), consumes) == At(menus, u, Max(u.Cur().selected - n, 0))
    decreases n
  {
    if n > 0 {
      var next := Max(u.Cur().selected - 1, 0);
      UpAndDown(menus, u, consumes);
      StaysShown(menus, u, next);
      Ups(menus, At(menus, u, next), consumes, n - 1);
      assert Times(0x80, n)[1..] == Times(0x80, n - 1);
    } else {
      assert u.stack[u.idx := u.Cur()] == u.stack;
    }
  }

  /** From the top n keys down reach entry n, or the last one, and as many keys up are back at the top with everything
      as it was. */
  lemma DownAndUpAgain(menus: seq<seq<Entry>>, u: Ui, consumes: Answers, n: nat)
    requires u.Structured(menus) && Shown(menus, u) && u.active == {} && u.Cur().selected == 0
    ensures AdmissibleRun(menus, u, Times(0x81, n), consumes)
    ensures var there := Ran(menus, u, Times(0x81, n), consumes);
            && there.Cur().selected == Min(n, |menus[u.Cur().menu]| - 1)
            && AdmissibleRun(menus, there, Times(0x80, n), consumes)
            && Ran(menus, there, Times(0x80, n), consumes) == u
  {
    var last := Min(n, |menus[u.Cur().menu]| - 1);
    Downs(menus, u, consumes, n);
    StaysShown(menus, u, last);
    Ups(menus, At(menus, u, last), consumes, n);
    assert u.stack[u.idx := u.Cur()] == u.stack;
  }
}
