/** The menu object: its frames are updated in place, and its event handlers come and go with them. */
module Menu {
  import opened EventHandler
  import opened MenuStates
  import MenuKeys

  class Menu {
    const menus: seq<seq<Entry>>
    const evt: EventHandlers
    const stack: array<Frame>
    var cur: nat
    var stackIdx: nat
    var active: set<(nat, nat)>
    var actions: seq<nat>

    ghost predicate Formed()
      reads this, evt, evt.cbs, evt.nexts, stack
    {
      evt.Valid() && stack.Length == MAX_MENU_DEPTH && cur == stackIdx < MAX_MENU_DEPTH
    }

    ghost function View(): Ui
      requires Formed()
      reads this, evt, evt.cbs, evt.nexts, stack
    {
      Ui(stack[..], stackIdx, active, evt.Handlers(), evt.log, actions)
    }

    ghost predicate Valid()
      reads this, evt, evt.cbs, evt.nexts, stack
    {
      Formed() && View().Structured(menus)
    }

    /** A menu in zeroed memory, at its root. */
    constructor (menus: seq<seq<Entry>>, root: nat, evt: EventHandlers)
      requires evt.Valid() && WellFormed(menus) && root < |menus|
      ensures Valid() && this.menus == menus && this.evt == evt && fresh(stack)
      ensures View() == Ui(seq(MAX_MENU_DEPTH, i => Frame(if i == 0 then root else 0, 0, false, 0)), 0, {},
          evt.Handlers(), evt.log, [])
    {
      this.menus, this.evt := menus, evt;
      stack := new Frame[MAX_MENU_DEPTH](i => Frame(if i == 0 then root else 0, 0, false, 0));
      cur, stackIdx, active, actions := 0, 0, {}, [];
    }

    method SetCur(f: Frame)
      requires Formed()
      modifies stack
      ensures Formed() && View() == Set(old(View()), f)
    {
      ghost var was := stack[..];
      stack[cur] := f;
      assert stack[..] == was[cur := f];
    }

    /** DrawMenu: counts the entries of a menu it has not drawn before, and works out the window. */
    method DrawMenu(visibleLines: nat) returns (top: int, itemsBelow: bool)
      requires Valid()
      modifies stack
      ensures Valid() && View() == Drawn(menus, old(View()))
      ensures top == Top(stack[cur].selected, visibleLines)
      ensures itemsBelow == ItemsBelow(top, visibleLines, |menus[stack[cur].menu]|)
    {
      ghost var u := View();
      DrawnIsStructured(menus, u);
      assert stack[cur] == u.Cur();
      if stack[cur].numEntries == 0 {
        var cnt := 0;
        while cnt < |menus[stack[cur].menu]|
          invariant 0 <= cnt <= |menus[stack[cur].menu]|
        {
          cnt := cnt + 1;
        }
        SetCur(stack[cur].(numEntries := cnt));
      }
      top := if stack[cur].selected > visibleLines - 1 then stack[cur].selected - visibleLines + 1 else 0;
      itemsBelow := if stack[cur].numEntries < visibleLines then false else top + visibleLines < stack[cur].numEntries;
    }

    /** KeyHandler. `visibleLines` is the number of lines when the menu is drawn, after a
        handler may have changed it. */
    method KeyHandler(k: nat, visibleLines: nat) returns (top: int, itemsBelow: bool)
      requires Valid() && Fits(menus, View(), k)
      modifies this, stack, evt`head, evt`nodes, evt`log, evt.cbs, evt.nexts
      ensures Pressed(menus, old(View()), k, evt.consumes).Structured(menus)
      ensures Valid() && View() == Step(menus, old(View()), k, evt.consumes)
      ensures old(active) == {} && old(MenuKeys.Shown(menus, View())) && (k == 0x80 || k == 0x81) ==>
                stack[cur].selected ==
                if k == 0x80 then MenuKeys.Max(old(stack[cur].selected) - 1, 0)
                else MenuKeys.Min(old(stack[cur].selected) + 1, |menus[old(stack[cur].menu)]| - 1)
      ensures top == Top(stack[cur].selected, visibleLines)
      ensures itemsBelow == ItemsBelow(top, visibleLines, |menus[stack[cur].menu]|)
    {
      ghost var u := View();
      PressedIsStructured(menus, u, k, evt.consumes);
      if active == {} && MenuKeys.Shown(menus, u) {
        MenuKeys.UpAndDown(menus, u, evt.consumes);
      }
      Press(k);
      top, itemsBelow := DrawMenu(visibleLines);
    }

    method Press(k: nat)
      requires Valid() && Fits(menus, View(), k)
      modifies this, stack, evt`head, evt`nodes, evt`log, evt.cbs, evt.nexts
      ensures Formed() && View() == Pressed(menus, old(View()), k, evt.consumes)
    {
      var f := stack[cur];
      assert f == View().Cur();
      var e := menus[f.menu][f.selected];
      var isActive := (f.menu, f.selected) in active;
      if k == KEY_UP {
        if !isActive {
          SetCur(f.(selected := if f.selected > 0 then f.selected - 1 else 0));
        }
      } else if k == KEY_DOWN {
        if !isActive {
          SetCur(f.(selected := if f.selected >= f.numEntries - 1 then f.selected else f.selected + 1));
        }
      } else if k == KEY_LEFT {
        if isActive {
          active := active - {(f.menu, f.selected)};
        } else if stackIdx > 0 {
          Leave();
        }
      } else if k == KEY_RIGHT {
        if e.Dropdown? && !isActive {
          active := active + {(f.menu, f.selected)};
        } else if e.IsSubmenu() {
          Enter(e);
        }
      } else if k == KEY_SELECT {
        if e.Exec? {
          actions := actions + [e.action];
        }
      }
    }

    /** The previous menu is popped off the stack, and its handler off the list. */
    method Leave()
      requires Formed() && stackIdx > 0
      modifies this`cur, this`stackIdx, stack, evt`head, evt`nodes, evt`log, evt.cbs, evt.nexts
      ensures Formed() && View() == Left(old(View()), evt.consumes)
    {
      stackIdx := stackIdx - 1;
      cur := stackIdx;
      if stack[cur].evtHdlSet {
        SetCur(stack[cur].(evtHdlSet := false));
        evt.SyncEvent(EVENT_APP_STOP, 0);
        evt.PopHandler();
      }
    }

    /** The current menu is saved, and the submenu becomes the current one. */
    method Enter(e: Entry)
      requires Formed() && e.IsSubmenu() && stackIdx + 1 < MAX_MENU_DEPTH
      modifies this`cur, this`stackIdx, stack, evt`head, evt`nodes, evt`log, evt.cbs, evt.nexts
      ensures Formed() && View() == Entered(menus, old(View()), e, evt.consumes)
    {
      hide Delivered, IsList;
      if e.EvtHdl? {
        SetCur(stack[cur].(evtHdlSet := true));
        evt.AddHandler(e.cb);
        evt.SyncEvent(EVENT_APP_START, SYS_CONTEXT);
      }
      stackIdx := stackIdx + 1;
      cur := stackIdx;
      SetCur(stack[cur].(menu := e.next, selected := 0, numEntries := 0));
    }
  }
}
