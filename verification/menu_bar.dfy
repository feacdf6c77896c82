/** The menu bar (`src/components/MenuBar.tsx`): window commands layered on
    the store.  Close, Minimize, Zoom and New Window act on the first window
    in list order that is not minimized, which need not be the focused one.
    `Date.now()` is the parameter `now`; the centred position of "About This
    Mac" is computed from the browser viewport in floating point and is
    passed in as `Env.aboutAt`. */
module MenuBar {
  import opened Seqs
  import opened Strings
  import opened WindowStore

  /** `w` at index `k` is the first window in list order that is not minimized. */
  predicate IsFront(ws: seq<Window>, k: int) {
    0 <= k < |ws| && !ws[k].minimized && forall j :: 0 <= j < k ==> ws[j].minimized
  }

  /** `windows.find(w => !w.minimized)`. */
  function FrontWindow(ws: seq<Window>): (r: Option<Window>)
    ensures r.None? <==> forall j :: 0 <= j < |ws| ==> ws[j].minimized
    ensures r.Some? ==> exists k :: IsFront(ws, k) && ws[k] == r.value
  {
    Find((w: Window) => !w.minimized, ws)
  }

  /** There is at most one front index. */
  lemma FrontUnique(ws: seq<Window>, k: int, k': int)
    requires IsFront(ws, k) && IsFront(ws, k')
    ensures k == k'
  {
  }

  /** The front window is the one at the front index. */
  lemma FrontWindowAt(ws: seq<Window>, k: int)
    requires IsFront(ws, k)
    ensures FrontWindow(ws) == Some(ws[k])
  {
    var r := FrontWindow(ws);
    assert r.Some?;
    var k' :| IsFront(ws, k') && ws[k'] == r.value;
    FrontUnique(ws, k, k');
  }

  /** `"<prefix>-<now>"`, the shape of every generated window id. */
  function StampedId(prefix: string, now: nat): (r: string)
    ensures prefix + "-" <= r
    ensures |r| > |prefix| + 1 && r[|prefix| + 1..] == NatToString(now)
  {
    prefix + "-" + NatToString(now)
  }

  /** Ids stamped in different milliseconds differ; only the same
      millisecond can produce the same id twice. */
  lemma StampedIdsDiffer(prefix: string, now: nat, now': nat)
    ensures StampedId(prefix, now) == StampedId(prefix, now') <==> now == now'
  {
    if StampedId(prefix, now) == StampedId(prefix, now') {
      NatToStringInjective(now, now');
    }
  }

  /** The record New Window derives from the front window. */
  function CloneOf(t: Window, now: nat): (w: Window)
    ensures w.kind == t.kind && w.title == t.title && w.size == t.size
    ensures w.position == Point(t.position.x + 30, t.position.y + 30)
    ensures !w.minimized && !w.maximized && w.componentCode.None?
    ensures w.id == StampedId(t.kind, now)
  {
    Window(StampedId(t.kind, now), t.title, t.kind, false, false,
           Point(t.position.x + 30, t.position.y + 30), t.size, None)
  }

  /** New Window: a copy of the front window, offset by 30 on both axes,
      appended and focused; nothing when every window is minimized. */
  function NewWindow(s: Store, now: nat): (r: Store)
    ensures (forall j :: 0 <= j < |s.windows| ==> s.windows[j].minimized) ==> r == s
    ensures forall k :: IsFront(s.windows, k) ==>
      |r.windows| == |s.windows| + 1 &&
      r.windows[..|s.windows|] == s.windows &&
      r.windows[|s.windows|] == CloneOf(s.windows[k], now) &&
      r.activeWindow == Some(r.windows[|s.windows|].id)
    ensures r == s.(windows := r.windows, activeWindow := r.activeWindow)
  {
    match FrontWindow(s.windows)
    case None => s
    case Some(t) =>
      assert forall k :: IsFront(s.windows, k) ==> s.windows[k] == t by {
        forall k | IsFront(s.windows, k) ensures s.windows[k] == t { FrontWindowAt(s.windows, k); }
      }
      AddWindow(s, CloneOf(t, now))
  }

  /** Close Window: removes every window sharing the front window's id. */
  function CloseWindow(s: Store): (r: Store)
    ensures (forall j :: 0 <= j < |s.windows| ==> s.windows[j].minimized) ==> r == s
    ensures forall k :: IsFront(s.windows, k) ==> r == RemoveWindow(s, s.windows[k].id)
  {
    match FrontWindow(s.windows)
    case None => s
    case Some(t) =>
      assert forall k :: IsFront(s.windows, k) ==> s.windows[k] == t by {
        forall k | IsFront(s.windows, k) ensures s.windows[k] == t { FrontWindowAt(s.windows, k); }
      }
      RemoveWindow(s, t.id)
  }

  /** Minimize: minimizes the front window (and every window sharing its id). */
  function MinimizeFront(s: Store): (r: Store)
    ensures (forall j :: 0 <= j < |s.windows| ==> s.windows[j].minimized) ==> r == s
    ensures forall k :: IsFront(s.windows, k) ==> r == MinimizeWindow(s, s.windows[k].id)
  {
    match FrontWindow(s.windows)
    case None => s
    case Some(t) =>
      assert forall k :: IsFront(s.windows, k) ==> s.windows[k] == t by {
        forall k | IsFront(s.windows, k) ensures s.windows[k] == t { FrontWindowAt(s.windows, k); }
      }
      MinimizeWindow(s, t.id)
  }

  /** Zoom: toggles maximize on the front window (and every window sharing its id). */
  function ZoomFront(s: Store): (r: Store)
    ensures (forall j :: 0 <= j < |s.windows| ==> s.windows[j].minimized) ==> r == s
    ensures forall k :: IsFront(s.windows, k) ==> r == MaximizeWindow(s, s.windows[k].id)
  {
    match FrontWindow(s.windows)
    case None => s
    case Some(t) =>
      assert forall k :: IsFront(s.windows, k) ==> s.windows[k] == t by {
        forall k | IsFront(s.windows, k) ensures s.windows[k] == t { FrontWindowAt(s.windows, k); }
      }
      MaximizeWindow(s, t.id)
  }

  /** The window commands look at list order only: the focus pointer does
      not change which window they act on. */
  lemma CommandsIgnoreFocus(s: Store, focus: Option<string>, now: nat)
    ensures CloseWindow(s.(activeWindow := focus)).windows == CloseWindow(s).windows
    ensures MinimizeFront(s.(activeWindow := focus)).windows == MinimizeFront(s).windows
    ensures ZoomFront(s.(activeWindow := focus)).windows == ZoomFront(s).windows
    ensures NewWindow(s.(activeWindow := focus), now).windows == NewWindow(s, now).windows
  {
  }

  /** The ids of a snapshot of the window list, in order. */
  function IdsOf(ws: seq<Window>): (r: seq<string>)
    ensures |r| == |ws|
    ensures forall i :: 0 <= i < |ws| ==> r[i] == ws[i].id
  {
    seq(|ws|, i requires 0 <= i < |ws| => ws[i].id)
  }

  /** `ids.forEach(removeWindow)`: each call sees the previous one's result. */
  function RemoveEach(s: Store, ids: seq<string>): (r: Store)
    ensures forall w :: w in r.windows <==> w in s.windows && w.id !in ids
    ensures forall w :: multiset(r.windows)[w] == if w.id in ids then 0 else multiset(s.windows)[w]
    ensures IsSubsequence(r.windows, s.windows)
    ensures r.activeWindow == if s.activeWindow.Some? && s.activeWindow.value in ids then None else s.activeWindow
    ensures r.user == s.user && r.preferences == s.preferences && r.showAuth == s.showAuth
    decreases |ids|
  {
    if |ids| == 0 then
      SubsequenceRefl(s.windows);
      s
    else
      var t := RemoveWindow(s, ids[0]);
      var r := RemoveEach(t, ids[1..]);
      SubsequenceTrans(r.windows, t.windows, s.windows);
      assert forall x :: x in ids <==> x == ids[0] || x in ids[1..];
      r
  }

  /** Close All: removes every window of the snapshot, leaving none; a valid
      focus pointer is cleared with them. */
  function CloseAll(s: Store): (r: Store)
    ensures r.windows == []
    ensures FocusValid(s) ==> r.activeWindow.None?
    ensures !FocusValid(s) ==> r.activeWindow == s.activeWindow
    ensures r == s.(windows := [], activeWindow := r.activeWindow)
  {
    var ids := IdsOf(s.windows);
    var r := RemoveEach(s, ids);
    assert forall w :: w in s.windows ==> w.id in ids by {
      forall w | w in s.windows ensures w.id in ids {
        var i :| 0 <= i < |s.windows| && s.windows[i] == w;
        assert ids[i] == w.id;
      }
    }
    HeadIsMember(r.windows);
    r
  }

  /** `ids.forEach(minimizeWindow)`: minimizes every window whose id is listed. */
  function MinimizeEach(s: Store, ids: seq<string>): (r: Store)
    ensures |r.windows| == |s.windows|
    ensures forall i :: 0 <= i < |s.windows| ==>
      r.windows[i] == s.windows[i].(minimized := s.windows[i].minimized || s.windows[i].id in ids)
    ensures r.activeWindow == s.activeWindow
    ensures r.user == s.user && r.preferences == s.preferences && r.showAuth == s.showAuth
    decreases |ids|
  {
    if |ids| == 0 then s
    else
      var r := MinimizeEach(MinimizeWindow(s, ids[0]), ids[1..]);
      assert forall x :: x in ids <==> x == ids[0] || x in ids[1..];
      r
  }

  /** "Bring All to Front" minimizes every window and changes nothing else. */
  function BringAllToFront(s: Store): (r: Store)
    ensures |r.windows| == |s.windows|
    ensures forall i :: 0 <= i < |s.windows| ==> r.windows[i] == s.windows[i].(minimized := true)
    ensures r == s.(windows := r.windows)
  {
    var ids := IdsOf(s.windows);
    var r := MinimizeEach(s, ids);
    assert forall i :: 0 <= i < |s.windows| ==> s.windows[i].id in ids by {
      forall i | 0 <= i < |s.windows| ensures s.windows[i].id in ids { assert ids[i] == s.windows[i].id; }
    }
    r
  }

  /** `handleRestrictedAction`: without a user it raises the sign-in prompt
      and refuses; with a user it allows and changes nothing. */
  function RestrictedAction(s: Store): (r: (Store, bool))
    ensures r.1 <==> s.user.Some?
    ensures s.user.None? ==> r.0 == s.(showAuth := true)
    ensures s.user.Some? ==> r.0 == s
  {
    if s.user.None? then (SetShowAuth(s, true), false) else (s, true)
  }

  /** System Settings: restricted; opens a preferences window at (100,100),
      800 by 600, when a user is signed in. */
  function SystemSettings(s: Store, now: nat): (r: Store)
    ensures s.user.None? ==> r == s.(showAuth := true)
    ensures s.user.Some? ==>
      |r.windows| == |s.windows| + 1 && r.windows[..|s.windows|] == s.windows &&
      r.windows[|s.windows|] == Window(StampedId("preferences", now), "System Preferences", "preferences",
                                       false, false, Point(100, 100), Size(800, 600), None) &&
      r.activeWindow == Some(StampedId("preferences", now)) &&
      r == s.(windows := r.windows, activeWindow := r.activeWindow)
  {
    var (t, allowed) := RestrictedAction(s);
    if allowed then
      AddWindow(t, Window(StampedId("preferences", now), "System Preferences", "preferences",
                          false, false, Point(100, 100), Size(800, 600), None))
    else t
  }

  /** About This Mac: a 500 by 300 `custom` window at the given centred position. */
  function About(s: Store, now: nat, at: Point): (r: Store)
    ensures |r.windows| == |s.windows| + 1 && r.windows[..|s.windows|] == s.windows
    ensures r.windows[|s.windows|] ==
            Window(StampedId("about", now), "About This Mac", "custom", false, false, at, Size(500, 300), None)
    ensures r.activeWindow == Some(StampedId("about", now))
    ensures r == s.(windows := r.windows, activeWindow := r.activeWindow)
  {
    AddWindow(s, Window(StampedId("about", now), "About This Mac", "custom", false, false,
                        at, Size(500, 300), None))
  }

  /** Closing the About window again restores the window list, provided no
      earlier window carried its id. */
  lemma AboutThenClose(s: Store, now: nat, at: Point)
    requires !HasId(s.windows, StampedId("about", now))
    ensures RemoveWindow(About(s, now, at), StampedId("about", now)).windows == s.windows
  {
    var id := StampedId("about", now);
    var w := About(s, now, at).windows[|s.windows|];
    var keep := (v: Window) => v.id != id;
    assert About(s, now, at).windows == s.windows + [w];
    FilterConcat(keep, s.windows, [w]);
    FilterKeepsAll(keep, s.windows);
    assert Filter(keep, [w]) == [];
  }

  /** Restart reloads the page, which rebuilds the store from scratch: no
      windows, no focus, no user, the default preferences, no sign-in
      prompt. */
  function Restart(s: Store): (r: Store)
    ensures r.windows == [] && r.activeWindow.None? && r.user.None? && !r.showAuth
    ensures r.preferences == Preferences(DefaultBackground, Dark)
  {
    Initial()
  }

  /** Nothing done before a restart survives it. */
  lemma RestartForgetsHistory(s: Store, ops: seq<Op>)
    ensures Restart(Run(s, ops)) == Restart(Initial())
    ensures FocusValid(Restart(s))
  {
  }

  /** Shut Down, Lock Screen and Log Out end the session; the auth listener
      then stores the absent session's user, null.  Nothing else changes:
      the listener lowers the sign-in flag only when a user arrives. */
  function LogOut(s: Store): (r: Store)
    ensures r.user.None? && r.(user := s.user) == s
  {
    SetUser(s, None)
  }

  /** After signing out, restricted items refuse and raise the sign-in
      prompt, and System Settings opens nothing. */
  lemma LogOutRestricts(s: Store, now: nat)
    ensures !RestrictedAction(LogOut(s)).1
    ensures RestrictedAction(LogOut(s)).0 == LogOut(s).(showAuth := true)
    ensures SystemSettings(LogOut(s), now).windows == s.windows
  {
  }

  /** What a menu item does.  `Outside` covers actions whose effect lies
      outside the store: sleep dimming, clipboard commands, full screen and
      the help links. */
  datatype Action =
    | AboutAction
    | SystemSettingsAction
    | NewWindowAction
    | CloseWindowAction
    | CloseAllAction
    | MinimizeAction
    | ZoomAction
    | BringAllToFrontAction
    | LogOutAction
    | RestartAction
    | NoAction
    | Outside

  datatype Item = Item(name: string, action: Action, disabled: bool) | Separator

  /** The inputs an action reads from its surroundings. */
  datatype Env = Env(now: nat, aboutAt: Point)

  function Perform(a: Action, s: Store, env: Env): Store {
    match a
    case AboutAction => About(s, env.now, env.aboutAt)
    case SystemSettingsAction => SystemSettings(s, env.now)
    case NewWindowAction => NewWindow(s, env.now)
    case CloseWindowAction => CloseWindow(s)
    case CloseAllAction => CloseAll(s)
    case MinimizeAction => MinimizeFront(s)
    case ZoomAction => ZoomFront(s)
    case BringAllToFrontAction => BringAllToFront(s)
    case LogOutAction => LogOut(s)
    case RestartAction => Restart(s)
    case NoAction => s
    case Outside => s
  }

  /** Selecting an item: separators and disabled items have no handler. */
  function Select(item: Item, s: Store, env: Env): (r: Store)
    ensures item.Separator? || item.disabled ==> r == s
    ensures item.Item? && !item.disabled ==> r == Perform(item.action, s, env)
  {
    if item.Separator? || item.disabled then s else Perform(item.action, s, env)
  }

  const AppleMenu: seq<Item> := [
    Item("About This Mac", AboutAction, false),
    Item("System Settings...", SystemSettingsAction, false),
    Separator,
    Item("Sleep", Outside, false),
    Item("Restart...", RestartAction, false),
    Item("Shut Down...", LogOutAction, false),
    Separator,
    Item("Lock Screen", LogOutAction, false),
    Item("Log Out...", LogOutAction, false)
  ]

  const FileMenu: seq<Item> := [
    Item("New Window", NewWindowAction, false),
    Separator,
    Item("Close Window", CloseWindowAction, false),
    Item("Close All", CloseAllAction, false),
    Separator,
    Item("Save", NoAction, true),
    Item("Save As...", NoAction, true)
  ]

  const EditMenu: seq<Item> := [
    Item("Undo", Outside, false),
    Item("Redo", Outside, false),
    Separator,
    Item("Cut", Outside, false),
    Item("Copy", Outside, false),
    Item("Paste", Outside, false),
    Item("Select All", Outside, false)
  ]

  const ViewMenu: seq<Item> := [
    Item("Minimize", MinimizeAction, false),
    Item("Zoom", ZoomAction, false),
    Separator,
    Item("Enter Full Screen", Outside, false)
  ]

  const WindowMenu: seq<Item> := [
    Item("Minimize", MinimizeAction, false),
    Item("Zoom", ZoomAction, false),
    Separator,
    Item("Bring All to Front", BringAllToFrontAction, false)
  ]

  const HelpMenu: seq<Item> := [
    Item("MacOS Clone Help", Outside, false),
    Separator,
    Item("Report an Issue...", Outside, false)
  ]

  const Menus: seq<seq<Item>> := [AppleMenu, FileMenu, EditMenu, ViewMenu, WindowMenu, HelpMenu]

  /** The only disabled items are Save and Save As, and selecting them
      leaves the store as it was. */
  lemma DisabledItemsAreInert(s: Store, env: Env)
    ensures forall m, i :: 0 <= m < |Menus| && 0 <= i < |Menus[m]| && Menus[m][i].Item? && Menus[m][i].disabled ==>
      (Menus[m][i].name == "Save" || Menus[m][i].name == "Save As...") && Select(Menus[m][i], s, env) == s
  {
  }

  /** The centred title: the first window's title whatever has focus;
      nothing when there is no window. */
  function Title(s: Store): (r: Option<string>)
    ensures r.None? <==> |s.windows| == 0
    ensures r.Some? ==> r.value == s.windows[0].title
  {
    if |s.windows| > 0 then Some(s.windows[0].title) else None
  }

  /** Opening a window, which focuses it, does not change the title while
      another window is open. */
  lemma TitleIgnoresNewFocus(s: Store, w: Window)
    requires |s.windows| > 0
    ensures Title(AddWindow(s, w)) == Title(s)
    ensures AddWindow(s, w).activeWindow == Some(w.id)
  {
    assert AddWindow(s, w).windows[0] == AddWindow(s, w).windows[..|s.windows|][0];
  }
}
