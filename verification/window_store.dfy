/** The shared desktop store (`src/store/useStore.ts`): the ordered list of
    open windows, the focus pointer, the signed-in user, the user's
    preferences and the "show sign-in" flag, with the transitions the
    components call.  The backend upsert behind `setBackground` is reduced
    to its outcome, a boolean parameter. */
module WindowStore {
  import opened Seqs

  datatype Point = Point(x: int, y: int)
  datatype Size = Size(width: int, height: int)

  /** One simulated application instance (`src/types/index.ts`).  `kind` is
      the `type` field; it is a string because the dock writes its app ids
      into it unchecked, `spotlight` included. */
  datatype Window = Window(
    id: string,
    title: string,
    kind: string,
    minimized: bool,
    maximized: bool,
    position: Point,
    size: Size,
    componentCode: Option<string>)

  /** The `type` values the record's declared union admits. */
  predicate DeclaredKind(k: string) {
    k == "finder" || k == "terminal" || k == "editor" || k == "preferences" ||
    k == "appstore" || k == "custom"
  }

  datatype Theme = Light | Dark
  datatype Preferences = Preferences(backgroundUrl: string, theme: Theme)
  datatype User = User(id: string, email: string)

  datatype Store = Store(
    windows: seq<Window>,
    activeWindow: Option<string>,
    user: Option<User>,
    preferences: Preferences,
    showAuth: bool)

  const DefaultBackground: string :=
    "https://images.unsplash.com/photo-1520769669658-f07657f5a307?auto=format&fit=crop&q=80&w=3440&h=1920"

  /** Some window in `ws` carries `id`. */
  predicate HasId(ws: seq<Window>, id: string) {
    exists w :: w in ws && w.id == id
  }

  /** The focus pointer is null or names a live window. */
  predicate FocusValid(s: Store) {
    s.activeWindow.None? || HasId(s.windows, s.activeWindow.value)
  }

  /** The ids of the minimized windows. */
  function MinimizedIds(ws: seq<Window>): set<string> {
    set w | w in ws && w.minimized :: w.id
  }

  /** Position-wise the same ids. */
  predicate SameIds(a: seq<Window>, b: seq<Window>) {
    |a| == |b| && forall i :: 0 <= i < |a| ==> a[i].id == b[i].id
  }

  /** Lists with the same ids position-wise carry the same ids. */
  lemma SameIdsKeepHasId(a: seq<Window>, b: seq<Window>)
    requires SameIds(a, b)
    ensures forall id :: HasId(a, id) ==> HasId(b, id)
  {
    forall id | HasId(a, id) ensures HasId(b, id) {
      var w :| w in a && w.id == id;
      var i :| 0 <= i < |a| && a[i] == w;
      assert b[i] in b;
    }
  }

  /** The store as created: no windows, no focus, signed out, the Iceland
      beach background on the dark theme. */
  function Initial(): (s: Store)
    ensures |s.windows| == 0 && FocusValid(s)
    ensures s.user.None? && !s.showAuth
    ensures s.preferences.theme == Dark && s.preferences.backgroundUrl == DefaultBackground
  {
    Store([], None, None, Preferences(DefaultBackground, Dark), false)
  }

  function SetUser(s: Store, u: Option<User>): (r: Store)
    ensures r.user == u && r.(user := s.user) == s
  {
    s.(user := u)
  }

  function SetShowAuth(s: Store, show: bool): (r: Store)
    ensures r.showAuth == show && r.(showAuth := s.showAuth) == s
  {
    s.(showAuth := show)
  }

  /** `addWindow`: appends the record and focuses it; ids are not checked. */
  function AddWindow(s: Store, w: Window): (r: Store)
    ensures |r.windows| == |s.windows| + 1
    ensures r.windows[..|s.windows|] == s.windows
    ensures r.windows[|s.windows|] == w
    ensures r.activeWindow == Some(w.id)
    ensures FocusValid(r)
    ensures r.user == s.user && r.preferences == s.preferences && r.showAuth == s.showAuth
  {
    assert w in s.windows + [w];
    s.(windows := s.windows + [w], activeWindow := Some(w.id))
  }

  /** The windows that do not carry `id`, in order. */
  function Others(ws: seq<Window>, id: string): (r: seq<Window>)
    ensures forall w :: w in r ==> w in ws && w.id != id
    ensures forall w :: w in ws && w.id != id ==> w in r
    ensures IsSubsequence(r, ws)
    ensures forall w :: multiset(r)[w] == if w.id == id then 0 else multiset(ws)[w]
    ensures !HasId(ws, id) ==> r == ws
  {
    var keep := (w: Window) => w.id != id;
    FilterKeepsAll(keep, ws);
    FilterIsSubsequence(keep, ws);
    FilterCount(keep, ws);
    Filter(keep, ws)
  }

  /** `removeWindow`: drops every window carrying `id`, and the focus with it. */
  function RemoveWindow(s: Store, id: string): (r: Store)
    ensures forall w :: w in r.windows ==> w in s.windows && w.id != id
    ensures forall w :: w in s.windows && w.id != id ==> w in r.windows
    ensures IsSubsequence(r.windows, s.windows)
    ensures forall w :: multiset(r.windows)[w] == if w.id == id then 0 else multiset(s.windows)[w]
    ensures !HasId(s.windows, id) ==> r.windows == s.windows
    ensures s.activeWindow == Some(id) ==> r.activeWindow.None?
    ensures s.activeWindow != Some(id) ==> r.activeWindow == s.activeWindow
    ensures FocusValid(s) ==> FocusValid(r)
    ensures r.user == s.user && r.preferences == s.preferences && r.showAuth == s.showAuth
  {
    var kept := Others(s.windows, id);
    var focus := if s.activeWindow == Some(id) then None else s.activeWindow;
    assert FocusValid(s) && focus.Some? ==> HasId(kept, focus.value) by {
      if FocusValid(s) && focus.Some? {
        var w :| w in s.windows && w.id == focus.value;
        assert w in kept;
      }
    }
    Store(kept, focus, s.user, s.preferences, s.showAuth)
  }

  /** `setActiveWindow`: stores any id, live or not. */
  function SetActiveWindow(s: Store, id: Option<string>): (r: Store)
    ensures r.activeWindow == id && r.(activeWindow := s.activeWindow) == s
    ensures id.None? || HasId(s.windows, id.value) ==> FocusValid(r)
  {
    s.(activeWindow := id)
  }

  /** `minimizeWindow`: sets the flag on every window carrying `id`. */
  function MinimizeWindow(s: Store, id: string): (r: Store)
    ensures |r.windows| == |s.windows|
    ensures forall i :: 0 <= i < |s.windows| && s.windows[i].id == id ==> r.windows[i].minimized
    ensures forall i :: 0 <= i < |s.windows| && s.windows[i].id != id ==> r.windows[i] == s.windows[i]
    ensures forall i :: 0 <= i < |s.windows| ==> r.windows[i].(minimized := s.windows[i].minimized) == s.windows[i]
    ensures r.activeWindow == s.activeWindow
    ensures FocusValid(s) ==> FocusValid(r)
    ensures r.user == s.user && r.preferences == s.preferences && r.showAuth == s.showAuth
  {
    var ws := seq(|s.windows|, i requires 0 <= i < |s.windows| =>
      if s.windows[i].id == id then s.windows[i].(minimized := true) else s.windows[i]);
    SameIdsKeepHasId(s.windows, ws);
    s.(windows := ws)
  }

  /** `maximizeWindow`: toggles the flag on every window carrying `id`. */
  function MaximizeWindow(s: Store, id: string): (r: Store)
    ensures |r.windows| == |s.windows|
    ensures forall i :: 0 <= i < |s.windows| && s.windows[i].id == id ==>
      r.windows[i].maximized == !s.windows[i].maximized
    ensures forall i :: 0 <= i < |s.windows| && s.windows[i].id != id ==> r.windows[i] == s.windows[i]
    ensures forall i :: 0 <= i < |s.windows| ==> r.windows[i].(maximized := s.windows[i].maximized) == s.windows[i]
    ensures r.activeWindow == s.activeWindow
    ensures FocusValid(s) ==> FocusValid(r)
    ensures r.user == s.user && r.preferences == s.preferences && r.showAuth == s.showAuth
  {
    var ws := seq(|s.windows|, i requires 0 <= i < |s.windows| =>
      if s.windows[i].id == id then s.windows[i].(maximized := !s.windows[i].maximized) else s.windows[i]);
    SameIdsKeepHasId(s.windows, ws);
    s.(windows := ws)
  }

  /** `setBackground`: nothing without a user or when the upsert fails;
      otherwise only the background URL is replaced. */
  function SetBackground(s: Store, url: string, upsertOk: bool): (r: Store)
    ensures s.user.None? || !upsertOk ==> r == s
    ensures s.user.Some? && upsertOk ==>
      r.preferences.backgroundUrl == url && r.preferences.theme == s.preferences.theme &&
      r.(preferences := s.preferences) == s
  {
    if s.user.None? then s
    else if upsertOk then s.(preferences := s.preferences.(backgroundUrl := url))
    else s
  }

  /** Minimizing twice is minimizing once. */
  lemma MinimizeIdempotent(s: Store, id: string)
    ensures MinimizeWindow(MinimizeWindow(s, id), id) == MinimizeWindow(s, id)
  {
    var once := MinimizeWindow(s, id);
    var twice := MinimizeWindow(once, id);
    assert twice.windows == once.windows;
  }

  /** Toggling maximize twice restores the store. */
  lemma MaximizeInvolution(s: Store, id: string)
    ensures MaximizeWindow(MaximizeWindow(s, id), id) == s
  {
    var once := MaximizeWindow(s, id);
    var twice := MaximizeWindow(once, id);
    assert twice.windows == s.windows;
  }

  /** `setActiveWindow` alone can break the focus invariant: focusing an id
      no window carries leaves the pointer dangling, in any store. */
  lemma SetActiveCanBreakFocus(s: Store, id: string)
    requires !HasId(s.windows, id)
    ensures !FocusValid(SetActiveWindow(s, Some(id)))
  {
  }

  /** Every store transition, with the backend outcome of `setBackground`. */
  datatype Op =
    | Add(w: Window)
    | Remove(id: string)
    | SetActive(focus: Option<string>)
    | Minimize(id: string)
    | Maximize(id: string)
    | SetBackgroundOp(url: string, upsertOk: bool)
    | SetUserOp(u: Option<User>)
    | SetShowAuthOp(show: bool)

  function Step(s: Store, op: Op): Store {
    match op
    case Add(w) => AddWindow(s, w)
    case Remove(id) => RemoveWindow(s, id)
    case SetActive(f) => SetActiveWindow(s, f)
    case Minimize(id) => MinimizeWindow(s, id)
    case Maximize(id) => MaximizeWindow(s, id)
    case SetBackgroundOp(url, ok) => SetBackground(s, url, ok)
    case SetUserOp(u) => SetUser(s, u)
    case SetShowAuthOp(b) => SetShowAuth(s, b)
  }

  function Run(s: Store, ops: seq<Op>): Store
    decreases |ops|
  {
    if |ops| == 0 then s else Run(Step(s, ops[0]), ops[1..])
  }

  /** Without `setActiveWindow`, focus is always null or a live window. */
  lemma {:induction false} FocusInvariant(s: Store, ops: seq<Op>)
    requires FocusValid(s)
    requires forall i :: 0 <= i < |ops| ==> !ops[i].SetActive?
    ensures FocusValid(Run(s, ops))
    decreases |ops|
  {
    if |ops| > 0 {
      var t := Step(s, ops[0]);
      assert FocusValid(t);
      FocusInvariant(t, ops[1..]);
    }
  }

  /** No single transition clears a minimized flag: the minimized ids only
      grow, except that removing `id` may take `id` away. */
  lemma StepKeepsMinimized(s: Store, op: Op)
    ensures op.Remove? ==> MinimizedIds(s.windows) - {op.id} <= MinimizedIds(Step(s, op).windows)
    ensures !op.Remove? ==> MinimizedIds(s.windows) <= MinimizedIds(Step(s, op).windows)
    ensures !op.Remove? ==> |s.windows| <= |Step(s, op).windows|
    ensures !op.Remove? ==> (forall i :: 0 <= i < |s.windows| && s.windows[i].minimized ==>
                                        Step(s, op).windows[i].minimized)
  {
    match op
    case Add(w) =>
      AddKeepsMinimized(s, w);
      assert forall i :: 0 <= i < |s.windows| ==> Step(s, op).windows[i] == s.windows[i];
    case Remove(id) => RemoveKeepsMinimized(s, id);
    case Minimize(id) => MinimizeKeepsMinimized(s, id);
    case Maximize(id) => MaximizeKeepsMinimized(s, id);
    case _ =>
  }

  lemma AddKeepsMinimized(s: Store, w: Window)
    ensures MinimizedIds(s.windows) <= MinimizedIds(AddWindow(s, w).windows)
  {
    var r := AddWindow(s, w);
    forall x | x in MinimizedIds(s.windows) ensures x in MinimizedIds(r.windows) {
      var v :| v in s.windows && v.minimized && v.id == x;
      var i :| 0 <= i < |s.windows| && s.windows[i] == v;
      assert r.windows[i] == v;
    }
  }

  lemma RemoveKeepsMinimized(s: Store, id: string)
    ensures MinimizedIds(s.windows) - {id} <= MinimizedIds(RemoveWindow(s, id).windows)
  {
    var r := RemoveWindow(s, id);
    forall x | x in MinimizedIds(s.windows) && x != id ensures x in MinimizedIds(r.windows) {
      var v :| v in s.windows && v.minimized && v.id == x;
      assert v in r.windows;
    }
  }

  lemma MinimizeKeepsMinimized(s: Store, id: string)
    ensures MinimizedIds(s.windows) <= MinimizedIds(MinimizeWindow(s, id).windows)
  {
    var r := MinimizeWindow(s, id);
    forall x | x in MinimizedIds(s.windows) ensures x in MinimizedIds(r.windows) {
      var v :| v in s.windows && v.minimized && v.id == x;
      var i :| 0 <= i < |s.windows| && s.windows[i] == v;
      assert r.windows[i] in r.windows && r.windows[i].minimized && r.windows[i].id == x;
    }
  }

  lemma MaximizeKeepsMinimized(s: Store, id: string)
    ensures MinimizedIds(s.windows) <= MinimizedIds(MaximizeWindow(s, id).windows)
  {
    var r := MaximizeWindow(s, id);
    forall x | x in MinimizedIds(s.windows) ensures x in MinimizedIds(r.windows) {
      var v :| v in s.windows && v.minimized && v.id == x;
      var i :| 0 <= i < |s.windows| && s.windows[i] == v;
      assert r.windows[i] in r.windows && r.windows[i].minimized && r.windows[i].id == x;
    }
  }

  /** A minimized window's id stays minimized until a remove of that id:
      no operation restores a window. */
  lemma {:induction false} MinimizedAbsorbing(s: Store, ops: seq<Op>, id: string)
    requires id in MinimizedIds(s.windows)
    requires forall i :: 0 <= i < |ops| ==> ops[i] != Remove(id)
    ensures id in MinimizedIds(Run(s, ops).windows)
    decreases |ops|
  {
    if |ops| > 0 {
      StepKeepsMinimized(s, ops[0]);
      MinimizedAbsorbing(Step(s, ops[0]), ops[1..], id);
    }
  }
}
