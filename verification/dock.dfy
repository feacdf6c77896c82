/** The dock (`src/components/Dock.tsx`): a fixed table of apps; a click
    opens one window for the app through `addWindow`.  `Date.now()` is the
    parameter `now`. */
module Dock {
  import opened Seqs
  import opened Strings
  import opened WindowStore
  import MenuBar

  datatype DockApp = DockApp(id: string, title: string)

  const Apps: seq<DockApp> := [
    DockApp("finder", "Finder"),
    DockApp("terminal", "Terminal"),
    DockApp("editor", "Editor"),
    DockApp("preferences", "System Preferences"),
    DockApp("spotlight", "Spotlight"),
    DockApp("appstore", "App Store")
  ]

  /** `apps.find(app => app.id === appId)?.title || ''`. */
  function TitleFor(appId: string): (r: string)
    ensures forall i :: 0 <= i < |Apps| && Apps[i].id == appId ==> r == Apps[i].title
    ensures (forall i :: 0 <= i < |Apps| ==> Apps[i].id != appId) ==> r == ""
  {
    match Find((a: DockApp) => a.id == appId, Apps)
    case Some(a) => a.title
    case None => ""
  }

  /** The record a click builds: the app id verbatim as the type, fixed
      geometry, neither minimized nor maximized. */
  function WindowFor(appId: string, now: nat): (w: Window)
    ensures w.id == appId + "-" + NatToString(now)
    ensures w.kind == appId && w.title == TitleFor(appId)
    ensures w.position == Point(100, 100) && w.size == Size(800, 600)
    ensures !w.minimized && !w.maximized && w.componentCode.None?
  {
    Window(MenuBar.StampedId(appId, now), TitleFor(appId), appId, false, false,
           Point(100, 100), Size(800, 600), None)
  }

  /** `handleAppClick`: exactly one window is appended, last and focused. */
  function AppClick(s: Store, appId: string, now: nat): (r: Store)
    ensures |r.windows| == |s.windows| + 1
    ensures r.windows[..|s.windows|] == s.windows
    ensures r.windows[|s.windows|] == WindowFor(appId, now)
    ensures r.activeWindow == Some(WindowFor(appId, now).id)
    ensures FocusValid(r)
    ensures r == s.(windows := r.windows, activeWindow := r.activeWindow)
  {
    AddWindow(s, WindowFor(appId, now))
  }

  /** The window type is the app id, so every dock entry but Spotlight
      opens a window of a declared type; Spotlight's lies outside the union. */
  lemma DockKinds()
    ensures forall i :: 0 <= i < |Apps| && Apps[i].id != "spotlight" ==> DeclaredKind(Apps[i].id)
    ensures !DeclaredKind("spotlight")
  {
  }

  /** Spotlight's window carries the table's title for it. */
  lemma SpotlightTitled(now: nat)
    ensures WindowFor("spotlight", now).title == "Spotlight"
  {
    assert Apps[4].id == "spotlight";
  }

  /** An id missing from the table opens an untitled window. */
  lemma UnknownAppUntitled(appId: string, now: nat)
    requires forall i :: 0 <= i < |Apps| ==> Apps[i].id != appId
    ensures WindowFor(appId, now).title == ""
  {
  }

  /** Two clicks in different milliseconds open windows with different
      ids; two in the same millisecond repeat the id. */
  lemma ClickIdsDiffer(appId: string, now: nat, now': nat)
    ensures WindowFor(appId, now).id == WindowFor(appId, now').id <==> now == now'
  {
    MenuBar.StampedIdsDiffer(appId, now, now');
  }
}
