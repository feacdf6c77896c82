/** The older stand-alone Finder (`src/components/apps/Finder.tsx`): a stack
    of path segments with a back button, a grid/list toggle, and a fixed
    list of sample items. */
module LegacyFinder {
  datatype View = Grid | List
  datatype ItemKind = FileKind | FolderKind
  datatype Item = Item(id: string, name: string, kind: ItemKind, size: string, modified: string)
  datatype State = State(view: View, path: seq<string>, items: seq<Item>)

  /** The sample items; an empty `size` is the absent one shown as `--`. */
  const SampleItems: seq<Item> := [
    Item("1", "Documents", FolderKind, "", "2024-03-20"),
    Item("2", "Downloads", FolderKind, "", "2024-03-19"),
    Item("3", "Pictures", FolderKind, "", "2024-03-18"),
    Item("4", "notes.txt", FileKind, "2.3 KB", "2024-03-17"),
    Item("5", "report.pdf", FileKind, "1.5 MB", "2024-03-16")
  ]

  function Initial(): (s: State)
    ensures s.path == ["Home"] && s.view == Grid
    ensures s.items == SampleItems && |s.items| == 5
  {
    State(Grid, ["Home"], SampleItems)
  }

  /** The back button is disabled when one segment is left. */
  predicate BackEnabled(s: State) {
    |s.path| != 1
  }

  /** Back: `prev.slice(0, -1)` when the button is enabled. */
  function Back(s: State): (r: State)
    ensures !BackEnabled(s) ==> r == s
    ensures BackEnabled(s) && |s.path| > 0 ==> r.path + [s.path[|s.path| - 1]] == s.path
    ensures |s.path| >= 1 ==> |r.path| >= 1
    ensures r.view == s.view && r.items == s.items
  {
    if !BackEnabled(s) then s
    else if |s.path| == 0 then s
    else s.(path := s.path[..|s.path| - 1])
  }

  datatype Event = BackClick | GridClick | ListClick

  function Step(s: State, e: Event): State {
    match e
    case BackClick => Back(s)
    case GridClick => s.(view := Grid)
    case ListClick => s.(view := List)
  }

  function Run(s: State, events: seq<Event>): State
    decreases |events|
  {
    if |events| == 0 then s else Run(Step(s, events[0]), events[1..])
  }

  /** Nothing pushes a segment and back stops at one, so the path stays
      `['Home']`; the items are never changed; the view is the last toggle. */
  lemma {:induction false} ReachableStates(events: seq<Event>)
    ensures Run(Initial(), events).path == ["Home"]
    ensures Run(Initial(), events).items == SampleItems
  {
    RunFrom(Initial(), events);
  }

  lemma {:induction false} RunFrom(s: State, events: seq<Event>)
    requires s.path == ["Home"]
    ensures Run(s, events).path == ["Home"] && Run(s, events).items == s.items
    decreases |events|
  {
    if |events| > 0 {
      RunFrom(Step(s, events[0]), events[1..]);
    }
  }

  /** The view shown is the one chosen by the last toggle, grid by default. */
  lemma {:induction false} ViewIsLastToggle(s: State, events: seq<Event>)
    ensures Run(s, events).view == LastView(s.view, events)
    decreases |events|
  {
    if |events| > 0 {
      var n := |events|;
      RunSnoc(s, events[..n - 1], events[n - 1]);
      assert events[..n - 1] + [events[n - 1]] == events;
      ViewIsLastToggle(s, events[..n - 1]);
    }
  }

  /** Running one more event after a run. */
  lemma {:induction false} RunSnoc(s: State, events: seq<Event>, e: Event)
    ensures Run(s, events + [e]) == Step(Run(s, events), e)
    decreases |events|
  {
    if |events| == 0 {
      assert events + [e] == [e];
    } else {
      assert (events + [e])[1..] == events[1..] + [e];
      RunSnoc(Step(s, events[0]), events[1..], e);
    }
  }

  /** The view selected by the last grid or list click, if any. */
  function LastView(v: View, events: seq<Event>): View
    decreases |events|
  {
    if |events| == 0 then v
    else
      var e := events[|events| - 1];
      if e.GridClick? then Grid
      else if e.ListClick? then List
      else LastView(v, events[..|events| - 1])
  }
}
