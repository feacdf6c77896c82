/** The text editor (`src/components/apps/Editor.tsx`): the buffer, the file
    name and the "unsaved changes" flag, driven by typing, saving and
    renaming.  Saving writes nothing anywhere; it only clears the flag. */
module Editor {

  datatype EditorState = EditorState(content: string, fileName: string, isDirty: bool)

  function Initial(): (s: EditorState)
    ensures s.content == "" && s.fileName == "untitled.txt" && !s.isDirty
  {
    EditorState("", "untitled.txt", false)
  }

  /** `handleChange`: the textarea's new value replaces the content and
      marks the buffer dirty. */
  function Change(s: EditorState, text: string): (r: EditorState)
    ensures r.content == text && r.isDirty && r.fileName == s.fileName
  {
    s.(content := text, isDirty := true)
  }

  /** `handleSave`: clears the flag, keeps content and name. */
  function Save(s: EditorState): (r: EditorState)
    ensures !r.isDirty && r.content == s.content && r.fileName == s.fileName
  {
    s.(isDirty := false)
  }

  /** The file-name field: only the name changes. */
  function Rename(s: EditorState, name: string): (r: EditorState)
    ensures r.fileName == name && r.content == s.content && r.isDirty == s.isDirty
  {
    s.(fileName := name)
  }

  datatype Event = Type(text: string) | SaveClick | RenameTo(name: string)

  function Step(s: EditorState, e: Event): EditorState {
    match e
    case Type(text) => Change(s, text)
    case SaveClick => Save(s)
    case RenameTo(name) => Rename(s, name)
  }

  /** The state after a sequence of events, applied in order. */
  function Run(s: EditorState, events: seq<Event>): EditorState
    decreases |events|
  {
    if |events| == 0 then s
    else Step(Run(s, events[..|events| - 1]), events[|events| - 1])
  }

  /** Some edit is not followed by a save. */
  predicate UnsavedEdit(events: seq<Event>) {
    exists i :: 0 <= i < |events| && events[i].Type? && NoSaveAfter(events, i)
  }

  predicate NoSaveAfter(events: seq<Event>, i: int)
    requires 0 <= i < |events|
  {
    forall j :: i < j < |events| ==> !events[j].SaveClick?
  }

  /** From the initial state, the flag is raised exactly when some edit has
      not been saved since. */
  lemma {:induction false} DirtyIffUnsavedEdit(events: seq<Event>)
    ensures Run(Initial(), events).isDirty <==> UnsavedEdit(events)
    decreases |events|
  {
    if |events| > 0 {
      var n := |events| - 1;
      var init := events[..n];
      DirtyIffUnsavedEdit(init);
      match events[n]
      case Type(_) =>
        assert NoSaveAfter(events, n);
      case SaveClick =>
        forall i | 0 <= i < n ensures !NoSaveAfter(events, i) {
          assert events[n].SaveClick?;
        }
      case RenameTo(_) =>
        if UnsavedEdit(init) {
          var i :| 0 <= i < n && init[i].Type? && NoSaveAfter(init, i);
          assert events[i] == init[i];
          assert NoSaveAfter(events, i);
        }
        if UnsavedEdit(events) {
          var i :| 0 <= i < |events| && events[i].Type? && NoSaveAfter(events, i);
          assert i < n;
          assert init[i] == events[i];
          assert NoSaveAfter(init, i);
        }
    }
  }

  /** The text of the last edit, if any. */
  function LastTyped(events: seq<Event>): (r: string)
    decreases |events|
  {
    if |events| == 0 then ""
    else if events[|events| - 1].Type? then events[|events| - 1].text
    else LastTyped(events[..|events| - 1])
  }

  /** The buffer holds what was last typed, or nothing. */
  lemma {:induction false} ContentIsLastTyped(events: seq<Event>)
    ensures Run(Initial(), events).content == LastTyped(events)
    decreases |events|
  {
    if |events| > 0 {
      ContentIsLastTyped(events[..|events| - 1]);
    }
  }

  /** Saving twice is saving once; a save right after a save changes nothing. */
  lemma SaveIdempotent(s: EditorState)
    ensures Save(Save(s)) == Save(s)
  {
  }

  /** Renaming commutes with saving. */
  lemma RenameCommutesWithSave(s: EditorState, name: string)
    ensures Rename(Save(s), name) == Save(Rename(s, name))
  {
  }
}
