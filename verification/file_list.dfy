/** Selection in the Finder's file list
    (`src/components/apps/Finder/FileList.tsx`): a plain click selects one
    file, a Ctrl or Meta click appends to the selection, and a file is
    highlighted when its id is selected. */
module FileList {
  import opened FinderStore

  /** `handleFileClick`; `extend` is `event.ctrlKey || event.metaKey`. */
  function FileClick(s: FinderState, id: string, extend: bool): (r: FinderState)
    ensures !extend ==> r.selectedFiles == [id]
    ensures extend ==> |r.selectedFiles| == |s.selectedFiles| + 1
    ensures extend ==> r.selectedFiles[..|s.selectedFiles|] == s.selectedFiles
    ensures extend ==> r.selectedFiles[|s.selectedFiles|] == id
    ensures r.(selectedFiles := s.selectedFiles) == s
  {
    if extend then SetSelectedFiles(s, s.selectedFiles + [id])
    else SetSelectedFiles(s, [id])
  }

  /** The highlight test of both the grid and the list view. */
  predicate Highlighted(s: FinderState, id: string) {
    id in s.selectedFiles
  }

  /** After a plain click exactly the clicked file is highlighted. */
  lemma PlainClickHighlightsOnly(s: FinderState, id: string, other: string)
    ensures Highlighted(FileClick(s, id, false), other) <==> other == id
  {
  }

  /** A Ctrl/Meta click keeps every earlier highlight and adds the clicked one. */
  lemma ExtendClickHighlights(s: FinderState, id: string, other: string)
    ensures Highlighted(FileClick(s, id, true), other) <==> Highlighted(s, other) || other == id
  {
    var sel := s.selectedFiles + [id];
    assert forall x :: x in sel <==> x in s.selectedFiles || x == id;
  }

  /** A Ctrl/Meta click on a selected file neither toggles it off nor
      de-duplicates: the id is then listed one more time. */
  lemma ExtendClickDuplicates(s: FinderState, id: string)
    requires Highlighted(s, id)
    ensures Highlighted(FileClick(s, id, true), id)
    ensures multiset(FileClick(s, id, true).selectedFiles)[id] == multiset(s.selectedFiles)[id] + 1 >= 2
  {
    assert multiset(s.selectedFiles + [id]) == multiset(s.selectedFiles) + multiset{id};
  }
}
