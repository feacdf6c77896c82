/** The Finder's preview pane (`src/components/apps/Finder/FilePreview.tsx`):
    the file whose id is the first selected id, or the placeholder. */
module FilePreview {
  import opened Seqs
  import opened FinderStore

  /** `files.find(f => f.id === selectedFiles[0])`; `None` is the placeholder. */
  function Previewed(files: seq<FileEntry>, selected: seq<string>): (r: Option<FileEntry>)
    ensures |selected| == 0 ==> r.None?
    ensures |selected| > 0 && r.None? ==> forall j :: 0 <= j < |files| ==> files[j].id != selected[0]
    ensures r.Some? ==> |selected| > 0 && r.value.id == selected[0]
    ensures r.Some? ==> exists k :: 0 <= k < |files| && files[k] == r.value &&
                                    forall j :: 0 <= j < k ==> files[j].id != selected[0]
  {
    if |selected| == 0 then None
    else Find((f: FileEntry) => f.id == selected[0], files)
  }

  /** Only the first selected id decides the preview. */
  lemma OnlyFirstSelectionMatters(files: seq<FileEntry>, first: string, rest: seq<string>)
    ensures Previewed(files, [first] + rest) == Previewed(files, [first])
  {
  }

  /** Any file with the first selected id makes a preview. */
  lemma PreviewFound(files: seq<FileEntry>, selected: seq<string>, k: nat)
    requires |selected| > 0 && k < |files| && files[k].id == selected[0]
    ensures Previewed(files, selected).Some?
  {
  }
}
