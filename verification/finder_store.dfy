/** The Finder's store (`src/components/apps/Finder/store.ts`): the browsing
    state, its setters, the favorites list, and the storage keys that
    `createFolder` and `moveFiles` build.  The storage calls themselves, and
    the listing `fetchFiles` loads, belong to the hosted backend. */
module FinderStore {
  import opened Seqs
  import opened Strings

  datatype ViewMode = Grid | List
  datatype SortKey = ByName | ByDate | BySize
  datatype SortOrder = Asc | Desc
  datatype Theme = Light | Dark

  /** One entry of the current listing, as far as the Finder reads it. */
  datatype FileEntry = FileEntry(id: string, name: string, isFolder: bool)

  datatype FinderState = FinderState(
    currentPath: string,
    viewMode: ViewMode,
    selectedFiles: seq<string>,
    sortBy: SortKey,
    sortOrder: SortOrder,
    theme: Theme,
    searchQuery: string,
    favorites: seq<string>,
    recentFiles: seq<string>,
    loading: bool,
    files: seq<FileEntry>)

  /** The state the Finder opens with: at the root, grid view, nothing
      selected, sorted by name ascending, no favorites. */
  function Initial(): (s: FinderState)
    ensures s.currentPath == "/" && s.viewMode == Grid && s.selectedFiles == []
    ensures s.sortBy == ByName && s.sortOrder == Asc && s.favorites == []
    ensures s.theme == Dark && s.searchQuery == "" && s.recentFiles == []
    ensures s.files == [] && !s.loading
  {
    FinderState("/", Grid, [], ByName, Asc, Dark, "", [], [], false, [])
  }

  function SetCurrentPath(s: FinderState, path: string): (r: FinderState)
    ensures r.currentPath == path && r.(currentPath := s.currentPath) == s
  {
    s.(currentPath := path)
  }

  function SetViewMode(s: FinderState, mode: ViewMode): (r: FinderState)
    ensures r.viewMode == mode && r.(viewMode := s.viewMode) == s
  {
    s.(viewMode := mode)
  }

  function SetSelectedFiles(s: FinderState, ids: seq<string>): (r: FinderState)
    ensures r.selectedFiles == ids && r.(selectedFiles := s.selectedFiles) == s
  {
    s.(selectedFiles := ids)
  }

  function SetSortBy(s: FinderState, key: SortKey): (r: FinderState)
    ensures r.sortBy == key && r.(sortBy := s.sortBy) == s
  {
    s.(sortBy := key)
  }

  function SetSortOrder(s: FinderState, order: SortOrder): (r: FinderState)
    ensures r.sortOrder == order && r.(sortOrder := s.sortOrder) == s
  {
    s.(sortOrder := order)
  }

  function SetTheme(s: FinderState, theme: Theme): (r: FinderState)
    ensures r.theme == theme && r.(theme := s.theme) == s
  {
    s.(theme := theme)
  }

  function SetSearchQuery(s: FinderState, query: string): (r: FinderState)
    ensures r.searchQuery == query && r.(searchQuery := s.searchQuery) == s
  {
    s.(searchQuery := query)
  }

  /** `addToFavorites`: appends without checking for a duplicate. */
  function AddToFavorites(s: FinderState, path: string): (r: FinderState)
    ensures |r.favorites| == |s.favorites| + 1
    ensures r.favorites[..|s.favorites|] == s.favorites && r.favorites[|s.favorites|] == path
    ensures r.(favorites := s.favorites) == s
  {
    s.(favorites := s.favorites + [path])
  }

  /** `removeFromFavorites`: drops every occurrence, the rest kept in order. */
  function RemoveFromFavorites(s: FinderState, path: string): (r: FinderState)
    ensures path !in r.favorites
    ensures forall p :: p in s.favorites && p != path ==> p in r.favorites
    ensures multiset(r.favorites) == multiset(s.favorites)[path := 0]
    ensures IsSubsequence(r.favorites, s.favorites)
    ensures path !in s.favorites ==> r == s
    ensures r.(favorites := s.favorites) == s
  {
    var keep := (p: string) => p != path;
    FilterKeepsAll(keep, s.favorites);
    FilterIsSubsequence(keep, s.favorites);
    FilterCount(keep, s.favorites);
    s.(favorites := Filter(keep, s.favorites))
  }

  /** Adding a new favorite and removing it again restores the state. */
  lemma AddThenRemoveFavorite(s: FinderState, path: string)
    requires path !in s.favorites
    ensures RemoveFromFavorites(AddToFavorites(s, path), path) == s
  {
    var keep := (p: string) => p != path;
    var added := s.favorites + [path];
    FilterConcat(keep, s.favorites, [path]);
    FilterKeepsAll(keep, s.favorites);
    assert Filter(keep, [path]) == [];
    assert Filter(keep, added) == s.favorites;
    assert RemoveFromFavorites(AddToFavorites(s, path), path).favorites == Filter(keep, added);
  }

  /** Adding an existing favorite duplicates it; removing then drops both. */
  lemma AddExistingFavorite(s: FinderState, path: string)
    requires path in s.favorites
    ensures multiset(AddToFavorites(s, path).favorites)[path] >= 2
    ensures path !in RemoveFromFavorites(AddToFavorites(s, path), path).favorites
  {
    var fs := s.favorites + [path];
    assert multiset(fs) == multiset(s.favorites) + multiset{path};
  }

  /** No two consecutive slashes. */
  predicate NoDoubleSlash(s: string) {
    forall i :: 0 <= i < |s| - 1 ==> !(s[i] == '/' && s[i + 1] == '/')
  }

  /** The folder a `createFolder(name)` makes: `${currentPath}/${name}` with
      the first `//` (only the first) collapsed to `/`. */
  function FolderPath(currentPath: string, name: string): (r: string)
    ensures forall k: nat :: FirstOccursAt(currentPath + "/" + name, "//", k) ==>
      r == (currentPath + "/" + name)[..k] + "/" + (currentPath + "/" + name)[k + 2..]
    ensures (forall k: nat :: !OccursAt(currentPath + "/" + name, "//", k)) ==> r == currentPath + "/" + name
  {
    ReplaceFirst(currentPath + "/" + name, "//", "/")
  }

  /** The key uploaded to materialise the folder: the folder path, then
      the marker file's name. */
  function FolderMarkerKey(currentPath: string, name: string): (r: string)
    ensures |r| >= 6 && r[..|r| - 6] == FolderPath(currentPath, name) && r[|r| - 6..] == "/.keep"
  {
    FolderPath(currentPath, name) + "/.keep"
  }

  /** From the root the doubled slash is collapsed: the folder is `/name`. */
  lemma FolderPathAtRoot(name: string)
    ensures FolderPath("/", name) == "/" + name
  {
    var s := "/" + "/" + name;
    assert FirstOccursAt(s, "//", 0);
    assert s[2..] == name;
  }

  /** Only the first doubled slash is collapsed. */
  lemma FolderPathCollapsesOnce()
    ensures FolderPath("/", "a//b") == "/a//b"
  {
    FolderPathAtRoot("a//b");
  }

  /** Without any doubled slash there is nothing to replace. */
  lemma NoDoubleSlashNoOccurrence(s: string)
    requires NoDoubleSlash(s)
    ensures forall k: nat :: !OccursAt(s, "//", k)
  {
    forall k: nat ensures !OccursAt(s, "//", k) {
      if k + 2 <= |s| {
        assert s[k..k + 2][0] == s[k] && s[k..k + 2][1] == s[k + 1];
      }
    }
  }

  /** Below the root, from a clean path and a clean name, the folder is
      simply `currentPath/name`. */
  lemma FolderPathBelowRoot(currentPath: string, name: string)
    requires |currentPath| > 0 && currentPath[|currentPath| - 1] != '/'
    requires |name| > 0 && name[0] != '/'
    requires NoDoubleSlash(currentPath) && NoDoubleSlash(name)
    ensures FolderPath(currentPath, name) == currentPath + "/" + name
  {
    var s := currentPath + "/" + name;
    var n := |currentPath|;
    forall i | 0 <= i < |s| - 1 ensures !(s[i] == '/' && s[i + 1] == '/') {
      if i + 1 < n {
        assert s[i] == currentPath[i] && s[i + 1] == currentPath[i + 1];
      } else if i + 1 == n {
        assert s[i] == currentPath[n - 1];
      } else if i == n {
        assert s[i + 1] == name[0];
      } else {
        assert s[i] == name[i - n - 1] && s[i + 1] == name[i - n];
      }
    }
    NoDoubleSlashNoOccurrence(s);
  }

  /** `file.split('/').pop()`: the text after the last slash. */
  function LastSegment(file: string): (r: string)
    ensures '/' !in r
  {
    var parts := Split(file, '/');
    parts[|parts| - 1]
  }

  /** The last segment is a suffix, preceded by a slash or by nothing. */
  lemma LastSegmentIsSuffix(file: string)
    ensures exists dir :: file == dir + LastSegment(file) && (dir == "" || dir[|dir| - 1] == '/')
  {
    var parts := Split(file, '/');
    var n := |parts|;
    JoinSplit(file, '/');
    if n == 1 {
      assert file == "" + LastSegment(file);
    } else {
      var init := parts[..n - 1];
      JoinSnoc(init, parts[n - 1], '/');
      assert init + [parts[n - 1]] == parts;
      var dir := Join(init, '/') + "/";
      assert file == dir + LastSegment(file);
    }
  }

  /** `moveFiles`: each file goes to `destination/<its last segment>`. */
  function MovePlan(files: seq<string>, destination: string): (r: seq<(string, string)>)
    ensures |r| == |files|
    ensures forall i :: 0 <= i < |files| ==> r[i].0 == files[i]
    ensures forall i :: 0 <= i < |files| ==> r[i].1 == destination + "/" + LastSegment(files[i])
    ensures forall i :: 0 <= i < |files| ==>
      destination + "/" <= r[i].1 && '/' !in r[i].1[|destination| + 1..]
  {
    seq(|files|, i requires 0 <= i < |files| =>
      (files[i], destination + "/" + LastSegment(files[i])))
  }

  /** A slash-free name put under any directory is that path's last segment. */
  lemma LastSegmentUnder(dir: string, name: string)
    requires '/' !in name
    ensures LastSegment(dir + "/" + name) == name
  {
    var parts := Split(dir, '/');
    JoinSplit(dir, '/');
    JoinSnoc(parts, name, '/');
    SplitJoin(parts + [name], '/');
  }

  /** A moved file keeps its name, and lands directly in the destination. */
  lemma MoveKeepsName(files: seq<string>, destination: string, i: nat)
    requires i < |files|
    ensures LastSegment(MovePlan(files, destination)[i].1) == LastSegment(files[i])
    ensures MovePlan(files, destination)[i].1 ==
            destination + "/" + LastSegment(MovePlan(files, destination)[i].1)
  {
    LastSegmentUnder(destination, LastSegment(files[i]));
  }
}
