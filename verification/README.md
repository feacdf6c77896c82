# macOS desktop simulator — a Dafny model of its in-memory state logic

The system is a browser desktop: a window manager, a menu bar and a dock, a Finder, a terminal, an app store and a text editor. Behind the rendering sits a small amount of deterministic state logic. This project models that logic as immutable datatypes and pure transition functions, and proves what each transition promises:

- the shared window store (`useStore`): the ordered window list, the focus pointer, the user, the preferences and the sign-in flag;
- the menu-bar commands, which act on the first window in list order that is not minimized, and the dock, which builds a window record from a fixed app table;
- the Finder's store, breadcrumb, selection rule and preview lookup, and the older stand-alone Finder with its path stack;
- the terminal's command core: path resolution, history, dispatch on the command word, `cat`/`edit`/`node` over an in-memory file map, and the key handler that edits the line buffer;
- the app store's search filter, the creator ids and creator map, and the install and upload guards;
- the editor's content, file name and unsaved-changes flag.

Layout, one module per source file:

| file | module | models |
|---|---|---|
| `seqs.dfy` | `Seqs` | `Option`, `filter`, `find`, `[...new Set(xs)]`, subsequences |
| `strings.dfy` | `Strings` | JavaScript `split`/`join` on one character, `includes`, `replace` with a string pattern, ASCII `toLowerCase`, decimal digits of a number |
| `window_store.dfy` | `WindowStore` | `src/store/useStore.ts`, `src/types/index.ts` |
| `menu_bar.dfy` | `MenuBar` | `src/components/MenuBar.tsx` |
| `dock.dfy` | `Dock` | `src/components/Dock.tsx` |
| `finder_store.dfy` | `FinderStore` | `src/components/apps/Finder/store.ts` |
| `breadcrumb.dfy` | `Breadcrumb` | `src/components/apps/Finder/Breadcrumb.tsx` |
| `file_list.dfy` | `FileList` | `src/components/apps/Finder/FileList.tsx` |
| `file_preview.dfy` | `FilePreview` | `src/components/apps/Finder/FilePreview.tsx` |
| `legacy_finder.dfy` | `LegacyFinder` | `src/components/apps/Finder.tsx` |
| `terminal.dfy` | `Terminal` | `src/components/apps/Terminal.tsx` |
| `app_store.dfy` | `AppStore` | `src/components/apps/AppStore.tsx` |
| `editor.dfy` | `Editor` | `src/components/apps/Editor.tsx` |

Inputs from outside the program become parameters:

- `Date.now()` is a natural number `now`.
- The outcome of each backend request is a boolean: the background upsert, the installed-app insert and the app upload insert.
- The centred position of "About This Mac" is a `Point` argument.

The store's `Window.type` is declared as a union of six kinds, but the dock writes its app id into it unchecked, `spotlight` included. The model follows the code: the kind is a string, and the predicate `WindowStore.DeclaredKind` gives the declared union. In the same way, window ids are described as unique, but nothing enforces it. Every store transition is modelled for lists with repeated ids.

## Model

| member | source | states |
|---|---|---|
| WindowStore.Initial | src/store/useStore.ts:24-31 | The store starts with no windows, no focus, no user, the dark theme and the default wallpaper URL; its focus is valid. |
| WindowStore.SetUser | src/store/useStore.ts:32 | Only the user changes. |
| WindowStore.AddWindow | src/store/useStore.ts:33-37 | The record is appended at the end and earlier windows are unchanged. Focus moves to the new id and is valid; user, preferences and sign-in flag are untouched. |
| WindowStore.RemoveWindow | src/store/useStore.ts:38-42 | Every window with the id is dropped and every other window is kept, in order, with as many copies as before. An absent id leaves the list as it was. Focus becomes null exactly when it named the id, and a valid focus stays valid. |
| WindowStore.SetActiveWindow | src/store/useStore.ts:43 | Any id is stored without a membership check. Focus stays valid only if the id is null or live. |
| WindowStore.MinimizeWindow | src/store/useStore.ts:44-49 | Length is kept, and matching windows become minimized. Other windows, and every other field, are unchanged; so is the focus. |
| WindowStore.MaximizeWindow | src/store/useStore.ts:50-55 | The maximized flag flips on matching windows only. Everything else is unchanged. |
| WindowStore.SetBackground | src/store/useStore.ts:56-75 | With no user, or when the upsert fails, nothing changes. Otherwise only the background URL is replaced and the theme is kept. |
| WindowStore.SetShowAuth | src/store/useStore.ts:76-77 | Only the sign-in flag changes. |
| WindowStore.MinimizeIdempotent | src/store/useStore.ts:44-49 | Minimizing twice equals minimizing once. |
| WindowStore.MaximizeInvolution | src/store/useStore.ts:50-55 | Toggling maximize twice restores the store. |
| WindowStore.SetActiveCanBreakFocus | src/store/useStore.ts:43 | In any store, focusing an id that names no window makes the focus invalid. |
| WindowStore.FocusInvariant | src/store/useStore.ts:33-55 | Any run of transitions without `setActiveWindow` keeps the focus null or a live id. |
| WindowStore.StepKeepsMinimized | src/store/useStore.ts:33-77 | No transition clears a minimized flag. Only removing that id can take it away. Every other transition keeps each window at its index, so a window minimized at index i is still minimized at index i. |
| WindowStore.MinimizedAbsorbing | src/store/useStore.ts:33-77 | A minimized id stays minimized through any run that does not remove it. |
| MenuBar.FrontWindow | src/components/MenuBar.tsx:54-56 | The target is null exactly when every window is minimized. Otherwise it is the window at the first non-minimized index. |
| MenuBar.FrontWindowAt | src/components/MenuBar.tsx:55 | The target is the window at the first non-minimized index, whatever the focus. |
| MenuBar.StampedId | src/components/MenuBar.tsx:43 | A generated id is the prefix, a dash and the decimal timestamp. |
| MenuBar.StampedIdsDiffer | src/components/MenuBar.tsx:43 | Two ids with the same prefix are equal exactly when they were stamped in the same millisecond. |
| MenuBar.CloneOf | src/components/MenuBar.tsx:42-50 | The copy's id is the type, a dash and the timestamp. It keeps type, title and size, is offset by 30 on both axes, and is neither minimized nor maximized. |
| MenuBar.NewWindow | src/components/MenuBar.tsx:39-52 | With every window minimized, nothing changes. Otherwise the clone of the target is appended and focused, and the user, preferences and sign-in flag are unchanged. |
| MenuBar.CloseWindow | src/components/MenuBar.tsx:54-59 | With every window minimized, nothing changes. Otherwise the target's id is removed. |
| MenuBar.MinimizeFront | src/components/MenuBar.tsx:61-66 | With every window minimized, nothing changes. Otherwise the target's id is minimized. |
| MenuBar.ZoomFront | src/components/MenuBar.tsx:68-73 | With every window minimized, nothing changes. Otherwise the target's id has its maximize toggled. |
| MenuBar.CommandsIgnoreFocus | src/components/MenuBar.tsx:54-73 | The window list after Close, Minimize, Zoom or New Window does not depend on the focus pointer. |
| MenuBar.RemoveEach | src/components/MenuBar.tsx:99 | Removing a list of ids in turn keeps a window exactly when its id is not listed, in order and with every copy. Focus is cleared exactly when it was listed. |
| MenuBar.CloseAll | src/components/MenuBar.tsx:99 | Close All leaves no window. A valid focus is cleared; a focus naming no window is kept, since each removal clears only its own id. Nothing else changes. |
| MenuBar.MinimizeEach | src/components/MenuBar.tsx:123 | Minimizing a list of ids in turn sets the flag exactly on windows whose id is listed. |
| MenuBar.BringAllToFront | src/components/MenuBar.tsx:123 | "Bring All to Front" minimizes every window, and the store is otherwise the same. |
| MenuBar.RestrictedAction | src/components/MenuBar.tsx:75-81 | It allows exactly when a user is signed in. When it refuses, it raises the sign-in flag and changes nothing else. |
| MenuBar.SystemSettings | src/components/MenuBar.tsx:27-37 | Signed out, no window opens and the only change is the raised sign-in flag. Signed in, exactly the window `preferences-<now>` titled "System Preferences" is appended at (100,100), 800 by 600, not minimized or maximized, and it takes the focus; nothing else changes. |
| MenuBar.About | src/components/MenuBar.tsx:15-25 | Exactly the window `about-<now>` titled "About This Mac" is appended: type `custom`, at the given position, 500 by 300, not minimized or maximized. It takes the focus, and nothing else changes. |
| MenuBar.AboutThenClose | src/components/MenuBar.tsx:15-25 | Opening About and then closing its window (src/store/useStore.ts:38-43) gives back the original window list. |
| MenuBar.Restart | src/components/MenuBar.tsx:89 | Reloading the page rebuilds the store as at start-up: no windows, no focus, no user, sign-in flag down, default wallpaper and dark theme. |
| MenuBar.RestartForgetsHistory | src/components/MenuBar.tsx:89 | After any sequence of store operations, a reload gives the same store as a reload of a fresh one, and its focus is valid. |
| MenuBar.LogOut | src/components/MenuBar.tsx:11-13 | Shut Down, Lock Screen and Log Out sign out; once the auth listener (src/App.tsx:22-27) stores the null user, only the user has changed. |
| MenuBar.LogOutRestricts | src/components/MenuBar.tsx:75-93 | After signing out, restricted items refuse and raise the sign-in flag, and System Settings opens no window. |
| MenuBar.Select | src/components/MenuBar.tsx:156 | Separators and disabled items do nothing; an enabled item runs its action. |
| MenuBar.DisabledItemsAreInert | src/components/MenuBar.tsx:101-102 | The only disabled items are Save and Save As, and selecting them leaves the store unchanged. |
| MenuBar.Title | src/components/MenuBar.tsx:218-220 | The title is the first window's title, or nothing when there are no windows. |
| MenuBar.TitleIgnoresNewFocus | src/components/MenuBar.tsx:218-220 | Opening and focusing another window does not change the title. |
| Dock.TitleFor | src/components/Dock.tsx:27 | The title is the dock entry's title for that id, or empty when the id is not in the table. |
| Dock.WindowFor | src/components/Dock.tsx:25-33 | The id is the app id, a dash and the decimal timestamp, and the type is the app id verbatim. The window sits at (100,100), 800 by 600, neither minimized nor maximized. |
| Dock.AppClick | src/components/Dock.tsx:24-34 | Exactly one window is appended, last and focused; the user, preferences and sign-in flag are unchanged. |
| Dock.DockKinds | src/components/Dock.tsx:15-28 | The window type is the app id verbatim. Every dock id except `spotlight` is a declared type, and `spotlight` is not. |
| Dock.SpotlightTitled | src/components/Dock.tsx:20-27 | Spotlight's window is titled from its table entry. |
| Dock.UnknownAppUntitled | src/components/Dock.tsx:27 | Every id missing from the table gives an empty title. |
| Dock.ClickIdsDiffer | src/components/Dock.tsx:26 | Clicks on the same app give equal window ids exactly when they fall in the same millisecond. |
| FinderStore.Initial | src/components/apps/Finder/store.ts:33-43 | The Finder starts at `/` in grid view and the dark theme, with nothing selected, an empty search, sorted by name ascending, no favorites, no recent files, no files and not loading. |
| FinderStore.SetCurrentPath | src/components/apps/Finder/store.ts:45 | Only the path changes. |
| FinderStore.SetViewMode | src/components/apps/Finder/store.ts:46 | Only the view mode changes. |
| FinderStore.SetSelectedFiles | src/components/apps/Finder/store.ts:47 | Only the selection changes. |
| FinderStore.SetSortBy | src/components/apps/Finder/store.ts:48 | Only the sort key changes. |
| FinderStore.SetSortOrder | src/components/apps/Finder/store.ts:49 | Only the sort order changes. |
| FinderStore.SetTheme | src/components/apps/Finder/store.ts:50 | Only the theme changes. |
| FinderStore.SetSearchQuery | src/components/apps/Finder/store.ts:51 | Only the search query changes. |
| FinderStore.AddToFavorites | src/components/apps/Finder/store.ts:53-54 | The path is appended at the end without de-duplication; everything else is unchanged. |
| FinderStore.RemoveFromFavorites | src/components/apps/Finder/store.ts:56-59 | Every occurrence of the path is removed. Every other favorite keeps its order and its number of copies. An absent path changes nothing. |
| FinderStore.AddThenRemoveFavorite | src/components/apps/Finder/store.ts:53-59 | Adding a new favorite and removing it again restores the state. |
| FinderStore.AddExistingFavorite | src/components/apps/Finder/store.ts:53-59 | Adding an existing favorite lists it twice; removing it then drops every copy. |
| FinderStore.FolderPath | src/components/apps/Finder/store.ts:80 | The folder is `currentPath/name` with its first `//`, and only that one, replaced by `/`; without a `//` it is `currentPath/name` unchanged. |
| FinderStore.FolderMarkerKey | src/components/apps/Finder/store.ts:80-86 | The marker key splits into the folder path and a trailing `/.keep`. |
| FinderStore.FolderPathAtRoot | src/components/apps/Finder/store.ts:80 | From `/`, the folder path is `/name`. |
| FinderStore.FolderPathCollapsesOnce | src/components/apps/Finder/store.ts:80 | Only the first `//` is collapsed: `a//b` at the root gives `/a//b`. |
| FinderStore.FolderPathBelowRoot | src/components/apps/Finder/store.ts:80 | Below the root, a clean path and name are joined by a single `/` unchanged. |
| FinderStore.LastSegment | src/components/apps/Finder/store.ts:127 | The last segment contains no `/`. |
| FinderStore.LastSegmentIsSuffix | src/components/apps/Finder/store.ts:127 | The file is some prefix plus its last segment, and that prefix is empty or ends in `/`. |
| FinderStore.MovePlan | src/components/apps/Finder/store.ts:126-127 | Each source is paired, in order, with `destination/` followed by the source's last segment. |
| FinderStore.LastSegmentUnder | src/components/apps/Finder/store.ts:127 | A slash-free name placed under any directory is that path's last segment. |
| FinderStore.MoveKeepsName | src/components/apps/Finder/store.ts:126-127 | A moved file keeps its name and lands directly inside the destination. |
| Breadcrumb.PathParts | src/components/apps/Finder/Breadcrumb.tsx:8 | No segment is empty or contains `/`. |
| Breadcrumb.Crumbs | src/components/apps/Finder/Breadcrumb.tsx:18-24 | There is one crumb per segment, and every target starts with `/`. |
| Breadcrumb.ClickRoot | src/components/apps/Finder/Breadcrumb.tsx:13 | Root navigates to `/` and changes nothing else. |
| Breadcrumb.ClickCrumb | src/components/apps/Finder/Breadcrumb.tsx:22-24 | Crumb i navigates to its target and changes nothing else. |
| Breadcrumb.CrumbStep | src/components/apps/Finder/Breadcrumb.tsx:23 | Crumb i+1's target is crumb i's target, a `/`, and segment i+1. |
| Breadcrumb.RootHasNoCrumbs | src/components/apps/Finder/Breadcrumb.tsx:8 | `/` has no segments and no crumbs. |
| Breadcrumb.CanonicalPathParts | src/components/apps/Finder/Breadcrumb.tsx:8 | `/s1/.../sn` with non-empty, slash-free segments decomposes into exactly `s1 … sn`. |
| Breadcrumb.CanonicalLastCrumb | src/components/apps/Finder/Breadcrumb.tsx:23 | For such a path, the last crumb's target is the path itself. |
| Breadcrumb.CrumbNavigationStable | src/components/apps/Finder/Breadcrumb.tsx:22-24 | After clicking crumb i, the segments are the clicked prefix, and crumb i leads to the same place again. |
| FileList.FileClick | src/components/apps/Finder/FileList.tsx:22-28 | A plain click selects exactly `[id]`. A Ctrl/Meta click appends the id after the previous selection. Nothing else changes. |
| FileList.PlainClickHighlightsOnly | src/components/apps/Finder/FileList.tsx:26 | After a plain click, a file is highlighted exactly when it is the clicked one. |
| FileList.ExtendClickHighlights | src/components/apps/Finder/FileList.tsx:23-24 | After a Ctrl/Meta click, a file is highlighted exactly when it was highlighted before or is the clicked one. |
| FileList.ExtendClickDuplicates | src/components/apps/Finder/FileList.tsx:24 | A Ctrl/Meta click on a selected file lists it once more; it does not toggle off. |
| FilePreview.Previewed | src/components/apps/Finder/FilePreview.tsx:7-16 | With an empty selection, or with no file whose id is the first selected one, the placeholder is shown. Otherwise the preview is the first such file. |
| FilePreview.OnlyFirstSelectionMatters | src/components/apps/Finder/FilePreview.tsx:7 | Ids after the first selected one do not affect the preview. |
| FilePreview.PreviewFound | src/components/apps/Finder/FilePreview.tsx:7 | If any file has the first selected id, a preview is shown. |
| LegacyFinder.Initial | src/components/apps/Finder.tsx:14-22 | The path is `['Home']`, the view is grid, and the items are exactly the five sample items. |
| LegacyFinder.Back | src/components/apps/Finder.tsx:29-30 | When Back is disabled (one segment), nothing changes. Otherwise exactly the last segment is removed. The path never drops below one segment. |
| LegacyFinder.ReachableStates | src/components/apps/Finder.tsx:15-30 | From the initial state, every run keeps the path at `['Home']` and the items unchanged. |
| LegacyFinder.ViewIsLastToggle | src/components/apps/Finder.tsx:45-56 | The view is the one chosen by the last grid or list click, or the starting view if there was none. |
| Terminal.Initial | src/components/apps/Terminal.tsx:46-49 | The buffer and history start empty, the working directory is `~`, the history cursor is -1, and the file system is the built-in one. |
| Terminal.Resolve | src/components/apps/Terminal.tsx:67-71 | An absolute argument is returned unchanged. A relative one ends the result, after `~/` at home or after `cwd/` elsewhere. |
| Terminal.ResolveStableUnderRoot | src/components/apps/Terminal.tsx:67-71 | Under an absolute working directory, resolving is idempotent. |
| Terminal.ResolveAtHomeNotStable | src/components/apps/Terminal.tsx:70 | At `~`, resolving twice nests: `a` becomes `~/~/a`. |
| Terminal.Args | src/components/apps/Terminal.tsx:155 | The line has at least one piece, no piece holds a space, and joining the pieces with spaces gives the line back. |
| Terminal.FirstArg | src/components/apps/Terminal.tsx:155-156 | The argument is absent exactly when the line has no space; otherwise it is the second piece of the split. |
| Terminal.CommandWordBeforeSpace | src/components/apps/Terminal.tsx:155-156 | The command word is the text before the first space. |
| Terminal.CommandWordNoSpace | src/components/apps/Terminal.tsx:155-156 | A line without a space is entirely the command word. |
| Terminal.Cat | src/components/apps/Terminal.tsx:185-193 | A file entry gives its content (or empty) highlighted in its language (or text). Anything else gives `cat: <arg>: No such file`. |
| Terminal.Edit | src/components/apps/Terminal.tsx:195-205 | A file entry gives `Opening editor...`; anything else gives `edit: <arg>: No such file`. |
| Terminal.Node | src/components/apps/Terminal.tsx:163-183 | No argument, or an empty one, gives the REPL banner. A file entry with non-empty content is evaluated; any other argument writes nothing. |
| Terminal.Dispatch | src/components/apps/Terminal.tsx:158-211 | `clear`, `node`, `cat` and `edit` reach their handlers with the line's second piece. Any other word gives `Command not found: <word>`. |
| Terminal.HandleCommand | src/components/apps/Terminal.tsx:151-158 | Every line, recognised or not, is appended to the history and the cursor is reset to -1. The output is the dispatch of the line; nothing else changes. |
| Terminal.EnterLinesRecords | src/components/apps/Terminal.tsx:151-153 | After entering several lines, the history has gained exactly those lines, in order, and the cursor is -1. |
| Terminal.EnterLinesKeeps | src/components/apps/Terminal.tsx:151-211 | No sequence of commands changes the working directory, the files or the line buffer. |
| Terminal.EnterLinesOutputs | src/components/apps/Terminal.tsx:155-211 | Each entered line gives the output it gives on its own from the starting state. |
| Terminal.NodeRunsWhatCatShows | src/components/apps/Terminal.tsx:163-193 | When `node` evaluates code, `cat` of the same argument prints that same text. |
| Terminal.CatEditAgree | src/components/apps/Terminal.tsx:185-205 | `edit` opens the editor exactly when `cat` would print a file. |
| Terminal.OnKey | src/components/apps/Terminal.tsx:104-121 | Enter runs the buffer, records it, clears it and resets the history cursor to -1, leaving the working directory and files alone. Backspace leaves an empty buffer alone and otherwise drops its last character. Other keys without Ctrl or Alt are appended; with them, nothing changes. |
| Terminal.TypeThenErase | src/components/apps/Terminal.tsx:112-120 | Typing a character of the Basic Multilingual Plane and then pressing Backspace restores the state. |
| Terminal.OnKeyAsWritten | src/components/apps/Terminal.tsx:104-133 | The handler registered at mount runs and records the empty line on Enter, and ignores Backspace. |
| Terminal.StaleBufferCounterexample | src/components/apps/Terminal.tsx:104-133 | After typing `clear`, Enter clears in the corrected handler but reports an empty unknown command as written. After typing `ab`, Backspace gives `a` corrected and leaves `ab` as written. |
| Terminal.CatScript | src/components/apps/Terminal.tsx:52-65 | On the initial files, `cat example.js` at home prints the script as JavaScript. |
| Terminal.NodeScript | src/components/apps/Terminal.tsx:52-65 | On the initial files, `node example.js` at home evaluates the script. |
| Terminal.CatDirectory | src/components/apps/Terminal.tsx:185-193 | `cat Documents` is refused, because the entry is a directory. |
| Terminal.CatNoArgument | src/components/apps/Terminal.tsx:186-191 | A bare `cat` names its argument `undefined`. |
| Terminal.EditDirectory | src/components/apps/Terminal.tsx:195-205 | `edit /home` is refused, because the entry is a directory. |
| AppStore.FilteredApps | src/components/apps/AppStore.tsx:76-79 | An app is kept exactly when its lowercased title or description includes the lowercased term. |
| AppStore.FilteredIsSubsequence | src/components/apps/AppStore.tsx:76 | The filtered list is an order-preserving subsequence of the catalogue. |
| AppStore.EmptySearchKeepsAll | src/components/apps/AppStore.tsx:76-79 | The empty term keeps every app. |
| AppStore.SearchIgnoresCase | src/components/apps/AppStore.tsx:76-79 | Lowercasing the term does not change the result. |
| AppStore.MatchesIffOccurs | src/components/apps/AppStore.tsx:77-78 | An app matches exactly when the lowercased term occurs at some index of its lowercased title or description. |
| AppStore.CreatorIds | src/components/apps/AppStore.tsx:55 | The creator ids are distinct, include every app's creator, and include nothing else. |
| AppStore.CreatorMap | src/components/apps/AppStore.tsx:66-71 | Every profile's id is a key. |
| AppStore.CreatorMapEntries | src/components/apps/AppStore.tsx:67-70 | Every entry is a fetched profile, stored under its own id. |
| AppStore.CreatorMapLastWins | src/components/apps/AppStore.tsx:67-70 | An id maps to the last profile that carries it. |
| AppStore.CreatorMapLaterWins | src/components/apps/AppStore.tsx:67-70 | Profiles fetched later override whatever came before them. |
| AppStore.CreatorEmail | src/components/apps/AppStore.tsx:170 | The email is shown exactly when the creator is in the map. |
| AppStore.HandleInstall | src/components/apps/AppStore.tsx:81-120 | Signed out, only the sign-in flag is raised and nothing is written. Signed in, the writes are the download count plus 1 and then the installed-app row for the user, whose icon id is the lowercased title, a dash and the timestamp, and whose title and icon URL are the app's. The alert shows exactly when signed in and the insert succeeded, and reads "<title> has been installed to your desktop!". |
| AppStore.InstalledIconId | src/components/apps/AppStore.tsx:105 | The icon id is the lowercased title, a dash and the timestamp; two installs of one app get the same id exactly when they happen at the same millisecond. |
| AppStore.HandleUpload | src/components/apps/AppStore.tsx:122-128 | Signed out, only the sign-in flag is raised. Signed in, the upload form opens. |
| AppStore.SubmitUpload | src/components/apps/AppStore.tsx:207-228 | Signed out, nothing happens. Signed in, exactly one published app row is inserted, owned by the user and carrying the form's title, description, icon URL and code; the form closes exactly when the insert succeeded. |
| AppStore.UploadedAppSearchable | src/components/apps/AppStore.tsx:76-79 | An uploaded app is found by the search box when the query is its own title or its own description. |
| AppStore.SignedOutGuardsAgree | src/components/apps/AppStore.tsx:82-85 | Signed-out install and upload leave the same store and write nothing. |
| Editor.Initial | src/components/apps/Editor.tsx:5-7 | The editor starts with empty content, `untitled.txt` as the file name, and not dirty. |
| Editor.Change | src/components/apps/Editor.tsx:15-18 | Editing replaces the content, sets the dirty flag and keeps the name. |
| Editor.Save | src/components/apps/Editor.tsx:9-13 | Saving clears the dirty flag and keeps the content and the name. |
| Editor.Rename | src/components/apps/Editor.tsx:47 | Renaming changes only the file name. |
| Editor.DirtyIffUnsavedEdit | src/components/apps/Editor.tsx:9-18 | The flag is raised exactly when some edit has not been saved since. |
| Editor.ContentIsLastTyped | src/components/apps/Editor.tsx:15-18 | The content is the last text typed, or empty if nothing was typed. |
| Editor.SaveIdempotent | src/components/apps/Editor.tsx:9-13 | Saving twice equals saving once. |
| Editor.RenameCommutesWithSave | src/components/apps/Editor.tsx:47 | Renaming and saving commute. |

## Left out

- Backend requests (the hosted database, storage and auth service) are not modelled. This covers the Finder's `fetchFiles`, `deleteFiles` and `renameFile`, the storage `upload` and `move` calls, `fetchApps`, and the session and preference loading at start-up. Where a request's outcome steers the logic, it is a boolean parameter. `createFolder` and `moveFiles` are reduced to the keys they send.
- The chat app, the app sandbox, the sign-in widget, the window frame's drag and resize, the preferences panel, and the Finder's sidebar, toolbar and search bar are not modelled. They are rendering, foreign code or a single setter call.
- Browser side effects are actions with no store effect (`MenuBar.Action.Outside`): sleep dimming, clipboard commands, full screen and the help links. The install alert is an output value.
- MenuBar.LogOut: the sign-out request and the auth listener it triggers are collapsed into one step that clears the user. The listener's other branch, which lowers the sign-in flag when a user arrives, belongs to signing in and is not modelled.
- MenuBar.Restart: the page reload is modelled as the store's start-up state. Loading the session and the saved preferences from the backend after start-up is not modelled.
- Terminal.OnKey: characters are Unicode scalar values, while the source's strings are UTF-16 code units. After a character outside the Basic Multilingual Plane, Backspace in the source removes only its low surrogate and leaves a lone high surrogate; here it removes the whole character. Terminal.TypeThenErase is therefore stated for Basic Multilingual Plane characters only.
- `setBackground` and `handleInstall` wait for the backend between reading the user and writing. Each is modelled as one atomic step, so a sign-out that lands during the wait is not modelled.
- The terminal's xterm setup, prompt echo and Prism highlighting are not modelled; the highlighted output is the `Highlighted` value.
- Terminal.Node: the evaluated code is the output `Evaluate(code)`. Running it through `new Function`, and any error it raises, is foreign code execution and is not modelled.
- Strings.Lower: lowercases ASCII letters only. JavaScript's `toLowerCase` also folds non-ASCII letters.
- MenuBar.About: the window's centred position is computed from the viewport in floating point; it is passed in as a parameter.
- AppStore.HandleInstall: the desktop icon's random position is dropped. The download-count update's outcome is not a parameter, because a failure there is only logged and does not change what follows.
- Window coordinates and sizes are mathematical integers; the source's numbers are floating point.
- The modification dates of terminal entries are not modelled; the legacy Finder's items keep theirs as plain strings.

## Findings

| source | as written | input that shows it | evidently intended | confidence | as-written member | corrected member |
|---|---|---|---|---|---|---|
| src/components/apps/Terminal.tsx:104-133 | The key handler is registered once, when the terminal mounts, and reads the line buffer from that first render, which is empty. Enter therefore runs and records the empty line, and the Backspace guard on the buffer's length never passes. | Type `clear` and press Enter: the output is `Command not found: ` and the history gains `""`. Type `ab` and press Backspace: the buffer stays `ab`. | Enter runs the typed line; Backspace drops its last character. | high; not executed | Terminal.OnKeyAsWritten, Terminal.StaleBufferCounterexample | Terminal.OnKey, Terminal.TypeThenErase |
