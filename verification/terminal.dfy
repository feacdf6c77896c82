/** The terminal's command core (`src/components/apps/Terminal.tsx`): path
    resolution against the working directory, the command-line history, the
    dispatch on the first word, `cat` and `edit` over the in-memory file
    map, and the key handler that edits the line buffer.  What xterm draws
    is reduced to an `Output` value; `node` hands a file to the JavaScript
    engine, which is reduced to the `Evaluate` output naming the code. */
module Terminal {
  import opened Seqs
  import opened Strings

  datatype EntryKind = RegularFile | Directory

  /** One file-map entry; the modification date is left out. */
  datatype Entry = Entry(
    kind: EntryKind,
    content: Option<string>,
    permissions: string,
    owner: string,
    size: nat,
    language: Option<string>)

  type FileSystem = map<string, Entry>

  const InitialFileSystem: FileSystem := map[
    "/" := Entry(Directory, None, "drwxr-xr-x", "root", 4096, None),
    "/home" := Entry(Directory, None, "drwxr-xr-x", "root", 4096, None),
    "~/Documents" := Entry(Directory, None, "drwxr-xr-x", "user", 4096, None),
    "~/example.js" := Entry(RegularFile, Some("console.log(\"Hello World!\");"), "-rw-r--r--", "user", 28,
                            Some("javascript"))
  ]

  /** What one command writes to the screen. */
  datatype Output =
    | Cleared
    | Line(text: string)
    | Highlighted(text: string, language: string)
    | Evaluate(code: string)
    | Silent

  datatype TermState = TermState(
    buffer: string,
    cwd: string,
    history: seq<string>,
    historyIndex: int,
    fs: FileSystem)

  function Initial(): (s: TermState)
    ensures s.buffer == "" && s.cwd == "~" && s.history == [] && s.historyIndex == -1
    ensures s.fs == InitialFileSystem
  {
    TermState("", "~", [], -1, InitialFileSystem)
  }

  /** `getAbsolutePath`: an absolute argument is kept; a relative one is
      put under `~/` at home and under `cwd/` elsewhere. */
  function Resolve(cwd: string, p: string): (r: string)
    ensures "/" <= p ==> r == p
    ensures |p| <= |r| && r[|r| - |p|..] == p
    ensures !("/" <= p) ==> r[..|r| - |p|] == (if cwd == "~" then "~/" else cwd + "/")
  {
    if "/" <= p then p
    else if cwd == "~" then "~/" + p
    else cwd + "/" + p
  }

  /** Resolving is stable under an absolute working directory. */
  lemma ResolveStableUnderRoot(cwd: string, p: string)
    requires "/" <= cwd
    ensures "/" <= Resolve(cwd, p)
    ensures Resolve(cwd, Resolve(cwd, p)) == Resolve(cwd, p)
  {
  }

  /** At home it is not: a resolved `~/` path is relative again. */
  lemma ResolveAtHomeNotStable()
    ensures Resolve("~", "a") == "~/a"
    ensures Resolve("~", Resolve("~", "a")) == "~/~/a"
  {
    assert "a"[0] != '/';
    assert ("~/" + "a")[0] != '/';
  }

  /** `command.split(' ')`. */
  function Args(command: string): (r: seq<string>)
    ensures |r| >= 1
    ensures forall p :: p in r ==> ' ' !in p
    ensures Join(r, ' ') == command
  {
    JoinSplit(command, ' ');
    Split(command, ' ')
  }

  /** `args[0]`. */
  function CommandWord(command: string): string {
    Args(command)[0]
  }

  /** `args[1]`, which is `undefined` on a one-word line. */
  function FirstArg(command: string): (r: Option<string>)
    ensures r.None? <==> ' ' !in command
    ensures r.Some? ==> |Args(command)| > 1 && r.value == Args(command)[1]
  {
    var args := Args(command);
    SplitSingle(command, ' ');
    if |args| > 1 then Some(args[1]) else None
  }

  /** `${args[1]}` inside a template string. */
  function Shown(a: Option<string>): string {
    match a
    case None => "undefined"
    case Some(x) => x
  }

  /** `args[1] || ''`. */
  function PathArg(a: Option<string>): string {
    match a
    case None => ""
    case Some(x) => x
  }

  /** `file?.type === 'file'` after the lookup. */
  predicate IsFile(fs: FileSystem, path: string) {
    path in fs && fs[path].kind == RegularFile
  }

  /** `x || fallback` for an optional string: absent or empty falls back. */
  function OrElse(x: Option<string>, fallback: string): (r: string)
    ensures x.Some? && x.value != "" ==> r == x.value
    ensures x.None? || x.value == "" ==> r == fallback
  {
    if x.Some? && x.value != "" then x.value else fallback
  }

  /** `cat`: the file's content, highlighted in its language (plain text
      when it has none), or the error naming the argument as typed. */
  function Cat(fs: FileSystem, cwd: string, arg: Option<string>): (r: Output)
    ensures IsFile(fs, Resolve(cwd, PathArg(arg))) ==>
      r == Highlighted(OrElse(fs[Resolve(cwd, PathArg(arg))].content, ""),
                       OrElse(fs[Resolve(cwd, PathArg(arg))].language, "text"))
    ensures !IsFile(fs, Resolve(cwd, PathArg(arg))) ==> r == Line("cat: " + Shown(arg) + ": No such file")
  {
    var path := Resolve(cwd, PathArg(arg));
    if IsFile(fs, path) then Highlighted(OrElse(fs[path].content, ""), OrElse(fs[path].language, "text"))
    else Line("cat: " + Shown(arg) + ": No such file")
  }

  /** `edit`: announces the editor for a file, else the error. */
  function Edit(fs: FileSystem, cwd: string, arg: Option<string>): (r: Output)
    ensures IsFile(fs, Resolve(cwd, PathArg(arg))) ==> r == Line("Opening editor...")
    ensures !IsFile(fs, Resolve(cwd, PathArg(arg))) ==> r == Line("edit: " + Shown(arg) + ": No such file")
  {
    if IsFile(fs, Resolve(cwd, PathArg(arg))) then Line("Opening editor...")
    else Line("edit: " + Shown(arg) + ": No such file")
  }

  /** A file entry whose content is a non-empty string: what `node` runs. */
  predicate Runnable(fs: FileSystem, path: string) {
    IsFile(fs, path) && fs[path].content.Some? && fs[path].content.value != ""
  }

  /** `node`: with a non-empty argument naming a file with content, that
      content is evaluated; with any other non-empty argument nothing is
      written; with no argument the REPL banner is shown. */
  function Node(fs: FileSystem, cwd: string, arg: Option<string>): (r: Output)
    ensures arg.None? || arg.value == "" ==> r == Line("Node.js REPL (press Ctrl+C to exit)")
    ensures arg.Some? && arg.value != "" && Runnable(fs, Resolve(cwd, arg.value)) ==>
      r == Evaluate(fs[Resolve(cwd, arg.value)].content.value)
    ensures arg.Some? && arg.value != "" && !Runnable(fs, Resolve(cwd, arg.value)) ==> r == Silent
    ensures r.Evaluate? ==> IsFile(fs, Resolve(cwd, PathArg(arg))) && r.code != ""
  {
    if arg.Some? && arg.value != "" then
      var path := Resolve(cwd, arg.value);
      if Runnable(fs, path) then Evaluate(fs[path].content.value)
      else Silent
    else Line("Node.js REPL (press Ctrl+C to exit)")
  }

  /** The `switch` on the command word. */
  function Dispatch(fs: FileSystem, cwd: string, command: string): (r: Output)
    ensures CommandWord(command) == "clear" ==> r == Cleared
    ensures CommandWord(command) == "node" ==> r == Node(fs, cwd, FirstArg(command))
    ensures CommandWord(command) == "cat" ==> r == Cat(fs, cwd, FirstArg(command))
    ensures CommandWord(command) == "edit" ==> r == Edit(fs, cwd, FirstArg(command))
    ensures CommandWord(command) !in {"clear", "node", "cat", "edit"} ==>
      r == Line("Command not found: " + CommandWord(command))
  {
    var cmd := CommandWord(command);
    var arg := FirstArg(command);
    if cmd == "clear" then Cleared
    else if cmd == "node" then Node(fs, cwd, arg)
    else if cmd == "cat" then Cat(fs, cwd, arg)
    else if cmd == "edit" then Edit(fs, cwd, arg)
    else Line("Command not found: " + cmd)
  }

  /** `handleCommand`: every line, recognised or not, is recorded in the
      history and the history cursor is reset. */
  function HandleCommand(s: TermState, command: string): (r: (TermState, Output))
    ensures |r.0.history| == |s.history| + 1
    ensures r.0.history[..|s.history|] == s.history && r.0.history[|s.history|] == command
    ensures r.0.historyIndex == -1
    ensures r.0.buffer == s.buffer && r.0.cwd == s.cwd && r.0.fs == s.fs
    ensures r.1 == Dispatch(s.fs, s.cwd, command)
  {
    (s.(history := s.history + [command], historyIndex := -1), Dispatch(s.fs, s.cwd, command))
  }

  /** Entering lines one after another: the final state and the outputs in
      order. */
  function EnterLines(s: TermState, lines: seq<string>): (TermState, seq<Output>)
    decreases |lines|
  {
    if |lines| == 0 then (s, [])
    else
      var step := HandleCommand(s, lines[0]);
      var rest := EnterLines(step.0, lines[1..]);
      (rest.0, [step.1] + rest.1)
  }

  /** The history gains exactly the entered lines, in order, and the cursor
      is back at -1 once a line was entered. */
  lemma {:induction false} EnterLinesRecords(s: TermState, lines: seq<string>)
    ensures EnterLines(s, lines).0.history == s.history + lines
    ensures |lines| > 0 ==> EnterLines(s, lines).0.historyIndex == -1
    decreases |lines|
  {
    if |lines| > 0 {
      var t := HandleCommand(s, lines[0]).0;
      EnterLinesRecords(t, lines[1..]);
      assert EnterLines(s, lines).0 == EnterLines(t, lines[1..]).0;
      assert t.history == s.history + [lines[0]];
      assert s.history + [lines[0]] + lines[1..] == s.history + lines;
    }
  }

  /** No command moves the working directory, changes the files or touches
      the line buffer. */
  lemma {:induction false} EnterLinesKeeps(s: TermState, lines: seq<string>)
    ensures EnterLines(s, lines).0.cwd == s.cwd
    ensures EnterLines(s, lines).0.fs == s.fs
    ensures EnterLines(s, lines).0.buffer == s.buffer
    decreases |lines|
  {
    if |lines| > 0 {
      var t := HandleCommand(s, lines[0]).0;
      EnterLinesKeeps(t, lines[1..]);
      assert EnterLines(s, lines).0 == EnterLines(t, lines[1..]).0;
    }
  }

  /** One output per line, each what that line gives on its own from the
      starting state. */
  lemma {:induction false} EnterLinesOutputs(s: TermState, lines: seq<string>)
    ensures |EnterLines(s, lines).1| == |lines|
    ensures forall i :: 0 <= i < |lines| ==> EnterLines(s, lines).1[i] == Dispatch(s.fs, s.cwd, lines[i])
    decreases |lines|
  {
    if |lines| > 0 {
      var t := HandleCommand(s, lines[0]).0;
      EnterLinesOutputs(t, lines[1..]);
      var outs := EnterLines(s, lines).1;
      assert outs == [Dispatch(s.fs, s.cwd, lines[0])] + EnterLines(t, lines[1..]).1;
      forall i | 0 < i < |lines| ensures outs[i] == Dispatch(s.fs, s.cwd, lines[i]) {
        assert lines[1..][i - 1] == lines[i];
      }
    }
  }

  /** `node` runs exactly the text `cat` would display for the same
      argument. */
  lemma NodeRunsWhatCatShows(fs: FileSystem, cwd: string, arg: Option<string>)
    ensures Node(fs, cwd, arg).Evaluate? ==>
      Cat(fs, cwd, arg).Highlighted? && Cat(fs, cwd, arg).text == Node(fs, cwd, arg).code
  {
  }

  /** `cat` and `edit` agree on what is a file. */
  lemma CatEditAgree(fs: FileSystem, cwd: string, arg: Option<string>)
    ensures Edit(fs, cwd, arg) == Line("Opening editor...") <==> Cat(fs, cwd, arg).Highlighted?
  {
  }

  /** The first piece of a split is the text before the first separator. */
  lemma {:induction false} SplitFirstPiece(s: string, c: char, k: nat)
    requires k <= |s| && c !in s[..k]
    requires k == |s| || s[k] == c
    ensures Split(s, c)[0] == s[..k]
  {
    if k > 0 {
      assert s[0] in s[..k];
      assert s[1..][..k - 1] == s[..k][1..];
      SplitFirstPiece(s[1..], c, k - 1);
      assert s[..k] == [s[0]] + s[1..][..k - 1];
    }
  }

  /** The command word is everything before the first space, or the whole
      line when there is none. */
  lemma CommandWordBeforeSpace(command: string, k: nat)
    requires k <= |command| && ' ' !in command[..k]
    requires k == |command| || command[k] == ' '
    ensures CommandWord(command) == command[..k]
  {
    SplitFirstPiece(command, ' ', k);
  }

  /** A line with no space is all command word. */
  lemma CommandWordNoSpace(command: string)
    requires ' ' !in command
    ensures CommandWord(command) == command
  {
    assert command[..|command|] == command;
    SplitFirstPiece(command, ' ', |command|);
  }

  /** A key event from xterm: the key code, the character(s) it produces,
      and the modifier state. */
  datatype KeyEvent = KeyEvent(keyCode: int, key: string, ctrl: bool, alt: bool)

  const EnterCode := 13
  const BackspaceCode := 8

  /** The key handler as it is evidently meant: Enter runs the line in the
      buffer and clears it, Backspace drops the last character of a
      non-empty buffer, any other key without Ctrl or Alt is appended. */
  function OnKey(s: TermState, e: KeyEvent): (r: (TermState, Option<Output>))
    ensures e.keyCode == EnterCode ==>
      r.0 == s.(buffer := "", history := s.history + [s.buffer], historyIndex := -1) &&
      r.1 == Some(Dispatch(s.fs, s.cwd, s.buffer))
    ensures e.keyCode == BackspaceCode && |s.buffer| == 0 ==> r.0 == s && r.1.None?
    ensures e.keyCode == BackspaceCode && |s.buffer| > 0 ==>
      r.0.buffer + [s.buffer[|s.buffer| - 1]] == s.buffer && r.0.(buffer := s.buffer) == s
    ensures e.keyCode != EnterCode && e.keyCode != BackspaceCode && !e.ctrl && !e.alt ==>
      r.0.buffer == s.buffer + e.key && r.0.(buffer := s.buffer) == s
    ensures e.keyCode != EnterCode && e.keyCode != BackspaceCode && (e.ctrl || e.alt) ==> r.0 == s
  {
    if e.keyCode == EnterCode then
      var (t, out) := HandleCommand(s, s.buffer);
      (t.(buffer := ""), Some(out))
    else if e.keyCode == BackspaceCode then
      if |s.buffer| > 0 then (s.(buffer := s.buffer[..|s.buffer| - 1]), None) else (s, None)
    else if !e.ctrl && !e.alt then
      (s.(buffer := s.buffer + e.key), None)
    else (s, None)
  }

  /** Typing one character and erasing it restores the buffer.  The
      character lies in the Basic Multilingual Plane: there, one character
      is one UTF-16 code unit, which is what the source's `slice(0, -1)`
      removes. */
  lemma TypeThenErase(s: TermState, c: char, code: int)
    requires c as int < 0x10000
    requires code != EnterCode && code != BackspaceCode
    ensures OnKey(OnKey(s, KeyEvent(code, [c], false, false)).0, KeyEvent(BackspaceCode, "", false, false)).0 == s
  {
    var t := OnKey(s, KeyEvent(code, [c], false, false)).0;
    assert t.buffer[..|t.buffer| - 1] == s.buffer;
  }

  /** The key handler as written: it is registered once, when the terminal
      mounts, and reads the line buffer captured at that moment, which is
      always empty.  Enter therefore runs the empty line and Backspace's
      guard never passes; appending goes through a state updater and works. */
  function OnKeyAsWritten(s: TermState, e: KeyEvent): (r: (TermState, Option<Output>))
    ensures e.keyCode == EnterCode ==>
      r.0.buffer == "" && r.0.history == s.history + [""] && r.1 == Some(Dispatch(s.fs, s.cwd, ""))
    ensures e.keyCode == BackspaceCode ==> r.0 == s
  {
    if e.keyCode == EnterCode then
      var (t, out) := HandleCommand(s, "");
      (t.(buffer := ""), Some(out))
    else if e.keyCode == BackspaceCode then
      // the length guard reads the captured empty buffer and fails
      (s, None)
    else if !e.ctrl && !e.alt then
      (s.(buffer := s.buffer + e.key), None)
    else (s, None)
  }

  /** The captured-buffer handler loses typed commands: after typing
      `clear`, Enter reports an unknown empty command instead of clearing,
      and Backspace leaves the buffer as it was. */
  lemma StaleBufferCounterexample()
    ensures OnKey(Initial().(buffer := "clear"), KeyEvent(EnterCode, "\r", false, false)).1 == Some(Cleared)
    ensures OnKeyAsWritten(Initial().(buffer := "clear"), KeyEvent(EnterCode, "\r", false, false)).1 ==
            Some(Line("Command not found: "))
    ensures OnKey(Initial().(buffer := "ab"), KeyEvent(BackspaceCode, "", false, false)).0.buffer == "a"
    ensures OnKeyAsWritten(Initial().(buffer := "ab"), KeyEvent(BackspaceCode, "", false, false)).0.buffer == "ab"
  {
    CommandWordNoSpace("clear");
    CommandWordNoSpace("");
    assert CommandWord("") == "";
    assert Dispatch(Initial().fs, "~", "") == Line("Command not found: ");
  }

  /** On the initial file map, from home, `cat example.js` prints the
      script highlighted as JavaScript. */
  lemma CatScript()
    ensures Cat(InitialFileSystem, "~", Some("example.js")) ==
            Highlighted("console.log(\"Hello World!\");", "javascript")
  {
    assert "example.js"[0] != '/';
    assert Resolve("~", "example.js") == "~/example.js";
    assert IsFile(InitialFileSystem, "~/example.js");
  }

  /** `node example.js` from home evaluates the script. */
  lemma NodeScript()
    ensures Node(InitialFileSystem, "~", Some("example.js")) == Evaluate("console.log(\"Hello World!\");")
  {
    assert "example.js"[0] != '/';
    assert Resolve("~", "example.js") == "~/example.js";
    assert Runnable(InitialFileSystem, "~/example.js");
  }

  /** `cat Documents` is refused: the entry is a directory. */
  lemma CatDirectory()
    ensures Cat(InitialFileSystem, "~", Some("Documents")) == Line("cat: Documents: No such file")
  {
    var path := Resolve("~", PathArg(Some("Documents")));
    assert "Documents"[0] != '/';
    assert path == "~/Documents";
    assert InitialFileSystem["~/Documents"].kind == Directory;
    assert !IsFile(InitialFileSystem, path);
    assert "cat: " + Shown(Some("Documents")) + ": No such file" == "cat: Documents: No such file";
  }

  /** A bare `cat` looks up `~/` and names its missing argument `undefined`. */
  lemma CatNoArgument()
    ensures Cat(InitialFileSystem, "~", None) == Line("cat: undefined: No such file")
  {
    var path := Resolve("~", PathArg(None));
    assert path == "~/";
    assert path !in InitialFileSystem;
    assert !IsFile(InitialFileSystem, path);
    assert "cat: " + Shown(None) + ": No such file" == "cat: undefined: No such file";
  }

  /** An absolute path is looked up as typed; `/home` is a directory. */
  lemma EditDirectory()
    ensures Edit(InitialFileSystem, "~", Some("/home")) == Line("edit: /home: No such file")
  {
    var path := Resolve("~", PathArg(Some("/home")));
    assert path == "/home";
    assert InitialFileSystem["/home"].kind == Directory;
    assert !IsFile(InitialFileSystem, path);
    assert "edit: " + Shown(Some("/home")) + ": No such file" == "edit: /home: No such file";
  }
}
