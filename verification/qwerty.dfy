/**
 * The decision rules of the editor window: the font-size shortcuts, the `.py`
 * gates for highlighting and running a file, the choice of a parent directory
 * for new entries, and how opening and saving a file move the window's current
 * file. Dialogs, the file system and the launched process are inputs or results.
 */
module Qwerty {
  import opened Wrappers

  // ---------------------------------------------------------------------------
  // Keyboard shortcuts for the font size

  datatype EventKind = KeyPress | OtherEvent

  datatype Modifier = ShiftModifier | ControlModifier | AltModifier | MetaModifier | KeypadModifier | GroupSwitchModifier

  /** The parts of an event the filter looks at: its type, the modifiers held and the key code. */
  datatype KeyEvent = KeyEvent(kind: EventKind, modifiers: set<Modifier>, key: int)

  /** Qt's key codes for `+`, `=` and `-`. */
  const KeyPlus: int := 0x2b
  const KeyEqual: int := 0x3d
  const KeyMinus: int := 0x2d

  /**
   * The font-size change an event asks for: a key press with the Control
   * modifier and no other, on `+` or `=` (two points up) or on `-` (two down).
   */
  function FontDelta(e: KeyEvent): (d: Option<int>)
    ensures d == Some(2) <==>
      e.kind == KeyPress && e.modifiers == {ControlModifier} && (e.key == KeyPlus || e.key == KeyEqual)
    ensures d == Some(-2) <==> e.kind == KeyPress && e.modifiers == {ControlModifier} && e.key == KeyMinus
    ensures d.Some? ==> d == Some(2) || d == Some(-2)
  {
    if e.kind == KeyPress && e.modifiers == {ControlModifier} then
      if e.key == KeyPlus || e.key == KeyEqual then Some(2)
      else if e.key == KeyMinus then Some(-2)
      else None
    else None
  }

  /** The modifier test is exact: with Shift held as well, Ctrl and `+` is passed on. */
  lemma ShiftedPlusPassesThrough()
    ensures FontDelta(KeyEvent(KeyPress, {ControlModifier, ShiftModifier}, KeyPlus)).None?
  {
    assert ShiftModifier in {ControlModifier, ShiftModifier};
  }

  /** `adjust_font_size`: the new point size, never below 8. */
  function NewPointSize(current: int, change: int): (size: int)
    ensures size >= 8
    ensures current + change >= 8 ==> size == current + change
    ensures current + change < 8 ==> size == 8
  {
    if current + change < 8 then 8 else current + change
  }

  /** Growing then shrinking by the same step gives the original size back when it was at least 8. */
  lemma GrowThenShrink(current: int)
    requires current >= 8
    ensures NewPointSize(NewPointSize(current, 2), -2) == current
  {
  }

  /** Shrinking repeatedly settles at 8 and stays there. */
  lemma ShrinkAtFloor(current: int)
    requires current <= 10
    ensures NewPointSize(current, -2) == 8
    ensures NewPointSize(NewPointSize(current, -2), -2) == 8
  {
  }

  // ---------------------------------------------------------------------------
  // The `.py` gates

  /** `path.endswith(".py")`. */
  predicate IsPythonPath(path: string)
    ensures IsPythonPath(path) <==> |path| >= 3 && path[..|path| - 3] + ".py" == path
  {
    |path| >= 3 && path[|path| - 3..] == ".py"
  }

  lemma PythonSuffix(stem: string)
    ensures IsPythonPath(stem + ".py")
    ensures !IsPythonPath(stem + ".txt")
  {
    assert (stem + ".py")[|stem + ".py"| - 3..] == ".py";
    assert (stem + ".txt")[|stem + ".txt"| - 3..] == "txt";
  }

  /** What running the current file does: start the interpreter on it, or warn. */
  datatype RunAction = Launch(command: string) | WarnNotPython

  /** `run_file`: only a `.py` file is launched, as `python "<path>"`. */
  function RunDecision(path: string): (a: RunAction)
    ensures a.Launch? <==> IsPythonPath(path)
    ensures a.Launch? ==> a.command == "python \"" + path + "\""
  {
    if IsPythonPath(path) then Launch("python \"" + path + "\"") else WarnNotPython
  }

  // ---------------------------------------------------------------------------
  // The parent directory for a new file or folder

  /** What the file system says a selected path is. */
  datatype EntryKind = RegularFile | Directory | Neither

  /** A selected entry of the file tree: its path and what it is. */
  datatype Entry = Entry(path: string, kind: EntryKind)

  /** The length of the part of `p` up to and including its last `/`; 0 without one. */
  function HeadLength(p: string): (n: nat)
    ensures n <= |p|
    ensures n > 0 ==> p[n - 1] == '/'
    ensures forall j | n <= j < |p| :: p[j] != '/'
  {
    if p == [] then 0
    else if p[|p| - 1] == '/' then |p|
    else HeadLength(p[..|p| - 1])
  }

  predicate AllSlashes(s: string) {
    forall j | 0 <= j < |s| :: s[j] == '/'
  }

  /** `s.rstrip("/")`. */
  function StripTrailingSlashes(s: string): (r: string)
    ensures |r| <= |s| && r == s[..|r|]
    ensures r == [] || r[|r| - 1] != '/'
    ensures forall j | |r| <= j < |s| :: s[j] == '/'
  {
    if s != [] && s[|s| - 1] == '/' then StripTrailingSlashes(s[..|s| - 1]) else s
  }

  /**
   * POSIX `os.path.dirname`: everything up to the last `/`, without its
   * trailing slashes unless it consists of slashes only.
   */
  function Dirname(p: string): (r: string)
    ensures |r| <= HeadLength(p) && r == p[..|r|]
    ensures r == [] <==> HeadLength(p) == 0
    ensures AllSlashes(p[|r|..HeadLength(p)])
    ensures r != [] && r[|r| - 1] == '/' ==> AllSlashes(r)
    ensures AllSlashes(p[..HeadLength(p)]) ==> r == p[..HeadLength(p)]
  {
    var head := p[..HeadLength(p)];
    if head != [] && !AllSlashes(head) then
      StripTrailingSlashes(head)
    else head
  }

  /** The clauses of `Dirname`'s contract that a candidate result `r` can meet. */
  predicate DirnameShape(p: string, r: string) {
    var h := HeadLength(p);
    |r| <= h && r == p[..|r|] &&
    (r == [] <==> h == 0) &&
    AllSlashes(p[|r|..h]) &&
    (r != [] && r[|r| - 1] == '/' ==> AllSlashes(r)) &&
    (AllSlashes(p[..h]) ==> r == p[..h])
  }

  /** Below an all-slash head, a shaped result ends in the last character that is not a slash. */
  lemma ShapeEndsInName(p: string, r: string)
    requires DirnameShape(p, r) && !AllSlashes(p[..HeadLength(p)])
    ensures r != [] && r[|r| - 1] != '/'
  {
    var h := HeadLength(p);
    if r == [] || r[|r| - 1] == '/' {
      assert h > 0 ==> r != [];
      forall j | 0 <= j < h
        ensures p[..h][j] == '/'
      {
        if j < |r| {
          assert p[..h][j] == r[j];
        } else {
          assert p[..h][j] == p[|r|..h][j - |r|];
        }
      }
    }
  }

  /** `Dirname`'s contract determines its result: no other string meets all its clauses. */
  lemma DirnameDetermined(p: string, r: string)
    requires DirnameShape(p, r)
    ensures r == Dirname(p)
  {
    var h := HeadLength(p);
    var d := Dirname(p);
    assert DirnameShape(p, d);
    if !AllSlashes(p[..h]) {
      ShapeEndsInName(p, r);
      ShapeEndsInName(p, d);
    }
  }

  /** A head of two slashes is kept whole: `dirname("//x")` is `//`. */
  lemma DirnameSlashHead()
    ensures Dirname("//x") == "//"
  {
    var p := "//x";
    assert HeadLength(p) == 2 by {
      assert p[..2] == "//";
    }
    assert AllSlashes(p[..2]);
  }

  /** A name directly under the root has the root as its directory. */
  lemma DirnameAtRoot(name: string)
    requires forall j | 0 <= j < |name| :: name[j] != '/'
    ensures Dirname("/" + name) == "/"
  {
    HeadOfJoin("", name);
    assert "" + "/" + name == "/" + name;
    assert ("/" + name)[..1] == "/";
  }

  /** Repeated separators before the last component are dropped with it: `a//b` gives `a`. */
  lemma DirnameDoubleSlash()
    ensures Dirname("a//b") == "a"
  {
    var p := "a//b";
    assert HeadLength(p) == 3 by {
      assert p[..3] == "a//";
    }
    assert p[..3] == "a//" && "a//"[0] != '/';
    assert "a//"[..2] == "a/" && "a/"[..1] == "a";
  }

  /** `dirname` undoes joining a directory and a plain name. */
  lemma DirnameOfJoin(dir: string, name: string)
    requires dir != [] && dir[|dir| - 1] != '/'
    requires forall j | 0 <= j < |name| :: name[j] != '/'
    ensures Dirname(dir + "/" + name) == dir
  {
    var p := dir + "/" + name;
    HeadOfJoin(dir, name);
    assert p[..|dir| + 1] == dir + "/";
    assert (dir + "/")[..|dir|] == dir;
    assert !AllSlashes(dir + "/") by {
      assert (dir + "/")[|dir| - 1] == dir[|dir| - 1];
    }
  }

  lemma JoinIndex(dir: string, name: string, j: nat)
    requires |dir| < j < |dir| + 1 + |name|
    ensures (dir + "/" + name)[j] == name[j - |dir| - 1]
  {
  }

  lemma HeadOfJoin(dir: string, name: string)
    requires forall j | 0 <= j < |name| :: name[j] != '/'
    ensures HeadLength(dir + "/" + name) == |dir| + 1
  {
    var p := dir + "/" + name;
    var n := HeadLength(p);
    assert p[|dir|] == '/';
    assert n > |dir|;
    assert p[n - 1] == '/';
    assert forall j | |dir| < j < |p| :: p[j] != '/' by {
      forall j | |dir| < j < |p|
        ensures p[j] != '/'
      {
        JoinIndex(dir, name, j);
      }
    }
  }

  /**
   * `get_parent_directory`: the tree's root path when nothing is selected; for
   * the first selected entry, its directory when it is a file, itself when it
   * is a directory, and nothing otherwise.
   */
  function ParentDirectory(selected: seq<Entry>, rootPath: string): (r: Option<string>)
    ensures selected == [] ==> r == Some(rootPath)
    ensures selected != [] && selected[0].kind == RegularFile ==> r == Some(Dirname(selected[0].path))
    ensures selected != [] && selected[0].kind == Directory ==> r == Some(selected[0].path)
    ensures r.None? <==> selected != [] && selected[0].kind == Neither
  {
    if selected == [] then Some(rootPath)
    else
      match selected[0].kind
      case RegularFile => Some(Dirname(selected[0].path))
      case Directory => Some(selected[0].path)
      case Neither => None
  }

  /** A new entry created beside a selected file lands in that file's directory. */
  lemma SelectedFileParent(dir: string, name: string, rest: seq<Entry>, rootPath: string)
    requires dir != [] && dir[|dir| - 1] != '/'
    requires forall j | 0 <= j < |name| :: name[j] != '/'
    ensures ParentDirectory([Entry(dir + "/" + name, RegularFile)] + rest, rootPath) == Some(dir)
  {
    DirnameOfJoin(dir, name);
  }

  // ---------------------------------------------------------------------------
  // Saving

  /**
   * Where `save_file` writes: the current file when one is set (an empty path
   * counts as unset), otherwise the path chosen in the save dialog, where the
   * empty path means the dialog was cancelled.
   */
  function SaveTarget(current: Option<string>, dialogPath: string): (target: Option<string>)
    ensures current.Some? && current.value != "" ==> target == current
    ensures current.None? || current.value == "" ==>
      (target.Some? <==> dialogPath != "") && (target.Some? ==> target.value == dialogPath)
    ensures target.Some? ==> target.value != ""
  {
    if current.Some? && current.value != "" then current
    else if dialogPath != "" then Some(dialogPath)
    else None
  }

  /** The current file after a save: the target written to, or the old value when nothing was written. */
  function CurrentAfterSave(current: Option<string>, dialogPath: string): (r: Option<string>)
    ensures current.Some? && current.value != "" ==> r == current
    ensures (current.None? || current.value == "") && dialogPath != "" ==> r == Some(dialogPath)
    ensures (current.None? || current.value == "") && dialogPath == "" ==> r == current
  {
    var target := SaveTarget(current, dialogPath);
    if target.Some? then target else current
  }

  /** Once a save has written somewhere, every later save writes to the same file, whatever the dialog would say. */
  lemma SaveIsSticky(current: Option<string>, dialogPath: string, laterDialogPath: string)
    requires SaveTarget(current, dialogPath).Some?
    ensures SaveTarget(CurrentAfterSave(current, dialogPath), laterDialogPath) == SaveTarget(current, dialogPath)
  {
  }

  /** A write of the editor's text to a path. */
  datatype FileWrite = FileWrite(path: string, content: string)

  // ---------------------------------------------------------------------------
  // The window's state

  /**
   * The editor window: the editor font's point size, the current file (`None`
   * until a file is opened or saved), whether a Python highlighter has been
   * attached to the document, and the editor's plain text.
   */
  class EditorApp {
    var fontSize: int
    var currentFile: Option<string>
    var highlighterInstalled: bool
    var text: string

    constructor(initialFontSize: int)
      ensures fontSize == initialFontSize
      ensures currentFile.None? && !highlighterInstalled && text == ""
    {
      fontSize := initialFontSize;
      currentFile := None;
      highlighterInstalled := false;
      text := "";
    }

    /** `adjust_font_size`. */
    method AdjustFontSize(change: int)
      modifies this
      ensures fontSize == NewPointSize(old(fontSize), change)
      ensures currentFile == old(currentFile) && highlighterInstalled == old(highlighterInstalled) && text == old(text)
    {
      fontSize := NewPointSize(fontSize, change);
    }

    /** `eventFilter`: the font shortcuts are handled and consumed; every other event is passed on unhandled. */
    method EventFilter(e: KeyEvent) returns (consumed: bool)
      modifies this
      ensures consumed <==> FontDelta(e).Some?
      ensures consumed ==> fontSize == NewPointSize(old(fontSize), FontDelta(e).value)
      ensures !consumed ==> fontSize == old(fontSize)
      ensures currentFile == old(currentFile) && highlighterInstalled == old(highlighterInstalled) && text == old(text)
    {
      if e.kind == KeyPress && e.modifiers == {ControlModifier} {
        if e.key == KeyPlus || e.key == KeyEqual {
          AdjustFontSize(2);
          return true;
        } else if e.key == KeyMinus {
          AdjustFontSize(-2);
          return true;
        }
      }
      return false;
    }

    /** `run_file`, once a file has been opened or saved. */
    method RunFile() returns (action: RunAction)
      requires currentFile.Some?
      ensures action.Launch? <==> IsPythonPath(currentFile.value)
      ensures action.Launch? ==> action.command == "python \"" + currentFile.value + "\""
    {
      if IsPythonPath(currentFile.value) {
        action := Launch("python \"" + currentFile.value + "\"");
      } else {
        action := WarnNotPython;
      }
    }

    /**
     * `open_file` on the path of the double-clicked entry. `read` is the file's
     * content, or `None` when it cannot be decoded; `warned` says whether the
     * decoding warning was shown. Paths that are not regular files are ignored.
     */
    method OpenFile(path: string, isFile: bool, read: Option<string>) returns (warned: bool)
      modifies this
      ensures warned <==> isFile && read.None?
      ensures isFile ==> text == (if read.Some? then read.value else "")
      ensures isFile ==> currentFile == Some(path)
      ensures isFile ==> highlighterInstalled == (old(highlighterInstalled) || IsPythonPath(path))
      ensures !isFile ==>
        text == old(text) && currentFile == old(currentFile) && highlighterInstalled == old(highlighterInstalled)
      ensures fontSize == old(fontSize)
    {
      warned := false;
      if isFile {
        var content := "";
        if read.Some? {
          content := read.value;
        } else {
          warned := true;
        }
        text := content;
        if IsPythonPath(path) {
          highlighterInstalled := true;
        }
        currentFile := Some(path);
      }
    }

    /**
     * `save_file`, where `dialogPath` is what the save dialog would return if
     * it were shown (empty when cancelled). The result is the write performed.
     */
    method SaveFile(dialogPath: string) returns (write: Option<FileWrite>)
      modifies this
      ensures write.Some? <==> SaveTarget(old(currentFile), dialogPath).Some?
      ensures write.Some? ==> write.value == FileWrite(SaveTarget(old(currentFile), dialogPath).value, text)
      ensures currentFile == CurrentAfterSave(old(currentFile), dialogPath)
      ensures fontSize == old(fontSize) && highlighterInstalled == old(highlighterInstalled) && text == old(text)
    {
      if currentFile.Some? && currentFile.value != "" {
        write := Some(FileWrite(currentFile.value, text));
      } else if dialogPath != "" {
        write := Some(FileWrite(dialogPath, text));
        currentFile := Some(dialogPath);
      } else {
        write := None;
      }
    }
  }
}
