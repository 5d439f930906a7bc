/** The editor's tab state (src/lib.rs): tabs with an optional path and their
    text, the index of the current tab, the editor configuration and the AI
    manager that completes the current tab.

    The file system is not modelled: reading a file is an oracle `FileReader`
    and writing one is an oracle `FileWriter`, each giving the result the
    corresponding `std::fs` call would return. */
module Editor {
  import opened Wrappers
  import Ai

  // ---------------------------------------------------------------------
  // Paths

  /** A path component name as the operating system stores it; `to_str`
      succeeds only on names that are valid UTF-8. */
  datatype OsName = Utf8Name(text: string) | NonUtf8Name(raw: seq<bv8>)

  function ToStr(n: OsName): Option<string> {
    match n
    case Utf8Name(s) => Some(s)
    case NonUtf8Name(_) => None
  }

  /** The components of a path after `Path::components` has normalised it
      (repeated and trailing separators, and `.` other than a leading one,
      are already gone). */
  datatype Component = RootDir | CurDir | ParentDir | Normal(name: OsName)

  datatype Path = Path(components: seq<Component>)

  /** `Path::file_name`: the final component when it is a normal name; a path
      that is empty, ends in `..`, is a root or is just `.` has none. */
  function FileName(p: Path): (r: Option<OsName>)
    ensures r.Some? <==> |p.components| > 0 && p.components[|p.components| - 1].Normal?
    ensures r.Some? ==> r.value == p.components[|p.components| - 1].name
  {
    if |p.components| > 0 && p.components[|p.components| - 1].Normal?
    then Some(p.components[|p.components| - 1].name)
    else None
  }

  // ---------------------------------------------------------------------
  // Tabs

  datatype Tab = Tab(path: Option<Path>, content: string)

  const Untitled: string := "Untitled"

  /** `Tab::title`: the file name of the tab's path, or "Untitled". */
  function Title(t: Tab): string {
    match t.path
    case None => Untitled
    case Some(p) =>
      match FileName(p)
      case None => Untitled
      case Some(n) => ToStr(n).GetOr(Untitled)
  }

  /** The title is a readable file name exactly when the path ends in a
      normal, UTF-8 component, and then it is that name; otherwise it is
      "Untitled". */
  lemma TitleSpec(t: Tab)
    ensures (t.path.Some? && |t.path.value.components| > 0
             && t.path.value.components[|t.path.value.components| - 1].Normal?
             && t.path.value.components[|t.path.value.components| - 1].name.Utf8Name?)
      ==> Title(t) == t.path.value.components[|t.path.value.components| - 1].name.text
    ensures !(t.path.Some? && |t.path.value.components| > 0
              && t.path.value.components[|t.path.value.components| - 1].Normal?
              && t.path.value.components[|t.path.value.components| - 1].name.Utf8Name?)
      ==> Title(t) == Untitled
  {
  }

  /** `Tab::new`: no path, no text, and therefore titled "Untitled". */
  function NewTab(): (t: Tab)
    ensures t.path.None? && t.content == []
    ensures Title(t) == Untitled
  {
    Tab(None, "")
  }

  /** `Vec::get`: the tab at `i`, if `i` is in range. */
  function TabAt(tabs: seq<Tab>, i: nat): (r: Option<Tab>)
    ensures r.Some? <==> i < |tabs|
    ensures r.Some? ==> r.value == tabs[i]
  {
    if i < |tabs| then Some(tabs[i]) else None
  }

  // ---------------------------------------------------------------------
  // Configuration

  datatype EditorTheme = Dark | Light | Sepia | CustomTheme(path: string)

  /** The editor configuration, without its floating-point font size, its
      paths, its syntax-theme table and its key bindings. */
  datatype EditorConfig = EditorConfig(
    theme: EditorTheme,
    lineNumbers: bool,
    wordWrap: bool,
    tabSize: nat,
    autoIndent: bool,
    autoSave: bool,
    autoSaveIntervalSecs: nat)

  /** `EditorConfig::default`. */
  const DefaultConfig: EditorConfig := EditorConfig(Dark, true, true, 4, true, true, 300)

  // ---------------------------------------------------------------------
  // File system oracles

  datatype IoError = IoError(kind: string)

  type FileReader = Path -> Result<string, IoError>
  type FileWriter = (Path, string) -> Result<(), IoError>

  // ---------------------------------------------------------------------
  // The editor

  class TextEditor {
    var tabs: seq<Tab>
    var currentTab: nat
    var config: EditorConfig
    const ai: Ai.AIManager

    /** `TextEditor::new`: no tabs, index 0 (so no current tab), the default
        configuration and a fresh AI manager. */
    constructor ()
      ensures tabs == [] && currentTab == 0 && TabAt(tabs, currentTab).None?
      ensures config == DefaultConfig
      ensures fresh(ai) && ai.Valid() && ai.model == Ai.Default && ai.queue == []
    {
      tabs := [];
      currentTab := 0;
      config := DefaultConfig;
      ai := new Ai.AIManager();
    }

    /** `open_file`: reads the file first; on failure nothing changes, on
        success one tab with the path and the text read is appended and
        becomes the current tab. */
    method OpenFile(path: Path, read: FileReader) returns (r: Result<(), IoError>)
      modifies this`tabs, this`currentTab
      ensures read(path).Err? ==>
        && r == Err(read(path).error)
        && tabs == old(tabs) && currentTab == old(currentTab)
      ensures read(path).Ok? ==>
        && r == Ok(())
        && tabs == old(tabs) + [Tab(Some(path), read(path).value)]
        && currentTab == |tabs| - 1
    {
      var content := read(path);
      if content.Err? {
        return Err(content.error);
      }
      tabs := tabs + [Tab(Some(path), content.value)];
      currentTab := |tabs| - 1;
      r := Ok(());
    }

    /** `save_current_tab`: writes the current tab's text to its path when
        there is a current tab and it has a path, propagating the write's
        error; otherwise writes nothing and succeeds. `written` is the write
        issued, if any. */
    method SaveCurrentTab(write: FileWriter) returns (written: Option<(Path, string)>, r: Result<(), IoError>)
      ensures written.Some? <==> currentTab < |tabs| && tabs[currentTab].path.Some?
      ensures written.Some? ==>
        && written.value == (tabs[currentTab].path.value, tabs[currentTab].content)
        && r == write(written.value.0, written.value.1)
      ensures written.None? ==> r == Ok(())
    {
      written := None;
      r := Ok(());
      match TabAt(tabs, currentTab) {
        case Some(tab) =>
          match tab.path {
            case Some(path) =>
              written := Some((path, tab.content));
              r := write(path, tab.content);
            case None =>
          }
        case None =>
      }
    }

    /** `set_theme`: replaces the configured theme and nothing else. */
    method SetTheme(theme: EditorTheme)
      modifies this`config
      ensures config == old(config).(theme := theme)
    {
      config := config.(theme := theme);
    }

    /** `get_ai_completion`: with no current tab, the empty string and no
        request; otherwise a completion of exactly the current tab's text. */
    method GetAiCompletion(provider: Ai.Provider) returns (r: Result<string, Ai.Error>)
      requires ai.Valid()
      requires currentTab < |tabs| ==> |ai.queue| < Ai.QueueCapacity
      modifies ai`queue
      ensures ai.Valid()
      ensures currentTab >= |tabs| ==> r == Ok("") && ai.queue == old(ai.queue)
      ensures currentTab < |tabs| ==>
        && r == provider(Ai.Request(tabs[currentTab].content, Ai.ModelName(ai.model)))
        && ai.queue == (if r.Ok? then old(ai.queue) + [r.value] else old(ai.queue))
    {
      match TabAt(tabs, currentTab) {
        case Some(tab) =>
          r := ai.RequestCompletion(tab.content, provider);
        case None =>
          r := Ok("");
      }
    }
  }

  /** Opening a file and saving it straight away writes back, to the same
      path, exactly the text that was read. */
  method OpenThenSave(path: Path, read: FileReader, write: FileWriter)
    returns (written: Option<(Path, string)>)
    requires read(path).Ok?
    ensures written == Some((path, read(path).value))
  {
    var editor := new TextEditor();
    var openResult := editor.OpenFile(path, read);
    var saved;
    written, saved := editor.SaveCurrentTab(write);
  }

  /** A new editor has no current tab: saving writes nothing and asking for a
      completion answers the empty string without calling the provider. */
  method NewEditorIsInert(write: FileWriter, provider: Ai.Provider)
    returns (written: Option<(Path, string)>, completion: Result<string, Ai.Error>)
    ensures written == None
    ensures completion == Ok("")
  {
    var editor := new TextEditor();
    var saved;
    written, saved := editor.SaveCurrentTab(write);
    completion := editor.GetAiCompletion(provider);
  }
}
