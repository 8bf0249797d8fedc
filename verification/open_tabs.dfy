/**
 The open-files tab bar of the main window (main.py:2568-2687, and the duplicate
 check in `load_file`, main.py:2090-2093). The state is the list `open_files`
 of `{path, type, title}` and `current_file_index`. Loading a file's contents
 is I/O; an operation reports instead what the viewer is asked to show next.
 */
module OpenTabs {
  import opened Results

  /** `'md'` or `'pdf'`: the only two types the loaders record. */
  datatype FileKind = Markdown | Pdf

  datatype OpenFile = OpenFile(path: string, kind: FileKind, title: string)

  datatype TabState = TabState(files: seq<OpenFile>, current: int)

  /** What the viewer is asked to do: nothing, load a file (`load_markdown`/`load_pdf`
      with `add_to_tabs=False`), or show the welcome screen. */
  datatype View = Unchanged | Show(file: OpenFile) | Welcome

  datatype Step = Step(tabs: TabState, view: View)

  /** The window's state at start-up. */
  const NoTabs := TabState([], -1)

  predicate DistinctPaths(files: seq<OpenFile>) {
    forall i, j :: 0 <= i < j < |files| ==> files[i].path != files[j].path
  }

  /** The invariant every reachable state keeps. */
  predicate Valid(t: TabState) {
    && DistinctPaths(t.files)
    && -1 <= t.current < |t.files|
    && (t.current == -1 <==> t.files == [])
  }

  predicate HasPath(files: seq<OpenFile>, path: string) {
    exists i :: 0 <= i < |files| && files[i].path == path
  }

  /** The `for i, file_info in enumerate(self.open_files)` search: the first index holding `path`. */
  function FindPath(files: seq<OpenFile>, path: string): (r: Option<nat>)
    ensures r.Some? ==> r.value < |files| && files[r.value].path == path
    ensures r.Some? ==> forall j :: 0 <= j < r.value ==> files[j].path != path
    ensures r.None? <==> !HasPath(files, path)
    decreases |files|
  {
    if files == [] then None
    else if files[0].path == path then Some(0)
    else
      match FindPath(files[1..], path)
      case None =>
        assert forall j :: 1 <= j < |files| ==> files[j] == files[1..][j - 1];
        None
      case Some(i) => Some(i + 1)
  }

  /** `add_file_to_tabs`: select the tab already holding `path`, or append a new one and select it. */
  function AddFileToTabs(t: TabState, path: string, kind: FileKind, title: string): (r: TabState)
    requires Valid(t)
    ensures Valid(r)
    ensures 0 <= r.current < |r.files| && r.files[r.current].path == path
    ensures HasPath(t.files, path) ==> r.files == t.files
    ensures !HasPath(t.files, path) ==> r.files == t.files + [OpenFile(path, kind, title)]
  {
    match FindPath(t.files, path)
    case Some(i) => t.(current := i)
    case None => TabState(t.files + [OpenFile(path, kind, title)], |t.files|)
  }

  /** `switch_to_tab`: an index outside the list changes nothing. */
  function SwitchToTab(t: TabState, index: int): (r: Step)
    requires Valid(t)
    ensures Valid(r.tabs)
    ensures r.tabs.files == t.files
    ensures 0 <= index < |t.files| ==> r == Step(TabState(t.files, index), Show(t.files[index]))
    ensures !(0 <= index < |t.files|) ==> r == Step(t, Unchanged)
  {
    if 0 <= index < |t.files| then Step(t.(current := index), Show(t.files[index]))
    else Step(t, Unchanged)
  }

  /** `switch_to_file`: switch to the tab holding `path`, if any. */
  function SwitchToFile(t: TabState, path: string): (r: Step)
    requires Valid(t)
    ensures Valid(r.tabs) && r.tabs.files == t.files
    ensures HasPath(t.files, path) ==> r.view.Show? && r.view.file.path == path && r.view.file == t.files[r.tabs.current]
    ensures !HasPath(t.files, path) ==> r == Step(t, Unchanged)
  {
    match FindPath(t.files, path)
    case Some(i) => SwitchToTab(t, i)
    case None => Step(t, Unchanged)
  }

  /** `load_file` once the file is known to exist and its type is known: a file already
      open is switched to; otherwise it is loaded and added by `add_file_to_tabs`. */
  function LoadFile(t: TabState, path: string, kind: FileKind, title: string): (r: Step)
    requires Valid(t)
    ensures Valid(r.tabs)
    ensures 0 <= r.tabs.current < |r.tabs.files|
    ensures r.view.Show? && r.view.file == r.tabs.files[r.tabs.current] && r.view.file.path == path
  {
    match FindPath(t.files, path)
    case Some(i) => SwitchToTab(t, i)
    case None => Step(AddFileToTabs(t, path, kind, title), Show(OpenFile(path, kind, title)))
  }

  function RemoveAt(files: seq<OpenFile>, i: nat): (r: seq<OpenFile>)
    requires i < |files|
    ensures |r| == |files| - 1
    ensures forall j :: 0 <= j < i ==> r[j] == files[j]
    ensures forall j :: i <= j < |r| ==> r[j] == files[j + 1]
  {
    files[..i] + files[i + 1..]
  }

  /** `close_tab`: drop the first tab holding `path`, clamp the index to the shortened list,
      then show the selected tab, or the welcome screen when none is left. */
  function CloseTab(t: TabState, path: string): (r: Step)
    requires Valid(t)
    ensures Valid(r.tabs)
    ensures !HasPath(r.tabs.files, path)
    ensures !HasPath(t.files, path) ==> r == Step(t, Unchanged)
    ensures HasPath(t.files, path) ==> exists i ::
      && 0 <= i < |t.files| && t.files[i].path == path
      && r.tabs.files == t.files[..i] + t.files[i + 1..]
    ensures HasPath(t.files, path) ==>
      && |r.tabs.files| == |t.files| - 1
      && r.tabs.current == (if t.current < |t.files| - 1 then t.current else |t.files| - 2)
      && (r.view == Welcome <==> r.tabs.files == [])
      && (r.tabs.files != [] ==> r.view == Show(r.tabs.files[r.tabs.current]))
  {
    match FindPath(t.files, path)
    case None => Step(t, Unchanged)
    case Some(i) =>
      var files := RemoveAt(t.files, i);
      var current := if t.current >= |files| then |files| - 1 else t.current;
      assert forall j :: 0 <= j < |files| ==> files[j].path != path by {
        assert forall j :: i <= j < |files| ==> files[j].path == t.files[j + 1].path;
      }
      if current >= 0 then SwitchToTab(TabState(files, current), current)
      else Step(TabState(files, current), Welcome)
  }

  // ---------------------------------------------------------------------------
  // Properties across operations

  /** The two duplicate checks agree: `load_file` leaves the tabs exactly as
      `add_file_to_tabs` would. */
  lemma LoadFileAgreesWithAdd(t: TabState, path: string, kind: FileKind, title: string)
    requires Valid(t)
    ensures LoadFile(t, path, kind, title).tabs == AddFileToTabs(t, path, kind, title)
  {
  }

  /** Opening a new file and closing it again gives back the list of tabs. */
  lemma AddThenCloseRestoresFiles(t: TabState, path: string, kind: FileKind, title: string)
    requires Valid(t) && !HasPath(t.files, path)
    ensures CloseTab(AddFileToTabs(t, path, kind, title), path).tabs.files == t.files
  {
    var added := AddFileToTabs(t, path, kind, title);
    assert FindPath(added.files, path) == Some(|t.files|);
    assert added.files[..|t.files|] == t.files;
  }

  /** Closing a tab to the left of the selected one does not decrement the index: unless the
      selected tab was the last one, the selection moves on to the file that followed it. */
  lemma CloseEarlierTabShiftsSelection(t: TabState, path: string, i: nat)
    requires Valid(t) && i < t.current && t.files[i].path == path
    ensures t.current < |t.files| - 1 ==> CloseTab(t, path).view == Show(t.files[t.current + 1])
    ensures t.current == |t.files| - 1 ==> CloseTab(t, path).view == Show(t.files[t.current])
  {
    assert FindPath(t.files, path) == Some(i);
  }

  /** `update_tab_bar` and `create_tab_widget`: one tab widget per open file, the selected
      one marked active. A click on the tab calls `switch_to_file` and its close button calls
      `close_tab`, both with the path the widget was created for. */
  datatype TabWidget = TabWidget(path: string, title: string, kind: FileKind, active: bool)

  function TabBar(t: TabState): (widgets: seq<TabWidget>)
    ensures |widgets| == |t.files|
    ensures forall i :: 0 <= i < |t.files| ==>
      widgets[i].path == t.files[i].path && widgets[i].title == t.files[i].title && widgets[i].kind == t.files[i].kind
  {
    seq(|t.files|, i requires 0 <= i < |t.files| =>
      TabWidget(t.files[i].path, t.files[i].title, t.files[i].kind, i == t.current))
  }

  /** Since no path is open twice, the path a tab widget carries names that tab alone:
      clicking tab i selects and shows tab i, and its close button removes tab i and no other. */
  lemma TabBarActions(t: TabState)
    requires Valid(t)
    ensures forall i :: 0 <= i < |t.files| ==>
      SwitchToFile(t, TabBar(t)[i].path) == Step(TabState(t.files, i), Show(t.files[i]))
    ensures forall i :: 0 <= i < |t.files| ==>
      CloseTab(t, TabBar(t)[i].path).tabs.files == t.files[..i] + t.files[i + 1..]
  {
    forall i | 0 <= i < |t.files|
      ensures FindPath(t.files, TabBar(t)[i].path) == Some(i)
    {
      var path := TabBar(t)[i].path;
      assert t.files[i].path == path;
      assert HasPath(t.files, path);
    }
  }

  function CountActive(widgets: seq<TabWidget>): nat
    decreases |widgets|
  {
    if widgets == [] then 0 else (if widgets[0].active then 1 else 0) + CountActive(widgets[1..])
  }

  lemma {:induction false} CountActiveOne(widgets: seq<TabWidget>, k: nat)
    requires k < |widgets|
    requires forall i :: 0 <= i < |widgets| ==> (widgets[i].active <==> i == k)
    ensures CountActive(widgets) == 1
    decreases |widgets|
  {
    if k == 0 {
      CountActiveNone(widgets[1..]);
    } else {
      CountActiveOne(widgets[1..], k - 1);
    }
  }

  lemma {:induction false} CountActiveNone(widgets: seq<TabWidget>)
    requires forall i :: 0 <= i < |widgets| ==> !widgets[i].active
    ensures CountActive(widgets) == 0
    decreases |widgets|
  {
    if widgets != [] {
      CountActiveNone(widgets[1..]);
    }
  }

  /** In a valid state the tab bar marks exactly the selected file active, and exactly one
      tab is active whenever any file is open. */
  lemma TabBarOneActive(t: TabState)
    requires Valid(t)
    ensures forall i :: 0 <= i < |t.files| ==> (TabBar(t)[i].active <==> i == t.current)
    ensures CountActive(TabBar(t)) == (if t.files == [] then 0 else 1)
  {
    if t.files == [] {
      CountActiveNone(TabBar(t));
    } else {
      CountActiveOne(TabBar(t), t.current);
    }
  }

  /** A user action on the tab bar or the file menu. */
  datatype Command =
    | OpenPath(path: string, kind: FileKind, title: string)
    | ClickTab(index: int)
    | ClickFile(path: string)
    | CloseFile(path: string)

  function Apply(t: TabState, c: Command): (r: Step)
    requires Valid(t)
    ensures Valid(r.tabs)
  {
    match c
    case OpenPath(path, kind, title) => LoadFile(t, path, kind, title)
    case ClickTab(index) => SwitchToTab(t, index)
    case ClickFile(path) => SwitchToFile(t, path)
    case CloseFile(path) => CloseTab(t, path)
  }

  /** The tabs after a session of commands from start-up: whatever the commands, no path is
      open twice, the index is in range, and it is -1 exactly when no tab is open. */
  function Run(commands: seq<Command>): (t: TabState)
    ensures Valid(t)
    decreases |commands|
  {
    if commands == [] then NoTabs
    else Apply(Run(commands[..|commands| - 1]), commands[|commands| - 1]).tabs
  }
}
