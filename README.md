# learn-pico-ioc runner, modelled in Dafny

The runner is a browser application. It teaches the pico-ioc dependency-injection library through levels of Python exercises, and the Python runs in an in-browser interpreter. This project models the parts of the runner that decide what happens:

- **Graph layout** (`graph_layout.dfy`, module `GraphLayout`). The dependency graph a running program prints is laid out in columns. Kahn's topological layering runs on the reversed edge relation. Nodes with no dependency form column 0. A node joins the next column once its last dependency has been placed. Nodes caught in or behind a cycle are stacked in one extra column. Every edge is rendered with an id.
- **Interpreter session** (`pyodide.dfy`, module `Pyodide`). The `usePyodide` hook has a single-flight initialisation. Its standard-output callback separates console text from graph payload lines. Its package installer requests only packages not yet installed. A run unloads the level's modules, writes the files, picks an entrypoint (a `test_` file over `main.py`) and reports success.
- **Application shell** (`app.dfy`, module `App`). It loads a course and checks it. It looks up the current level and moves to the previous or next one. It computes the run button's label and state. It runs the code and records completed levels.
- **Tabbed editor** (`tabbed_editor.dfy`, module `TabbedEditor`). It computes the tabs, settles the active tab when files or graph data change, and applies edits to the active file.
- **Solution dialog** (`solution_modal.dfy`, module `SolutionModal`). It overlays a level's solution on the level's files.
- **Instructions panel** (`instructions_panel.dfy`, module `InstructionsPanel`). It reveals hints one at a time.
- **Shared modules.** `text.dfy` (module `Text`) holds the JavaScript string operations these rely on: `trim`, `split`, `join`, `startsWith`, `replace` and decimal formatting. `app_types.dfy` (module `AppTypes`) holds the level and course records. `wrappers.dfy` (module `Wrappers`) holds `Option` and `Result`.

The code that changes state is modelled as classes whose fields are the components' state cells:

- `GraphLayout.GraphView`
- `Pyodide.Session`
- `App.Shell`
- `TabbedEditor.Editor`
- `InstructionsPanel.Panel`

The layout's loops are methods with loop invariants, proved against pure specification functions (`LaidOut`, `LayeringOf`). The stdout callback's loop is likewise a method proved against pure functions (`ConsoleText`, `LastPayload`). Properties that relate several calls are lemmas.

The interpreter itself is a set of parameters. These are:

- whether loading succeeded;
- what the installer fails with;
- what the unloading script, a file write, the test runner and `main.py` raise or return;
- what `JSON.parse` makes of a payload.

The calls that install packages, unload modules, run the tests and run `main.py` are recorded in `Session.requests`, as the `Install`, `Unload`, `RunTests` and `RunMain` requests. File writes show up in `Session.fs` instead. Loading, the `pytest` import and `toPy` are not recorded.

## Model

| member | source | states |
|---|---|---|
| GraphLayout.FindNode | components/GraphVisualizer.tsx:106 | `find` returns a listed node carrying the id, or nothing exactly when no node carries it |
| GraphLayout.FindNodeFirst | components/GraphVisualizer.tsx:106 | the node `find` returns is the first one carrying the id |
| GraphLayout.Dependents | components/GraphVisualizer.tsx:84-87 | every node recorded as waiting on `t` is the `from` end of an edge into `t` |
| GraphLayout.StartMaps | components/GraphVisualizer.tsx:76-79 | every listed id gets in-degree 0 and an empty dependent list, and no other key exists |
| GraphLayout.BuildAdjacency | components/GraphVisualizer.tsx:84-87 | after the edge pass, each node's in-degree is the number of its dependencies and its list holds its dependents in edge order |
| GraphLayout.EdgeStep | components/GraphVisualizer.tsx:85-86 | one edge adds one dependency count to its `from` end and appends `from` to the list of its `to` end |
| GraphLayout.ZeroLayer | components/GraphVisualizer.tsx:89-94 | the first column holds exactly the listed nodes with no dependency |
| GraphLayout.FirstLayer | components/GraphVisualizer.tsx:89-94 | the loop collecting in-degree-0 ids yields that first column, in listing order |
| GraphLayout.LayerYCentred | components/GraphVisualizer.tsx:113 | the `i`-th of `k` nodes in a column sits at `150i - 75k + 75`; a column is symmetric around 0; nodes are 150 apart; no two share a height |
| GraphLayout.LayerYOfHeight | components/GraphVisualizer.tsx:103-113 | the offset computed from `layerHeight = k * 150` is that centred height |
| GraphLayout.PlaceRowAt | components/GraphVisualizer.tsx:105-120 | the `i`-th id of a column is placed at `(350 * layer, LayerY(i, k))` as its listed node |
| GraphLayout.PlacementAt | components/GraphVisualizer.tsx:101-134 | the `i`-th node of column `l` is placed after all earlier columns, at `(350l, LayerY(i, k))` |
| GraphLayout.PlacementColumns | components/GraphVisualizer.tsx:101-134 | every node of the main pass is the listed node of its id, in the column its layer gives |
| GraphLayout.PlaceNode | components/GraphVisualizer.tsx:106-120 | placing one more id of the column extends the placed row by that node |
| GraphLayout.ReleaseDependents | components/GraphVisualizer.tsx:122-129 | decrementing each dependent leaves every count at the number of dependencies outside the finished set; the next column grows by exactly `Freed`, the dependents whose count reached 0, in the order they reached it, each once, and a node is in the column exactly when its count is 0 |
| GraphLayout.ReleaseAfter | components/GraphVisualizer.tsx:122-129 | after the `i`-th node of the column, each count is the number of dependencies not yet processed, and the next column so far is `Released` of the column's first `i + 1` nodes |
| GraphLayout.PlaceLayer | components/GraphVisualizer.tsx:105-130 | one column is placed in order at its centred heights, and the next column is `Released` of this column: exactly the nodes whose last dependency was in it, in the order their counts reached 0 |
| GraphLayout.NextColumn | components/GraphVisualizer.tsx:101-134 | one iteration of the `while` loop keeps the layering invariant (including that each column is followed by what it releases, in release order), appends the column and places it |
| GraphLayout.PlaceColumns | components/GraphVisualizer.tsx:101-134 | the loop ends with a layering that respects every dependency, whose columns each follow from the one before in release order, and a placement of exactly its columns |
| GraphLayout.AppendFallback | components/GraphVisualizer.tsx:137-146 | the fallback loop computes the fallback pass |
| GraphLayout.FallbackCovers | components/GraphVisualizer.tsx:137-146 | after the fallback pass every listed node is placed |
| GraphLayout.FallbackDistinct | components/GraphVisualizer.tsx:137-146 | the fallback pass never places an id twice |
| GraphLayout.FallbackFresh | components/GraphVisualizer.tsx:138 | each appended node carries an id no earlier node carries |
| GraphLayout.FallbackNotPlaced | components/GraphVisualizer.tsx:137-146 | an appended node is the listed node of its id, stacked at 150 times the number of nodes positioned before it |
| GraphLayout.Layout | components/GraphVisualizer.tsx:73-146 | the whole effect yields the laid-out nodes for a layering that satisfies `LayeringOf` (first column and the order of every later column fixed): exactly the listed nodes, each once, each with its own kind, label and scope |
| GraphLayout.LaidOutColumns | components/GraphVisualizer.tsx:101-146 | each laid-out node is its listed node, in the column of its layer, or in the column after the last layer at height `150k` |
| GraphLayout.EveryNodeLaidOutOnce | components/GraphVisualizer.tsx:101-146 | with unique ids, exactly the listed nodes are laid out, each exactly once |
| GraphLayout.DependenciesLeftOfDependents | components/GraphVisualizer.tsx:81-87 | a layered node lies strictly to the left of every node that depends on it |
| GraphLayout.FreedMembers | components/GraphVisualizer.tsx:122-129 | a dependent is released by the inner loop exactly when it occurs among the ids scanned, does not occur again later in the list, and has no dependency left; none is released twice |
| GraphLayout.FreedJoinsNext | components/GraphVisualizer.tsx:122-129 | the released dependents are new to the next column, and together with it are exactly the nodes left with no dependency |
| GraphLayout.ReleaseCount | components/GraphVisualizer.tsx:124-127 | the count a scanned dependent holds is positive, so the `|| 1` default is never taken, and it reaches 0 exactly at its last occurrence when no dependency is left |
| GraphLayout.ReleaseOrderedStep | components/GraphVisualizer.tsx:101-134 | taking what the current column releases as the next column keeps every column followed by its release |
| GraphLayout.ChainedUnique | components/GraphVisualizer.tsx:101-134 | two column sequences from the same first column, each column followed by what it releases and none empty, are the same sequence |
| GraphLayout.LayeringUnique | components/GraphVisualizer.tsx:89-134 | a graph has exactly one layering: the first column is fixed and each column fixes the next |
| GraphLayout.LayoutUnique | components/GraphVisualizer.tsx:73-146 | the layout a graph gets is determined by the graph: two layouts of the same payload are the same list of positioned nodes |
| GraphLayout.RenderEdges | components/GraphVisualizer.tsx:148-156 | one rendered edge per edge, in order, from `from` to `to` |
| GraphLayout.RenderedEdgeIdsDistinct | components/GraphVisualizer.tsx:149 | rendered edge ids are pairwise different, even for a repeated edge |
| GraphLayout.EdgeIdIndex | components/GraphVisualizer.tsx:149 | equal edge ids have equal indices |
| GraphLayout.GraphView.Refresh | components/GraphVisualizer.tsx:65-160 | a payload without both lists leaves the panel as it was; otherwise the nodes are a layout of the payload (unique by `LayoutUnique`) and the edges are its rendered edges |
| Pyodide.Lines | hooks/usePyodide.ts:35 | a batch gives at least one line, none holding a newline |
| Pyodide.Kept | hooks/usePyodide.ts:39-45 | the console lines are lines of the batch that are neither payload lines nor blank, and there are no more of them than lines |
| Pyodide.ConsoleTextSplits | hooks/usePyodide.ts:35-45 | splitting what a batch adds to the console at its newlines gives back exactly its console lines and an empty last piece |
| Pyodide.ConsoleTextEmpty | hooks/usePyodide.ts:42-47 | a batch adds nothing to the console exactly when each of its lines is a payload line or white space |
| Pyodide.KeptEmpty | hooks/usePyodide.ts:39-45 | no console line is kept exactly when no line qualifies |
| Pyodide.LastPayloadIsLast | hooks/usePyodide.ts:39-41 | the payload is the rest of the last payload line, and there is none exactly when no line is a payload line |
| Pyodide.PrefixStep | hooks/usePyodide.ts:39-45 | one more line either extends the console lines, replaces the payload, or is dropped |
| Pyodide.TerminatedJoin | hooks/usePyodide.ts:43 | lines each followed by a newline are their newline join with an empty last piece |
| Pyodide.DemuxLine | hooks/usePyodide.ts:40-44 | one pass of the loop body keeps the console text and the payload equal to those of the lines seen so far |
| Pyodide.DemuxLines | hooks/usePyodide.ts:36-45 | the loop yields the console text of the batch and the payload of its last payload line |
| Pyodide.NewPackagesMembers | hooks/usePyodide.ts:80 | exactly the requested packages that are not installed are requested |
| Pyodide.NewPackagesAppend | hooks/usePyodide.ts:80 | the filter keeps request order |
| Pyodide.NewPackagesCovered | hooks/usePyodide.ts:80-81 | nothing is requested when every package asked for is installed |
| Pyodide.NewPackagesSettled | hooks/usePyodide.ts:80-89 | after a successful install, asking again for the same packages requests nothing |
| Pyodide.ModuleNames | hooks/usePyodide.ts:107 | one module name per file, each the file name with its first `.py` removed |
| Pyodide.ModuleNameOfPyFile | hooks/usePyodide.ts:107 | a name whose only `.py` is its extension gives the name without it |
| Pyodide.ModuleNameMidName | hooks/usePyodide.ts:107 | `my.pyc` gives `myc`: `.py` is removed wherever it first occurs |
| Pyodide.ModuleNameDoubleExtension | hooks/usePyodide.ts:107 | `a.py.py` gives `a.py`: only the first occurrence is removed |
| Pyodide.WriteFiles | hooks/usePyodide.ts:116-118 | after writing, the file system holds exactly its old names and the names of the files |
| Pyodide.WriteFilesLast | hooks/usePyodide.ts:116-118 | each written name holds the content of the last file of that name; other names are untouched |
| Pyodide.FirstTestFile | hooks/usePyodide.ts:120 | the first file whose name starts with `test_`, or none exactly when no name does |
| Pyodide.ChooseEntrypoint | hooks/usePyodide.ts:120-137 | a run goes to tests exactly when some file starts with `test_`, to `main.py` exactly when it exists and no test file does |
| Pyodide.EntrypointRun | hooks/usePyodide.ts:123-142 | a run succeeds exactly when the tests exit with 0, or, with no test file, `main.py` exists and does not raise; it calls the interpreter at most once, and not at all with no entrypoint |
| Pyodide.WrittenAfterWrite | hooks/usePyodide.ts:116-118 | after writing, every file of the level is in the file system |
| Pyodide.MainRunsLastMain | hooks/usePyodide.ts:129-132 | `main.py` runs with the content of the last file of that name, as read back from the file system |
| Pyodide.Session.constructor | hooks/usePyodide.ts:20-21 | a session starts with nothing loaded, installed, written or requested |
| Pyodide.Session.StartInit | hooks/usePyodide.ts:23-29 | initialisation starts exactly when no interpreter is loaded, loading or being initialised, and then raises both flags |
| Pyodide.Session.FinishInit | hooks/usePyodide.ts:64-74 | a failed load replaces the console with the failure message; both flags drop either way |
| Pyodide.Session.Stdout | hooks/usePyodide.ts:33-59 | the batch's console text is appended; a non-empty payload replaces the graph with what it parses to, or appends the parse error and keeps the graph |
| Pyodide.Session.ReceiveLines | hooks/usePyodide.ts:36-58 | the same, for a batch already split into lines |
| Pyodide.Session.Stderr | hooks/usePyodide.ts:62 | the text and a newline are appended to the console |
| Pyodide.Session.InstallPackages | hooks/usePyodide.ts:77-97 | with no interpreter or nothing missing nothing happens; otherwise exactly the missing packages are requested, and they join the installed set on success, with the matching banners |
| Pyodide.Session.WriteAll | hooks/usePyodide.ts:116-118 | the loop leaves the file system as `WriteFiles` describes; a write that raises stops it with the files before it written, and its error is returned |
| Pyodide.Session.RunCode | hooks/usePyodide.ts:99-146 | with no interpreter it fails and changes nothing; otherwise the console restarts with the banner, the graph is cleared, the modules are unloaded, and then an unload error, or a write error after the earlier files are written, ends the run under the error banner; otherwise the files are written and the entrypoint's report decides the console, the calls and the outcome |
| Pyodide.Session.RunEntrypoint | hooks/usePyodide.ts:120-137 | running the entrypoint appends its console text and calls and returns its success |
| Pyodide.Session.ClearOutput | hooks/usePyodide.ts:148-151 | the console is emptied and the graph dropped |
| App.FindIndex | App.tsx:116 | `findIndex` gives the first index holding the id, or -1 exactly when none does |
| App.FindLevel | App.tsx:85-87 | `find` gives the level at that index, or nothing exactly when it is -1 |
| App.IsFirstLevel | App.tsx:157 | with levels, the current level is first exactly when its id is found at index 0; with none, exactly when the id is -1 |
| App.IsLastLevel | App.tsx:158 | the last-level flag implies the id names a level; with distinct ids it holds exactly at the last index |
| App.LastLevelIndex | App.tsx:122-127 | with distinct ids the last level's index allows no next level |
| App.GetButtonState | App.tsx:131-137 | the button is disabled exactly when a busy condition holds, shows a spinner exactly then, and says "Run" exactly when enabled |
| App.ButtonPriority | App.tsx:131-137 | each busy label shows exactly when its condition holds and no earlier one does |
| App.CheckCourse | App.tsx:58-65 | a course loads exactly when the response is ok and parses to an object with a title and a non-empty levels array; a bad status gives "Failed to fetch course: …"; a bad body gives the invalid-course message |
| App.ErrorText | App.tsx:72 | the shown error is never empty and is the thrown message when there is one |
| App.Shell.constructor | App.tsx:26-34 | the initial state cells |
| App.Shell.LoadCourse | App.tsx:54-77 | a valid course replaces levels and title, selects its first level and closes settings; otherwise the error and the error title are shown and the levels stay; loading ends either way |
| App.Shell.PreviousLevel | App.tsx:115-120 | moves to the level before the current one when its index is positive, and otherwise stays; no other state cell changes |
| App.Shell.NextLevel | App.tsx:122-127 | moves to the level after the current one when there is one; an id naming no level moves to the first level; no other state cell changes |
| App.Shell.EnterLevel | App.tsx:89-98 | a found level's files replace the editor's; with an interpreter, the console is cleared and exactly the level's missing packages are requested, the console then holding only the install banner and the completion or error line, and the installed set grows by them only on success; with nothing missing, nothing is requested and the install flag is as it was; no other state cell of the application or of the session changes |
| App.Shell.HandleRun | App.tsx:100-113 | while executing or installing nothing happens; otherwise the console is cleared and the run's banner, error or report, its requests and its file writes follow `RunCode`, the current level is marked completed exactly when the run succeeds, and the completed set never shrinks; without an interpreter no file is written; the installed packages, the install flag and the loading flags are untouched, and no other state cell of the application changes |
| TabbedEditor.FirstName | components/TabbedCodeEditor.tsx:18 | the first file's name, or none exactly when there are no files |
| TabbedEditor.Tabs | components/TabbedCodeEditor.tsx:52-80 | one tab per file name in order, then the graph tab while there is graph data |
| TabbedEditor.ContentChange | components/TabbedCodeEditor.tsx:36-45 | nothing is reported exactly when read-only or the active tab names no file; otherwise every file named like the active tab gets the new content and every other file is unchanged |
| TabbedEditor.ContentChangeReadsBack | components/TabbedCodeEditor.tsx:36-45 | after an edit the active file shows the new content, and repeating the edit changes nothing |
| TabbedEditor.SettleAfterFiles | components/TabbedCodeEditor.tsx:20-26 | a tab naming a file, or the graph tab, stays active; any other tab falls back to the first file |
| TabbedEditor.StaleGraphTab | components/TabbedCodeEditor.tsx:20-33 | as written, the graph tab stays active when the graph data goes away, although it is no longer shown |
| TabbedEditor.SettleShownIsShown | components/TabbedCodeEditor.tsx:20-33 | with the correction, the active tab is always one of the tabs shown, and none exactly when nothing is shown |
| TabbedEditor.Editor.constructor | components/TabbedCodeEditor.tsx:18 | the editor opens on the first file |
| TabbedEditor.Editor.FilesChanged | components/TabbedCodeEditor.tsx:20-26 | the active tab settles as written, and is then a file, the graph tab, or none with no files |
| TabbedEditor.Editor.GraphChanged | components/TabbedCodeEditor.tsx:28-33 | graph data that appears makes the graph tab active; otherwise nothing changes |
| TabbedEditor.Editor.Select | components/TabbedCodeEditor.tsx:55-69 | a click makes that tab active |
| SolutionModal.Overlaid | components/SolutionModal.tsx:17-20 | a file keeps its name and takes the solution's text for it, even an empty one, else keeps its own content |
| SolutionModal.SolutionFiles | components/SolutionModal.tsx:13-21 | without a solution the files are shown as they are; with one, the same files in order, each overlaid |
| SolutionModal.SolutionFilesIdempotent | components/SolutionModal.tsx:13-21 | overlaying the solution twice is overlaying it once |
| SolutionModal.SolutionCoverage | components/SolutionModal.tsx:17-20 | a solution for every file replaces every content; a solution for none shows the files unchanged |
| InstructionsPanel.RevealNext | components/InstructionsPanel.tsx:37-41 | with hints left, one more hint is shown and the shown hints stay a prefix of the hints; otherwise nothing changes |
| InstructionsPanel.AllHintsShown | components/InstructionsPanel.tsx:45 | once all hints are shown, a further reveal changes nothing |
| InstructionsPanel.HasHelpers | components/InstructionsPanel.tsx:43 | documentation pages offer no help; a level with a solution does; a level without one does exactly when a first hint can be revealed, and that reveal shows its first hint |
| InstructionsPanel.RevealsPrefix | components/InstructionsPanel.tsx:37-41 | `n` reveals from the reset state show the first `n` hints, or all of them |
| InstructionsPanel.Panel.constructor | components/InstructionsPanel.tsx:20 | no hint is shown at first |
| InstructionsPanel.Panel.LevelChanged | components/InstructionsPanel.tsx:23-25 | a level change hides all hints |
| InstructionsPanel.Panel.ShowHint | components/InstructionsPanel.tsx:37-41 | a reveal updates the shown hints as `RevealNext` says and keeps them a prefix of the hints |
| Text.TrimStartStrips | hooks/usePyodide.ts:35 | `trim` drops a white-space prefix and keeps text that does not start with white space |
| Text.TrimEndStrips | hooks/usePyodide.ts:35 | `trim` drops a white-space suffix and keeps text that does not end with white space |
| Text.TrimEmptyIffAllSpace | hooks/usePyodide.ts:42 | `line.trim()` is falsy exactly when the line is all white space |
| Text.Split | hooks/usePyodide.ts:35 | `split` gives at least one piece, none holding the separator |
| Text.JoinSplit | hooks/usePyodide.ts:35 | joining the pieces of a split with the separator gives back the text |
| Text.SplitJoin | hooks/usePyodide.ts:35 | splitting a join of separator-free pieces gives back the pieces |
| Text.IndexOfFrom | hooks/usePyodide.ts:107 | the first occurrence of the pattern at or after a start, and no occurrence before it |
| Text.ReplaceFirstAt | hooks/usePyodide.ts:107 | a string-pattern `replace` rewrites exactly the first occurrence |
| Text.ReplaceFirstAbsent | hooks/usePyodide.ts:107 | `replace` changes nothing when the pattern does not occur |
| Text.NatToString | components/GraphVisualizer.tsx:149 | an index is rendered as a non-empty string of decimal digits |
| Text.DecimalRoundTrip | components/GraphVisualizer.tsx:149 | reading back the decimal text of an index gives the index |
| Text.NatToStringInjective | components/GraphVisualizer.tsx:149 | distinct indices have distinct decimal texts |

## Left out

- The in-browser interpreter is a set of parameters. Loading (`loadPyodide`, `loadPackage('micropip')`), `micropip.install`, the unloading script, `FS.writeFile`, `pytest.main` and the run of `main.py` become `loaded`, `failure`, `RunEnv` and the recorded `requests`.
- Pyodide.Session.RunEntrypoint: `FS.readFile` of `main.py` is taken not to raise. It reads back the file the same run has just written; an error it raised would end the run like an error from `main.py` itself, without the `RunMain` call.
- Pyodide.Session.Stdout: `JSON.parse` is a parameter returning `Parsed`. A payload that parses to a value other than `null` or a graph object is not modelled.
- Asynchrony is not modelled. Each `async` operation runs to completion in one method. Interleavings are absent: a stdout batch arriving mid-run, an install overlapping a run, or React batching state updates.
- Pyodide.Session.RunCode: the console text the Python program prints during the run is not modelled. It arrives through `Stdout`, which is modelled on its own.
- Pyodide.Session.RunCode and InstallPackages: `error.message` is taken to be a string. A thrown value without a message, which would print `undefined`, is not modelled.
- `console.log` and `console.error` calls are omitted: they only write to the developer console.
- `fetch`, `response.json()` and `localStorage` are omitted. What the fetch answers is the `FetchOutcome` parameter of `App.Shell.LoadCourse`. Completed levels are kept in memory, not persisted or restored.
- App.CheckCourse: the JSON body is reduced to `CourseJson`. A `title` that is a truthy non-string, or levels that are not level records, are not modelled.
- Rendering is omitted: the JSX, `renderTitle`, the icons and the CSS classes, and syntax highlighting (`hljs`). So are the solution dialog's open flag (`isSolutionModalOpen`) with its open and close handlers, and the click handlers that open and close the settings dialog. The settings flag itself is the `App.Shell.isSettingsOpen` field, which `LoadCourse` clears and every other Shell method keeps.
- The components `LevelNavigator`, `CodeEditor`, `SettingsModal` and `ConsoleOutput` are outside this model.
- GraphLayout.GraphView.Refresh requires unique node ids and edges whose endpoints are listed nodes.
  - With an unknown `to`, the source throws in the effect.
  - With an unknown `from`, the source stores `NaN` as a count.
  - With duplicate ids, the loop can place a node twice.
  - These inputs are excluded rather than modelled.
- GraphLayout.ReleaseDependents: the `|| 1` default for a missing or zero count is written out. Under the precondition a released node's count is always positive, so the model never reaches it.
- The positioned node's `data.label` and `scope` are kept. React Flow's renderer-only fields (`animated`, `style`, `markerEnd`) are not.
- SolutionModal.SolutionFiles: a file named like an `Object.prototype` member (`toString`) is looked up as a map key. In JavaScript it would find the inherited function.
- InstructionsPanel: `hasHelpers` and `allHintsShown` are truthiness expressions. They are modelled as booleans.

## Findings

| source | as written | input that shows it | evidently intended | confidence | as-written member | corrected member |
|---|---|---|---|---|---|---|
| components/TabbedCodeEditor.tsx:20-33 | the first effect keeps the graph tab active even when there is no graph data, and the second effect only switches to the graph tab, never away from it | run a program that emits a graph (the graph tab becomes active), then press Run again or change level: the graph data is cleared, the graph tab disappears from the tab bar, and the active tab still points at it, so the panel renders the graph view with no data, which shows only "No graph data to display." (components/GraphVisualizer.tsx:162-167), and no file tab is selected | the comment "reset to the first file if the current tab is invalid" suggests a graph tab without graph data counts as invalid, so the editor falls back to the first file | medium, not executed | TabbedEditor.StaleGraphTab | TabbedEditor.SettleShownIsShown |
