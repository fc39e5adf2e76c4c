/**
 * The Python execution session behind the runner (hooks/usePyodide.ts):
 * a single-flight initialisation, a package installer that installs only
 * what is missing, the demultiplexer that separates console text from graph
 * payloads in the interpreter's standard output, and the run of a level's
 * files.
 *
 * The interpreter itself is not modelled. Its answers (did loading
 * succeed, did an install fail and with which message, what a script
 * raised, the test runner's exit code, what `JSON.parse` makes of a
 * payload) are parameters of the methods, and the calls made into it are
 * recorded in `requests`.
 */
module Pyodide {
  import opened Wrappers
  import opened Text
  import opened AppTypes
  import GraphLayout

  const GraphPrefix: string := "__GRAPH_DATA__:"
  const InitFailure: string := "Failed to initialize Pyodide. See console for details."
  const ParseFailure: string := "\n[ERROR] Failed to parse graph data.\n"
  const InstallComplete: string := "\n> Installation complete.\n"
  const ExecutingBanner: string := "> Executing code...\n"
  const NoEntrypointMessage: string := "No entrypoint found (e.g., main.py or test_*.py)"
  const PythonErrorBanner: string := "\n\n--- PYTHON ERROR ---\n"
  const MainFileName: string := "main.py"
  const RunningMainBanner: string := "\n> Running main.py...\n\n"
  const TestFilePrefix: string := "test_"

  /** What `JSON.parse` makes of a payload: a value (`null` or a graph), or a syntax error. */
  datatype Parsed = Parsed(value: Option<GraphLayout.GraphData>) | Malformed

  /** A call made into the interpreter. */
  datatype Request =
    | Install(packages: seq<string>)
    | Unload(modules: seq<string>)
    | RunTests(file: string)
    | RunMain(source: string)

  /** How the interpreter answers the test runner: an exit code, or an exception. */
  datatype TestOutcome = ExitCode(code: int) | TestsRaised(message: string)

  /** Writing the file at `index` of the level into the file system raises `message`. */
  datatype WriteError = WriteError(index: nat, message: string)

  /**
   * The interpreter's answers during one run: what the module-unloading
   * script raises, which file write raises (if any), what the test runner
   * does, and what running `main.py` raises (`None` when it returns normally).
   */
  datatype RunEnv = RunEnv(unloadError: Option<string>, writeError: Option<WriteError>, tests: TestOutcome, mainError: Option<string>)

  /** Some write of `files` raises. */
  predicate WriteFails(files: seq<LevelFile>, env: RunEnv)
  {
    env.writeError.Some? && env.writeError.value.index < |files|
  }

  /** The file a run starts from. */
  datatype Entrypoint = Tests(name: string) | Main | NoEntrypoint

  /** The packages of a list, as a set. */
  function Elements(packages: seq<string>): set<string>
  {
    set p | p in packages
  }

  /** The line announcing which packages are installed. */
  function InstallBanner(packages: seq<string>): string
  {
    "> Installing packages: " + Join(packages, ", ") + "...\n"
  }

  function InstallError(message: string): string
  {
    "\n> Error installing packages: " + message + "\n"
  }

  function RunningTestsBanner(name: string): string
  {
    "\n> Running tests in " + name + "...\n"
  }

  function PythonError(message: string): string
  {
    PythonErrorBanner + message
  }

  // ---------------------------------------------------------------------------
  // The standard-output demultiplexer
  // ---------------------------------------------------------------------------

  /** The lines of one stdout batch: the batch trimmed, then split at every newline. */
  function Lines(batch: string): (r: seq<string>)
    ensures |r| >= 1
    ensures forall i :: 0 <= i < |r| ==> '\n' !in r[i]
  {
    Split(Trim(batch), '\n')
  }

  predicate IsSentinel(line: string)
  {
    StartsWith(line, GraphPrefix)
  }

  /** A line that goes to the console: not a graph payload, and not blank. */
  predicate IsConsoleLine(line: string)
  {
    !IsSentinel(line) && Trim(line) != ""
  }

  /** The console lines, in order. */
  function Kept(lines: seq<string>): (r: seq<string>)
    ensures |r| <= |lines|
    ensures forall x :: x in r ==> x in lines && IsConsoleLine(x)
  {
    if lines == [] then []
    else
      var last := lines[|lines| - 1];
      Kept(lines[..|lines| - 1]) + (if IsConsoleLine(last) then [last] else [])
  }

  /** Each line followed by a newline. */
  function Terminated(ls: seq<string>): string
  {
    if ls == [] then "" else ls[0] + "\n" + Terminated(ls[1..])
  }

  /** What one batch adds to the console. */
  function ConsoleText(lines: seq<string>): string
  {
    Terminated(Kept(lines))
  }

  /** The text after the prefix of the last payload line, if any. */
  function LastPayload(lines: seq<string>): Option<string>
  {
    if lines == [] then None
    else
      var last := lines[|lines| - 1];
      if IsSentinel(last) then Some(last[|GraphPrefix|..]) else LastPayload(lines[..|lines| - 1])
  }

  lemma {:induction false} TerminatedSnoc(ls: seq<string>, x: string)
    ensures Terminated(ls + [x]) == Terminated(ls) + x + "\n"
  {
    if ls != [] {
      assert (ls + [x])[1..] == ls[1..] + [x];
      TerminatedSnoc(ls[1..], x);
    } else {
      assert Terminated([x][1..]) == "";
    }
  }

  /** The console text is the lines, each terminated: a separator join with an empty last piece. */
  lemma {:induction false} TerminatedJoin(ls: seq<string>)
    ensures Terminated(ls) == Join(ls + [""], "\n")
  {
    if ls != [] {
      TerminatedJoin(ls[1..]);
      assert (ls + [""])[1..] == ls[1..] + [""];
    }
  }

  /** Console lines hold no newline when the lines they come from hold none. */
  lemma {:induction false} KeptNoNewline(lines: seq<string>)
    requires forall i :: 0 <= i < |lines| ==> '\n' !in lines[i]
    ensures forall i :: 0 <= i < |Kept(lines)| ==> '\n' !in Kept(lines)[i]
  {
    if lines != [] {
      var init := lines[..|lines| - 1];
      assert forall i :: 0 <= i < |init| ==> init[i] == lines[i];
      KeptNoNewline(init);
    }
  }

  /** Splitting the console text of a batch at its newlines gives back exactly the console lines, and a final empty piece. */
  lemma ConsoleTextSplits(batch: string)
    ensures Split(ConsoleText(Lines(batch)), '\n') == Kept(Lines(batch)) + [""]
  {
    var kept := Kept(Lines(batch));
    KeptNoNewline(Lines(batch));
    TerminatedJoin(kept);
    var parts := kept + [""];
    forall i | 0 <= i < |parts| ensures '\n' !in parts[i] {
      if i < |kept| {
        assert parts[i] == kept[i];
      }
    }
    SplitJoin(parts, '\n');
  }

  /** Nothing is added to the console exactly when every line is a payload line or blank. */
  lemma ConsoleTextEmpty(lines: seq<string>)
    ensures ConsoleText(lines) == "" <==> forall i :: 0 <= i < |lines| ==> IsSentinel(lines[i]) || AllSpace(lines[i])
  {
    KeptEmpty(lines);
    forall i | 0 <= i < |lines| ensures Trim(lines[i]) == "" <==> AllSpace(lines[i]) {
      TrimEmptyIffAllSpace(lines[i]);
    }
    if Kept(lines) != [] {
      assert ConsoleText(lines) == Kept(lines)[0] + "\n" + Terminated(Kept(lines)[1..]);
    }
  }

  lemma {:induction false} KeptEmpty(lines: seq<string>)
    ensures Kept(lines) == [] <==> forall i :: 0 <= i < |lines| ==> !IsConsoleLine(lines[i])
  {
    if lines != [] {
      var init := lines[..|lines| - 1];
      KeptEmpty(init);
      assert forall i :: 0 <= i < |init| ==> init[i] == lines[i];
    }
  }

  /** The payload is the remainder of the last payload line; there is none exactly when no line is a payload line. */
  lemma {:induction false} LastPayloadIsLast(lines: seq<string>)
    ensures LastPayload(lines).None? <==> forall i :: 0 <= i < |lines| ==> !IsSentinel(lines[i])
    ensures LastPayload(lines).Some? ==>
      exists i :: 0 <= i < |lines| && IsSentinel(lines[i]) && LastPayload(lines) == Some(lines[i][|GraphPrefix|..])
                  && forall j :: i < j < |lines| ==> !IsSentinel(lines[j])
  {
    if lines != [] {
      var init := lines[..|lines| - 1];
      LastPayloadIsLast(init);
      assert forall i :: 0 <= i < |init| ==> init[i] == lines[i];
      if !IsSentinel(lines[|lines| - 1]) && LastPayload(init).Some? {
        var i :| 0 <= i < |init| && IsSentinel(init[i]) && LastPayload(init) == Some(init[i][|GraphPrefix|..])
                 && forall j :: i < j < |init| ==> !IsSentinel(init[j]);
        assert forall j :: i < j < |lines| ==> !IsSentinel(lines[j]);
      }
    }
  }

  /** One more line either extends the console lines, or replaces the payload, or is dropped. */
  lemma PrefixStep(lines: seq<string>, i: nat)
    requires i < |lines|
    ensures Kept(lines[..i + 1]) == Kept(lines[..i]) + (if IsConsoleLine(lines[i]) then [lines[i]] else [])
    ensures LastPayload(lines[..i + 1]) == if IsSentinel(lines[i]) then Some(lines[i][|GraphPrefix|..]) else LastPayload(lines[..i])
  {
    var prefix := lines[..i + 1];
    assert prefix[..i] == lines[..i] && prefix[i] == lines[i];
  }

  /**
   * One line of the stdout callback's loop: a line starting with the graph
   * prefix sets the payload, any other non-blank line is collected with a
   * newline.
   */
  method DemuxLine(lines: seq<string>, i: nat, consoleOutput: string, detected: Option<string>)
    returns (consoleOutput': string, detected': Option<string>)
    requires i < |lines|
    requires consoleOutput == ConsoleText(lines[..i]) && detected == LastPayload(lines[..i])
    ensures consoleOutput' == ConsoleText(lines[..i + 1]) && detected' == LastPayload(lines[..i + 1])
  {
    var line := lines[i];
    PrefixStep(lines, i);
    consoleOutput', detected' := consoleOutput, detected;
    if StartsWith(line, GraphPrefix) {
      assert Kept(lines[..i + 1]) == Kept(lines[..i]);
      detected' := Some(line[|GraphPrefix|..]);
    } else if Trim(line) != "" {
      assert Kept(lines[..i + 1]) == Kept(lines[..i]) + [line];
      TerminatedSnoc(Kept(lines[..i]), line);
      consoleOutput' := consoleOutput + line + "\n";
    } else {
      assert Kept(lines[..i + 1]) == Kept(lines[..i]);
    }
  }

  /**
   * The stdout callback's loop over the lines of a batch: the payload of the
   * last payload line, and the console lines each followed by a newline.
   */
  method DemuxLines(lines: seq<string>) returns (consoleOutput: string, detected: Option<string>)
    ensures consoleOutput == ConsoleText(lines)
    ensures detected == LastPayload(lines)
  {
    consoleOutput, detected := "", None;
    for i := 0 to |lines|
      invariant consoleOutput == ConsoleText(lines[..i])
      invariant detected == LastPayload(lines[..i])
    {
      consoleOutput, detected := DemuxLine(lines, i, consoleOutput, detected);
    }
    assert lines[..|lines|] == lines;
  }

  // ---------------------------------------------------------------------------
  // Packages, files and entrypoints
  // ---------------------------------------------------------------------------

  /** The requested packages not installed yet, in request order. */
  function NewPackages(packages: seq<string>, installed: set<string>): (r: seq<string>)
  {
    if packages == [] then []
    else (if packages[0] in installed then [] else [packages[0]]) + NewPackages(packages[1..], installed)
  }

  /** Exactly the requested packages that are not installed are requested, and no more than asked for. */
  lemma {:induction false} NewPackagesMembers(packages: seq<string>, installed: set<string>)
    ensures |NewPackages(packages, installed)| <= |packages|
    ensures forall p :: p in NewPackages(packages, installed) <==> p in packages && p !in installed
  {
    if packages != [] {
      NewPackagesMembers(packages[1..], installed);
      assert forall p :: p in packages <==> p == packages[0] || p in packages[1..];
    }
  }

  /** The filter keeps request order: it distributes over concatenation. */
  lemma {:induction false} NewPackagesAppend(a: seq<string>, b: seq<string>, installed: set<string>)
    ensures NewPackages(a + b, installed) == NewPackages(a, installed) + NewPackages(b, installed)
  {
    if a != [] {
      assert (a + b)[0] == a[0] && (a + b)[1..] == a[1..] + b;
      NewPackagesAppend(a[1..], b, installed);
    } else {
      assert a + b == b;
    }
  }

  /** Nothing is requested when every package asked for is installed. */
  lemma {:induction false} NewPackagesCovered(packages: seq<string>, installed: set<string>)
    requires forall i :: 0 <= i < |packages| ==> packages[i] in installed
    ensures NewPackages(packages, installed) == []
  {
    if packages != [] {
      NewPackagesCovered(packages[1..], installed);
    }
  }

  /** Once the missing packages are installed, asking again for the same list installs nothing. */
  lemma NewPackagesSettled(packages: seq<string>, installed: set<string>)
    ensures NewPackages(packages, installed + Elements(NewPackages(packages, installed))) == []
  {
    NewPackagesMembers(packages, installed);
    NewPackagesCovered(packages, installed + Elements(NewPackages(packages, installed)));
  }

  /** `name.replace('.py', '')`: the first `.py` anywhere in the name is dropped. */
  function ModuleName(name: string): string
  {
    ReplaceFirst(name, ".py", "")
  }

  function ModuleNames(files: seq<LevelFile>): (r: seq<string>)
    ensures |r| == |files|
    ensures forall i :: 0 <= i < |files| ==> r[i] == ModuleName(files[i].name)
  {
    seq(|files|, i requires 0 <= i < |files| => ModuleName(files[i].name))
  }

  /** A file name ending in its only `.py` gives the name without the extension. */
  lemma ModuleNameOfPyFile(base: string)
    requires forall j :: 0 <= j ==> !OccursAt(base, ".py", j)
    ensures ModuleName(base + ".py") == base
  {
    var s := base + ".py";
    forall j | 0 <= j < |base| ensures !OccursAt(s, ".py", j) {
      if j + 3 <= |base| {
        assert !OccursAt(base, ".py", j);
        assert s[j..j + 3] == base[j..j + 3];
      } else {
        var k := |base| - j;
        assert s[j..j + 3][k] == '.' && ".py"[k] != '.';
      }
    }
    assert OccursAt(s, ".py", |base|);
    ReplaceFirstAt(s, ".py", "", |base|);
    assert s[..|base|] == base;
  }

  /** The quirk of a plain `replace`: `.py` is removed wherever it first occurs, not only as an extension. */
  lemma ModuleNameMidName()
    ensures ModuleName("my.pyc") == "myc"
  {
    var s := "my.pyc";
    assert s[0] == 'm' && s[1] == 'y' && s[2..5] == ".py";
    assert s[0..3][0] != '.' && s[1..4][0] != '.';
    ReplaceFirstAt(s, ".py", "", 2);
    assert s[..2] + s[5..] == "myc";
  }

  /** Only the first `.py` goes: a doubled extension keeps its second one. */
  lemma ModuleNameDoubleExtension()
    ensures ModuleName("a.py.py") == "a.py"
  {
    var t := "a.py.py";
    assert t[0] == 'a' && t[1..4] == ".py";
    assert t[0..3][0] != '.';
    ReplaceFirstAt(t, ".py", "", 1);
    assert t[..1] + t[4..] == "a.py";
  }

  /** The file system after writing `files` in order: a later file of the same name overwrites an earlier one. */
  function WriteFiles(fs: map<string, string>, files: seq<LevelFile>): (r: map<string, string>)
    ensures forall n :: n in r <==> n in fs || exists i :: 0 <= i < |files| && files[i].name == n
  {
    if files == [] then fs
    else
      var last := files[|files| - 1];
      var r := WriteFiles(fs, files[..|files| - 1])[last.name := last.content];
      assert forall i :: 0 <= i < |files| - 1 ==> files[..|files| - 1][i] == files[i];
      r
  }

  /** Each written name holds the content of the last file of that name; other names are untouched. */
  lemma {:induction false} WriteFilesLast(fs: map<string, string>, files: seq<LevelFile>)
    ensures forall i :: 0 <= i < |files| && (forall j :: i < j < |files| ==> files[j].name != files[i].name) ==>
      WriteFiles(fs, files)[files[i].name] == files[i].content
    ensures forall n :: n in fs && (forall i :: 0 <= i < |files| ==> files[i].name != n) ==> WriteFiles(fs, files)[n] == fs[n]
  {
    if files != [] {
      var init := files[..|files| - 1];
      WriteFilesLast(fs, init);
      assert forall i :: 0 <= i < |init| ==> init[i] == files[i];
    }
  }

  /** The first file whose name starts with `test_`. */
  function FirstTestFile(files: seq<LevelFile>): (r: Option<LevelFile>)
    ensures r.Some? ==> r.value in files && StartsWith(r.value.name, TestFilePrefix)
    ensures r.None? <==> forall i :: 0 <= i < |files| ==> !StartsWith(files[i].name, TestFilePrefix)
    ensures forall i ::
      (0 <= i < |files| && StartsWith(files[i].name, TestFilePrefix) &&
       forall j :: 0 <= j < i ==> !StartsWith(files[j].name, TestFilePrefix)) ==> r == Some(files[i])
  {
    if files == [] then None
    else if StartsWith(files[0].name, TestFilePrefix) then Some(files[0])
    else
      var r := FirstTestFile(files[1..]);
      assert forall i :: 1 <= i < |files| ==> files[1..][i - 1] == files[i];
      r
  }

  predicate HasMain(files: seq<LevelFile>)
  {
    exists i :: 0 <= i < |files| && files[i].name == MainFileName
  }

  /** A test file wins over `main.py`; with neither there is nothing to run. */
  function ChooseEntrypoint(files: seq<LevelFile>): (r: Entrypoint)
    ensures r.Tests? <==> exists i :: 0 <= i < |files| && StartsWith(files[i].name, TestFilePrefix)
    ensures r.Tests? ==> StartsWith(r.name, TestFilePrefix)
    ensures r == Main <==> HasMain(files) && forall i :: 0 <= i < |files| ==> !StartsWith(files[i].name, TestFilePrefix)
  {
    match FirstTestFile(files)
    case Some(f) => Tests(f.name)
    case None => if HasMain(files) then Main else NoEntrypoint
  }

  /** Every file of the level has been written to `fs`. */
  predicate Written(fs: map<string, string>, files: seq<LevelFile>)
  {
    forall i :: 0 <= i < |files| ==> files[i].name in fs
  }

  /** What running the entrypoint adds to the console, whether the run counts as a success, and the calls it makes. */
  datatype RunReport = RunReport(console: string, success: bool, calls: seq<Request>)

  /**
   * The run of the chosen entrypoint, after the files are written to `fs`:
   * tests succeed when the runner exits with 0, `main.py` (as read back
   * from the file system) when it does not raise; anything raised is
   * reported under the error banner. A run succeeds exactly when the tests
   * exit with 0, or, with no test file, when `main.py` exists and does not
   * raise; a level with neither makes no call at all.
   */
  function EntrypointRun(files: seq<LevelFile>, fs: map<string, string>, env: RunEnv): (r: RunReport)
    requires Written(fs, files)
    ensures r.success <==>
      || ((exists i :: 0 <= i < |files| && StartsWith(files[i].name, TestFilePrefix)) && env.tests == ExitCode(0))
      || (HasMain(files) && (forall i :: 0 <= i < |files| ==> !StartsWith(files[i].name, TestFilePrefix)) && env.mainError.None?)
    ensures r.calls == [] <==> ChooseEntrypoint(files) == NoEntrypoint
    ensures |r.calls| <= 1
  {
    match ChooseEntrypoint(files)
    case Tests(name) =>
      RunReport(RunningTestsBanner(name) + (if env.tests.TestsRaised? then PythonError(env.tests.message) else ""),
                env.tests == ExitCode(0), [RunTests(name)])
    case Main =>
      RunReport(RunningMainBanner + (if env.mainError.Some? then PythonError(env.mainError.value) else ""),
                env.mainError.None?, [RunMain(fs[MainFileName])])
    case NoEntrypoint =>
      RunReport(NoEntrypointMessage, false, [])
  }

  /** Writing the files leaves every one of them in the file system. */
  lemma WrittenAfterWrite(fs: map<string, string>, files: seq<LevelFile>)
    ensures Written(WriteFiles(fs, files), files)
  {
    forall i | 0 <= i < |files| ensures files[i].name in WriteFiles(fs, files) {
      assert exists j :: 0 <= j < |files| && files[j].name == files[i].name;
    }
  }

  /** `main.py` runs with the content of the last file of that name in the level. */
  lemma MainRunsLastMain(fs: map<string, string>, files: seq<LevelFile>, env: RunEnv, i: nat)
    requires i < |files| && files[i].name == MainFileName
    requires forall j :: i < j < |files| ==> files[j].name != MainFileName
    requires forall j :: 0 <= j < |files| ==> !StartsWith(files[j].name, TestFilePrefix)
    ensures Written(WriteFiles(fs, files), files)
    ensures EntrypointRun(files, WriteFiles(fs, files), env).calls == [RunMain(files[i].content)]
  {
    WrittenAfterWrite(fs, files);
    WriteFilesLast(fs, files);
    assert HasMain(files);
  }

  // ---------------------------------------------------------------------------
  // The session
  // ---------------------------------------------------------------------------

  /** The hook's state: its state cells, its two refs and the interpreter's file system. */
  class Session {
    /** An interpreter instance is loaded. */
    var ready: bool
    var isLoading: bool
    /** The in-flight flag of initialisation. */
    var initializing: bool
    var output: string
    var graph: Option<GraphLayout.GraphData>
    var isExecuting: bool
    var isInstalling: bool
    var installed: set<string>
    var fs: map<string, string>
    /** Every call made into the interpreter, in order. */
    var requests: seq<Request>

    constructor()
      ensures !ready && !isLoading && !initializing && !isExecuting && !isInstalling
      ensures output == "" && graph == None && installed == {} && fs == map[] && requests == []
    {
      ready, isLoading, initializing := false, false, false;
      output, graph := "", None;
      isExecuting, isInstalling := false, false;
      installed, fs, requests := {}, map[], [];
    }

    /**
     * The synchronous start of `initPyodide`: nothing happens when an
     * interpreter is loaded, loading or being initialised; otherwise the
     * in-flight flag and the loading flag are raised.
     */
    method StartInit() returns (started: bool)
      modifies this
      ensures started <==> !old(ready) && !old(isLoading) && !old(initializing)
      ensures started ==> initializing && isLoading
      ensures ready == old(ready) && output == old(output) && graph == old(graph)
      ensures isExecuting == old(isExecuting) && isInstalling == old(isInstalling)
      ensures installed == old(installed) && fs == old(fs) && requests == old(requests)
      ensures !started ==> initializing == old(initializing) && isLoading == old(isLoading)
    {
      if ready || isLoading || initializing {
        return false;
      }
      initializing := true;
      isLoading := true;
      started := true;
    }

    /**
     * The end of `initPyodide`: `loaded` says whether the interpreter and
     * micropip loaded. On failure the console is replaced by the failure
     * message. Both flags drop either way.
     */
    method FinishInit(loaded: bool)
      modifies this
      requires initializing
      ensures !initializing && !isLoading
      ensures ready == (old(ready) || loaded)
      ensures output == if loaded then old(output) else InitFailure
      ensures graph == old(graph) && isExecuting == old(isExecuting) && isInstalling == old(isInstalling)
      ensures installed == old(installed) && fs == old(fs) && requests == old(requests)
    {
      if loaded {
        ready := true;
      } else {
        output := InitFailure;
      }
      initializing := false;
      isLoading := false;
    }

    /**
     * The stdout callback: the batch's console lines are appended; a
     * non-empty payload replaces the graph with what it parses to, or, if it
     * does not parse, appends an error line and leaves the graph alone.
     */
    method Stdout(batch: string, parse: string -> Parsed)
      modifies this
      ensures var payload := LastPayload(Lines(batch));
        && (payload.None? || payload.value == "" ==> output == old(output) + ConsoleText(Lines(batch)) && graph == old(graph))
        && (payload.Some? && payload.value != "" && parse(payload.value).Parsed? ==>
              output == old(output) + ConsoleText(Lines(batch)) && graph == parse(payload.value).value)
        && (payload.Some? && payload.value != "" && parse(payload.value).Malformed? ==>
              output == old(output) + ConsoleText(Lines(batch)) + ParseFailure && graph == old(graph))
      ensures ready == old(ready) && isLoading == old(isLoading) && initializing == old(initializing)
      ensures isExecuting == old(isExecuting) && isInstalling == old(isInstalling)
      ensures installed == old(installed) && fs == old(fs) && requests == old(requests)
    {
      ReceiveLines(Lines(batch), parse);
    }

    /** The stdout callback once its batch is split into lines. */
    method ReceiveLines(lines: seq<string>, parse: string -> Parsed)
      modifies this
      ensures var payload := LastPayload(lines);
        && (payload.None? || payload.value == "" ==> output == old(output) + ConsoleText(lines) && graph == old(graph))
        && (payload.Some? && payload.value != "" && parse(payload.value).Parsed? ==>
              output == old(output) + ConsoleText(lines) && graph == parse(payload.value).value)
        && (payload.Some? && payload.value != "" && parse(payload.value).Malformed? ==>
              output == old(output) + ConsoleText(lines) + ParseFailure && graph == old(graph))
      ensures ready == old(ready) && isLoading == old(isLoading) && initializing == old(initializing)
      ensures isExecuting == old(isExecuting) && isInstalling == old(isInstalling)
      ensures installed == old(installed) && fs == old(fs) && requests == old(requests)
    {
      var consoleOutput, detected := DemuxLines(lines);
      var text, data := output, graph;
      if consoleOutput != "" {
        text := text + consoleOutput;
      }
      if detected.Some? && detected.value != "" {
        match parse(detected.value)
        case Parsed(value) =>
          data := value;
        case Malformed =>
          text := text + ParseFailure;
      }
      output, graph := text, data;
    }

    /** The stderr callback: the text and a newline are appended. */
    method Stderr(text: string)
      modifies this
      ensures output == old(output) + text + "\n"
      ensures graph == old(graph) && ready == old(ready) && isLoading == old(isLoading) && initializing == old(initializing)
      ensures isExecuting == old(isExecuting) && isInstalling == old(isInstalling)
      ensures installed == old(installed) && fs == old(fs) && requests == old(requests)
    {
      output := output + text + "\n";
    }

    /**
     * `installPackages`: only the packages not installed yet are requested;
     * `failure` is the message the installer fails with, if it does. On
     * success they join the installed set, which never shrinks.
     */
    method InstallPackages(packages: seq<string>, failure: Option<string>)
      modifies this
      ensures old(installed) <= installed
      ensures !old(ready) || NewPackages(packages, old(installed)) == [] ==>
        output == old(output) && installed == old(installed) && requests == old(requests) && isInstalling == old(isInstalling)
      ensures old(ready) && NewPackages(packages, old(installed)) != [] ==>
        var missing := NewPackages(packages, old(installed));
        && requests == old(requests) + [Install(missing)]
        && !isInstalling
        && (failure.None? ==> installed == old(installed) + Elements(missing) && output == old(output) + InstallBanner(missing) + InstallComplete)
        && (failure.Some? ==>
              && installed == old(installed)
              && output == old(output) + InstallBanner(missing) + InstallError(failure.value))
      ensures ready == old(ready) && isLoading == old(isLoading) && initializing == old(initializing)
      ensures graph == old(graph) && isExecuting == old(isExecuting) && fs == old(fs)
    {
      if !ready {
        return;
      }
      var missing := NewPackages(packages, installed);
      if |missing| == 0 {
        return;
      }
      isInstalling := true;
      var text := output + InstallBanner(missing);
      requests := requests + [Install(missing)];
      if failure.None? {
        installed := installed + Elements(missing);
        text := text + InstallComplete;
      } else {
        text := text + InstallError(failure.value);
      }
      output, isInstalling := text, false;
    }

    /**
     * Writes the files into the interpreter's file system, in order. A write
     * that raises ends the loop: the files before it stay written and the
     * error comes back as `raised`.
     */
    method WriteAll(files: seq<LevelFile>, failure: Option<WriteError>) returns (raised: Option<string>)
      modifies this
      ensures failure.Some? && failure.value.index < |files| ==>
        raised == Some(failure.value.message) && fs == WriteFiles(old(fs), files[..failure.value.index])
      ensures !(failure.Some? && failure.value.index < |files|) ==> raised == None && fs == WriteFiles(old(fs), files)
      ensures ready == old(ready) && isLoading == old(isLoading) && initializing == old(initializing)
      ensures output == old(output) && graph == old(graph) && isExecuting == old(isExecuting)
      ensures isInstalling == old(isInstalling) && installed == old(installed) && requests == old(requests)
    {
      ghost var fs0 := fs;
      for k := 0 to |files|
        invariant fs == WriteFiles(fs0, files[..k])
        invariant failure.Some? ==> failure.value.index >= k
        invariant ready == old(ready) && isLoading == old(isLoading) && initializing == old(initializing)
        invariant output == old(output) && graph == old(graph) && isExecuting == old(isExecuting)
        invariant isInstalling == old(isInstalling) && installed == old(installed) && requests == old(requests)
      {
        if failure.Some? && failure.value.index == k {
          return Some(failure.value.message);
        }
        assert files[..k + 1][..k] == files[..k];
        fs := fs[files[k].name := files[k].content];
      }
      assert files[..|files|] == files;
      return None;
    }

    /**
     * `runCode`: with no interpreter it reports failure and does nothing.
     * Otherwise the console is replaced by the banner, the graph is cleared,
     * the modules named after the files are unloaded, the files are written
     * and the entrypoint runs. An error raised while unloading or while
     * writing a file ends the run with the error banner.
     */
    method RunCode(files: seq<LevelFile>, env: RunEnv) returns (success: bool)
      modifies this
      ensures !old(ready) ==> !success && output == old(output) && graph == old(graph) && fs == old(fs)
                              && requests == old(requests) && isExecuting == old(isExecuting)
      ensures old(ready) ==> graph == None && !isExecuting
      ensures old(ready) && env.unloadError.Some? ==>
        && !success && fs == old(fs)
        && output == ExecutingBanner + PythonError(env.unloadError.value)
        && requests == old(requests) + [Unload(ModuleNames(files))]
      ensures old(ready) && env.unloadError.None? && WriteFails(files, env) ==>
        && !success && fs == WriteFiles(old(fs), files[..env.writeError.value.index])
        && output == ExecutingBanner + PythonError(env.writeError.value.message)
        && requests == old(requests) + [Unload(ModuleNames(files))]
      ensures old(ready) && env.unloadError.None? && !WriteFails(files, env) ==>
        && fs == WriteFiles(old(fs), files)
        && Written(fs, files)
        && var report := EntrypointRun(files, fs, env);
        && output == ExecutingBanner + report.console
        && success == report.success
        && requests == old(requests) + [Unload(ModuleNames(files))] + report.calls
      ensures ready == old(ready) && isLoading == old(isLoading) && initializing == old(initializing)
      ensures isInstalling == old(isInstalling) && installed == old(installed)
    {
      if !ready {
        return false;
      }
      isExecuting, output, graph := true, ExecutingBanner, None;
      requests := requests + [Unload(ModuleNames(files))];
      if env.unloadError.Some? {
        output, isExecuting := output + PythonError(env.unloadError.value), false;
        return false;
      }
      var raised := WriteAll(files, env.writeError);
      if raised.Some? {
        output, isExecuting := output + PythonError(raised.value), false;
        return false;
      }
      WrittenAfterWrite(old(fs), files);
      success := RunEntrypoint(files, env);
      isExecuting := false;
    }

    /** The entrypoint part of `runCode`, once the files are written. */
    method RunEntrypoint(files: seq<LevelFile>, env: RunEnv) returns (success: bool)
      modifies this
      requires Written(fs, files)
      ensures fs == old(fs)
      ensures var report := EntrypointRun(files, fs, env);
        && output == old(output) + report.console
        && success == report.success
        && requests == old(requests) + report.calls
      ensures ready == old(ready) && isLoading == old(isLoading) && initializing == old(initializing)
      ensures graph == old(graph) && isExecuting == old(isExecuting) && isInstalling == old(isInstalling)
      ensures installed == old(installed)
    {
      var testFile := FirstTestFile(files);
      var text, calls := output, requests;
      if testFile.Some? {
        var name := testFile.value.name;
        text, calls := text + RunningTestsBanner(name), calls + [RunTests(name)];
        match env.tests
        case ExitCode(code) =>
          success := code == 0;
        case TestsRaised(message) =>
          text, success := text + PythonError(message), false;
      } else if HasMain(files) {
        var source := fs[MainFileName];
        text, calls := text + RunningMainBanner, calls + [RunMain(source)];
        if env.mainError.Some? {
          text, success := text + PythonError(env.mainError.value), false;
        } else {
          success := true;
        }
      } else {
        text, success := text + NoEntrypointMessage, false;
      }
      output, requests := text, calls;
    }

    /** `clearOutput`: empties the console and drops the graph. */
    method ClearOutput()
      modifies this
      ensures output == "" && graph == None
      ensures ready == old(ready) && isLoading == old(isLoading) && initializing == old(initializing)
      ensures isExecuting == old(isExecuting) && isInstalling == old(isInstalling)
      ensures installed == old(installed) && fs == old(fs) && requests == old(requests)
    {
      output := "";
      graph := None;
    }
  }
}
