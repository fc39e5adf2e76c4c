/**
 * The application shell (App.tsx): loading a course, choosing the current
 * level, moving between levels, the run button's state and the run itself,
 * and the set of completed levels.
 *
 * `fetch`, `response.json()` and `localStorage` are outside the model: what
 * the fetch answers is a parameter of `LoadCourse`, and the completed set
 * is kept in memory only.
 */
module App {
  import opened Wrappers
  import opened AppTypes
  import Pyodide
  import Text

  const InvalidCourse: string := "Course data is invalid. Expected an object with 'title' and a non-empty 'levels' array."
  const UnknownError: string := "An unknown error occurred."
  const ErrorTitle: string := "Error Loading Course"

  // ---------------------------------------------------------------------------
  // Looking levels up
  // ---------------------------------------------------------------------------

  /** `levels.findIndex(l => l.id === id)`: the first index holding `id`, or -1. */
  function FindIndex(levels: seq<Level>, id: int): (r: int)
    ensures -1 <= r < |levels|
    ensures r >= 0 ==> levels[r].id == id && forall j :: 0 <= j < r ==> levels[j].id != id
    ensures r == -1 <==> forall j :: 0 <= j < |levels| ==> levels[j].id != id
  {
    if levels == [] then -1
    else if levels[0].id == id then 0
    else
      var r := FindIndex(levels[1..], id);
      assert forall j :: 1 <= j < |levels| ==> levels[1..][j - 1] == levels[j];
      if r == -1 then -1 else r + 1
  }

  /** `levels.find(l => l.id === id)`: the level at `FindIndex`, if any. */
  function FindLevel(levels: seq<Level>, id: int): (r: Option<Level>)
    ensures r.None? <==> FindIndex(levels, id) == -1
    ensures r.Some? ==> r.value == levels[FindIndex(levels, id)] && r.value.id == id
  {
    var i := FindIndex(levels, id);
    if i == -1 then None else Some(levels[i])
  }

  predicate DistinctIds(levels: seq<Level>)
  {
    forall i, j :: 0 <= i < j < |levels| ==> levels[i].id != levels[j].id
  }

  /** `currentLevelId === (levels[0]?.id ?? -1)`. */
  function IsFirstLevel(levels: seq<Level>, id: int): (r: bool)
    ensures |levels| > 0 ==> (r <==> FindIndex(levels, id) == 0)
    ensures |levels| == 0 ==> (r <==> id == -1)
  {
    id == if |levels| > 0 then levels[0].id else -1
  }

  /** `levels.length > 0 && currentLevelId === levels[levels.length - 1].id`. */
  function IsLastLevel(levels: seq<Level>, id: int): (r: bool)
    ensures r ==> |levels| > 0 && FindLevel(levels, id).Some?
    ensures DistinctIds(levels) ==> (r <==> |levels| > 0 && FindIndex(levels, id) == |levels| - 1)
  {
    |levels| > 0 && id == levels[|levels| - 1].id
  }

  // ---------------------------------------------------------------------------
  // The run button
  // ---------------------------------------------------------------------------

  /** The run button: its label, whether it is disabled, and whether it shows a spinner (otherwise a play icon). */
  datatype ButtonState = ButtonState(text: string, disabled: bool, spinner: bool)

  /**
   * `getButtonState`: the first matching condition wins, in the order
   * course loading with no levels yet, interpreter loading, installing,
   * executing; otherwise the button runs.
   */
  function GetButtonState(courseLoading: bool, levelCount: nat, interpreterLoading: bool, installing: bool, executing: bool): (r: ButtonState)
    ensures r.disabled <==> (courseLoading && levelCount == 0) || interpreterLoading || installing || executing
    ensures r.disabled <==> r.text != "Run"
    ensures r.spinner == r.disabled
  {
    if courseLoading && levelCount == 0 then ButtonState("Loading Course...", true, true)
    else if interpreterLoading then ButtonState("Initializing...", true, true)
    else if installing then ButtonState("Installing...", true, true)
    else if executing then ButtonState("Running...", true, true)
    else ButtonState("Run", false, false)
  }

  /** A busy condition is reported only when no condition before it holds. */
  lemma ButtonPriority(courseLoading: bool, levelCount: nat, interpreterLoading: bool, installing: bool, executing: bool)
    ensures var b := GetButtonState(courseLoading, levelCount, interpreterLoading, installing, executing);
      && (b.text == "Loading Course..." <==> courseLoading && levelCount == 0)
      && (b.text == "Initializing..." <==> !(courseLoading && levelCount == 0) && interpreterLoading)
      && (b.text == "Installing..." <==> !(courseLoading && levelCount == 0) && !interpreterLoading && installing)
      && (b.text == "Running..." <==> !(courseLoading && levelCount == 0) && !interpreterLoading && !installing && executing)
  {
    var b := GetButtonState(courseLoading, levelCount, interpreterLoading, installing, executing);
    assert "Loading Course..."[0] == 'L' && "Initializing..."[0] == 'I' && "Installing..."[1] == 'n';
    assert "Initializing..."[2] == 'i' && "Installing..."[2] == 's';
    assert "Running..."[0] == 'R' && "Run"[0] == 'R' && |"Run"| != |"Running..."|;
  }

  // ---------------------------------------------------------------------------
  // Loading a course
  // ---------------------------------------------------------------------------

  /**
   * The JSON a course file decodes to, as far as `loadCourse` looks at it:
   * `null`, or an object with a title (missing reads as the falsy "") and a
   * `levels` field that may not be an array.
   */
  datatype CourseJson = Null | Object(title: string, levels: Option<seq<Level>>)

  /** What `fetch` answers: a network error, or a response whose body may not parse. */
  datatype FetchOutcome =
    | NetworkError(message: string)
    | Response(ok: bool, status: nat, statusText: string, body: Result<CourseJson>)

  /** The title and levels of a course that passes the checks of `loadCourse`, or the message it throws with. */
  function CheckCourse(fetched: FetchOutcome): (r: Result<(string, seq<Level>)>)
    ensures r.Ok? ==> r.value.0 != "" && |r.value.1| > 0
    ensures r.Ok? <==> fetched.Response? && fetched.ok && fetched.body.Ok? && fetched.body.value.Object?
                       && fetched.body.value.title != "" && fetched.body.value.levels.Some? && |fetched.body.value.levels.value| > 0
    ensures fetched.Response? && fetched.ok && fetched.body.Ok? && r.Err? ==> r.message == InvalidCourse
    ensures fetched.Response? && !fetched.ok ==> r.Err? && Text.StartsWith(r.message, "Failed to fetch course: ")
  {
    match fetched
    case NetworkError(message) => Err(message)
    case Response(ok, status, statusText, body) =>
      if !ok then Err("Failed to fetch course: " + Text.NatToString(status) + " " + statusText)
      else match body
        case Err(message) => Err(message)
        case Ok(data) =>
          if data.Null? || data.title == "" || data.levels.None? || |data.levels.value| == 0 then Err(InvalidCourse)
          else Ok((data.title, data.levels.value))
  }

  /** `error.message || "An unknown error occurred."`. */
  function ErrorText(message: string): (r: string)
    ensures r != ""
    ensures message != "" ==> r == message
  {
    if message == "" then UnknownError else message
  }

  // ---------------------------------------------------------------------------
  // The application state
  // ---------------------------------------------------------------------------

  /** The state cells of the application component. */
  class Shell {
    var courseLevels: seq<Level>
    var courseTitle: string
    var isCourseLoading: bool
    var courseLoadingError: Option<string>
    var currentLevelId: int
    var files: seq<LevelFile>
    var isSettingsOpen: bool
    var completedLevels: set<int>

    constructor()
      ensures courseLevels == [] && courseTitle == "" && isCourseLoading && courseLoadingError == None
      ensures currentLevelId == 0 && files == [] && !isSettingsOpen && completedLevels == {}
    {
      courseLevels, courseTitle, isCourseLoading, courseLoadingError := [], "", true, None;
      currentLevelId, files, isSettingsOpen, completedLevels := 0, [], false, {};
    }

    /** `currentLevel`. */
    function CurrentLevel(): Option<Level>
      reads this
    {
      FindLevel(courseLevels, currentLevelId)
    }

    /**
     * `loadCourse`: a course that passes the checks replaces the levels and
     * the title, selects the first level and closes the settings; otherwise
     * the error is shown under an error title and the levels stay. Loading
     * ends either way.
     */
    method LoadCourse(fetched: FetchOutcome)
      modifies this
      ensures !isCourseLoading
      ensures CheckCourse(fetched).Ok? ==>
        && courseTitle == CheckCourse(fetched).value.0
        && courseLevels == CheckCourse(fetched).value.1
        && currentLevelId == courseLevels[0].id
        && !isSettingsOpen && courseLoadingError == None
      ensures CheckCourse(fetched).Err? ==>
        && courseLoadingError == Some(ErrorText(CheckCourse(fetched).message))
        && courseTitle == ErrorTitle
        && courseLevels == old(courseLevels) && currentLevelId == old(currentLevelId)
        && isSettingsOpen == old(isSettingsOpen)
      ensures files == old(files) && completedLevels == old(completedLevels)
    {
      isCourseLoading, courseLoadingError := true, None;
      var checked := CheckCourse(fetched);
      match checked {
        case Ok(course) =>
          courseLevels, courseTitle := course.1, course.0;
          currentLevelId, isSettingsOpen := course.1[0].id, false;
        case Err(message) =>
          courseLoadingError, courseTitle := Some(ErrorText(message)), ErrorTitle;
      }
      isCourseLoading := false;
    }

    /** `handlePreviousLevel`: moves to the level before the current one, if there is one. */
    method PreviousLevel()
      modifies this
      ensures var i := FindIndex(courseLevels, old(currentLevelId));
        && (i > 0 ==> currentLevelId == courseLevels[i - 1].id)
        && (i <= 0 ==> currentLevelId == old(currentLevelId))
      ensures courseLevels == old(courseLevels) && files == old(files) && completedLevels == old(completedLevels)
      ensures courseTitle == old(courseTitle) && isCourseLoading == old(isCourseLoading)
      ensures isSettingsOpen == old(isSettingsOpen) && courseLoadingError == old(courseLoadingError)
    {
      var currentIndex := FindIndex(courseLevels, currentLevelId);
      if currentIndex > 0 {
        currentLevelId := courseLevels[currentIndex - 1].id;
      }
    }

    /**
     * `handleNextLevel`: moves to the level after the current one, if there
     * is one. An id that names no level has index -1, so it moves to the
     * first level.
     */
    method NextLevel()
      modifies this
      ensures var i := FindIndex(courseLevels, old(currentLevelId));
        && (i < |courseLevels| - 1 ==> currentLevelId == courseLevels[i + 1].id)
        && (i == |courseLevels| - 1 ==> currentLevelId == old(currentLevelId))
      ensures courseLevels == old(courseLevels) && files == old(files) && completedLevels == old(completedLevels)
      ensures courseTitle == old(courseTitle) && isCourseLoading == old(isCourseLoading)
      ensures isSettingsOpen == old(isSettingsOpen) && courseLoadingError == old(courseLoadingError)
    {
      var currentIndex := FindIndex(courseLevels, currentLevelId);
      if currentIndex < |courseLevels| - 1 {
        currentLevelId := courseLevels[currentIndex + 1].id;
      }
    }

    /**
     * The effect run when the current level (or the interpreter's readiness)
     * changes: the editor gets a copy of the level's files and, with an
     * interpreter, the console is cleared and the level's packages are
     * installed. `installFailure` is what the installer fails with, if it does.
     */
    method EnterLevel(session: Pyodide.Session, installFailure: Option<string>)
      modifies this, session
      ensures CurrentLevel() == old(CurrentLevel())
      ensures old(CurrentLevel()).None? ==> files == old(files) && unchanged(session)
      ensures old(CurrentLevel()).Some? ==> files == old(CurrentLevel()).value.files
      ensures old(CurrentLevel()).Some? && !old(session.ready) ==> unchanged(session)
      ensures session.ready == old(session.ready) && session.isLoading == old(session.isLoading)
      ensures session.initializing == old(session.initializing)
      ensures old(CurrentLevel()).Some? && old(session.ready) ==>
        var missing := Pyodide.NewPackages(old(CurrentLevel()).value.packages, old(session.installed));
        && session.graph == None
        && session.ready && session.isExecuting == old(session.isExecuting) && session.fs == old(session.fs)
        && (missing == [] ==>
              && session.output == "" && session.installed == old(session.installed)
              && session.requests == old(session.requests) && session.isInstalling == old(session.isInstalling))
        && (missing != [] ==> session.requests == old(session.requests) + [Pyodide.Install(missing)] && !session.isInstalling)
        && (missing != [] && installFailure.None? ==>
              && session.installed == old(session.installed) + Pyodide.Elements(missing)
              && session.output == Pyodide.InstallBanner(missing) + Pyodide.InstallComplete)
        && (missing != [] && installFailure.Some? ==>
              && session.installed == old(session.installed)
              && session.output == Pyodide.InstallBanner(missing) + Pyodide.InstallError(installFailure.value))
      ensures courseLevels == old(courseLevels) && currentLevelId == old(currentLevelId)
      ensures completedLevels == old(completedLevels)
      ensures courseTitle == old(courseTitle) && isCourseLoading == old(isCourseLoading)
      ensures isSettingsOpen == old(isSettingsOpen) && courseLoadingError == old(courseLoadingError)
    {
      var level := FindLevel(courseLevels, currentLevelId);
      if level.Some? {
        files := level.value.files;
        if session.ready {
          session.ClearOutput();
          ghost var missing := Pyodide.NewPackages(level.value.packages, session.installed);
          session.InstallPackages(level.value.packages, installFailure);
          assert "" + Pyodide.InstallBanner(missing) == Pyodide.InstallBanner(missing);
        }
      }
    }

    /**
     * `handleRun`: while code runs or packages install nothing happens.
     * Otherwise the console is cleared, the editor's files run, and a
     * successful run marks the current level completed.
     */
    method HandleRun(session: Pyodide.Session, env: Pyodide.RunEnv)
      modifies this, session
      ensures old(session.isExecuting) || old(session.isInstalling) ==>
        completedLevels == old(completedLevels) && unchanged(session)
      ensures !old(session.isExecuting) && !old(session.isInstalling) ==>
        var written := Pyodide.WriteFiles(old(session.fs), files);
        var report := Pyodide.EntrypointRun(files, written, env);
        var unload := old(session.requests) + [Pyodide.Unload(Pyodide.ModuleNames(files))];
        var succeeded := old(session.ready) && env.unloadError.None? && !Pyodide.WriteFails(files, env) && report.success;
        && !session.isExecuting && session.graph == None
        && (succeeded && CurrentLevel().Some? ==> completedLevels == old(completedLevels) + {CurrentLevel().value.id})
        && (!succeeded || CurrentLevel().None? ==> completedLevels == old(completedLevels))
        && (!old(session.ready) ==> session.output == "" && session.requests == old(session.requests) && session.fs == old(session.fs))
        && (old(session.ready) && env.unloadError.Some? ==>
              session.output == Pyodide.ExecutingBanner + Pyodide.PythonError(env.unloadError.value) && session.requests == unload)
        && (old(session.ready) && env.unloadError.None? && Pyodide.WriteFails(files, env) ==>
              && session.output == Pyodide.ExecutingBanner + Pyodide.PythonError(env.writeError.value.message)
              && session.requests == unload
              && session.fs == Pyodide.WriteFiles(old(session.fs), files[..env.writeError.value.index]))
        && (old(session.ready) && env.unloadError.None? && !Pyodide.WriteFails(files, env) ==>
              && session.output == Pyodide.ExecutingBanner + report.console
              && session.requests == unload + report.calls
              && session.fs == written)
      ensures old(completedLevels) <= completedLevels
      ensures session.ready == old(session.ready) && session.isLoading == old(session.isLoading)
      ensures session.initializing == old(session.initializing)
      ensures session.isInstalling == old(session.isInstalling) && session.installed == old(session.installed)
      ensures courseLevels == old(courseLevels) && currentLevelId == old(currentLevelId) && files == old(files)
      ensures courseTitle == old(courseTitle) && isCourseLoading == old(isCourseLoading)
      ensures isSettingsOpen == old(isSettingsOpen) && courseLoadingError == old(courseLoadingError)
    {
      if !session.isExecuting && !session.isInstalling {
        session.ClearOutput();
        Pyodide.WrittenAfterWrite(session.fs, files);
        var success := session.RunCode(files, env);
        var level := FindLevel(courseLevels, currentLevelId);
        if success && level.Some? {
          completedLevels := completedLevels + {level.value.id};
        }
      }
    }
  }

  /** With distinct ids, the last level is the one whose index allows no next. */
  lemma {:induction false} LastLevelIndex(levels: seq<Level>)
    requires |levels| > 0 && DistinctIds(levels)
    ensures FindIndex(levels, levels[|levels| - 1].id) == |levels| - 1
  {
    var id := levels[|levels| - 1].id;
    assert forall j :: 0 <= j < |levels| - 1 ==> levels[j].id != id;
  }
}
