/**
 * The files the solution dialog shows (components/SolutionModal.tsx): the
 * level's files with each content replaced by the solution's text for that
 * file name, where the solution has one.
 */
module SolutionModal {
  import opened Wrappers
  import opened AppTypes

  /** The content shown for `file`: the solution's text for its name (even an empty one), else its own. */
  function Overlaid(file: LevelFile, solution: map<string, string>): (r: LevelFile)
    ensures r.name == file.name
    ensures file.name in solution ==> r.content == solution[file.name]
    ensures file.name !in solution ==> r == file
  {
    file.(content := if file.name in solution then solution[file.name] else file.content)
  }

  /** `solutionFiles`: the level's files unchanged without a solution, each one overlaid with it otherwise. */
  function SolutionFiles(level: Level): (r: seq<LevelFile>)
    ensures level.solution.None? ==> r == level.files
    ensures |r| == |level.files|
    ensures forall i :: 0 <= i < |r| ==> r[i].name == level.files[i].name
    ensures level.solution.Some? ==> forall i :: 0 <= i < |r| ==>
      r[i].content == if level.files[i].name in level.solution.value then level.solution.value[level.files[i].name] else level.files[i].content
  {
    match level.solution
    case None => level.files
    case Some(solution) => seq(|level.files|, i requires 0 <= i < |level.files| => Overlaid(level.files[i], solution))
  }

  /** Showing the solution of the solution changes nothing more: the overlay is idempotent. */
  lemma SolutionFilesIdempotent(level: Level)
    ensures SolutionFiles(level.(files := SolutionFiles(level))) == SolutionFiles(level)
  {
    var once := SolutionFiles(level);
    var twice := SolutionFiles(level.(files := once));
    assert |twice| == |once|;
    forall i | 0 <= i < |once| ensures twice[i] == once[i] {
      if level.solution.Some? {
        assert twice[i] == Overlaid(once[i], level.solution.value);
        assert once[i] == Overlaid(level.files[i], level.solution.value);
      }
    }
  }

  /** A solution naming every file replaces every content; one naming none of them shows the files as they are. */
  lemma SolutionCoverage(level: Level)
    requires level.solution.Some?
    ensures (forall i :: 0 <= i < |level.files| ==> level.files[i].name in level.solution.value) ==>
      forall i :: 0 <= i < |level.files| ==> SolutionFiles(level)[i] == LevelFile(level.files[i].name, level.solution.value[level.files[i].name])
    ensures (forall i :: 0 <= i < |level.files| ==> level.files[i].name !in level.solution.value) ==>
      SolutionFiles(level) == level.files
  {
    var r := SolutionFiles(level);
    if forall i :: 0 <= i < |level.files| ==> level.files[i].name !in level.solution.value {
      forall i | 0 <= i < |level.files| ensures r[i] == level.files[i] {
        assert r[i] == Overlaid(level.files[i], level.solution.value);
      }
    }
  }
}
