/** The records a course file is made of (types.ts). */
module AppTypes {
  import opened Wrappers

  /** One named source file of a level. */
  datatype LevelFile = LevelFile(name: string, content: string)

  /**
   * One exercise. `hints` and `solution` are optional in the course file;
   * a solution maps a file name to the full text of that file.
   */
  datatype Level = Level(
    id: int,
    title: string,
    description: string,
    files: seq<LevelFile>,
    packages: seq<string>,
    hints: Option<seq<string>>,
    solution: Option<map<string, string>>)

  datatype Course = Course(title: string, date: string, levels: seq<Level>)
}
