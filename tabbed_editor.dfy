/**
 * The tabbed editor (components/TabbedCodeEditor.tsx): one tab per file and,
 * while there is graph data, a graph tab; which tab is active; and the edit
 * of the active file's content.
 */
module TabbedEditor {
  import opened Wrappers
  import opened AppTypes

  const GraphTab: string := "__GRAPH__"

  /** Some file of the list has this name (`files.some(f => f.name === name)`). */
  predicate NamesFile(files: seq<LevelFile>, name: Option<string>)
  {
    name.Some? && exists i :: 0 <= i < |files| && files[i].name == name.value
  }

  /** `files[0]?.name`. */
  function FirstName(files: seq<LevelFile>): (r: Option<string>)
    ensures r.None? <==> files == []
    ensures files != [] ==> NamesFile(files, r)
  {
    if files == [] then None else Some(files[0].name)
  }

  /** The tabs shown: the file names in order, then the graph tab while there is graph data. */
  function Tabs(files: seq<LevelFile>, hasGraph: bool): (r: seq<string>)
    ensures |r| == |files| + (if hasGraph then 1 else 0)
    ensures forall i :: 0 <= i < |files| ==> r[i] == files[i].name
    ensures hasGraph ==> r[|files|] == GraphTab
  {
    seq(|files|, i requires 0 <= i < |files| => files[i].name) + (if hasGraph then [GraphTab] else [])
  }

  /**
   * `handleFileContentChange`: `None` when nothing is reported (read-only,
   * or the active tab names no file), else the list with the content of
   * every file named like the active tab replaced.
   */
  function ContentChange(files: seq<LevelFile>, active: Option<string>, readOnly: bool, newContent: string): (r: Option<seq<LevelFile>>)
    ensures r.None? <==> readOnly || !NamesFile(files, active)
    ensures r.Some? ==> |r.value| == |files|
    ensures r.Some? ==> forall i :: 0 <= i < |files| ==>
      && r.value[i].name == files[i].name
      && r.value[i].content == (if files[i].name == active.value then newContent else files[i].content)
  {
    if readOnly || !NamesFile(files, active) then None
    else Some(seq(|files|, i requires 0 <= i < |files| =>
      if files[i].name == active.value then files[i].(content := newContent) else files[i]))
  }

  /** An edit reads back: the active file then shows the new content, and a second identical edit changes nothing. */
  lemma ContentChangeReadsBack(files: seq<LevelFile>, active: Option<string>, newContent: string)
    requires NamesFile(files, active)
    ensures var edited := ContentChange(files, active, false, newContent).value;
      && NamesFile(edited, active)
      && ContentChange(edited, active, false, newContent) == Some(edited)
      && forall i :: 0 <= i < |edited| && edited[i].name == active.value ==> edited[i].content == newContent
  {
    var edited := ContentChange(files, active, false, newContent).value;
    var i :| 0 <= i < |files| && files[i].name == active.value;
    assert edited[i].name == active.value;
    var again := ContentChange(edited, active, false, newContent).value;
    forall k | 0 <= k < |edited| ensures again[k] == edited[k] {
      assert again[k].name == edited[k].name && again[k].content == edited[k].content;
    }
    assert again == edited;
  }

  /** The active tab after the files change, as the first effect settles it. */
  function SettleAfterFiles(files: seq<LevelFile>, active: Option<string>): (r: Option<string>)
    ensures NamesFile(files, active) || active == Some(GraphTab) ==> r == active
    ensures !NamesFile(files, active) && active != Some(GraphTab) ==> r == FirstName(files)
  {
    if !NamesFile(files, active) && active != Some(GraphTab) then FirstName(files) else active
  }

  /**
   * As written, the graph tab stays active when the graph data goes away
   * (a new run or a new level clears it): the tab is then not among the
   * tabs shown.
   */
  lemma StaleGraphTab(files: seq<LevelFile>)
    ensures SettleAfterFiles(files, Some(GraphTab)) == Some(GraphTab)
    ensures (forall i :: 0 <= i < |files| ==> files[i].name != GraphTab) ==> GraphTab !in Tabs(files, false)
  {
    if forall i :: 0 <= i < |files| ==> files[i].name != GraphTab {
      var tabs := Tabs(files, false);
      forall k | 0 <= k < |tabs| ensures tabs[k] != GraphTab {
        assert tabs[k] == files[k].name;
      }
    }
  }

  /** The settling the comments of the effects describe: a graph tab without graph data is invalid too. */
  function SettleShown(files: seq<LevelFile>, active: Option<string>, hasGraph: bool): (r: Option<string>)
  {
    if NamesFile(files, active) || (hasGraph && active == Some(GraphTab)) then active else FirstName(files)
  }

  /** With the correction, the active tab is always one of the tabs shown, unless there is none. */
  lemma SettleShownIsShown(files: seq<LevelFile>, active: Option<string>, hasGraph: bool)
    ensures var r := SettleShown(files, active, hasGraph);
      && (r.None? <==> files == [] && !(hasGraph && active == Some(GraphTab)))
      && (r.Some? ==> r.value in Tabs(files, hasGraph))
  {
    var r := SettleShown(files, active, hasGraph);
    var tabs := Tabs(files, hasGraph);
    if NamesFile(files, active) {
      var i :| 0 <= i < |files| && files[i].name == active.value;
      assert tabs[i] == active.value;
    } else if hasGraph && active == Some(GraphTab) {
      assert tabs[|files|] == GraphTab;
    } else if files != [] {
      assert tabs[0] == files[0].name;
    }
  }

  /** The active-tab state cell. */
  class Editor {
    var activeTab: Option<string>

    /** The tab starts on the first file, if any. */
    constructor(files: seq<LevelFile>)
      ensures activeTab == FirstName(files)
    {
      activeTab := FirstName(files);
    }

    /** The first effect, run when the files or the active tab change. */
    method FilesChanged(files: seq<LevelFile>)
      modifies this
      ensures activeTab == SettleAfterFiles(files, old(activeTab))
      ensures NamesFile(files, activeTab) || activeTab == Some(GraphTab) || (files == [] && activeTab.None?)
    {
      var fileExists := NamesFile(files, activeTab);
      if !fileExists && activeTab != Some(GraphTab) {
        activeTab := FirstName(files);
      }
    }

    /** The second effect: graph data that appears makes the graph tab active. */
    method GraphChanged(hasGraph: bool)
      modifies this
      ensures hasGraph ==> activeTab == Some(GraphTab)
      ensures !hasGraph ==> activeTab == old(activeTab)
    {
      if hasGraph {
        activeTab := Some(GraphTab);
      }
    }

    /** A click on a tab. */
    method Select(tab: string)
      modifies this
      ensures activeTab == Some(tab)
    {
      activeTab := Some(tab);
    }
  }
}
