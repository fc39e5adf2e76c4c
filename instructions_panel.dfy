/**
 * The hint area of the instructions panel (components/InstructionsPanel.tsx):
 * hints are revealed one at a time, in order, and forgotten when the level
 * changes.
 */
module InstructionsPanel {
  import opened Wrappers
  import opened AppTypes

  predicate IsPrefix(shown: seq<string>, hints: seq<string>)
  {
    |shown| <= |hints| && shown == hints[..|shown|]
  }

  /** `handleShowHint`: with hints left to show, the shown hints become the first one more of them. */
  function RevealNext(hints: Option<seq<string>>, shown: seq<string>): (r: seq<string>)
    ensures hints.Some? && |shown| < |hints.value| ==> IsPrefix(r, hints.value) && |r| == |shown| + 1
    ensures hints.None? || |shown| >= |hints.value| ==> r == shown
  {
    if hints.Some? && |shown| < |hints.value| then hints.value[..|shown| + 1] else shown
  }

  /** `allHintsShown`: once it holds, the button is disabled and a further reveal changes nothing. */
  predicate AllHintsShown(hints: Option<seq<string>>, shown: seq<string>)
    ensures AllHintsShown(hints, shown) ==> RevealNext(hints, shown) == shown
  {
    hints.Some? && |shown| == |hints.value|
  }

  /**
   * `hasHelpers`: outside documentation pages, a level with hints or a
   * solution offers help. A level offering help without a solution has a
   * first hint for the reveal button to show.
   */
  function HasHelpers(level: Level, docMode: bool): (r: bool)
    ensures docMode ==> !r
    ensures !docMode && level.solution.Some? ==> r
    ensures !docMode && level.solution.None? ==> (r <==> RevealNext(level.hints, []) != [])
    ensures r && level.solution.None? ==> RevealNext(level.hints, []) == [level.hints.value[0]]
  {
    !docMode && ((level.hints.Some? && |level.hints.value| > 0) || level.solution.Some?)
  }

  /** `n` reveals from the reset state show the first `n` hints, or all of them once `n` reaches their number. */
  function Reveals(hints: Option<seq<string>>, n: nat): seq<string>
  {
    if n == 0 then [] else RevealNext(hints, Reveals(hints, n - 1))
  }

  lemma {:induction false} RevealsPrefix(hints: seq<string>, n: nat)
    ensures Reveals(Some(hints), n) == hints[..if n < |hints| then n else |hints|]
  {
    if n > 0 {
      RevealsPrefix(hints, n - 1);
    }
  }

  /** The panel's state cell. */
  class Panel {
    var shownHints: seq<string>

    constructor()
      ensures shownHints == []
    {
      shownHints := [];
    }

    /** The reset effect run when the level id changes. */
    method LevelChanged()
      modifies this
      ensures shownHints == []
    {
      shownHints := [];
    }

    /** `handleShowHint`. */
    method ShowHint(level: Level)
      modifies this
      ensures shownHints == RevealNext(level.hints, old(shownHints))
      ensures level.hints.Some? && old(IsPrefix(shownHints, level.hints.value)) ==> IsPrefix(shownHints, level.hints.value)
    {
      if level.hints.Some? && |shownHints| < |level.hints.value| {
        shownHints := level.hints.value[..|shownHints| + 1];
      }
    }
  }
}
