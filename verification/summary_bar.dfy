/**
 * The summary bar (src/components/SummaryBar.tsx): the examination title built from
 * the optional cycle and phase.
 */
module SummaryBar {
  import opened Common

  const TitlePrefix: string := "END-SEMESTER PRACTICAL EXAMINATION - "

  /** A missing or empty prop is falsy. */
  predicate Given(s: Option<string>)
  {
    s.Some? && s.value != ""
  }

  /** renderPhaseLabel: the three known phases get their display names, other text passes through. */
  function PhaseLabel(p: Option<string>): (r: Option<string>)
    ensures r.Some? <==> Given(p)
    ensures r.Some? ==> r.value != ""
    ensures Given(p) && p.value !in {"phase-1", "phase-2", "phase-3"} ==> r == p
  {
    if !Given(p) then None
    else if p.value == "phase-1" then Some("Phase 1")
    else if p.value == "phase-2" then Some("Phase 2")
    else if p.value == "phase-3" then Some("Phase 3")
    else p
  }

  /** The bar's title, or None when the bar renders nothing. */
  function Title(cycle: Option<string>, phase: Option<string>): (r: Option<string>)
    ensures r.None? <==> !Given(cycle) && !Given(phase)
  {
    if !Given(cycle) && !Given(phase) then None
    else
      var cycleText := Upper(if Given(cycle) then cycle.value else "");
      var shown := PhaseLabel(phase);
      var suffix := if shown.Some? then " (" + Upper(shown.value) + ")" else "";
      Some(TitlePrefix + cycleText + suffix)
  }

  /**
   * The title is the prefix, the upper-cased cycle, and a ` (LABEL)` suffix exactly
   * when a phase is given.
   */
  lemma TitleShape(cycle: Option<string>, phase: Option<string>)
    requires Given(cycle) || Given(phase)
    ensures var t := Title(cycle, phase).value;
      var head := TitlePrefix + Upper(if Given(cycle) then cycle.value else "");
      && t[..|head|] == head
      && (Given(phase) ==> t == head + " (" + Upper(PhaseLabel(phase).value) + ")" && t[|t| - 1] == ')')
      && (!Given(phase) ==> t == head)
  {
  }

  /** The known phases are displayed, upper-cased, as `PHASE n`. */
  lemma KnownPhaseLabel(p: string)
    requires p in {"phase-1", "phase-2", "phase-3"}
    ensures |p| == 7 && PhaseLabel(Some(p)).Some?
    ensures Upper(PhaseLabel(Some(p)).value) == "PHASE " + [p[6]]
  {
    if p == "phase-1" {
      assert PhaseLabel(Some(p)) == Some("Phase 1");
      UpperOf("Phase 1", "PHASE 1");
      assert "PHASE " + [p[6]] == "PHASE 1";
    } else if p == "phase-2" {
      assert PhaseLabel(Some(p)) == Some("Phase 2");
      UpperOf("Phase 2", "PHASE 2");
      assert "PHASE " + [p[6]] == "PHASE 2";
    } else {
      assert PhaseLabel(Some(p)) == Some("Phase 3");
      UpperOf("Phase 3", "PHASE 3");
      assert "PHASE " + [p[6]] == "PHASE 3";
    }
  }

  /** A title for a known phase ends in `(PHASE n)`. */
  lemma KnownPhaseTitle(cycle: Option<string>, p: string)
    requires p in {"phase-1", "phase-2", "phase-3"}
    ensures |p| == 7
    ensures Title(cycle, Some(p)).value == TitlePrefix + Upper(if Given(cycle) then cycle.value else "") + (" (PHASE " + [p[6]] + ")")
  {
    KnownPhaseLabel(p);
    var shown := Upper(PhaseLabel(Some(p)).value);
    assert shown == "PHASE " + [p[6]];
    assert " (" + shown + ")" == " (PHASE " + [p[6]] + ")";
  }
}
