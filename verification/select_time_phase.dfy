/**
 * The period-and-phase form (src/app/select-time-phase/page.tsx): start and end date
 * pickers whose change handlers clamp the chosen dates, and the phase selector.
 *
 * Dates are the pickers' `YYYY-MM-DD` strings, compared the way JavaScript compares
 * strings: lexicographically, character by character. `today` is passed to each edit
 * because the page reads the clock again on every render.
 */
module SelectTimePhase {

  /** JavaScript's `a < b` on strings. */
  predicate LexLess(a: string, b: string)
    decreases |a|
  {
    if |b| == 0 then false
    else if |a| == 0 then true
    else if a[0] != b[0] then a[0] < b[0]
    else LexLess(a[1..], b[1..])
  }

  lemma {:induction false} LexIrreflexive(a: string)
    ensures !LexLess(a, a)
    decreases |a|
  {
    if |a| > 0 {
      LexIrreflexive(a[1..]);
    }
  }

  /** Of two different strings exactly one is the smaller. */
  lemma {:induction false} LexTotal(a: string, b: string)
    ensures a != b ==> LexLess(a, b) || LexLess(b, a)
    ensures !(LexLess(a, b) && LexLess(b, a))
    decreases |a|
  {
    if |a| > 0 && |b| > 0 && a[0] == b[0] {
      LexTotal(a[1..], b[1..]);
      assert a == [a[0]] + a[1..] && b == [b[0]] + b[1..];
    }
  }

  lemma {:induction false} LexTransitive(a: string, b: string, c: string)
    requires LexLess(a, b) && LexLess(b, c)
    ensures LexLess(a, c)
    decreases |a|
  {
    if |a| > 0 && a[0] == b[0] && b[0] == c[0] {
      LexTransitive(a[1..], b[1..], c[1..]);
    }
  }

  datatype TimePhase = TimePhase(startDate: string, endDate: string, phase: string)

  /** Both pickers empty; the phase selector starts on phase 1. */
  const Initial: TimePhase := TimePhase("", "", "phase-1")

  /** When both dates are chosen, the end is not before the start. */
  predicate Consistent(st: TimePhase)
  {
    st.startDate != "" && st.endDate != "" ==> !LexLess(st.endDate, st.startDate)
  }

  /**
   * `v && v < lower ? lower : v`: an empty value stays empty, a value before `lower`
   * becomes `lower`, and any other value is kept.
   */
  function Clamp(v: string, lower: string): (c: string)
    ensures v == "" ==> c == ""
    ensures v != "" ==> c != "" || lower == ""
    ensures c != "" ==> !LexLess(c, lower)
    ensures !LexLess(v, lower) ==> c == v
    ensures c == v || c == lower
  {
    LexIrreflexive(lower);
    if v != "" && LexLess(v, lower) then lower else v
  }

  /**
   * The start picker's change handler: the start is clamped to today, and a chosen
   * end before the new start is raised to it.
   */
  function OnStartChange(st: TimePhase, v: string, today: string): (r: TimePhase)
    ensures r.startDate == Clamp(v, today) && r.phase == st.phase
    ensures Consistent(r)
    ensures r.endDate == st.endDate || r.endDate == r.startDate
    ensures st.endDate == "" || r.startDate == "" || !LexLess(st.endDate, r.startDate) ==> r.endDate == st.endDate
  {
    var clamped := Clamp(v, today);
    LexIrreflexive(clamped);
    var end := if st.endDate != "" && clamped != "" && LexLess(st.endDate, clamped) then clamped else st.endDate;
    TimePhase(clamped, end, st.phase)
  }

  /** `startDate || today`: the earliest end the end picker accepts. */
  function EndLower(st: TimePhase, today: string): string
  {
    if st.startDate != "" then st.startDate else today
  }

  /** The end picker's change handler: the end is clamped to the start, or to today while no start is chosen. */
  function OnEndChange(st: TimePhase, v: string, today: string): (r: TimePhase)
    ensures r.startDate == st.startDate && r.phase == st.phase
    ensures r.endDate == Clamp(v, EndLower(st, today))
    ensures Consistent(r)
  {
    st.(endDate := Clamp(v, EndLower(st, today)))
  }

  /** The Next button: both dates chosen and the end not before the start. */
  predicate NextEnabled(st: TimePhase)
  {
    !(st.startDate == "" || st.endDate == "" || LexLess(st.endDate, st.startDate))
  }

  datatype Edit = StartEdit(value: string, today: string) | EndEdit(value: string, today: string) | PhaseEdit(value: string)

  function Apply(st: TimePhase, e: Edit): TimePhase
  {
    match e
    case StartEdit(v, today) => OnStartChange(st, v, today)
    case EndEdit(v, today) => OnEndChange(st, v, today)
    case PhaseEdit(v) => st.(phase := v)
  }

  function ApplyAll(st: TimePhase, edits: seq<Edit>): TimePhase
    decreases |edits|
  {
    if |edits| == 0 then st else ApplyAll(Apply(st, edits[0]), edits[1..])
  }

  /**
   * Whatever the user does, in any order and on any days, the form never shows an
   * end before its start, and the phase changes only when one is selected.
   */
  lemma {:induction false} EditsKeepConsistent(st: TimePhase, edits: seq<Edit>)
    requires Consistent(st)
    ensures Consistent(ApplyAll(st, edits))
    ensures (forall i :: 0 <= i < |edits| ==> !edits[i].PhaseEdit?) ==> ApplyAll(st, edits).phase == st.phase
    decreases |edits|
  {
    if |edits| > 0 {
      EditsKeepConsistent(Apply(st, edits[0]), edits[1..]);
      if forall i :: 0 <= i < |edits| ==> !edits[i].PhaseEdit? {
        assert forall i :: 0 <= i < |edits| - 1 ==> edits[1..][i] == edits[i + 1];
      }
    }
  }

  /** From the page's first render, Next is enabled exactly when both dates are chosen. */
  lemma NextEnabledAfterEdits(edits: seq<Edit>)
    ensures var st := ApplyAll(Initial, edits);
      NextEnabled(st) <==> st.startDate != "" && st.endDate != ""
  {
    EditsKeepConsistent(Initial, edits);
  }

  /** A consistent form whose start is not in the past has no end in the past either. */
  lemma EndNotInPast(st: TimePhase, today: string)
    requires Consistent(st) && st.startDate != "" && st.endDate != ""
    requires !LexLess(st.startDate, today)
    ensures !LexLess(st.endDate, today)
  {
    LexTotal(st.endDate, st.startDate);
    if st.startDate != st.endDate && LexLess(st.endDate, today) {
      LexTransitive(st.startDate, st.endDate, today);
    }
  }
}
