/**
 * The subtitle under the header (src/components/GlobalSubtitle.tsx): the examination
 * cycle and phase number read from the URL, with defaults.
 */
module GlobalSubtitle {
  import opened Common
  import SummaryBar

  const SubtitlePrefix: string := "END-SEMESTER PRACTICAL EXAMINATIONS - "

  /** `\d` in a JavaScript regular expression: an ASCII digit. */
  predicate IsDigit(c: char)
  {
    '0' <= c <= '9'
  }

  /** Where the first digit is, or the length when there is none. */
  function FirstDigit(s: string): (i: nat)
    ensures i <= |s|
    ensures forall j :: 0 <= j < i ==> !IsDigit(s[j])
    ensures i < |s| ==> IsDigit(s[i])
  {
    if |s| == 0 || IsDigit(s[0]) then 0 else 1 + FirstDigit(s[1..])
  }

  /** The digits at the front of `s`, as many as there are. */
  function DigitRun(s: string): (r: string)
    ensures |r| <= |s| && r == s[..|r|]
    ensures forall j :: 0 <= j < |r| ==> IsDigit(r[j])
    ensures |r| < |s| ==> !IsDigit(s[|r|])
  {
    if |s| == 0 || !IsDigit(s[0]) then "" else [s[0]] + DigitRun(s[1..])
  }

  /** `phaseParam.match(/\d+/)?.[0] ?? "1"`: the first maximal run of digits, or "1". */
  function PhaseNumber(phase: string): (n: string)
    ensures n != ""
    ensures forall j :: 0 <= j < |n| ==> IsDigit(n[j])
    ensures (forall j :: 0 <= j < |phase| ==> !IsDigit(phase[j])) ==> n == "1"
  {
    var i := FirstDigit(phase);
    if i == |phase| then "1" else DigitRun(phase[i..])
  }

  /** The first run of digits is read whole: nothing digit-like precedes or directly follows it. */
  lemma PhaseNumberIsFirstRun(phase: string)
    requires exists j :: 0 <= j < |phase| && IsDigit(phase[j])
    ensures var i := FirstDigit(phase);
      var n := PhaseNumber(phase);
      && i + |n| <= |phase| && phase[i..i + |n|] == n
      && (forall j :: 0 <= j < i ==> !IsDigit(phase[j]))
      && (i + |n| < |phase| ==> !IsDigit(phase[i + |n|]))
  {
    var j :| 0 <= j < |phase| && IsDigit(phase[j]);
    assert FirstDigit(phase) < |phase|;
    PhaseNumberInPlace(phase);
  }

  lemma PhaseNumberInPlace(phase: string)
    requires FirstDigit(phase) < |phase|
    ensures var i := FirstDigit(phase);
      var n := PhaseNumber(phase);
      && i + |n| <= |phase| && phase[i..i + |n|] == n
      && (i + |n| < |phase| ==> !IsDigit(phase[i + |n|]))
  {
    var i := FirstDigit(phase);
    var n := DigitRun(phase[i..]);
    assert PhaseNumber(phase) == n;
    DigitRunAt(phase, i);
  }

  /** The digit run read from position i sits in place and ends before a non-digit. */
  lemma DigitRunAt(s: string, i: nat)
    requires i <= |s|
    ensures var n := DigitRun(s[i..]);
      && i + |n| <= |s| && s[i..i + |n|] == n
      && (i + |n| < |s| ==> !IsDigit(s[i + |n|]))
  {
    var tail := s[i..];
    var n := DigitRun(tail);
    assert tail[..|n|] == s[i..i + |n|];
    if i + |n| < |s| {
      assert tail[|n|] == s[i + |n|];
    }
  }

  /** `(value || fallback)` for a query parameter. */
  function OrDefault(s: Option<string>, fallback: string): string
  {
    if s.Some? && s.value != "" then s.value else fallback
  }

  /** The subtitle text for the `cycle` and `phase` query parameters. */
  function Subtitle(cycle: Option<string>, phase: Option<string>): string
  {
    var cycleText := Upper(OrDefault(cycle, "Nov/Dec"));
    var phaseParam := OrDefault(phase, "phase-1");
    SubtitlePrefix + cycleText + (" (PHASE " + PhaseNumber(phaseParam) + ")")
  }

  /** A digit-free prefix only shifts where the first digit is found. */
  lemma {:induction false} FirstDigitAfter(prefix: string, rest: string)
    requires forall j :: 0 <= j < |prefix| ==> !IsDigit(prefix[j])
    ensures FirstDigit(prefix + rest) == |prefix| + FirstDigit(rest)
    decreases |prefix|
  {
    if |prefix| > 0 {
      FirstDigitAfter(prefix[1..], rest);
      assert (prefix + rest)[1..] == prefix[1..] + rest;
    } else {
      assert prefix + rest == rest;
    }
  }

  /** The phase number of `phase-n` is n. */
  lemma PhaseNumberOfPhase(n: string)
    requires n != "" && forall j :: 0 <= j < |n| ==> IsDigit(n[j])
    ensures PhaseNumber("phase-" + n) == n
  {
    var s := "phase-" + n;
    FirstDigitAfter("phase-", n);
    assert s[6..] == n;
    DigitRunAll(n);
  }

  lemma {:induction false} DigitRunAll(n: string)
    requires forall j :: 0 <= j < |n| ==> IsDigit(n[j])
    ensures DigitRun(n) == n
    decreases |n|
  {
    if |n| > 0 {
      DigitRunAll(n[1..]);
      assert [n[0]] + n[1..] == n;
    }
  }

  /** With no query parameters the subtitle reads NOV/DEC, phase 1. */
  lemma DefaultSubtitle()
    ensures Subtitle(None, None) == SubtitlePrefix + "NOV/DEC" + " (PHASE 1)"
  {
    PhaseNumberOfPhase("1");
    assert "phase-" + "1" == "phase-1";
    DefaultCycleText();
    DefaultPhaseText();
  }

  lemma DefaultCycleText()
    ensures Upper("Nov/Dec") == "NOV/DEC"
  {
    var s := "Nov/Dec";
    assert UpperChar(s[0]) == 'N' && UpperChar(s[1]) == 'O' && UpperChar(s[2]) == 'V' && UpperChar(s[3]) == '/';
    assert UpperChar(s[4]) == 'D' && UpperChar(s[5]) == 'E' && UpperChar(s[6]) == 'C';
    UpperOf(s, "NOV/DEC");
  }

  lemma DefaultPhaseText()
    ensures " (PHASE " + "1" + ")" == " (PHASE 1)"
  {
  }

  /** For the three known phases the subtitle and the summary bar name the same phase number. */
  lemma AgreesWithSummaryBar(cycle: Option<string>, p: string)
    requires p in {"phase-1", "phase-2", "phase-3"}
    ensures |p| == 7
    ensures SummaryBar.Title(cycle, Some(p)).value
            == SummaryBar.TitlePrefix + Upper(OrDefault(cycle, "")) + (" (PHASE " + [p[6]] + ")")
    ensures Subtitle(cycle, Some(p)) == SubtitlePrefix + Upper(OrDefault(cycle, "Nov/Dec")) + (" (PHASE " + [p[6]] + ")")
  {
    SummaryBar.KnownPhaseTitle(cycle, p);
    assert OrDefault(cycle, "") == (if SummaryBar.Given(cycle) then cycle.value else "");
    KnownPhaseNumber(p);
    assert OrDefault(Some(p), "phase-1") == p;
  }

  lemma KnownPhaseNumber(p: string)
    requires p in {"phase-1", "phase-2", "phase-3"}
    ensures |p| == 7 && PhaseNumber(p) == [p[6]]
  {
    assert p == "phase-" + [p[6]];
    PhaseNumberOfPhase([p[6]]);
  }
}
