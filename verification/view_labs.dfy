/**
 * The lab list's estimates (src/pages/ViewLabs.tsx): sessions per day by phase, the
 * number of 30-student sessions a lab needs, and the days those sessions take.
 */
module ViewLabs {
  import opened Common
  import AllocateSessions

  const StudentsPerSession: int := 30

  /** getSessionsPerDay: first-year practicals (phase 3) run three sessions a day, all others two. */
  function SessionsPerDay(phase: Option<string>): (spd: int)
    ensures spd == 2 || spd == 3
    ensures spd == 3 <==> phase == Some("phase-3")
  {
    if phase == Some("phase-3") then 3 else 2
  }

  /** calculateTotalSessions with its default of 30 students per session. */
  function TotalSessions(studentsCount: int): (k: int)
    ensures k * StudentsPerSession >= studentsCount
    ensures (k - 1) * StudentsPerSession < studentsCount
  {
    CeilDiv(studentsCount, StudentsPerSession)
  }

  /** The card's `daysRequired`: `Math.ceil(totalSessions / sessionsPerDay)`. */
  function DaysRequired(studentsCount: int, phase: Option<string>): (d: int)
    ensures d * SessionsPerDay(phase) >= TotalSessions(studentsCount)
    ensures (d - 1) * SessionsPerDay(phase) < TotalSessions(studentsCount)
  {
    CeilDiv(TotalSessions(studentsCount), SessionsPerDay(phase))
  }

  /** The session count is the least k whose k sessions of 30 seat every student. */
  lemma TotalSessionsLeast(studentsCount: int, k: int)
    requires k * StudentsPerSession >= studentsCount
    ensures TotalSessions(studentsCount) <= k
  {
    CeilDivLeast(studentsCount, StudentsPerSession, k);
  }

  /** The lab page estimates exactly the number of sessions the session page generates. */
  lemma TotalSessionsAgree(studentsCount: int)
    ensures TotalSessions(studentsCount) == AllocateSessions.SessionCount(studentsCount)
    ensures studentsCount > 0 <==> TotalSessions(studentsCount) > 0
  {
    AllocateSessions.SessionCountBounds(studentsCount);
  }

  /** No students means no sessions and no days; any students means at least one of each. */
  lemma EmptyLab(studentsCount: int, phase: Option<string>)
    requires 0 <= studentsCount
    ensures studentsCount == 0 <==> TotalSessions(studentsCount) == 0
    ensures studentsCount == 0 <==> DaysRequired(studentsCount, phase) == 0
  {
    TotalSessionsAgree(studentsCount);
    if studentsCount == 0 {
      TotalSessionsLeast(0, 0);
      CeilDivLeast(0, SessionsPerDay(phase), 0);
    }
  }

  /** The days estimate is the least number of days whose sessions of 30 seat every student. */
  lemma DaysSeatEveryone(studentsCount: int, phase: Option<string>, days: int)
    requires studentsCount > 0
    ensures DaysRequired(studentsCount, phase) * SessionsPerDay(phase) * StudentsPerSession >= studentsCount
    ensures days * SessionsPerDay(phase) * StudentsPerSession >= studentsCount ==> DaysRequired(studentsCount, phase) <= days
  {
    var spd := SessionsPerDay(phase);
    var k := TotalSessions(studentsCount);
    var d := DaysRequired(studentsCount, phase);
    assert d * spd * StudentsPerSession >= k * StudentsPerSession;
    if days * spd * StudentsPerSession >= studentsCount {
      TotalSessionsLeast(studentsCount, days * spd);
      CeilDivLeast(k, spd, days);
    }
  }

  /**
   * Laying the lab's sessions out with one timing per session of the day, as the
   * session page does, ends on the last of the estimated days.
   */
  lemma DaysMatchSchedule(studentsCount: int, phase: Option<string>, timings: seq<AllocateSessions.Timing>)
    requires studentsCount > 0 && |timings| == SessionsPerDay(phase)
    ensures var s := AllocateSessions.Sessions(studentsCount, timings);
      |s| > 0 && s[|s| - 1].dayOffset + 1 == DaysRequired(studentsCount, phase)
  {
    var spd := |timings|;
    TotalSessionsAgree(studentsCount);
    AllocateSessions.SessionsShape(studentsCount, timings);
    AllocateSessions.SessionsDays(studentsCount, timings);
    var n := TotalSessions(studentsCount);
    var q := (n - 1) / spd;
    assert n - 1 == spd * q + (n - 1) % spd;
    var d := DaysRequired(studentsCount, phase);
    CeilDivLeast(n, spd, q + 1);
    assert q * spd < d * spd;
    CancelFactor(q, d, spd);
  }
}
