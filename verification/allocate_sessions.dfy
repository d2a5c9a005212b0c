/**
 * The single-lab session page (src/pages/AllocateSessions.tsx): the lab's students
 * are cut into sessions of 30, the sessions are laid out day after day over the
 * phase's session timings, and an internal examiner is chosen per session.
 *
 * A session's date is represented by its day offset from the day the sessions are
 * generated; the calendar arithmetic and the ISO rendering of that date are not
 * part of this model.
 */
module AllocateSessions {
  import opened Common

  const StudentsPerSession: int := 30

  datatype Timing = Timing(id: string, timingLabel: string)

  datatype SessionAllocation = SessionAllocation(
    sessionNumber: int,
    dayOffset: int,
    timingId: string,
    studentsCount: int,
    assignedFacultyId: Option<string>)

  // ------------------------------------------------------------- generating sessions

  /** `Math.ceil(totalStudents / 30)`. */
  function SessionCount(totalStudents: int): int
  {
    CeilDiv(totalStudents, StudentsPerSession)
  }

  /** Session i (from 0): day i / spd, timing i mod spd, and 30 students or what is left. */
  function SessionAt(totalStudents: int, timings: seq<Timing>, i: nat): SessionAllocation
    requires |timings| > 0
  {
    SessionAllocation(i + 1, i / |timings|, timings[i % |timings|].id,
                      Min(StudentsPerSession, totalStudents - i * StudentsPerSession), None)
  }

  /** The sessions generateSessions lays out when there is at least one timing. */
  function Sessions(totalStudents: int, timings: seq<Timing>): seq<SessionAllocation>
    requires |timings| > 0
  {
    var n := SessionCount(totalStudents);
    if n <= 0 then [] else seq(n, i requires 0 <= i < n => SessionAt(totalStudents, timings, i))
  }

  /**
   * What generateSessions produces: no session for a non-positive count; with
   * sessions to place but no timing, `i / 0` makes an invalid date whose
   * `toISOString` throws.
   */
  function Generated(totalStudents: int, timings: seq<Timing>): Result<seq<SessionAllocation>>
  {
    if SessionCount(totalStudents) <= 0 then Success([])
    else if |timings| == 0 then Failure("RangeError: Invalid time value")
    else Success(Sessions(totalStudents, timings))
  }

  /** generateSessions: one session pushed per loop round. */
  method GenerateSessions(totalStudents: int, timings: seq<Timing>) returns (r: Result<seq<SessionAllocation>>)
    ensures r == Generated(totalStudents, timings)
  {
    var totalSessions := CeilDiv(totalStudents, StudentsPerSession);
    var sessionsPerDay := |timings|;
    var generated: seq<SessionAllocation> := [];
    var i := 0;
    while i < totalSessions
      invariant 0 <= i && (i == 0 || i <= totalSessions)
      invariant |generated| == i
      invariant i > 0 ==> sessionsPerDay > 0
      invariant forall k :: 0 <= k < i ==> sessionsPerDay > 0 && generated[k] == SessionAt(totalStudents, timings, k)
    {
      if sessionsPerDay == 0 {
        return Failure("RangeError: Invalid time value");
      }
      var dayIndex := i / sessionsPerDay;
      var sessionInDay := i % sessionsPerDay;
      var remainingStudents := totalStudents - i * StudentsPerSession;
      var studentsInThisSession := Min(StudentsPerSession, remainingStudents);
      generated := generated + [SessionAllocation(i + 1, dayIndex, timings[sessionInDay].id, studentsInThisSession, None)];
      i := i + 1;
    }
    if totalSessions > 0 {
      assert generated == Sessions(totalStudents, timings);
    }
    return Success(generated);
  }

  /** ceil(total / 30) sessions: enough seats for everyone, and one fewer would not be. */
  lemma SessionCountBounds(totalStudents: int)
    ensures SessionCount(totalStudents) * StudentsPerSession >= totalStudents
    ensures totalStudents > 0 ==> (SessionCount(totalStudents) - 1) * StudentsPerSession < totalStudents
    ensures totalStudents > 0 <==> SessionCount(totalStudents) > 0
  {
    if totalStudents <= 0 {
      CeilDivLeast(totalStudents, StudentsPerSession, 0);
    }
  }

  /**
   * The sessions are numbered 1..n, each holds between 1 and 30 students, every one
   * but the last holds exactly 30, and none has an examiner yet.
   */
  lemma SessionsShape(totalStudents: int, timings: seq<Timing>)
    requires |timings| > 0
    ensures var s := Sessions(totalStudents, timings);
      && |s| == (if totalStudents > 0 then SessionCount(totalStudents) else 0)
      && (forall i :: 0 <= i < |s| ==> s[i].sessionNumber == i + 1 && s[i].assignedFacultyId == None)
      && (forall i :: 0 <= i < |s| ==> 1 <= s[i].studentsCount <= StudentsPerSession)
      && (forall i :: 0 <= i < |s| - 1 ==> s[i].studentsCount == StudentsPerSession)
  {
    SessionCountBounds(totalStudents);
    var s := Sessions(totalStudents, timings);
    var n := SessionCount(totalStudents);
    forall i | 0 <= i < |s|
      ensures 1 <= s[i].studentsCount <= StudentsPerSession
    {
      assert i * StudentsPerSession <= (n - 1) * StudentsPerSession;
    }
    forall i | 0 <= i < |s| - 1
      ensures s[i].studentsCount == StudentsPerSession
    {
      assert i * StudentsPerSession <= (n - 2) * StudentsPerSession;
    }
  }

  /** Students over a list of sessions. */
  function TotalCount(s: seq<SessionAllocation>): int
  {
    if |s| == 0 then 0 else TotalCount(s[..|s| - 1]) + s[|s| - 1].studentsCount
  }

  lemma {:induction false} PrefixCount(totalStudents: int, timings: seq<Timing>, k: nat)
    requires |timings| > 0 && totalStudents > 0
    requires k <= |Sessions(totalStudents, timings)|
    ensures TotalCount(Sessions(totalStudents, timings)[..k]) == Min(totalStudents, k * StudentsPerSession)
  {
    var s := Sessions(totalStudents, timings);
    SessionCountBounds(totalStudents);
    if k > 0 {
      PrefixCount(totalStudents, timings, k - 1);
      assert s[..k][..k - 1] == s[..k - 1];
      assert (k - 1) * StudentsPerSession <= (SessionCount(totalStudents) - 1) * StudentsPerSession;
    }
  }

  /** Every student gets a seat: the counts add up to the lab's student total. */
  lemma SessionsCoverAll(totalStudents: int, timings: seq<Timing>)
    requires |timings| > 0
    ensures TotalCount(Sessions(totalStudents, timings)) == if totalStudents > 0 then totalStudents else 0
  {
    var s := Sessions(totalStudents, timings);
    SessionCountBounds(totalStudents);
    if totalStudents > 0 {
      PrefixCount(totalStudents, timings, |s|);
      assert s[..|s|] == s;
    }
  }

  /**
   * Sessions fill the days in order: day offsets never decrease, sessions sharing a
   * day are fewer than spd apart and use different timings, and session i uses
   * timing i mod spd.
   */
  lemma SessionsDays(totalStudents: int, timings: seq<Timing>)
    requires |timings| > 0
    ensures var s := Sessions(totalStudents, timings);
      && (forall i :: 0 <= i < |s| ==> s[i].dayOffset == i / |timings| && s[i].timingId == timings[i % |timings|].id)
      && (forall i, j :: 0 <= i < j < |s| ==> s[i].dayOffset <= s[j].dayOffset)
      && (forall i, j :: 0 <= i < j < |s| && s[i].dayOffset == s[j].dayOffset ==> j - i < |timings| && i % |timings| != j % |timings|)
  {
    var s := Sessions(totalStudents, timings);
    var d := |timings|;
    forall i, j | 0 <= i < j < |s|
      ensures s[i].dayOffset <= s[j].dayOffset
    {
      DivMonotone(i, j, d);
    }
    forall i, j | 0 <= i < j < |s| && s[i].dayOffset == s[j].dayOffset
      ensures j - i < d && i % d != j % d
    {
      SameQuotient(i, j, d);
    }
  }

  lemma DivMonotone(i: nat, j: nat, d: int)
    requires d > 0 && i <= j
    ensures i / d <= j / d
  {
    var qi, qj := i / d, j / d;
    assert i == d * qi + i % d && j == d * qj + j % d;
    assert qi * d < (qj + 1) * d;
    CancelFactor(qi, qj + 1, d);
  }

  lemma SameQuotient(i: nat, j: nat, d: int)
    requires d > 0 && i < j && i / d == j / d
    ensures j - i < d && i % d != j % d
  {
    assert i == d * (i / d) + i % d && j == d * (j / d) + j % d;
  }

  // ------------------------------------------------------------- examiners

  /** `Boolean(s.assignedFacultyId)`, and that id. */
  predicate HasExaminer(s: SessionAllocation)
  {
    s.assignedFacultyId.Some? && s.assignedFacultyId.value != ""
  }

  /** Ids of the examiners already placed on a day, in session order. */
  function AssignedOn(sessions: seq<SessionAllocation>, day: int): (ids: seq<string>)
    ensures forall id :: id in ids <==> exists i :: 0 <= i < |sessions| && sessions[i].dayOffset == day
                                                && HasExaminer(sessions[i]) && sessions[i].assignedFacultyId.value == id
  {
    if |sessions| == 0 then []
    else
      var rest := AssignedOn(sessions[1..], day);
      assert forall i :: 0 < i < |sessions| ==> sessions[i] == sessions[1..][i - 1];
      var s := sessions[0];
      (if s.dayOffset == day && HasExaminer(s) then [s.assignedFacultyId.value] else []) + rest
  }

  /** getAvailableFaculty: the roster, in order, without anyone already examining that day. */
  function AvailableFaculty(sessions: seq<SessionAllocation>, roster: seq<Faculty>, day: int): (r: seq<Faculty>)
    ensures |r| <= |roster|
    ensures forall f :: f in r <==> f in roster && f.id !in AssignedOn(sessions, day)
  {
    NotBooked(roster, AssignedOn(sessions, day))
  }

  /** `faculty.filter(f => !assignedOnDate.includes(f.id))`. */
  function NotBooked(roster: seq<Faculty>, booked: seq<string>): (r: seq<Faculty>)
    ensures |r| <= |roster|
    ensures forall f :: f in r <==> f in roster && f.id !in booked
  {
    if |roster| == 0 then []
    else (if roster[0].id in booked then [] else [roster[0]]) + NotBooked(roster[1..], booked)
  }

  /** The filter keeps roster order: it distributes over concatenation of the roster. */
  lemma AvailableAppend(sessions: seq<SessionAllocation>, a: seq<Faculty>, b: seq<Faculty>, day: int)
    ensures AvailableFaculty(sessions, a + b, day) == AvailableFaculty(sessions, a, day) + AvailableFaculty(sessions, b, day)
  {
    NotBookedAppend(a, b, AssignedOn(sessions, day));
  }

  lemma {:induction false} NotBookedAppend(a: seq<Faculty>, b: seq<Faculty>, booked: seq<string>)
    ensures NotBooked(a + b, booked) == NotBooked(a, booked) + NotBooked(b, booked)
  {
    if |a| > 0 {
      var head := if a[0].id in booked then [] else [a[0]];
      assert (a + b)[0] == a[0] && (a + b)[1..] == a[1..] + b;
      NotBookedAppend(a[1..], b, booked);
      assert NotBooked(a + b, booked) == head + NotBooked(a[1..] + b, booked);
    } else {
      assert a + b == b;
    }
  }

  /** With nobody booked, the whole roster is offered. */
  lemma {:induction false} NotBookedNone(roster: seq<Faculty>)
    ensures NotBooked(roster, []) == roster
  {
    if |roster| > 0 {
      NotBookedNone(roster[1..]);
      assert [roster[0]] + roster[1..] == roster;
    }
  }

  /** A schedule with no examiner placed books nobody on any day. */
  lemma {:induction false} AssignedOnNone(sessions: seq<SessionAllocation>, day: int)
    requires forall i :: 0 <= i < |sessions| ==> !HasExaminer(sessions[i])
    ensures AssignedOn(sessions, day) == []
  {
    if |sessions| > 0 {
      AssignedOnNone(sessions[1..], day);
    }
  }

  /** On a freshly generated schedule everyone is available on every day. */
  lemma FreshScheduleAllAvailable(totalStudents: int, timings: seq<Timing>, roster: seq<Faculty>, day: int)
    requires |timings| > 0
    ensures AvailableFaculty(Sessions(totalStudents, timings), roster, day) == roster
  {
    var sessions := Sessions(totalStudents, timings);
    SessionsShape(totalStudents, timings);
    AssignedOnNone(sessions, day);
    NotBookedNone(roster);
  }

  /** assignFaculty as a value: the indexed session gets the examiner; an index out of range throws. */
  function WithExaminer(sessions: seq<SessionAllocation>, index: int, facultyId: string): Result<seq<SessionAllocation>>
  {
    if 0 <= index < |sessions|
    then Success(sessions[index := sessions[index].(assignedFacultyId := Some(facultyId))])
    else Failure("TypeError: Cannot set properties of undefined")
  }

  /**
   * After an examiner is placed on a session, nobody with that id is offered again
   * on that session's day, not even for the same session.
   */
  lemma AssignedNotAvailable(sessions: seq<SessionAllocation>, roster: seq<Faculty>, index: int, facultyId: string)
    requires 0 <= index < |sessions| && facultyId != ""
    ensures var after := WithExaminer(sessions, index, facultyId).value;
      forall f :: f in AvailableFaculty(after, roster, sessions[index].dayOffset) ==> f.id != facultyId
  {
    var after := WithExaminer(sessions, index, facultyId).value;
    assert HasExaminer(after[index]) && after[index].dayOffset == sessions[index].dayOffset;
    assert facultyId in AssignedOn(after, sessions[index].dayOffset);
  }

  datatype WarningDialog = WarningDialog(open: bool, facultyId: string, sessionIndex: int, facultyName: string)

  const ClosedDialog: WarningDialog := WarningDialog(false, "", -1, "")

  /** The page's sessions and its low-experience confirmation dialog. */
  class SessionBoard {
    var sessions: seq<SessionAllocation>
    var dialog: WarningDialog

    constructor (generated: seq<SessionAllocation>)
      ensures sessions == generated && dialog == ClosedDialog
    {
      sessions := generated;
      dialog := ClosedDialog;
    }

    /**
     * assignFaculty: only the indexed session's examiner changes; an index out of
     * range throws before anything is stored.
     */
    method AssignFaculty(index: int, facultyId: string) returns (ok: bool)
      modifies this
      ensures ok <==> 0 <= index < |old(sessions)|
      ensures WithExaminer(old(sessions), index, facultyId).Success? ==> sessions == WithExaminer(old(sessions), index, facultyId).value
      ensures !ok ==> sessions == old(sessions)
      ensures ok ==> |sessions| == |old(sessions)|
                     && sessions[index] == old(sessions)[index].(assignedFacultyId := Some(facultyId))
                     && (forall j :: 0 <= j < |sessions| && j != index ==> sessions[j] == old(sessions)[j])
      ensures dialog == old(dialog)
    {
      if index < 0 || index >= |sessions| {
        return false;
      }
      var updatedSessions := sessions;
      updatedSessions := updatedSessions[index := updatedSessions[index].(assignedFacultyId := Some(facultyId))];
      sessions := updatedSessions;
      return true;
    }

    /**
     * handleFacultyAssignment: a roster member with under two years only opens the
     * confirmation dialog; anyone else is assigned straight away.
     */
    method HandleFacultyAssignment(roster: seq<Faculty>, index: int, facultyId: string) returns (warned: bool)
      modifies this
      ensures var f := FindFaculty(roster, facultyId);
        warned <==> f.Some? && f.value.yearsOfExperience < 2
      ensures warned ==> sessions == old(sessions)
                         && dialog == WarningDialog(true, facultyId, index, FindFaculty(roster, facultyId).value.name)
      ensures !warned ==> dialog == old(dialog)
                          && sessions == (if WithExaminer(old(sessions), index, facultyId).Success?
                                          then WithExaminer(old(sessions), index, facultyId).value else old(sessions))
    {
      var selected := FindFaculty(roster, facultyId);
      if selected.Some? && selected.value.yearsOfExperience < 2 {
        dialog := WarningDialog(true, facultyId, index, selected.value.name);
        return true;
      }
      var _ := AssignFaculty(index, facultyId);
      return false;
    }

    /**
     * confirmLowExperienceAssignment: assigns the pending choice and resets the
     * dialog; when the pending index is out of range the assignment throws and
     * neither happens.
     */
    method ConfirmLowExperience()
      modifies this
      ensures WithExaminer(old(sessions), old(dialog).sessionIndex, old(dialog).facultyId).Success? ==>
        sessions == WithExaminer(old(sessions), old(dialog).sessionIndex, old(dialog).facultyId).value
        && dialog == ClosedDialog
      ensures WithExaminer(old(sessions), old(dialog).sessionIndex, old(dialog).facultyId).Failure? ==>
        sessions == old(sessions) && dialog == old(dialog)
    {
      var ok := AssignFaculty(dialog.sessionIndex, dialog.facultyId);
      if ok {
        dialog := ClosedDialog;
      }
    }

    /** The dialog's Cancel button: closes it and changes no session. */
    method CancelDialog()
      modifies this
      ensures sessions == old(sessions)
      ensures dialog == old(dialog).(open := false)
    {
      dialog := dialog.(open := false);
    }
  }
}
