/**
 * The greedy allocation generator of src/lib/allocation.ts.
 *
 * Each subject is scheduled on its own, always for the full student count: the
 * generator walks the days in order, the sessions 1..sessionsPerDay of each day, and
 * the labs in input order, gives each (day, session, lab) slot min(capacity, remaining)
 * students, and stops the subject (`break outer`) as soon as nothing remains.
 *
 * The specification flattens the three loops into one slot sequence (Slots) and
 * folds the greedy step over it (Run); GenerateAllocations is the loop program
 * proved equal to it, and the lemmas state what the fold guarantees.
 */
module Allocation {
  import opened Common

  datatype Lab = Lab(id: string, name: string, capacity: int)
  datatype Subject = Subject(name: string, code: string)

  datatype AllocationRow = AllocationRow(
    date: string,
    session: int,
    labName: string,
    labId: string,
    subjectCode: string,
    subjectName: string,
    studentsAllocated: int)

  /** One (day, session, lab) cell of the timetable, with the day label and the lab it stands for. */
  datatype Slot = Slot(day: nat, date: string, session: int, labIndex: nat, lab: Lab)

  // ------------------------------------------------------------- the slot order

  /** Labs 0..n-1 of session s of day d. */
  function LabSlots(days: seq<string>, d: nat, s: int, labs: seq<Lab>, n: nat): seq<Slot>
    requires d < |days| && n <= |labs|
  {
    if n == 0 then []
    else LabSlots(days, d, s, labs, n - 1) + [Slot(d, days[d], s, n - 1, labs[n - 1])]
  }

  /** Sessions 1..k of day d, each over all labs. */
  function SessionSlots(days: seq<string>, d: nat, k: nat, labs: seq<Lab>): seq<Slot>
    requires d < |days|
  {
    if k == 0 then []
    else SessionSlots(days, d, k - 1, labs) + LabSlots(days, d, k, labs, |labs|)
  }

  /** Days 0..nd-1, each over sessions 1..spd. */
  function DaySlots(days: seq<string>, nd: nat, spd: nat, labs: seq<Lab>): seq<Slot>
    requires nd <= |days|
  {
    if nd == 0 then []
    else DaySlots(days, nd - 1, spd, labs) + SessionSlots(days, nd - 1, spd, labs)
  }

  /** Every slot of the run, in the order the three nested loops visit them. */
  function Slots(days: seq<string>, spd: nat, labs: seq<Lab>): seq<Slot>
  {
    DaySlots(days, |days|, spd, labs)
  }

  // ------------------------------------------------------------- the greedy fill

  /** The rows emitted so far for one subject and the students still to place. */
  datatype Fill = Fill(rows: seq<AllocationRow>, remaining: int)

  function RowAt(subject: Subject, slot: Slot, amount: int): AllocationRow
  {
    AllocationRow(slot.date, slot.session, slot.lab.name, slot.lab.id, subject.code, subject.name, amount)
  }

  /** One slot: nothing once no student remains, otherwise a row of min(capacity, remaining). */
  function Step(subject: Subject, st: Fill, slot: Slot): Fill
  {
    if st.remaining <= 0 then st
    else
      var assign := Min(slot.lab.capacity, st.remaining);
      Fill(st.rows + [RowAt(subject, slot, assign)], st.remaining - assign)
  }

  /** The greedy step folded over a slot sequence, starting from the full student count. */
  function Run(subject: Subject, total: int, slots: seq<Slot>): Fill
  {
    if |slots| == 0 then Fill([], total)
    else Step(subject, Run(subject, total, slots[..|slots| - 1]), slots[|slots| - 1])
  }

  /** The rows one subject receives. */
  function SubjectRows(days: seq<string>, spd: nat, total: int, labs: seq<Lab>, subject: Subject): seq<AllocationRow>
  {
    Run(subject, total, Slots(days, spd, labs)).rows
  }

  /** The rows of the listed subjects, subject after subject. */
  function PerSubject(days: seq<string>, spd: nat, total: int, labs: seq<Lab>, subjects: seq<Subject>): seq<AllocationRow>
  {
    if |subjects| == 0 then []
    else PerSubject(days, spd, total, labs, subjects[..|subjects| - 1])
         + SubjectRows(days, spd, total, labs, subjects[|subjects| - 1])
  }

  /** What generateAllocations returns, as a function of its (date-expanded) inputs. */
  function Allocations(days: seq<string>, sessionsPerDay: int, totalStudents: int,
                       labs: seq<Lab>, subjects: seq<Subject>): (rows: seq<AllocationRow>)
    ensures |labs| == 0 || |subjects| == 0 || |days| == 0 || sessionsPerDay <= 0 ==> rows == []
  {
    if |labs| == 0 || |subjects| == 0 then []
    else if |days| == 0 || sessionsPerDay <= 0 then []
    else PerSubject(days, sessionsPerDay, totalStudents, labs, subjects)
  }

  // ------------------------------------------------------------- the program

  /**
   * generateAllocations: the degenerate inputs give no rows; otherwise every subject,
   * in order, is filled from the full student count and its rows are appended.
   */
  method GenerateAllocations(days: seq<string>, sessionsPerDay: int, totalStudents: int,
                             labs: seq<Lab>, subjects: seq<Subject>)
    returns (rows: seq<AllocationRow>)
    ensures rows == Allocations(days, sessionsPerDay, totalStudents, labs, subjects)
  {
    if |labs| == 0 || |subjects| == 0 {
      return [];
    }
    if |days| == 0 || sessionsPerDay <= 0 {
      return [];
    }
    rows := [];
    for i := 0 to |subjects|
      invariant rows == PerSubject(days, sessionsPerDay, totalStudents, labs, subjects[..i])
    {
      var subjectRows := AllocateSubject(days, sessionsPerDay, totalStudents, labs, subjects[i]);
      rows := rows + subjectRows;
      assert subjects[..i + 1][..i] == subjects[..i];
    }
    assert subjects[..|subjects|] == subjects;
  }

  /**
   * The body of the subject loop: days, then sessions 1..sessionsPerDay, then labs,
   * each slot taking min(capacity, remaining), and a labelled break out of all three
   * loops once nothing remains.
   */
  method AllocateSubject(days: seq<string>, sessionsPerDay: nat, totalStudents: int,
                         labs: seq<Lab>, subject: Subject)
    returns (subjectRows: seq<AllocationRow>)
    ensures subjectRows == SubjectRows(days, sessionsPerDay, totalStudents, labs, subject)
  {
    subjectRows := [];
    var remainingForSubject := totalStudents;
    label outer:
    for d := 0 to |days|
      invariant Fill(subjectRows, remainingForSubject) == Run(subject, totalStudents, DaySlots(days, d, sessionsPerDay, labs))
    {
      var s := 1;
      VisitedStart(days, sessionsPerDay, labs, d);
      while s <= sessionsPerDay
        invariant 1 <= s <= sessionsPerDay + 1
        invariant Fill(subjectRows, remainingForSubject) == Run(subject, totalStudents, Visited(days, sessionsPerDay, labs, d, s, 0))
      {
        for l := 0 to |labs|
          invariant Fill(subjectRows, remainingForSubject) == Run(subject, totalStudents, Visited(days, sessionsPerDay, labs, d, s, l))
        {
          if remainingForSubject <= 0 {
            PartialRunIsFinal(subject, totalStudents, days, sessionsPerDay, labs, d, s, l);
            break outer;
          }
          var lab := labs[l];
          var assign := Min(lab.capacity, remainingForSubject);
          VisitStep(subject, totalStudents, days, sessionsPerDay, labs, d, s, l);
          subjectRows := subjectRows + [AllocationRow(days[d], s, lab.name, lab.id, subject.code, subject.name, assign)];
          remainingForSubject := remainingForSubject - assign;
        }
        VisitedSessionDone(days, sessionsPerDay, labs, d, s);
        s := s + 1;
      }
      VisitedDayDone(days, sessionsPerDay, labs, d, s);
    }
  }

  // ------------------------------------------------------------- proof helpers

  /** One pass of the lab loop is one greedy step on the next slot. */
  lemma VisitStep(subject: Subject, total: int, days: seq<string>, spd: nat, labs: seq<Lab>, d: nat, s: nat, l: nat)
    requires d < |days| && 1 <= s && l < |labs|
    requires Run(subject, total, Visited(days, spd, labs, d, s, l)).remaining > 0
    ensures var st := Run(subject, total, Visited(days, spd, labs, d, s, l));
      var assign := Min(labs[l].capacity, st.remaining);
      Run(subject, total, Visited(days, spd, labs, d, s, l + 1))
      == Fill(st.rows + [AllocationRow(days[d], s, labs[l].name, labs[l].id, subject.code, subject.name, assign)],
              st.remaining - assign)
  {
    VisitedNext(days, spd, labs, d, s, l);
    RunSnoc(subject, total, Visited(days, spd, labs, d, s, l), Slot(d, days[d], s, l, labs[l]));
  }

  lemma RunSnoc(subject: Subject, total: int, slots: seq<Slot>, slot: Slot)
    ensures Run(subject, total, slots + [slot]) == Step(subject, Run(subject, total, slots), slot)
  {
    assert (slots + [slot])[..|slots|] == slots;
  }

  ghost predicate IsPrefix<T>(p: seq<T>, q: seq<T>)
  {
    |p| <= |q| && q[..|p|] == p
  }

  lemma PrefixTransitive<T>(a: seq<T>, b: seq<T>, c: seq<T>)
    requires IsPrefix(a, b) && IsPrefix(b, c)
    ensures IsPrefix(a, c)
  {
    assert c[..|a|] == c[..|b|][..|a|];
  }

  lemma PrefixExtend<T>(c: seq<T>, a: seq<T>, b: seq<T>)
    requires IsPrefix(a, b)
    ensures IsPrefix(c + a, c + b)
  {
    assert (c + b)[..|c + a|] == c + b[..|a|];
  }

  lemma {:induction false} LabSlotsPrefix(days: seq<string>, d: nat, s: int, labs: seq<Lab>, l: nat, n: nat)
    requires d < |days| && l <= n <= |labs|
    ensures IsPrefix(LabSlots(days, d, s, labs, l), LabSlots(days, d, s, labs, n))
    decreases n
  {
    if l < n {
      LabSlotsPrefix(days, d, s, labs, l, n - 1);
      PrefixTransitive(LabSlots(days, d, s, labs, l), LabSlots(days, d, s, labs, n - 1), LabSlots(days, d, s, labs, n));
    }
  }

  lemma {:induction false} SessionSlotsPrefix(days: seq<string>, d: nat, k: nat, n: nat, labs: seq<Lab>)
    requires d < |days| && k <= n
    ensures IsPrefix(SessionSlots(days, d, k, labs), SessionSlots(days, d, n, labs))
    decreases n
  {
    if k < n {
      SessionSlotsPrefix(days, d, k, n - 1, labs);
      PrefixTransitive(SessionSlots(days, d, k, labs), SessionSlots(days, d, n - 1, labs), SessionSlots(days, d, n, labs));
    }
  }

  lemma {:induction false} DaySlotsPrefix(days: seq<string>, k: nat, n: nat, spd: nat, labs: seq<Lab>)
    requires k <= n <= |days|
    ensures IsPrefix(DaySlots(days, k, spd, labs), DaySlots(days, n, spd, labs))
    decreases n
  {
    if k < n {
      DaySlotsPrefix(days, k, n - 1, spd, labs);
      PrefixTransitive(DaySlots(days, k, spd, labs), DaySlots(days, n - 1, spd, labs), DaySlots(days, n, spd, labs));
    }
  }

  /** The slots visited before (day d, session s, lab l): earlier days, earlier sessions, earlier labs. */
  function Visited(days: seq<string>, spd: nat, labs: seq<Lab>, d: nat, s: nat, l: nat): seq<Slot>
    requires d < |days| && 1 <= s && l <= |labs|
  {
    DaySlots(days, d, spd, labs) + (SessionSlots(days, d, s - 1, labs) + LabSlots(days, d, s, labs, l))
  }

  lemma VisitedStart(days: seq<string>, spd: nat, labs: seq<Lab>, d: nat)
    requires d < |days|
    ensures Visited(days, spd, labs, d, 1, 0) == DaySlots(days, d, spd, labs)
  {
    assert SessionSlots(days, d, 0, labs) + LabSlots(days, d, 1, labs, 0) == [];
  }

  lemma VisitedNext(days: seq<string>, spd: nat, labs: seq<Lab>, d: nat, s: nat, l: nat)
    requires d < |days| && 1 <= s && l < |labs|
    ensures Visited(days, spd, labs, d, s, l + 1) == Visited(days, spd, labs, d, s, l) + [Slot(d, days[d], s, l, labs[l])]
  {
    var D := DaySlots(days, d, spd, labs);
    var S := SessionSlots(days, d, s - 1, labs);
    var L := LabSlots(days, d, s, labs, l);
    var x := Slot(d, days[d], s, l, labs[l]);
    assert LabSlots(days, d, s, labs, l + 1) == L + [x];
    assert D + (S + (L + [x])) == (D + (S + L)) + [x];
  }

  lemma VisitedSessionDone(days: seq<string>, spd: nat, labs: seq<Lab>, d: nat, s: nat)
    requires d < |days| && 1 <= s
    ensures Visited(days, spd, labs, d, s, |labs|) == Visited(days, spd, labs, d, s + 1, 0)
  {
    assert SessionSlots(days, d, s, labs) == SessionSlots(days, d, s - 1, labs) + LabSlots(days, d, s, labs, |labs|);
    assert LabSlots(days, d, s + 1, labs, 0) == [];
    assert SessionSlots(days, d, s, labs) + [] == SessionSlots(days, d, s, labs);
  }

  lemma VisitedDayDone(days: seq<string>, spd: nat, labs: seq<Lab>, d: nat, s: nat)
    requires d < |days| && s == spd + 1
    ensures Visited(days, spd, labs, d, s, 0) == DaySlots(days, d + 1, spd, labs)
  {
    assert LabSlots(days, d, spd + 1, labs, 0) == [];
    assert SessionSlots(days, d, spd, labs) + [] == SessionSlots(days, d, spd, labs);
  }

  /** Within one day, the sessions and labs visited so far are a prefix of the whole day. */
  lemma VisitedInDayIsPrefix(days: seq<string>, spd: nat, labs: seq<Lab>, d: nat, s: nat, l: nat)
    requires d < |days| && 1 <= s <= spd && l <= |labs|
    ensures IsPrefix(SessionSlots(days, d, s - 1, labs) + LabSlots(days, d, s, labs, l), SessionSlots(days, d, spd, labs))
  {
    var S := SessionSlots(days, d, s - 1, labs);
    var part := LabSlots(days, d, s, labs, l);
    var whole := LabSlots(days, d, s, labs, |labs|);
    LabSlotsPrefix(days, d, s, labs, l, |labs|);
    PrefixExtend(S, part, whole);
    assert S + whole == SessionSlots(days, d, s, labs);
    SessionSlotsPrefix(days, d, s, spd, labs);
    PrefixTransitive(S + part, SessionSlots(days, d, s, labs), SessionSlots(days, d, spd, labs));
  }

  /** The slots visited before (day d, session s, lab l) are a prefix of all slots. */
  lemma VisitedIsPrefix(days: seq<string>, spd: nat, labs: seq<Lab>, d: nat, s: nat, l: nat)
    requires d < |days| && 1 <= s <= spd && l <= |labs|
    ensures IsPrefix(Visited(days, spd, labs, d, s, l), Slots(days, spd, labs))
  {
    var D := DaySlots(days, d, spd, labs);
    var inDay := SessionSlots(days, d, s - 1, labs) + LabSlots(days, d, s, labs, l);
    var day := SessionSlots(days, d, spd, labs);
    VisitedInDayIsPrefix(days, spd, labs, d, s, l);
    PrefixExtend(D, inDay, day);
    DaySlotsPrefix(days, d + 1, |days|, spd, labs);
    PrefixTransitive(D + inDay, D + day, Slots(days, spd, labs));
  }

  /** Once nothing remains, the rest of the slots change nothing. */
  lemma {:induction false} RunStalls(subject: Subject, total: int, p: seq<Slot>, q: seq<Slot>)
    requires IsPrefix(p, q) && Run(subject, total, p).remaining <= 0
    ensures Run(subject, total, q) == Run(subject, total, p)
    decreases |q|
  {
    if |q| > |p| {
      var init := q[..|q| - 1];
      assert init[..|p|] == p;
      RunStalls(subject, total, p, init);
    } else {
      assert q == p;
    }
  }

  /** What the labelled break relies on: the state at the break is the final state. */
  lemma PartialRunIsFinal(subject: Subject, total: int, days: seq<string>, spd: nat, labs: seq<Lab>, d: nat, s: nat, l: nat)
    requires d < |days| && 1 <= s <= spd && l <= |labs|
    requires Run(subject, total, Visited(days, spd, labs, d, s, l)).remaining <= 0
    ensures Run(subject, total, Slots(days, spd, labs)) == Run(subject, total, Visited(days, spd, labs, d, s, l))
  {
    VisitedIsPrefix(days, spd, labs, d, s, l);
    RunStalls(subject, total, Visited(days, spd, labs, d, s, l), Slots(days, spd, labs));
  }

  // ------------------------------------------------------------- sums

  /** Total number of students placed by a list of rows. */
  function TotalAllocated(rows: seq<AllocationRow>): int
  {
    if |rows| == 0 then 0 else TotalAllocated(rows[..|rows| - 1]) + rows[|rows| - 1].studentsAllocated
  }

  /** Total seats offered by a list of slots. */
  function Capacity(slots: seq<Slot>): int
  {
    if |slots| == 0 then 0 else Capacity(slots[..|slots| - 1]) + slots[|slots| - 1].lab.capacity
  }

  /** Total seats of one session over all labs. */
  function LabsCapacity(labs: seq<Lab>): int
  {
    if |labs| == 0 then 0 else LabsCapacity(labs[..|labs| - 1]) + labs[|labs| - 1].capacity
  }

  ghost predicate PositiveCapacities(labs: seq<Lab>)
  {
    forall j :: 0 <= j < |labs| ==> labs[j].capacity > 0
  }

  // ------------------------------------------------------------- the fill, over any slot list

  /**
   * The fill emits rows for a prefix of the slots, one per slot in slot order, never
   * loses track of a student, and emits nothing for a non-positive student count.
   */
  lemma RunShape(subject: Subject, total: int, slots: seq<Slot>)
    ensures var r := Run(subject, total, slots);
      && |r.rows| <= |slots|
      && (r.remaining > 0 ==> |r.rows| == |slots|)
      && (forall k :: 0 <= k < |r.rows| ==> r.rows[k] == RowAt(subject, slots[k], r.rows[k].studentsAllocated))
      && r.remaining == total - TotalAllocated(r.rows)
      && (total <= 0 ==> r.rows == [])
  {
    RunRows(subject, total, slots);
    RunAccounts(subject, total, slots);
  }

  lemma {:induction false} RunRows(subject: Subject, total: int, slots: seq<Slot>)
    ensures var r := Run(subject, total, slots);
      && |r.rows| <= |slots|
      && (r.remaining > 0 ==> |r.rows| == |slots|)
      && (forall k :: 0 <= k < |r.rows| ==> r.rows[k] == RowAt(subject, slots[k], r.rows[k].studentsAllocated))
      && (total <= 0 ==> r.rows == [] && r.remaining == total)
    decreases |slots|
  {
    if |slots| > 0 {
      var init := slots[..|slots| - 1];
      var last := slots[|slots| - 1];
      RunRows(subject, total, init);
      var p := Run(subject, total, init);
      var r := Run(subject, total, slots);
      assert r == Step(subject, p, last);
      if p.remaining > 0 {
        var assign := Min(last.lab.capacity, p.remaining);
        assert r.rows == p.rows + [RowAt(subject, last, assign)];
        forall k | 0 <= k < |r.rows|
          ensures r.rows[k] == RowAt(subject, slots[k], r.rows[k].studentsAllocated)
        {
          if k < |p.rows| {
            assert r.rows[k] == p.rows[k] && slots[k] == init[k];
          }
        }
      } else {
        assert r == p;
        forall k | 0 <= k < |r.rows|
          ensures r.rows[k] == RowAt(subject, slots[k], r.rows[k].studentsAllocated)
        {
          assert slots[k] == init[k];
        }
      }
    }
  }

  lemma {:induction false} RunAccounts(subject: Subject, total: int, slots: seq<Slot>)
    ensures var r := Run(subject, total, slots);
      r.remaining == total - TotalAllocated(r.rows)
    decreases |slots|
  {
    if |slots| > 0 {
      var init := slots[..|slots| - 1];
      var last := slots[|slots| - 1];
      RunAccounts(subject, total, init);
      var p := Run(subject, total, init);
      var r := Run(subject, total, slots);
      assert r == Step(subject, p, last);
      if p.remaining > 0 {
        var assign := Min(last.lab.capacity, p.remaining);
        assert r.rows == p.rows + [RowAt(subject, last, assign)];
        assert r.rows[..|r.rows| - 1] == p.rows;
        assert TotalAllocated(r.rows) == TotalAllocated(p.rows) + assign;
      } else {
        assert r == p;
      }
    }
  }

  /**
   * With positive capacities every row holds between 1 and its lab's capacity, every
   * row but the last is full, the remainder never goes negative, and the fill leaves
   * slots unused only when no student remains.
   */
  lemma {:induction false} RunBounds(subject: Subject, total: int, slots: seq<Slot>)
    requires forall k :: 0 <= k < |slots| ==> slots[k].lab.capacity > 0
    ensures var r := Run(subject, total, slots);
      && |r.rows| <= |slots|
      && (forall k :: 0 <= k < |r.rows| ==> 0 < r.rows[k].studentsAllocated <= slots[k].lab.capacity)
      && (forall k :: 0 <= k < |r.rows| - 1 ==> r.rows[k].studentsAllocated == slots[k].lab.capacity)
      && (|r.rows| > 0 && r.remaining > 0 ==> r.rows[|r.rows| - 1].studentsAllocated == slots[|r.rows| - 1].lab.capacity)
      && (total >= 0 ==> r.remaining >= 0)
      && (|r.rows| < |slots| ==> r.remaining <= 0)
    decreases |slots|
  {
    if |slots| > 0 {
      var init := slots[..|slots| - 1];
      var last := slots[|slots| - 1];
      assert forall k :: 0 <= k < |init| ==> slots[k] == init[k];
      RunBounds(subject, total, init);
      var p := Run(subject, total, init);
      var r := Run(subject, total, slots);
      assert r == Step(subject, p, last);
      if p.remaining > 0 {
        var assign := Min(last.lab.capacity, p.remaining);
        assert |p.rows| == |init| by {
          RunShape(subject, total, init);
        }
        assert r.rows == p.rows + [RowAt(subject, last, assign)];
        assert 0 < assign <= last.lab.capacity;
        forall k | 0 <= k < |r.rows|
          ensures 0 < r.rows[k].studentsAllocated <= slots[k].lab.capacity
          ensures k < |r.rows| - 1 ==> r.rows[k].studentsAllocated == slots[k].lab.capacity
        {
          if k < |p.rows| {
            assert r.rows[k] == p.rows[k] && slots[k] == init[k];
          }
        }
        assert r.remaining > 0 ==> assign == last.lab.capacity;
      } else {
        assert r == p;
      }
    }
  }

  lemma {:induction false} CapacitySnoc(slots: seq<Slot>, k: nat)
    requires k < |slots|
    ensures Capacity(slots[..k + 1]) == Capacity(slots[..k]) + slots[k].lab.capacity
  {
    assert slots[..k + 1][..k] == slots[..k];
  }

  /** Conservation: the fill places min(total, seats) students when the count is not negative. */
  lemma {:induction false} RunConservation(subject: Subject, total: int, slots: seq<Slot>)
    requires total >= 0
    requires forall k :: 0 <= k < |slots| ==> slots[k].lab.capacity > 0
    ensures TotalAllocated(Run(subject, total, slots).rows) == Min(total, Capacity(slots))
    decreases |slots|
  {
    if |slots| > 0 {
      var init := slots[..|slots| - 1];
      RunConservation(subject, total, init);
      RunShape(subject, total, init);
      RunBounds(subject, total, init);
      RunShape(subject, total, slots);
      var p := Run(subject, total, init);
      if p.remaining > 0 {
        var r := Run(subject, total, slots);
        assert r.rows[..|r.rows| - 1] == p.rows;
      }
    }
  }

  // ------------------------------------------------------------- the slot list

  /** x is a cell of the timetable: a listed day, a session in 1..spd, a listed lab. */
  ghost predicate SlotOf(days: seq<string>, spd: nat, labs: seq<Lab>, x: Slot)
  {
    && x.day < |days| && x.date == days[x.day]
    && 1 <= x.session <= spd
    && x.labIndex < |labs| && x.lab == labs[x.labIndex]
  }

  /** Strictly earlier in (day, session, lab) order. */
  ghost predicate Before(a: Slot, b: Slot)
  {
    || a.day < b.day
    || (a.day == b.day && a.session < b.session)
    || (a.day == b.day && a.session == b.session && a.labIndex < b.labIndex)
  }

  ghost predicate Ascending(slots: seq<Slot>)
  {
    forall i, j :: 0 <= i < j < |slots| ==> Before(slots[i], slots[j])
  }

  lemma AscendingConcat(a: seq<Slot>, b: seq<Slot>)
    requires Ascending(a) && Ascending(b)
    requires forall i, j :: 0 <= i < |a| && 0 <= j < |b| ==> Before(a[i], b[j])
    ensures Ascending(a + b)
  {
    forall i, j | 0 <= i < j < |a + b|
      ensures Before((a + b)[i], (a + b)[j])
    {
      if j < |a| {
      } else if i >= |a| {
        assert (a + b)[i] == b[i - |a|] && (a + b)[j] == b[j - |a|];
      } else {
        assert (a + b)[j] == b[j - |a|];
      }
    }
  }

  /** A day's slots placed after the slots of earlier days keep the order ascending. */
  lemma AscendingConcatDays(a: seq<Slot>, b: seq<Slot>, d: nat)
    requires Ascending(a) && Ascending(b)
    requires forall x :: x in a ==> x.day < d
    requires forall x :: x in b ==> x.day == d
    ensures Ascending(a + b)
  {
    forall i, j | 0 <= i < |a| && 0 <= j < |b|
      ensures Before(a[i], b[j])
    {
      assert a[i] in a && b[j] in b;
    }
    AscendingConcat(a, b);
  }

  /** A session's slots placed after the earlier sessions of the same day keep the order ascending. */
  lemma AscendingConcatSessions(a: seq<Slot>, b: seq<Slot>, d: nat, k: int)
    requires Ascending(a) && Ascending(b)
    requires forall x :: x in a ==> x.day == d && x.session < k
    requires forall x :: x in b ==> x.day == d && x.session == k
    ensures Ascending(a + b)
  {
    forall i, j | 0 <= i < |a| && 0 <= j < |b|
      ensures Before(a[i], b[j])
    {
      assert a[i] in a && b[j] in b;
    }
    AscendingConcat(a, b);
  }

  lemma {:induction false} LabSlotsShape(days: seq<string>, d: nat, s: nat, labs: seq<Lab>, n: nat)
    requires d < |days| && n <= |labs|
    ensures var xs := LabSlots(days, d, s, labs, n);
      && |xs| == n
      && (forall k :: 0 <= k < |xs| ==> xs[k].day == d && xs[k].date == days[d] && xs[k].session == s
                                        && xs[k].labIndex == k && xs[k].lab == labs[k])
      && Ascending(xs)
    decreases n
  {
    if n > 0 {
      LabSlotsShape(days, d, s, labs, n - 1);
    }
  }

  lemma {:induction false} LabSlotsCells(days: seq<string>, d: nat, s: int, labs: seq<Lab>, n: nat)
    requires d < |days| && n <= |labs|
    ensures forall x :: x in LabSlots(days, d, s, labs, n) ==>
      x.day == d && x.date == days[d] && x.session == s && x.labIndex < n && x.lab == labs[x.labIndex]
    decreases n
  {
    if n > 0 {
      LabSlotsCells(days, d, s, labs, n - 1);
    }
  }

  lemma {:induction false} SessionSlotsCells(days: seq<string>, d: nat, k: nat, spd: nat, labs: seq<Lab>)
    requires d < |days| && k <= spd
    ensures forall x :: x in SessionSlots(days, d, k, labs) ==> SlotOf(days, spd, labs, x) && x.day == d && x.session <= k
    decreases k
  {
    if k > 0 {
      var prev := SessionSlots(days, d, k - 1, labs);
      var last := LabSlots(days, d, k, labs, |labs|);
      SessionSlotsCells(days, d, k - 1, spd, labs);
      LabSlotsCells(days, d, k, labs, |labs|);
      assert SessionSlots(days, d, k, labs) == prev + last;
    }
  }

  lemma {:induction false} SessionSlotsAscending(days: seq<string>, d: nat, k: nat, labs: seq<Lab>)
    requires d < |days|
    ensures Ascending(SessionSlots(days, d, k, labs))
    decreases k
  {
    if k > 0 {
      var prev := SessionSlots(days, d, k - 1, labs);
      var last := LabSlots(days, d, k, labs, |labs|);
      SessionSlotsAscending(days, d, k - 1, labs);
      LabSlotsShape(days, d, k, labs, |labs|);
      SessionSlotsCells(days, d, k - 1, k - 1, labs);
      LabSlotsCells(days, d, k, labs, |labs|);
      AscendingConcatSessions(prev, last, d, k);
    }
  }

  lemma DaySlotsShape(days: seq<string>, nd: nat, spd: nat, labs: seq<Lab>)
    requires nd <= |days|
    ensures var xs := DaySlots(days, nd, spd, labs);
      && |xs| == nd * (spd * |labs|)
      && (forall i :: 0 <= i < |xs| ==> SlotOf(days, spd, labs, xs[i]) && xs[i].day < nd)
      && Ascending(xs)
  {
    var xs := DaySlots(days, nd, spd, labs);
    DaySlotsLength(days, nd, spd, labs);
    TimesIsProduct(nd, spd * |labs|);
    DaySlotsCells(days, nd, spd, labs);
    DaySlotsAscending(days, nd, spd, labs);
    forall i | 0 <= i < |xs|
      ensures SlotOf(days, spd, labs, xs[i]) && xs[i].day < nd
    {
      assert xs[i] in xs;
    }
  }

  lemma {:induction false} SessionSlotsLength(days: seq<string>, d: nat, k: nat, labs: seq<Lab>)
    requires d < |days|
    ensures |SessionSlots(days, d, k, labs)| == k * |labs|
    decreases k
  {
    if k > 0 {
      SessionSlotsLength(days, d, k - 1, labs);
      LabSlotsShape(days, d, k, labs, |labs|);
      MulStep(k, |labs|);
    }
  }

  lemma {:induction false} DaySlotsLength(days: seq<string>, nd: nat, spd: nat, labs: seq<Lab>)
    requires nd <= |days|
    ensures |DaySlots(days, nd, spd, labs)| == Times(nd, spd * |labs|)
    decreases nd
  {
    if nd > 0 {
      var m := spd * |labs|;
      var prev := |DaySlots(days, nd - 1, spd, labs)|;
      var day := |SessionSlots(days, nd - 1, spd, labs)|;
      assert prev == Times(nd - 1, m) by {
        DaySlotsLength(days, nd - 1, spd, labs);
      }
      assert day == m by {
        SessionSlotsLength(days, nd - 1, spd, labs);
      }
      assert |DaySlots(days, nd, spd, labs)| == prev + day;
    }
  }

  /** n copies of m added up, so that counting slots day by day stays linear. */
  function Times(n: nat, m: int): int
  {
    if n == 0 then 0 else Times(n - 1, m) + m
  }

  lemma {:induction false} TimesIsProduct(n: nat, m: int)
    ensures Times(n, m) == n * m
  {
    if n > 0 {
      TimesIsProduct(n - 1, m);
      MulStep(n, m);
    }
  }

  lemma MulStep(n: int, m: int)
    ensures n * m == (n - 1) * m + m
  {
  }

  lemma {:induction false} DaySlotsCells(days: seq<string>, nd: nat, spd: nat, labs: seq<Lab>)
    requires nd <= |days|
    ensures forall x :: x in DaySlots(days, nd, spd, labs) ==> SlotOf(days, spd, labs, x) && x.day < nd
    decreases nd
  {
    if nd > 0 {
      var prev := DaySlots(days, nd - 1, spd, labs);
      var last := SessionSlots(days, nd - 1, spd, labs);
      DaySlotsCells(days, nd - 1, spd, labs);
      SessionSlotsCells(days, nd - 1, spd, spd, labs);
      assert DaySlots(days, nd, spd, labs) == prev + last;
    }
  }

  lemma {:induction false} DaySlotsAscending(days: seq<string>, nd: nat, spd: nat, labs: seq<Lab>)
    requires nd <= |days|
    ensures Ascending(DaySlots(days, nd, spd, labs))
    decreases nd
  {
    if nd > 0 {
      var prev := DaySlots(days, nd - 1, spd, labs);
      var last := SessionSlots(days, nd - 1, spd, labs);
      DaySlotsAscending(days, nd - 1, spd, labs);
      SessionSlotsAscending(days, nd - 1, spd, labs);
      DaySlotsCells(days, nd - 1, spd, labs);
      SessionSlotsCells(days, nd - 1, spd, spd, labs);
      AscendingConcatDays(prev, last, nd - 1);
    }
  }

  /**
   * The visiting order: |days| * spd * |labs| slots, each a real (day, session, lab)
   * cell with the session in 1..spd, in strictly increasing (day, session, lab) order.
   */
  lemma SlotsOrder(days: seq<string>, spd: nat, labs: seq<Lab>)
    ensures var xs := Slots(days, spd, labs);
      && |xs| == |days| * spd * |labs|
      && (forall i :: 0 <= i < |xs| ==> SlotOf(days, spd, labs, xs[i]))
      && (forall i, j :: 0 <= i < j < |xs| ==> Before(xs[i], xs[j]))
  {
    var xs := Slots(days, spd, labs);
    DaySlotsShape(days, |days|, spd, labs);
    assert |xs| == |days| * (spd * |labs|);
    MulAssoc(|days|, spd, |labs|);
    assert Ascending(xs);
  }

  lemma MulAssoc(a: nat, b: nat, c: nat)
    ensures a * (b * c) == a * b * c
  {
  }

  // ------------------------------------------------------------- seats of the timetable

  lemma {:induction false} CapacityAppend(a: seq<Slot>, b: seq<Slot>)
    ensures Capacity(a + b) == Capacity(a) + Capacity(b)
    decreases |b|
  {
    if |b| > 0 {
      var init := b[..|b| - 1];
      CapacityAppend(a, init);
      assert (a + b)[..|a + b| - 1] == a + init;
      assert (a + b)[|a + b| - 1] == b[|b| - 1];
      assert Capacity(a + b) == Capacity(a + init) + b[|b| - 1].lab.capacity;
    } else {
      assert a + b == a;
    }
  }

  lemma {:induction false} LabSlotsCapacity(days: seq<string>, d: nat, s: int, labs: seq<Lab>, n: nat)
    requires d < |days| && n <= |labs|
    ensures Capacity(LabSlots(days, d, s, labs, n)) == LabsCapacity(labs[..n])
    decreases n
  {
    if n > 0 {
      LabSlotsCapacity(days, d, s, labs, n - 1);
      CapacityAppend(LabSlots(days, d, s, labs, n - 1), [Slot(d, days[d], s, n - 1, labs[n - 1])]);
      assert labs[..n][..n - 1] == labs[..n - 1];
    }
  }

  lemma {:induction false} SessionSlotsCapacity(days: seq<string>, d: nat, k: nat, labs: seq<Lab>)
    requires d < |days|
    ensures Capacity(SessionSlots(days, d, k, labs)) == k * LabsCapacity(labs)
    decreases k
  {
    if k > 0 {
      SessionSlotsCapacity(days, d, k - 1, labs);
      LabSlotsCapacity(days, d, k, labs, |labs|);
      CapacityAppend(SessionSlots(days, d, k - 1, labs), LabSlots(days, d, k, labs, |labs|));
      assert labs[..|labs|] == labs;
      var c := LabsCapacity(labs);
      assert k * c == (k - 1) * c + c;
    }
  }

  lemma {:induction false} DaySlotsCapacity(days: seq<string>, nd: nat, spd: nat, labs: seq<Lab>)
    requires nd <= |days|
    ensures Capacity(DaySlots(days, nd, spd, labs)) == nd * (spd * LabsCapacity(labs))
    decreases nd
  {
    if nd > 0 {
      DaySlotsCapacity(days, nd - 1, spd, labs);
      SessionSlotsCapacity(days, nd - 1, spd, labs);
      CapacityAppend(DaySlots(days, nd - 1, spd, labs), SessionSlots(days, nd - 1, spd, labs));
      var m := spd * LabsCapacity(labs);
      assert nd * m == (nd - 1) * m + m;
    }
  }

  /** The timetable offers |days| * sessionsPerDay * (sum of lab capacities) seats per subject. */
  lemma SlotsCapacity(days: seq<string>, spd: nat, labs: seq<Lab>)
    ensures Capacity(Slots(days, spd, labs)) == |days| * (spd * LabsCapacity(labs))
  {
    DaySlotsCapacity(days, |days|, spd, labs);
  }

  // ------------------------------------------------------------- one subject

  lemma SlotCapacitiesPositive(days: seq<string>, spd: nat, labs: seq<Lab>)
    requires PositiveCapacities(labs)
    ensures var xs := Slots(days, spd, labs);
      forall k :: 0 <= k < |xs| ==> xs[k].lab.capacity > 0
  {
    SlotsOrder(days, spd, labs);
  }

  /**
   * Conservation per subject: a subject gets min(totalStudents, seats) students in all,
   * where seats = |days| * sessionsPerDay * (sum of capacities); students beyond the
   * seats are not placed, and a non-positive count places nobody.
   */
  lemma SubjectRowsConservation(days: seq<string>, spd: nat, total: int, labs: seq<Lab>, subject: Subject)
    requires PositiveCapacities(labs)
    ensures TotalAllocated(SubjectRows(days, spd, total, labs, subject))
            == if total <= 0 then 0 else Min(total, |days| * (spd * LabsCapacity(labs)))
  {
    var xs := Slots(days, spd, labs);
    SlotCapacitiesPositive(days, spd, labs);
    SlotsCapacity(days, spd, labs);
    RunShape(subject, total, xs);
    if total > 0 {
      RunConservation(subject, total, xs);
    }
  }

  /**
   * Each row of a subject is the k-th slot of the visiting order filled with between 1
   * and its lab's capacity students; every row but the last fills its lab, and slots
   * are left unused only when the whole count has been placed.
   */
  lemma SubjectRowsFollowSlots(days: seq<string>, spd: nat, total: int, labs: seq<Lab>, subject: Subject)
    requires PositiveCapacities(labs)
    ensures var xs := Slots(days, spd, labs);
      var rows := SubjectRows(days, spd, total, labs, subject);
      && |rows| <= |xs|
      && (forall k :: 0 <= k < |rows| ==>
            && rows[k] == RowAt(subject, xs[k], rows[k].studentsAllocated)
            && 0 < rows[k].studentsAllocated <= xs[k].lab.capacity)
      && (forall k :: 0 <= k < |rows| - 1 ==> rows[k].studentsAllocated == xs[k].lab.capacity)
      && (|rows| < |xs| ==> total <= TotalAllocated(rows))
  {
    var xs := Slots(days, spd, labs);
    SlotCapacitiesPositive(days, spd, labs);
    RunShape(subject, total, xs);
    RunBounds(subject, total, xs);
  }

  /**
   * What a row says, in the input's own terms: the subject's code and name, a listed
   * day, a session number in 1..sessionsPerDay, and a listed lab whose capacity the
   * row respects; consecutive rows of a subject move strictly forward through
   * (day, session, lab).
   */
  lemma SubjectRowsWithinTimetable(days: seq<string>, spd: nat, total: int, labs: seq<Lab>, subject: Subject)
    requires PositiveCapacities(labs)
    ensures var rows := SubjectRows(days, spd, total, labs, subject);
      forall k :: 0 <= k < |rows| ==>
        && rows[k].subjectCode == subject.code && rows[k].subjectName == subject.name
        && rows[k].date in days
        && 1 <= rows[k].session <= spd
        && (exists j :: 0 <= j < |labs| && labs[j].id == rows[k].labId && labs[j].name == rows[k].labName
                        && 0 < rows[k].studentsAllocated <= labs[j].capacity)
  {
    var xs := Slots(days, spd, labs);
    var rows := SubjectRows(days, spd, total, labs, subject);
    SlotsOrder(days, spd, labs);
    SubjectRowsFollowSlots(days, spd, total, labs, subject);
    forall k | 0 <= k < |rows|
      ensures && rows[k].subjectCode == subject.code && rows[k].subjectName == subject.name
              && rows[k].date in days
              && 1 <= rows[k].session <= spd
              && exists j :: 0 <= j < |labs| && labs[j].id == rows[k].labId && labs[j].name == rows[k].labName
                             && 0 < rows[k].studentsAllocated <= labs[j].capacity
    {
      var j := xs[k].labIndex;
      assert SlotOf(days, spd, labs, xs[k]);
      assert rows[k].date == days[xs[k].day];
      assert labs[j] == xs[k].lab;
    }
  }

  // ------------------------------------------------------------- all subjects

  lemma {:induction false} PerSubjectAppend(days: seq<string>, spd: nat, total: int, labs: seq<Lab>,
                                            a: seq<Subject>, b: seq<Subject>)
    ensures PerSubject(days, spd, total, labs, a + b)
            == PerSubject(days, spd, total, labs, a) + PerSubject(days, spd, total, labs, b)
    decreases |b|
  {
    if |b| > 0 {
      var init := b[..|b| - 1];
      PerSubjectAppend(days, spd, total, labs, a, init);
      assert (a + b)[..|a + b| - 1] == a + init;
    } else {
      assert a + b == a;
    }
  }

  /**
   * Subjects do not share students: the rows for a list of subjects are the rows for
   * its first part followed by those for the rest, so every subject restarts from the
   * full student count.
   */
  lemma AllocationsAppend(days: seq<string>, spd: int, total: int, labs: seq<Lab>, a: seq<Subject>, b: seq<Subject>)
    ensures Allocations(days, spd, total, labs, a + b)
            == Allocations(days, spd, total, labs, a) + Allocations(days, spd, total, labs, b)
  {
    if |a| == 0 {
      assert a + b == b;
    } else if |b| == 0 {
      assert a + b == a;
    } else if |labs| > 0 && |days| > 0 && spd > 0 {
      PerSubjectAppend(days, spd, total, labs, a, b);
    }
  }

  /** With a real timetable, one subject's rows are exactly its own greedy fill. */
  lemma AllocationsOneSubject(days: seq<string>, spd: int, total: int, labs: seq<Lab>, subject: Subject)
    requires |labs| > 0 && |days| > 0 && spd > 0
    ensures Allocations(days, spd, total, labs, [subject]) == SubjectRows(days, spd, total, labs, subject)
  {
    assert [subject][..0] == [];
    assert PerSubject(days, spd, total, labs, [subject])
           == PerSubject(days, spd, total, labs, []) + SubjectRows(days, spd, total, labs, subject);
  }

  /** Every subject in the list receives the same total, min(totalStudents, seats). */
  lemma {:induction false} AllocationsTotal(days: seq<string>, spd: nat, total: int, labs: seq<Lab>, subjects: seq<Subject>)
    requires PositiveCapacities(labs) && |days| > 0 && spd > 0
    ensures TotalAllocated(Allocations(days, spd, total, labs, subjects))
            == |subjects| * (if total <= 0 then 0 else Min(total, |days| * (spd * LabsCapacity(labs))))
    decreases |subjects|
  {
    if |subjects| > 0 {
      var init := subjects[..|subjects| - 1];
      var last := subjects[|subjects| - 1];
      AllocationsTotal(days, spd, total, labs, init);
      SubjectRowsConservation(days, spd, total, labs, last);
      TotalAllocatedAppend(PerSubject(days, spd, total, labs, init), SubjectRows(days, spd, total, labs, last));
      var m := if total <= 0 then 0 else Min(total, |days| * (spd * LabsCapacity(labs)));
      assert |subjects| * m == (|subjects| - 1) * m + m;
    }
  }

  lemma {:induction false} TotalAllocatedAppend(a: seq<AllocationRow>, b: seq<AllocationRow>)
    ensures TotalAllocated(a + b) == TotalAllocated(a) + TotalAllocated(b)
    decreases |b|
  {
    if |b| > 0 {
      var init := b[..|b| - 1];
      TotalAllocatedAppend(a, init);
      assert (a + b)[..|a + b| - 1] == a + init;
      assert (a + b)[|a + b| - 1] == b[|b| - 1];
      assert TotalAllocated(a + b) == TotalAllocated(a + init) + b[|b| - 1].studentsAllocated;
    } else {
      assert a + b == a;
    }
  }

  // ------------------------------------------------------------- worked scenarios

  /** Two labs of 20 and 15 seats, one day, one session, 35 students: rows of 20 then 15. */
  lemma ExampleTwoLabs()
    ensures var labs := [Lab("L1", "Lab 1", 20), Lab("L2", "Lab 2", 15)];
      var subject := Subject("Maths", "MA101");
      Allocations(["2024-01-01"], 1, 35, labs, [subject])
      == [AllocationRow("2024-01-01", 1, "Lab 1", "L1", "MA101", "Maths", 20),
          AllocationRow("2024-01-01", 1, "Lab 2", "L2", "MA101", "Maths", 15)]
  {
    var labs := [Lab("L1", "Lab 1", 20), Lab("L2", "Lab 2", 15)];
    var days := ["2024-01-01"];
    var x0, x1 := Slot(0, days[0], 1, 0, labs[0]), Slot(0, days[0], 1, 1, labs[1]);
    TwoLabSlots(days, labs);
    var subject := Subject("Maths", "MA101");
    var r0 := Run(subject, 35, [x0]);
    RunSnoc(subject, 35, [], x0);
    assert [] + [x0] == [x0];
    assert r0 == Fill([RowAt(subject, x0, 20)], 15);
    RunSnoc(subject, 35, [x0], x1);
    assert Run(subject, 35, [x0, x1]) == Step(subject, r0, x1);
    assert Run(subject, 35, [x0, x1]) == Fill([RowAt(subject, x0, 20), RowAt(subject, x1, 15)], 0);
    AllocationsOneSubject(days, 1, 35, labs, subject);
  }

  /** A one-day, one-session timetable over two labs visits the two labs in order. */
  lemma TwoLabSlots(days: seq<string>, labs: seq<Lab>)
    requires |days| == 1 && |labs| == 2
    ensures Slots(days, 1, labs) == [Slot(0, days[0], 1, 0, labs[0]), Slot(0, days[0], 1, 1, labs[1])]
  {
    var x0, x1 := Slot(0, days[0], 1, 0, labs[0]), Slot(0, days[0], 1, 1, labs[1]);
    assert LabSlots(days, 0, 1, labs, 0) == [];
    assert LabSlots(days, 0, 1, labs, 1) == [x0];
    assert LabSlots(days, 0, 1, labs, 2) == [x0, x1];
    assert SessionSlots(days, 0, 0, labs) == [];
    assert SessionSlots(days, 0, 1, labs) == [x0, x1];
    assert DaySlots(days, 0, 1, labs) == [];
    assert DaySlots(days, 1, 1, labs) == [x0, x1];
  }

  /** One lab of 30 seats and a one-session timetable: 45 students leave 15 unplaced. */
  lemma ExampleOverflow()
    ensures var labs := [Lab("L1", "Lab 1", 30)];
      var subject := Subject("Physics", "PH101");
      Allocations(["2024-01-01"], 1, 45, labs, [subject])
      == [AllocationRow("2024-01-01", 1, "Lab 1", "L1", "PH101", "Physics", 30)]
  {
    var labs := [Lab("L1", "Lab 1", 30)];
    var days := ["2024-01-01"];
    var x0 := Slot(0, days[0], 1, 0, labs[0]);
    assert LabSlots(days, 0, 1, labs, 1) == [x0];
    assert SessionSlots(days, 0, 1, labs) == [x0];
    assert Slots(days, 1, labs) == [x0];
    var subject := Subject("Physics", "PH101");
    assert [x0][..0] == [];
    assert Run(subject, 45, [x0]) == Fill([RowAt(subject, x0, 30)], 15);
    AllocationsOneSubject(days, 1, 45, labs, subject);
  }
}
