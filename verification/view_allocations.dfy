/**
 * The faculty-assignment half of the allocation review page
 * (src/app/view-allocations/page.tsx).
 *
 * Faculty are assigned per (subject code, date, lab) under the string key
 * `code|date|lab`. A selection is ignored when empty, refused for a roster member
 * with under two years of experience, and refused when the same faculty id already
 * sits under another key whose date field (the second `|`-separated piece) is the
 * same date. The page reads that date field back with `split('|')[1]`, so all
 * statements about dates assume subject codes and dates free of `|`.
 */
module ViewAllocations {
  import opened Common
  import opened Allocation

  /** The built-in roster used while the department has no faculty of its own. */
  const SampleFaculty: seq<Faculty> := [
    Faculty("sample-1", "Dr. Anitha R", 8),
    Faculty("sample-2", "Prof. Balaji S", 1),
    Faculty("sample-3", "Dr. Chitra K", 5),
    Faculty("sample-4", "Prof. Dinesh M", 3),
    Faculty("sample-5", "Dr. Elango V", 12),
    Faculty("sample-6", "Prof. Farhana T", 2),
    Faculty("sample-7", "Dr. Gopal R", 9),
    Faculty("sample-8", "Prof. Harini P", 4),
    Faculty("sample-9", "Dr. Ismail A", 7),
    Faculty("sample-10", "Prof. Jayanth K", 6)
  ]

  /** The department's faculty, or the sample roster when none were loaded. */
  function AvailableFaculty(loaded: seq<Faculty>): seq<Faculty>
  {
    if |loaded| > 0 then loaded else SampleFaculty
  }

  // ------------------------------------------------------------- keys

  /** The assignment key `code|date|lab`. */
  function AssignmentKey(code: string, date: string, lab: string): string
  {
    Join([code, date, lab], "|")
  }

  /** `key.split('|')[1]`, which is undefined for a key without a `|`. */
  function DateField(key: string): Option<string>
  {
    var parts := Split(key, '|');
    if |parts| >= 2 then Some(parts[1]) else None
  }

  ghost predicate PipeFree(s: string)
  {
    '|' !in s
  }

  /** With a `|`-free code and date, the date read back from a key is the date it was built from. */
  lemma KeyDateField(code: string, date: string, lab: string)
    requires PipeFree(code) && PipeFree(date)
    ensures DateField(AssignmentKey(code, date, lab)) == Some(date)
  {
    assert Join([date, lab], "|") == date + "|" + lab;
    assert Join([code, date, lab], "|") == code + "|" + (date + "|" + lab);
    SplitAfterPiece(code, '|', date + "|" + lab);
    SplitAfterPiece(date, '|', lab);
  }

  // ------------------------------------------------------------- selecting a faculty member

  /** Faculty ids already held on `date` under some key other than `key`. */
  function TakenForDay(held: map<string, string>, date: string, key: string): (r: set<string>)
    ensures forall f :: f in r <==> exists k :: k in held && k != key && DateField(k) == Some(date) && held[k] == f
  {
    set k | k in held && k != key && DateField(k) == Some(date) :: held[k]
  }

  datatype SelectOutcome = Ignored | LowExperience | AlreadyTaken | Assigned

  /** The branch onSelectFacultyForSubjectDayLab takes. */
  function SelectOutcomeOf(roster: seq<Faculty>, held: map<string, string>,
                           code: string, date: string, lab: string, facultyId: string): (r: SelectOutcome)
    ensures r == Ignored <==> facultyId == ""
    ensures r == LowExperience <==>
      facultyId != "" && exists f :: f in roster && f.id == facultyId && f == FindFaculty(roster, facultyId).value && f.yearsOfExperience < 2
    ensures r == Assigned ==>
      forall k :: k in held && k != AssignmentKey(code, date, lab) && DateField(k) == Some(date) ==> held[k] != facultyId
    ensures r == AlreadyTaken ==>
      exists k :: k in held && k != AssignmentKey(code, date, lab) && DateField(k) == Some(date) && held[k] == facultyId
  {
    if facultyId == "" then Ignored
    else
      var found := FindFaculty(roster, facultyId);
      if found.Some? && found.value.yearsOfExperience < 2 then LowExperience
      else if facultyId in TakenForDay(held, date, AssignmentKey(code, date, lab)) then AlreadyTaken
      else Assigned
  }

  /** The assignment map after a selection. */
  function AfterSelect(roster: seq<Faculty>, held: map<string, string>,
                       code: string, date: string, lab: string, facultyId: string): map<string, string>
  {
    if SelectOutcomeOf(roster, held, code, date, lab, facultyId) == Assigned
    then held[AssignmentKey(code, date, lab) := facultyId]
    else held
  }

  /** No faculty id is held under two keys with the same date field. */
  ghost predicate NoDoubleBooking(held: map<string, string>)
  {
    forall k1, k2 :: k1 in held && k2 in held && k1 != k2 && DateField(k1).Some? && DateField(k1) == DateField(k2)
      ==> held[k1] != held[k2]
  }

  /** Every selection keeps the map free of same-day double bookings. */
  lemma SelectPreservesNoDoubleBooking(roster: seq<Faculty>, held: map<string, string>,
                                       code: string, date: string, lab: string, facultyId: string)
    requires NoDoubleBooking(held)
    requires PipeFree(code) && PipeFree(date)
    ensures NoDoubleBooking(AfterSelect(roster, held, code, date, lab, facultyId))
  {
    var key := AssignmentKey(code, date, lab);
    KeyDateField(code, date, lab);
    var m := AfterSelect(roster, held, code, date, lab, facultyId);
    forall k1, k2 | k1 in m && k2 in m && k1 != k2 && DateField(k1).Some? && DateField(k1) == DateField(k2)
      ensures m[k1] != m[k2]
    {
      if m != held {
        if k1 == key {
          assert m[k2] == held[k2];
        } else if k2 == key {
          assert m[k1] == held[k1];
        }
      }
    }
  }

  /**
   * The selection the page refuses on account of another key is exactly one that
   * would create a double booking: assigning anyway would break the invariant.
   */
  lemma AlreadyTakenWouldDoubleBook(roster: seq<Faculty>, held: map<string, string>,
                                    code: string, date: string, lab: string, facultyId: string)
    requires PipeFree(code) && PipeFree(date)
    requires SelectOutcomeOf(roster, held, code, date, lab, facultyId) == AlreadyTaken
    ensures !NoDoubleBooking(held[AssignmentKey(code, date, lab) := facultyId])
  {
    var key := AssignmentKey(code, date, lab);
    KeyDateField(code, date, lab);
    var k :| k in held && k != key && DateField(k) == Some(date) && held[k] == facultyId;
    var m := held[key := facultyId];
    assert m[k] == m[key];
  }

  /** Re-selecting the faculty a key already holds is accepted, unless the roster warns about them. */
  lemma ReselectSameKeyAccepted(roster: seq<Faculty>, held: map<string, string>,
                                code: string, date: string, lab: string)
    requires NoDoubleBooking(held)
    requires PipeFree(code) && PipeFree(date)
    requires AssignmentKey(code, date, lab) in held
    requires var f := held[AssignmentKey(code, date, lab)];
      f != "" && (FindFaculty(roster, f).None? || FindFaculty(roster, f).value.yearsOfExperience >= 2)
    ensures SelectOutcomeOf(roster, held, code, date, lab, held[AssignmentKey(code, date, lab)]) == Assigned
    ensures AfterSelect(roster, held, code, date, lab, held[AssignmentKey(code, date, lab)]) == held
  {
    var key := AssignmentKey(code, date, lab);
    KeyDateField(code, date, lab);
    var f := held[key];
    forall k | k in held && k != key && DateField(k) == Some(date)
      ensures held[k] != f
    {
      assert DateField(key) == DateField(k);
    }
  }

  /** With no department faculty loaded, the sample member with one year is warned about, never assigned. */
  lemma SampleLowExperienceRefused(held: map<string, string>, code: string, date: string, lab: string)
    ensures SelectOutcomeOf(AvailableFaculty([]), held, code, date, lab, "sample-2") == LowExperience
    ensures AfterSelect(AvailableFaculty([]), held, code, date, lab, "sample-2") == held
  {
    assert AvailableFaculty([]) == SampleFaculty;
    var rest := SampleFaculty[1..];
    assert SampleFaculty[0].id[7] != "sample-2"[7];
    assert FindFaculty(SampleFaculty, "sample-2") == FindFaculty(rest, "sample-2");
    assert rest[0] == Faculty("sample-2", "Prof. Balaji S", 1);
    assert FindFaculty(rest, "sample-2") == Some(rest[0]);
  }

  /**
   * The page's selection handler over the map it owns: the map changes only on
   * acceptance, and then only at the selection's own key.
   */
  class AssignmentBoard {
    var held: map<string, string>

    ghost predicate Valid()
      reads this
    {
      NoDoubleBooking(held)
    }

    constructor ()
      ensures held == map[]
      ensures Valid()
    {
      held := map[];
    }

    method Select(roster: seq<Faculty>, code: string, date: string, lab: string, facultyId: string)
      returns (outcome: SelectOutcome)
      requires Valid()
      requires PipeFree(code) && PipeFree(date)
      modifies this
      ensures Valid()
      ensures outcome == SelectOutcomeOf(roster, old(held), code, date, lab, facultyId)
      ensures held == AfterSelect(roster, old(held), code, date, lab, facultyId)
      ensures outcome != Assigned ==> held == old(held)
      ensures outcome == Assigned ==> held == old(held)[AssignmentKey(code, date, lab) := facultyId]
    {
      outcome := SelectOutcomeOf(roster, held, code, date, lab, facultyId);
      SelectPreservesNoDoubleBooking(roster, held, code, date, lab, facultyId);
      if outcome == Assigned {
        held := held[AssignmentKey(code, date, lab) := facultyId];
      }
    }
  }

  // ------------------------------------------------------------- rows and keys

  /** `r.labId || r.labName`: an absent lab id is modelled as the empty string. */
  function LabKey(r: AllocationRow): string
  {
    if r.labId != "" then r.labId else r.labName
  }

  /** The key a generated row is looked up under. */
  function RowKey(r: AllocationRow): string
  {
    AssignmentKey(r.subjectCode, r.date, LabKey(r))
  }

  /** `Boolean(held[key])`: present and not the empty string. */
  predicate IsAssigned(held: map<string, string>, key: string)
  {
    key in held && held[key] != ""
  }

  /** hasAssigned: some row has a faculty member assigned. */
  function HasAssigned(rows: seq<AllocationRow>, held: map<string, string>): (b: bool)
    ensures b <==> exists i :: 0 <= i < |rows| && IsAssigned(held, RowKey(rows[i]))
  {
    if |rows| == 0 then false
    else IsAssigned(held, RowKey(rows[0])) || HasAssigned(rows[1..], held)
  }

  /** The rows goExport hands on: those with an assigned faculty member, in order. */
  function ExportRows(rows: seq<AllocationRow>, held: map<string, string>): (r: seq<AllocationRow>)
    ensures |r| <= |rows|
    ensures forall x :: x in r <==> x in rows && IsAssigned(held, RowKey(x))
  {
    if |rows| == 0 then []
    else (if IsAssigned(held, RowKey(rows[0])) then [rows[0]] else []) + ExportRows(rows[1..], held)
  }

  /** The export button's enabling test and goExport's own refusal agree. */
  lemma {:induction false} HasAssignedIffExportRows(rows: seq<AllocationRow>, held: map<string, string>)
    ensures HasAssigned(rows, held) <==> |ExportRows(rows, held)| > 0
  {
    if |rows| > 0 {
      HasAssignedIffExportRows(rows[1..], held);
    }
  }

  /** Export keeps the rows in the order they were generated: the result is a subsequence. */
  lemma {:induction false} ExportRowsAppend(a: seq<AllocationRow>, b: seq<AllocationRow>, held: map<string, string>)
    ensures ExportRows(a + b, held) == ExportRows(a, held) + ExportRows(b, held)
  {
    if |a| > 0 {
      assert (a + b)[1..] == a[1..] + b;
      ExportRowsAppend(a[1..], b, held);
    } else {
      assert a + b == b;
    }
  }

  // ------------------------------------------------------------- day/lab cards

  datatype DayLab = DayLab(date: string, labName: string, labId: string)

  function DayLabOf(r: AllocationRow): DayLab
  {
    DayLab(r.date, r.labName, LabKey(r))
  }

  /** `${date}|${labName}|${labId}` */
  function CardString(x: DayLab): string
  {
    Join([x.date, x.labName, x.labId], "|")
  }

  /** `${r.date}|${r.labName}|${r.labId || r.labName}` */
  function DayLabString(r: AllocationRow): string
  {
    CardString(DayLabOf(r))
  }

  function ParseDayLab(k: string): DayLab
  {
    var parts := Split(k, '|');
    DayLab(parts[0], PieceOr(parts, 1), PieceOr(parts, 2))
  }

  /** The card string of every row, in row order. */
  function DayLabStrings(rows: seq<AllocationRow>): seq<string>
  {
    seq(|rows|, i requires 0 <= i < |rows| => DayLabString(rows[i]))
  }

  /** dayLabKeys: the distinct (date, lab) cards of the rows, in order of first occurrence. */
  function DayLabKeys(rows: seq<AllocationRow>): seq<DayLab>
  {
    var ks := Distinct(DayLabStrings(rows));
    seq(|ks|, i requires 0 <= i < |ks| => ParseDayLab(ks[i]))
  }

  ghost predicate RowPipeFree(r: AllocationRow)
  {
    PipeFree(r.date) && PipeFree(r.labName) && PipeFree(LabKey(r))
  }

  lemma ParseDayLabString(r: AllocationRow)
    requires RowPipeFree(r)
    ensures ParseDayLab(DayLabString(r)) == DayLabOf(r)
  {
    SplitJoin([r.date, r.labName, LabKey(r)], '|');
  }

  /**
   * With `|`-free dates and lab names, the cards are exactly the (date, lab) pairs
   * of the rows, each once.
   */
  lemma DayLabKeysExact(rows: seq<AllocationRow>)
    requires forall i :: 0 <= i < |rows| ==> RowPipeFree(rows[i])
    ensures forall x :: x in DayLabKeys(rows) <==> exists i :: 0 <= i < |rows| && x == DayLabOf(rows[i])
    ensures NoDuplicates(DayLabKeys(rows))
    ensures |DayLabKeys(rows)| <= |rows|
  {
    DistinctProperties(DayLabStrings(rows));
    KeysFromRows(rows);
    forall x | x in DayLabKeys(rows)
      ensures exists i :: 0 <= i < |rows| && x == DayLabOf(rows[i])
    {
      var j :| 0 <= j < |DayLabKeys(rows)| && DayLabKeys(rows)[j] == x;
    }
    RowsInKeys(rows);
    KeysDistinct(rows);
  }

  /** Each card parses from a distinct key string, which is the card string of some row. */
  lemma KeysFromRows(rows: seq<AllocationRow>)
    requires forall i :: 0 <= i < |rows| ==> RowPipeFree(rows[i])
    ensures var ks := Distinct(DayLabStrings(rows));
      |DayLabKeys(rows)| == |ks| &&
      forall j :: 0 <= j < |ks| ==>
        (ks[j] == CardString(DayLabKeys(rows)[j])
         && exists i :: 0 <= i < |rows| && DayLabKeys(rows)[j] == DayLabOf(rows[i]))
  {
    var strs := DayLabStrings(rows);
    var ks := Distinct(strs);
    DistinctProperties(strs);
    forall j | 0 <= j < |ks|
      ensures ks[j] == CardString(DayLabKeys(rows)[j])
      ensures exists i :: 0 <= i < |rows| && DayLabKeys(rows)[j] == DayLabOf(rows[i])
    {
      assert ks[j] in strs;
      var i :| 0 <= i < |rows| && strs[i] == ks[j];
      ParseDayLabString(rows[i]);
      assert DayLabKeys(rows)[j] == DayLabOf(rows[i]);
    }
  }

  /** Every row's card is among the cards. */
  lemma RowsInKeys(rows: seq<AllocationRow>)
    requires forall i :: 0 <= i < |rows| ==> RowPipeFree(rows[i])
    ensures forall i :: 0 <= i < |rows| ==> DayLabOf(rows[i]) in DayLabKeys(rows)
  {
    var strs := DayLabStrings(rows);
    var ks := Distinct(strs);
    DistinctProperties(strs);
    forall i | 0 <= i < |rows|
      ensures DayLabOf(rows[i]) in DayLabKeys(rows)
    {
      assert strs[i] in ks;
      var j :| 0 <= j < |ks| && ks[j] == strs[i];
      ParseDayLabString(rows[i]);
      assert DayLabKeys(rows)[j] == DayLabOf(rows[i]);
    }
  }

  /** Distinct key strings give distinct cards. */
  lemma KeysDistinct(rows: seq<AllocationRow>)
    requires forall i :: 0 <= i < |rows| ==> RowPipeFree(rows[i])
    ensures NoDuplicates(DayLabKeys(rows))
  {
    var ks := Distinct(DayLabStrings(rows));
    DistinctProperties(DayLabStrings(rows));
    KeysFromRows(rows);
    forall j1, j2 | 0 <= j1 < j2 < |DayLabKeys(rows)|
      ensures DayLabKeys(rows)[j1] != DayLabKeys(rows)[j2]
    {
      assert ks[j1] != ks[j2];
    }
  }
}
