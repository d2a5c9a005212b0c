/**
 * The export page (src/app/export/page.tsx): the CSV download built from one or more
 * saved allocation packs, the examiner shown for each row, the grouping of rows by
 * department, and the totals of the multi-department summary.
 *
 * The file holds an unresolved merge of two versions. The CSV builder modelled here is
 * the incoming one (lines 125-179), which doubles the quotes inside quoted fields; the
 * other version's quoting (lines 186-196) is modelled only to show where it goes wrong.
 */
module Export {
  import opened Common
  import ViewAllocations
  import Allocation

  datatype Row = Row(
    date: string,
    session: string,
    time: string,
    labId: string,
    labName: string,
    subjectCode: string,
    subjectName: string,
    studentsAllocated: int,
    departmentId: string,
    departmentName: string)

  /** A saved allocation pack, or the single allocation being exported. */
  datatype Pack = Pack(
    departmentId: string,
    departmentName: string,
    rows: seq<Row>,
    assignedFaculty: map<string, string>,
    facultyDirectory: map<string, string>,
    createdAt: string)

  /** The department the single export belongs to, used when a pack names none. */
  datatype Meta = Meta(departmentId: string, departmentName: string)

  // ------------------------------------------------------------- quoting

  /** `.replace(/"/g, '""')`. */
  function Escape(s: string): string
  {
    if |s| == 0 then "" else (if s[0] == '"' then "\"\"" else [s[0]]) + Escape(s[1..])
  }

  /** A quoted CSV field: wrapped in quotes, inner quotes doubled. */
  function Quote(s: string): string
  {
    "\"" + Escape(s) + "\""
  }

  function Prepend(c: char, o: Option<string>): Option<string>
  {
    match o
    case None => None
    case Some(s) => Some([c] + s)
  }

  /** Reads the inside of a quoted field: `""` stands for `"`, and a lone `"` is malformed. */
  function Unescape(t: string): Option<string>
    decreases |t|
  {
    if |t| == 0 then Some("")
    else if t[0] == '"' then (if |t| >= 2 && t[1] == '"' then Prepend('"', Unescape(t[2..])) else None)
    else Prepend(t[0], Unescape(t[1..]))
  }

  /** Reads a quoted field back, as a CSV reader following RFC 4180 does. */
  function Unquote(q: string): Option<string>
  {
    if |q| >= 2 && q[0] == '"' && q[|q| - 1] == '"' then Unescape(q[1..|q| - 1]) else None
  }

  lemma {:induction false} UnescapeEscape(s: string)
    ensures Unescape(Escape(s)) == Some(s)
    decreases |s|
  {
    if |s| > 0 {
      UnescapeEscape(s[1..]);
      var e := Escape(s);
      if s[0] == '"' {
        assert e[2..] == Escape(s[1..]);
      } else {
        assert e[1..] == Escape(s[1..]);
      }
      assert [s[0]] + s[1..] == s;
    }
  }

  /**
   * Any text survives quoting: one quoted field, read back on its own, gives the
   * text, whatever commas, quotes and line breaks it holds.
   */
  lemma QuoteRoundTrip(s: string)
    ensures Unquote(Quote(s)) == Some(s)
  {
    var q := Quote(s);
    assert q[1..|q| - 1] == Escape(s);
    UnescapeEscape(s);
  }

  /** The other version's quoting: wraps the text in quotes without doubling inner quotes. */
  function NaiveQuote(s: string): string
  {
    "\"" + s + "\""
  }

  /** A subject name with a quote in it does not survive that quoting. */
  lemma NaiveQuoteBreaks()
    ensures Unquote(NaiveQuote("a\"b")) == None
    ensures Unquote(Quote("a\"b")) == Some("a\"b")
  {
    var q := NaiveQuote("a\"b");
    assert q[1..|q| - 1] == "a\"b";
    assert Unescape("\"b") == None;
    assert Unescape("a\"b") == Prepend('a', Unescape("\"b"));
    QuoteRoundTrip("a\"b");
  }

  // ------------------------------------------------------------- numbers

  function DigitChar(d: nat): char
    requires d < 10
  {
    ['0', '1', '2', '3', '4', '5', '6', '7', '8', '9'][d]
  }

  function NatToString(n: nat): (s: string)
    ensures |s| >= 1
    ensures forall i :: 0 <= i < |s| ==> '0' <= s[i] <= '9'
  {
    if n < 10 then [DigitChar(n)] else NatToString(n / 10) + [DigitChar(n % 10)]
  }

  /** How `join` renders the student count: decimal digits, never needing quotes. */
  function IntToString(n: int): (s: string)
    ensures s != ""
    ensures ',' !in s && '"' !in s && '\n' !in s
  {
    if n < 0 then "-" + NatToString(-n) else NatToString(n)
  }

  // ------------------------------------------------------------- examiner lookup

  /** `${subjectCode}|${date}|${labId || labName}`. */
  function FacultyKey(r: Row): string
  {
    r.subjectCode + "|" + r.date + "|" + (if r.labId != "" then r.labId else r.labName)
  }

  /**
   * The export looks an examiner up under the very key the review page stored it
   * under for the same subject, date and lab.
   */
  lemma FacultyKeyMatchesReview(r: Row, a: Allocation.AllocationRow)
    requires r.subjectCode == a.subjectCode && r.date == a.date
    requires r.labId == a.labId && r.labName == a.labName
    ensures FacultyKey(r) == ViewAllocations.RowKey(a)
  {
    var lab := ViewAllocations.LabKey(a);
    assert Join([a.date, lab], "|") == a.date + "|" + lab;
    assert Join([a.subjectCode, a.date, lab], "|") == a.subjectCode + "|" + (a.date + "|" + lab);
  }

  /** `String(facultyId)`: the assigned id, or "undefined" when the key has none. */
  function LookupId(assignments: map<string, string>, key: string): string
  {
    if key in assignments then assignments[key] else "undefined"
  }

  /**
   * `directory[id] || id || "Not Assigned"`: the examiner's name when the directory
   * knows it, else the raw id, else the placeholder.
   */
  function DisplayedFaculty(assignments: map<string, string>, directory: map<string, string>, key: string): (r: string)
    ensures r != ""
    ensures r == "Not Assigned" || r in directory.Values || (key in assignments && r == assignments[key])
    ensures key in assignments && assignments[key] in directory && directory[assignments[key]] != "" ==>
              r == directory[assignments[key]]
    ensures key in assignments && assignments[key] != "" && (assignments[key] !in directory || directory[assignments[key]] == "") ==>
              r == assignments[key]
    ensures LookupId(assignments, key) !in directory || directory[LookupId(assignments, key)] == "" ==>
              (key !in assignments || assignments[key] == "" ==> r == "Not Assigned")
  {
    var id := LookupId(assignments, key);
    if id in directory && directory[id] != "" then directory[id]
    else if key in assignments && assignments[key] != "" then assignments[key]
    else "Not Assigned"
  }

  /** The other version's examiner column: `assignments[key] || "Not Assigned"`, the raw id. */
  function HeadFaculty(assignments: map<string, string>, key: string): (r: string)
    ensures r != ""
    ensures r == "Not Assigned" || (key in assignments && r == assignments[key])
  {
    if key in assignments && assignments[key] != "" then assignments[key] else "Not Assigned"
  }

  /** The two versions show the same text whenever the directory has no name for the examiner. */
  lemma FacultyVersionsAgree(assignments: map<string, string>, directory: map<string, string>, key: string)
    requires LookupId(assignments, key) !in directory || directory[LookupId(assignments, key)] == ""
    ensures DisplayedFaculty(assignments, directory, key) == HeadFaculty(assignments, key)
  {
  }

  // ------------------------------------------------------------- CSV

  /** Several saved packs when there are any, otherwise the single allocation. */
  function Packs(multiSaved: Option<seq<Pack>>, single: Pack): (packs: seq<Pack>)
    ensures |packs| >= 1
  {
    if multiSaved.Some? && |multiSaved.value| > 0 then multiSaved.value else [single]
  }

  function DeptId(pack: Pack, meta: Meta): string
  {
    if pack.departmentId != "" then pack.departmentId else meta.departmentId
  }

  function DeptName(pack: Pack, meta: Meta): string
  {
    if pack.departmentName != "" then pack.departmentName else meta.departmentName
  }

  const DepartmentColumns: seq<string> := ["Department ID", "Department Name"]

  const RowColumns: seq<string> :=
    ["Date", "Session", "Time", "Lab Name", "Subject Code", "Subject Name", "Students Allocated", "Assigned Faculty"]

  /** The header: department columns only when several packs are exported. */
  function Headers(multi: bool): (h: seq<string>)
    ensures |h| == if multi then 10 else 8
  {
    (if multi then DepartmentColumns else []) + RowColumns
  }

  /** The fields of one data row, department columns first when several packs are exported. */
  function Fields(pack: Pack, r: Row, multi: bool, meta: Meta): (f: seq<string>)
    ensures |f| == |Headers(multi)|
  {
    var name := DisplayedFaculty(pack.assignedFaculty, pack.facultyDirectory, FacultyKey(r));
    var base := [r.date, r.session, r.time, Quote(r.labName), r.subjectCode, Quote(r.subjectName),
                 IntToString(r.studentsAllocated), Quote(name)];
    if multi then [DeptId(pack, meta), Quote(DeptName(pack, meta))] + base else base
  }

  /**
   * Every quoted column of a row reads back as the text it was made from, at the
   * position its header names.
   */
  lemma FieldsReadBack(pack: Pack, r: Row, multi: bool, meta: Meta)
    ensures var f := Fields(pack, r, multi, meta);
      var h := Headers(multi);
      var o := if multi then 2 else 0;
      && h[o + 3] == "Lab Name" && Unquote(f[o + 3]) == Some(r.labName)
      && h[o + 5] == "Subject Name" && Unquote(f[o + 5]) == Some(r.subjectName)
      && h[o + 7] == "Assigned Faculty"
      && Unquote(f[o + 7]) == Some(DisplayedFaculty(pack.assignedFaculty, pack.facultyDirectory, FacultyKey(r)))
      && h[o] == "Date" && f[o] == r.date
      && (multi ==> h[1] == "Department Name" && Unquote(f[1]) == Some(DeptName(pack, meta)))
  {
    HeaderNames(multi);
    var name := DisplayedFaculty(pack.assignedFaculty, pack.facultyDirectory, FacultyKey(r));
    var f := Fields(pack, r, multi, meta);
    var o := if multi then 2 else 0;
    assert f[o] == r.date && f[o + 3] == Quote(r.labName) && f[o + 5] == Quote(r.subjectName) && f[o + 7] == Quote(name);
    assert multi ==> f[1] == Quote(DeptName(pack, meta));
    QuoteRoundTrip(r.labName);
    QuoteRoundTrip(r.subjectName);
    QuoteRoundTrip(name);
    QuoteRoundTrip(DeptName(pack, meta));
  }

  lemma HeaderNames(multi: bool)
    ensures var h := Headers(multi);
      var o := if multi then 2 else 0;
      && h[o] == "Date" && h[o + 3] == "Lab Name" && h[o + 5] == "Subject Name" && h[o + 7] == "Assigned Faculty"
      && (multi ==> h[1] == "Department Name")
  {
    if multi {
      assert Headers(multi) == DepartmentColumns + RowColumns;
    } else {
      assert Headers(multi) == RowColumns;
    }
  }

  function RowLine(pack: Pack, r: Row, multi: bool, meta: Meta): string
  {
    Join(Fields(pack, r, multi, meta), ",")
  }

  /** One line per row of the pack, in row order. */
  function PackLines(pack: Pack, multi: bool, meta: Meta): (lines: seq<string>)
    ensures |lines| == |pack.rows|
  {
    seq(|pack.rows|, i requires 0 <= i < |pack.rows| => RowLine(pack, pack.rows[i], multi, meta))
  }

  /** The data lines of all packs: pack by pack, rows in order within each. */
  function CsvLines(packs: seq<Pack>, multi: bool, meta: Meta): seq<string>
  {
    if |packs| == 0 then []
    else CsvLines(packs[..|packs| - 1], multi, meta) + PackLines(packs[|packs| - 1], multi, meta)
  }

  /** The file: the header line, then the data lines, separated by line breaks. */
  function CsvText(packs: seq<Pack>, meta: Meta): string
  {
    var multi := |packs| > 1;
    Join([Join(Headers(multi), ",")] + CsvLines(packs, multi, meta), "\n")
  }

  /** exportCSV: the rows of each pack pushed one line at a time. */
  method ExportCsv(multiSaved: Option<seq<Pack>>, single: Pack, meta: Meta) returns (csv: string, fileName: string)
    ensures csv == CsvText(Packs(multiSaved, single), meta)
    ensures fileName == if |Packs(multiSaved, single)| > 1 then "allocations_all_departments.csv" else "allocations.csv"
  {
    var packs := Packs(multiSaved, single);
    var multi := |packs| > 1;
    var headers := Headers(multi);
    var csvRows: seq<string> := [];
    var p := 0;
    while p < |packs|
      invariant 0 <= p <= |packs|
      invariant csvRows == CsvLines(packs[..p], multi, meta)
    {
      var pack := packs[p];
      var j := 0;
      while j < |pack.rows|
        invariant 0 <= j <= |pack.rows|
        invariant csvRows == CsvLines(packs[..p], multi, meta) + PackLines(pack, multi, meta)[..j]
      {
        csvRows := csvRows + [Join(Fields(pack, pack.rows[j], multi, meta), ",")];
        assert PackLines(pack, multi, meta)[..j + 1] == PackLines(pack, multi, meta)[..j] + [RowLine(pack, pack.rows[j], multi, meta)];
        j := j + 1;
      }
      assert packs[..p + 1][..p] == packs[..p];
      assert PackLines(pack, multi, meta)[..j] == PackLines(pack, multi, meta);
      p := p + 1;
    }
    assert packs[..p] == packs;
    csv := Join([Join(headers, ",")] + csvRows, "\n");
    fileName := if multi then "allocations_all_departments.csv" else "allocations.csv";
  }

  /** Exporting a list of packs is exporting its two halves one after the other. */
  lemma {:induction false} CsvLinesAppend(a: seq<Pack>, b: seq<Pack>, multi: bool, meta: Meta)
    ensures CsvLines(a + b, multi, meta) == CsvLines(a, multi, meta) + CsvLines(b, multi, meta)
    decreases |b|
  {
    if |b| == 0 {
      assert a + b == a;
    } else {
      var b' := b[..|b| - 1];
      CsvLinesAppend(a, b', multi, meta);
      assert (a + b)[..|a + b| - 1] == a + b';
    }
  }

  // ------------------------------------------------------------- summary

  /** `savedAllocations.reduce((sum, a) => sum + a.rows.length, 0)`. */
  function TotalRows(saved: seq<Pack>): nat
  {
    if |saved| == 0 then 0 else TotalRows(saved[..|saved| - 1]) + |saved[|saved| - 1].rows|
  }

  /** The CSV of all saved packs has one data line per allocation counted in the summary. */
  lemma {:induction false} CsvLinesCount(packs: seq<Pack>, multi: bool, meta: Meta)
    ensures |CsvLines(packs, multi, meta)| == TotalRows(packs)
    decreases |packs|
  {
    if |packs| > 0 {
      CsvLinesCount(packs[..|packs| - 1], multi, meta);
    }
  }

  /** One line of the workbook's summary sheet. */
  datatype SummaryRow = SummaryRow(number: int, departmentId: string, departmentName: string,
                                   totalAllocations: int, createdAt: string)

  /** The summary sheet: packs numbered from 1 in list order, each with its row count. */
  function SummaryRows(saved: seq<Pack>): (r: seq<SummaryRow>)
    ensures |r| == |saved|
  {
    seq(|saved|, i requires 0 <= i < |saved| =>
      SummaryRow(i + 1, saved[i].departmentId, saved[i].departmentName, |saved[i].rows|, saved[i].createdAt))
  }

  function SumAllocations(rows: seq<SummaryRow>): int
  {
    if |rows| == 0 then 0 else SumAllocations(rows[..|rows| - 1]) + rows[|rows| - 1].totalAllocations
  }

  /**
   * The summary numbers its lines 1..n without gaps, and its per-department counts add
   * up to the "Total Allocations" figure on the page.
   */
  lemma {:induction false} SummaryAddsUp(saved: seq<Pack>)
    ensures forall i :: 0 <= i < |saved| ==> SummaryRows(saved)[i].number == i + 1
    ensures SumAllocations(SummaryRows(saved)) == TotalRows(saved)
    decreases |saved|
  {
    if |saved| > 0 {
      var init := saved[..|saved| - 1];
      SummaryAddsUp(init);
      assert SummaryRows(saved)[..|saved| - 1] == SummaryRows(init);
    }
  }

  // ------------------------------------------------------------- grouping by department

  /** `row.department_id || "NA"`. */
  function DeptKey(r: Row): string
  {
    if r.departmentId != "" then r.departmentId else "NA"
  }

  datatype DeptGroup = DeptGroup(name: string, rows: seq<Row>)

  /** The groups the reduce builds, as a function of the rows seen so far. */
  function Grouped(rows: seq<Row>): map<string, DeptGroup>
  {
    if |rows| == 0 then map[]
    else
      var g := Grouped(rows[..|rows| - 1]);
      var r := rows[|rows| - 1];
      var k := DeptKey(r);
      if k in g then g[k := g[k].(rows := g[k].rows + [r])] else g[k := DeptGroup(r.departmentName, [r])]
  }

  /** The rows of one department, in input order. */
  function RowsOf(rows: seq<Row>, k: string): (out: seq<Row>)
    ensures forall x :: x in out <==> x in rows && DeptKey(x) == k
  {
    if |rows| == 0 then []
    else RowsOf(rows[..|rows| - 1], k) + (if DeptKey(rows[|rows| - 1]) == k then [rows[|rows| - 1]] else [])
  }

  /** The reduce over the rows, the accumulator updated in place. */
  method GroupRows(rows: seq<Row>) returns (acc: map<string, DeptGroup>)
    ensures acc == Grouped(rows)
  {
    acc := map[];
    var i := 0;
    while i < |rows|
      invariant 0 <= i <= |rows|
      invariant acc == Grouped(rows[..i])
    {
      var row := rows[i];
      var dept := DeptKey(row);
      if dept !in acc {
        acc := acc[dept := DeptGroup(row.departmentName, [])];
      }
      acc := acc[dept := acc[dept].(rows := acc[dept].rows + [row])];
      assert rows[..i + 1][..i] == rows[..i] && rows[..i + 1][i] == row;
      assert dept !in Grouped(rows[..i]) ==> acc[dept].rows == [row];
      i := i + 1;
    }
    assert rows[..i] == rows;
  }

  /** A department with no rows has an empty row list. */
  lemma {:induction false} RowsOfAbsent(rows: seq<Row>, k: string)
    requires forall i :: 0 <= i < |rows| ==> DeptKey(rows[i]) != k
    ensures RowsOf(rows, k) == []
    decreases |rows|
  {
    if |rows| > 0 {
      RowsOfAbsent(rows[..|rows| - 1], k);
    }
  }

  /** There is a group for exactly the departments that occur in the rows. */
  lemma {:induction false} GroupedKeys(rows: seq<Row>)
    ensures forall k :: k in Grouped(rows) <==> exists i :: 0 <= i < |rows| && DeptKey(rows[i]) == k
    decreases |rows|
  {
    if |rows| > 0 {
      var init := rows[..|rows| - 1];
      GroupedKeys(init);
      assert forall i :: 0 <= i < |init| ==> init[i] == rows[i];
      forall k | exists i :: 0 <= i < |rows| && DeptKey(rows[i]) == k
        ensures k in Grouped(rows)
      {
        var i :| 0 <= i < |rows| && DeptKey(rows[i]) == k;
        assert i < |init| ==> DeptKey(init[i]) == k;
      }
    }
  }

  /** Each group holds exactly its department's rows, in input order. */
  lemma {:induction false} GroupedRows(rows: seq<Row>)
    ensures forall k :: k in Grouped(rows) ==> Grouped(rows)[k].rows == RowsOf(rows, k)
    decreases |rows|
  {
    if |rows| > 0 {
      var init := rows[..|rows| - 1];
      GroupedRows(init);
      var k := DeptKey(rows[|rows| - 1]);
      if k !in Grouped(init) {
        GroupedKeys(init);
        RowsOfAbsent(init, k);
      }
    }
  }

  /** Each group is non-empty and carries the department name of its first row. */
  lemma {:induction false} GroupedName(rows: seq<Row>)
    ensures forall k :: k in Grouped(rows) ==>
      |Grouped(rows)[k].rows| > 0 && Grouped(rows)[k].name == Grouped(rows)[k].rows[0].departmentName
    decreases |rows|
  {
    if |rows| > 0 {
      GroupedName(rows[..|rows| - 1]);
    }
  }

  /** Every row is in its own department's group and in no other. */
  lemma RowInOneGroup(rows: seq<Row>, i: int)
    requires 0 <= i < |rows|
    ensures DeptKey(rows[i]) in Grouped(rows)
    ensures rows[i] in Grouped(rows)[DeptKey(rows[i])].rows
    ensures forall k :: k in Grouped(rows) && k != DeptKey(rows[i]) ==> rows[i] !in Grouped(rows)[k].rows
  {
    GroupedKeys(rows);
    GroupedRows(rows);
  }
}
