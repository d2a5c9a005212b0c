/**
 * The regulation and department picker (src/pages/SelectRegulation.tsx): regulations
 * are joined with their departments, a regulation and then one of its departments is
 * selected, and Continue needs both.
 */
module SelectRegulation {
  import opened Common

  datatype Department = Department(id: string, name: string, code: string, regulationId: string, createdAt: string)

  datatype Regulation = Regulation(id: string, name: string, year: int)

  /** A regulation with its departments, as the page lists it. */
  datatype RegulationGroup = RegulationGroup(regulation: Regulation, departments: seq<Department>)

  /** `departmentsData?.filter(dept => dept.regulation_id === regulation.id) || []`. */
  function DepartmentsOf(departments: Option<seq<Department>>, regulationId: string): (r: seq<Department>)
    ensures departments.None? ==> r == []
    ensures forall d :: d in r <==> departments.Some? && d in departments.value && d.regulationId == regulationId
    ensures departments.Some? ==> |r| <= |departments.value|
  {
    if departments.None? then [] else Matching(departments.value, regulationId)
  }

  function Matching(departments: seq<Department>, regulationId: string): (r: seq<Department>)
    ensures forall d :: d in r <==> d in departments && d.regulationId == regulationId
    ensures |r| <= |departments|
  {
    if |departments| == 0 then []
    else Matching(departments[..|departments| - 1], regulationId)
         + (if departments[|departments| - 1].regulationId == regulationId then [departments[|departments| - 1]] else [])
  }

  /** The filter keeps the query's order: it distributes over concatenation. */
  lemma {:induction false} MatchingAppend(a: seq<Department>, b: seq<Department>, regulationId: string)
    ensures Matching(a + b, regulationId) == Matching(a, regulationId) + Matching(b, regulationId)
    decreases |b|
  {
    if |b| == 0 {
      assert a + b == a;
    } else {
      var b' := b[..|b| - 1];
      MatchingAppend(a, b', regulationId);
      var last := b[|b| - 1];
      assert (a + b)[..|a + b| - 1] == a + b' && (a + b)[|a + b| - 1] == last;
      assert Matching(b, regulationId) == Matching(b', regulationId) + (if last.regulationId == regulationId then [last] else []);
    }
  }

  /** `regulationsData?.map(regulation => ({ ...regulation, departments: ... })) || []`. */
  function WithDepartments(regulations: Option<seq<Regulation>>, departments: Option<seq<Department>>): (r: seq<RegulationGroup>)
    ensures regulations.None? ==> r == []
    ensures regulations.Some? ==> |r| == |regulations.value|
    ensures regulations.Some? ==> forall i :: 0 <= i < |r| ==>
      r[i].regulation == regulations.value[i] && r[i].departments == DepartmentsOf(departments, regulations.value[i].id)
  {
    if regulations.None? then []
    else seq(|regulations.value|, i requires 0 <= i < |regulations.value| =>
               RegulationGroup(regulations.value[i], DepartmentsOf(departments, regulations.value[i].id)))
  }

  /**
   * A department is listed under a regulation exactly when it names that regulation;
   * one naming no listed regulation is listed nowhere.
   */
  lemma DepartmentPlacement(regulations: seq<Regulation>, departments: seq<Department>, d: Department)
    requires d in departments
    ensures var groups := WithDepartments(Some(regulations), Some(departments));
      && (forall i :: 0 <= i < |groups| ==> (d in groups[i].departments <==> regulations[i].id == d.regulationId))
      && ((forall i :: 0 <= i < |regulations| ==> regulations[i].id != d.regulationId) ==>
            forall g :: g in groups ==> d !in g.departments)
  {
  }

  /** The page's two selections; the empty string means nothing is selected. */
  datatype Selection = Selection(regulationId: string, departmentId: string)

  /** Clicking a regulation card: that regulation, and no department. */
  function ChooseRegulation(st: Selection, regulationId: string): (r: Selection)
    ensures r.regulationId == regulationId && r.departmentId == ""
  {
    Selection(regulationId, "")
  }

  /** Clicking a department card keeps the regulation. */
  function ChooseDepartment(st: Selection, departmentId: string): (r: Selection)
    ensures r.regulationId == st.regulationId && r.departmentId == departmentId
  {
    st.(departmentId := departmentId)
  }

  /** handleContinue navigates only when both are selected. */
  predicate CanContinue(st: Selection)
  {
    st.regulationId != "" && st.departmentId != ""
  }

  /** After a regulation is (re)chosen Continue is off until a department is chosen again. */
  lemma ChoosingRegulationBlocksContinue(st: Selection, regulationId: string, departmentId: string)
    ensures !CanContinue(ChooseRegulation(st, regulationId))
    ensures CanContinue(ChooseDepartment(ChooseRegulation(st, regulationId), departmentId))
            <==> regulationId != "" && departmentId != ""
  {
  }

  /** `regulations.find(reg => reg.id === selectedRegulation)`. */
  function SelectedRegulationData(groups: seq<RegulationGroup>, selected: string): (r: Option<RegulationGroup>)
    ensures r.None? <==> forall i :: 0 <= i < |groups| ==> groups[i].regulation.id != selected
    ensures r.Some? ==> exists i :: 0 <= i < |groups| && groups[i] == r.value && r.value.regulation.id == selected
                                  && forall j :: 0 <= j < i ==> groups[j].regulation.id != selected
  {
    if |groups| == 0 then None
    else if groups[0].regulation.id == selected then Some(groups[0])
    else
      var rest := SelectedRegulationData(groups[1..], selected);
      assert forall i :: 0 <= i < |groups| - 1 ==> groups[1..][i] == groups[i + 1];
      rest
  }

  /**
   * The department list shown is the selected regulation's: only departments that
   * name the selected regulation are offered.
   */
  lemma OfferedDepartments(regulations: seq<Regulation>, departments: seq<Department>, selected: string)
    ensures var found := SelectedRegulationData(WithDepartments(Some(regulations), Some(departments)), selected);
      found.Some? ==> forall d :: d in found.value.departments <==> d in departments && d.regulationId == selected
  {
  }
}
