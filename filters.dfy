/**
 * The sidebar filters applied to the long table: an inclusive date range,
 * then the employee, the residency and the departments, each only when a
 * choice is made. A row is kept only when it passes every active filter.
 */
module Filters {
  import opened Strings
  import opened Tables
  import opened Reshape

  /** The selectbox value that switches a filter off. */
  const All: string := "All"

  /** What the sidebar holds: the two dates of the range (day ordinals), the
      employee id or All, the residency or All, and the chosen departments. */
  datatype Selection = Selection(first: int, last: int, employee: string, residency: string,
                                 departments: seq<string>)

  predicate InDateRange(f: Fact, sel: Selection)
  {
    sel.first <= f.date <= sel.last
  }

  predicate EmployeeMatches(f: Fact, sel: Selection)
  {
    sel.employee == All || f.id == sel.employee
  }

  /** The residency is compared after lower-casing both sides. */
  predicate ResidencyMatches(f: Fact, sel: Selection)
  {
    sel.residency == All || Lower(f.resident) == Lower(sel.residency)
  }

  /** An empty department selection filters nothing. */
  predicate DepartmentMatches(f: Fact, sel: Selection)
  {
    sel.departments == [] || f.department in sel.departments
  }

  /** The masks applied so far after each step of the chain. */
  predicate UpToEmployee(f: Fact, sel: Selection)
  {
    InDateRange(f, sel) && EmployeeMatches(f, sel)
  }

  predicate UpToResidency(f: Fact, sel: Selection)
  {
    UpToEmployee(f, sel) && ResidencyMatches(f, sel)
  }

  predicate Matches(f: Fact, sel: Selection)
  {
    UpToResidency(f, sel) && DepartmentMatches(f, sel)
  }

  /**
   * filtered_df narrowed one mask at a time. The result is the long table
   * under the single conjunctive mask: a sub-sequence in the original order
   * holding exactly the rows that pass every active filter.
   */
  method ApplyFilters(facts: seq<Fact>, sel: Selection) returns (filtered: seq<Fact>)
    ensures filtered == Where(facts, f => Matches(f, sel))
    ensures forall f :: f in filtered <==> f in facts && Matches(f, sel)
  {
    var byDate := (f: Fact) => InDateRange(f, sel);
    filtered := Where(facts, byDate);
    if sel.employee != All {
      var isEmployee := (f: Fact) => f.id == sel.employee;
      WhereWhere(facts, byDate, isEmployee, f => UpToEmployee(f, sel));
      filtered := Where(filtered, isEmployee);
    } else {
      WhereCongruent(facts, byDate, f => UpToEmployee(f, sel));
    }
    if sel.residency != All {
      var isResidency := (f: Fact) => Lower(f.resident) == Lower(sel.residency);
      WhereWhere(facts, f => UpToEmployee(f, sel), isResidency, f => UpToResidency(f, sel));
      filtered := Where(filtered, isResidency);
    } else {
      WhereCongruent(facts, f => UpToEmployee(f, sel), f => UpToResidency(f, sel));
    }
    if sel.departments != [] {
      var inDepartments := (f: Fact) => f.department in sel.departments;
      WhereWhere(facts, f => UpToResidency(f, sel), inDepartments, f => Matches(f, sel));
      filtered := Where(filtered, inDepartments);
    } else {
      WhereCongruent(facts, f => UpToResidency(f, sel), f => Matches(f, sel));
    }
  }
  /** The sidebar's defaults (all employees, all residencies, every department
      present, the range from the earliest to the latest date) keep the whole
      long table. */
  lemma DefaultsKeepAll(facts: seq<Fact>, sel: Selection)
    requires sel.employee == All && sel.residency == All
    requires forall f :: f in facts ==> f.department in sel.departments
    requires forall f :: f in facts ==> sel.first <= f.date <= sel.last
    ensures Where(facts, f => Matches(f, sel)) == facts
  {
    WhereAll(facts, f => Matches(f, sel));
  }

  /** Clearing the department selection gives the same rows as selecting every
      department present. */
  lemma NoDepartmentsIsEveryDepartment(facts: seq<Fact>, sel: Selection)
    requires forall f :: f in facts ==> f.department in sel.departments
    ensures Where(facts, f => Matches(f, sel.(departments := []))) == Where(facts, f => Matches(f, sel))
  {
    WhereCongruent(facts, f => Matches(f, sel.(departments := [])), f => Matches(f, sel));
  }

  /** The case of the residency text in the sheet does not matter. */
  lemma ResidencyIgnoresCase(f: Fact, sel: Selection)
    ensures ResidencyMatches(f, sel) == ResidencyMatches(f.(resident := Lower(f.resident)), sel)
  {
    LowerIdempotent(f.resident);
  }
}
