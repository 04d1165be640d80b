/**
 * The persisted entities as one request sees them: immutable snapshots read
 * from the store. Every column or reference Java can hold as `null` is an
 * `Option`; a Java `Set` or `List` association is the sequence of its
 * elements in iteration order. Back-references to the owning employee and
 * the unused `reportees`/`projects` associations are not part of the model.
 */
module Entities {
  import opened Wrappers
  import opened Dates

  datatype Department = Department(id: int, name: Option<string>)

  datatype Project = Project(
    id: int,
    name: Option<string>,
    startDate: Option<Date>,
    endDate: Option<Date>,
    department: Option<Department>)

  /** The composite key of an assignment. */
  datatype EmployeeProjectId = EmployeeProjectId(employeeId: Option<int>, projectId: Option<int>)

  /** An employee's assignment to a project. */
  datatype EmployeeProject = EmployeeProject(
    id: Option<EmployeeProjectId>,
    project: Option<Project>,
    assignedDate: Option<Date>,
    role: Option<string>)

  /** A review; `score` is a decimal with two places, kept as hundredths. */
  datatype PerformanceReview = PerformanceReview(
    id: int,
    reviewDate: Option<Date>,
    score: Option<int>,
    reviewComments: Option<string>)

  datatype Employee = Employee(
    id: int,
    name: Option<string>,
    email: Option<string>,
    department: Option<Department>,
    dateOfJoining: Option<Date>,
    salary: Option<real>,
    manager: Option<Employee>,
    performanceReviews: Option<seq<PerformanceReview>>,
    employeeProjects: Option<seq<EmployeeProject>>)

  /** The bean-validation constraints on a review: a date, and a score in 0.00..10.00. */
  predicate ValidReview(r: PerformanceReview) {
    r.reviewDate.Some? && r.score.Some? && 0 <= r.score.value <= 1000
  }

  /** The constraints on an assignment: a project and an assignment date. */
  predicate ValidAssignment(a: EmployeeProject) {
    a.project.Some? && a.assignedDate.Some?
  }

  /** The constraints on an employee, including those on its reviews and assignments. */
  predicate ValidEmployee(e: Employee) {
    && e.name.Some? && e.email.Some? && e.department.Some?
    && e.dateOfJoining.Some? && e.salary.Some?
    && (forall r :: r in Elements(e.performanceReviews) ==> ValidReview(r))
    && (forall a :: a in Elements(e.employeeProjects) ==> ValidAssignment(a))
  }

  /**
   * `PerformanceReview.compareTo`: the argument's date compared with this one's,
   * so the newer review comes first. Either date being null is the
   * `NullPointerException` the call throws, `None` here.
   */
  function CompareTo(self: PerformanceReview, o: PerformanceReview): (c: Option<int>)
    ensures c.None? <==> self.reviewDate.None? || o.reviewDate.None?
  {
    if self.reviewDate.Some? && o.reviewDate.Some?
    then Some(Compare(o.reviewDate.value, self.reviewDate.value))
    else None
  }

  /** The integer key whose ascending order is the order `compareTo` sorts reviews in. */
  function NewestFirstKey(r: PerformanceReview): int {
    if r.reviewDate.Some? then -Ordinal(r.reviewDate.value) else 0
  }

  /**
   * A review compares below another exactly when its date is later, equal
   * exactly when the dates agree (whatever the ids, scores and comments), and
   * above it exactly when its date is earlier.
   */
  lemma CompareToNewestFirst(a: PerformanceReview, b: PerformanceReview)
    requires a.reviewDate.Some? && b.reviewDate.Some?
    ensures CompareTo(a, b).value < 0 <==> After(a.reviewDate.value, b.reviewDate.value)
    ensures CompareTo(a, b).value == 0 <==> a.reviewDate == b.reviewDate
    ensures CompareTo(a, b).value > 0 <==> After(b.reviewDate.value, a.reviewDate.value)
  {
    CompareAntisymmetric(a.reviewDate.value, b.reviewDate.value);
  }

  /** `a.compareTo(b)` and `b.compareTo(a)` have opposite signs. */
  lemma CompareToAntisymmetric(a: PerformanceReview, b: PerformanceReview)
    requires a.reviewDate.Some? && b.reviewDate.Some?
    ensures CompareTo(a, b).value == -CompareTo(b, a).value
  {
    CompareAntisymmetric(a.reviewDate.value, b.reviewDate.value);
  }

  /**
   * Sorting by `NewestFirstKey` is sorting with `compareTo`, and with the
   * comparator `(r1, r2) -> r2.getReviewDate().compareTo(r1.getReviewDate())`
   * of the history selection, which is the same expression.
   */
  lemma CompareToMatchesKey(a: PerformanceReview, b: PerformanceReview)
    requires a.reviewDate.Some? && b.reviewDate.Some?
    ensures CompareTo(a, b).value < 0 <==> NewestFirstKey(a) < NewestFirstKey(b)
    ensures CompareTo(a, b).value == 0 <==> NewestFirstKey(a) == NewestFirstKey(b)
  {
    OrdinalOrder(b.reviewDate.value, a.reviewDate.value);
  }
}
