/**
 * The projection of an employee snapshot onto its client record
 * (`EmployeeMapper`). The records are filled by successive setter calls inside
 * one catch-all handler, so a failure part-way leaves the fields set so far
 * populated and the rest `null`; the methods below set the fields in the same
 * order and stop at the same points.
 */
module Mapper {
  import opened Wrappers
  import opened Dates
  import opened Entities
  import opened Dtos

  const NoManager := "No Manager"
  const NoDepartment := "No Department"

  /** `formatDate`: `null` stays `null`; a date becomes its `yyyy-MM-dd` text, which parses back to it. */
  function FormatDate(date: Option<Date>): (r: Option<string>)
    ensures r.None? <==> date.None?
    ensures date.Some? ==> |r.value| == 10 && ParseSqlDate(r.value) == Some(date.value)
    ensures date.Some? ==> IsoText(r.value, date.value)
  {
    if date.Some? then Some(IsoString(date.value)) else None
  }

  /** An entity that has a `getName` getter, whose result may be `null`. */
  datatype NamedEntity = Named(name: Option<string>)

  function EmployeeEntity(e: Option<Employee>): Option<NamedEntity> {
    if e.Some? then Some(Named(e.value.name)) else None
  }

  function DepartmentEntity(d: Option<Department>): Option<NamedEntity> {
    if d.Some? then Some(Named(d.value.name)) else None
  }

  /**
   * `getNameOrDefault`: the entity's name, or the default when the entity is
   * `null` or its name is (`toString` on a `null` name throws, and the handler
   * returns the default).
   */
  function NameOrDefault(entity: Option<NamedEntity>, defaultValue: string): (r: string)
    ensures entity.None? ==> r == defaultValue
    ensures entity.Some? && entity.value.name.None? ==> r == defaultValue
    ensures entity.Some? && entity.value.name.Some? ==> r == entity.value.name.value
  {
    match entity
    case Some(Named(Some(n))) => n
    case _ => defaultValue
  }

  // ------------------------------------------------------------ record shapes

  /** `d` is the record `mapToProjectDto` builds for `p`. */
  predicate IsProjectDtoOf(d: ProjectDto, p: Project) {
    && d.id == Some(p.id)
    && d.projectName == p.name
    && d.startDate == FormatDate(p.startDate)
    && d.endDate == FormatDate(p.endDate)
    && d.departmentName == Some(NameOrDefault(DepartmentEntity(p.department), NoDepartment))
  }

  /** `d` is the record `mapToReviewDto` builds for `r`, which needs a review date. */
  predicate IsReviewDtoOf(d: ReviewDto, r: PerformanceReview) {
    && r.reviewDate.Some?
    && d.id == Some(r.id)
    && d.reviewDate == Some(IsoString(r.reviewDate.value))
    && d.score == r.score
    && d.comments == r.reviewComments
  }

  predicate AllAssigned(assignments: seq<EmployeeProject>) {
    forall k :: 0 <= k < |assignments| ==> assignments[k].project.Some?
  }

  predicate AllDated(reviews: seq<PerformanceReview>) {
    forall k :: 0 <= k < |reviews| ==> reviews[k].reviewDate.Some?
  }

  /** One project record per assignment, in the assignments' order. */
  predicate ProjectsMapped(assignments: seq<EmployeeProject>, dtos: seq<ProjectDto>) {
    && |dtos| == |assignments|
    && forall k :: 0 <= k < |assignments| ==>
         assignments[k].project.Some? && IsProjectDtoOf(dtos[k], assignments[k].project.value)
  }

  /** One review record per review, in the reviews' order. */
  predicate ReviewsMapped(reviews: seq<PerformanceReview>, dtos: seq<ReviewDto>) {
    && |dtos| == |reviews|
    && forall k :: 0 <= k < |reviews| ==> IsReviewDtoOf(dtos[k], reviews[k])
  }

  /**
   * `d` is the record `mapToEmployeeDto(e, assignments, reviews)` returns: the
   * seven scalar fields always set, the project list set exactly when every
   * assignment has a project, and the review list set exactly when, in
   * addition, every review has a date.
   */
  predicate IsProfileOf(d: EmployeeDto, e: Employee,
                        assignments: Option<seq<EmployeeProject>>, reviews: Option<seq<PerformanceReview>>)
  {
    && d.id == Some(e.id)
    && d.name == e.name
    && d.email == e.email
    && d.dateOfJoining == FormatDate(e.dateOfJoining)
    && d.salary == e.salary
    && d.managerName == Some(NameOrDefault(EmployeeEntity(e.manager), NoManager))
    && d.departmentName == Some(NameOrDefault(DepartmentEntity(e.department), NoDepartment))
    && (d.projects.Some? <==> AllAssigned(Elements(assignments)))
    && (d.projects.Some? ==> ProjectsMapped(Elements(assignments), d.projects.value))
    && (d.performanceReviews.Some? <==> d.projects.Some? && AllDated(Elements(reviews)))
    && (d.performanceReviews.Some? ==> ReviewsMapped(Elements(reviews), d.performanceReviews.value))
  }

  // ------------------------------------------------------------------ mapping

  /** `mapToProjectDto`: copies id and name, formats both dates, defaults the department name. */
  method MapToProjectDto(project: Project) returns (dto: ProjectDto)
    ensures IsProjectDtoOf(dto, project)
    ensures project.startDate.None? ==> dto.startDate.None?
    ensures project.endDate.None? ==> dto.endDate.None?
    ensures project.department.None? ==> dto.departmentName == Some(NoDepartment)
  {
    dto := EmptyProjectDto;
    dto := dto.(id := Some(project.id));
    dto := dto.(projectName := project.name);
    dto := dto.(startDate := FormatDate(project.startDate));
    dto := dto.(endDate := FormatDate(project.endDate));
    dto := dto.(departmentName := Some(NameOrDefault(DepartmentEntity(project.department), NoDepartment)));
  }

  /**
   * `mapToReviewDto`: copies id, score and comments and renders the date with
   * `toString`. A review without a date makes `toString` throw; the record is
   * then lost (`None`).
   */
  method MapToReviewDto(review: PerformanceReview) returns (dto: Option<ReviewDto>)
    ensures dto.None? <==> review.reviewDate.None?
    ensures dto.Some? ==> IsReviewDtoOf(dto.value, review)
  {
    var d := EmptyReviewDto;
    d := d.(id := Some(review.id));
    if review.reviewDate.None? {
      return None;
    }
    d := d.(reviewDate := Some(IsoString(review.reviewDate.value)));
    d := d.(score := review.score);
    d := d.(comments := review.reviewComments);
    return Some(d);
  }

  /**
   * `mapToEmployeeDto`: never fails. An assignment without a project or a
   * review without a date raises an exception that the catch-all swallows,
   * leaving the lists not yet set `null`.
   */
  method MapToEmployeeDto(employee: Employee, employeeProjects: Option<seq<EmployeeProject>>,
                          reviews: Option<seq<PerformanceReview>>) returns (dto: EmployeeDto)
    ensures IsProfileOf(dto, employee, employeeProjects, reviews)
  {
    dto := EmptyEmployeeDto;
    dto := dto.(id := Some(employee.id));
    dto := dto.(name := employee.name);
    dto := dto.(email := employee.email);
    dto := dto.(dateOfJoining := FormatDate(employee.dateOfJoining));
    dto := dto.(salary := employee.salary);
    dto := dto.(managerName := Some(NameOrDefault(EmployeeEntity(employee.manager), NoManager)));
    dto := dto.(departmentName := Some(NameOrDefault(DepartmentEntity(employee.department), NoDepartment)));

    var assignments := Elements(employeeProjects);
    if |assignments| > 0 {
      var projectDtos: seq<ProjectDto> := [];
      for i := 0 to |assignments|
        invariant ProjectsMapped(assignments[..i], projectDtos)
      {
        if assignments[i].project.None? {
          return;
        }
        var p := MapToProjectDto(assignments[i].project.value);
        projectDtos := projectDtos + [p];
      }
      assert assignments[..|assignments|] == assignments;
      dto := dto.(projects := Some(projectDtos));
    } else {
      dto := dto.(projects := Some([]));
    }

    var reviewList := Elements(reviews);
    var reviewDtos: seq<ReviewDto> := [];
    if |reviewList| > 0 {
      for i := 0 to |reviewList|
        invariant ReviewsMapped(reviewList[..i], reviewDtos)
      {
        var r := MapToReviewDto(reviewList[i]);
        if r.None? {
          return;
        }
        reviewDtos := reviewDtos + [r.value];
      }
      assert reviewList[..|reviewList|] == reviewList;
    }
    dto := dto.(performanceReviews := Some(reviewDtos));
  }

  // ------------------------------------------------------------------ lemmas

  /** Mapping the same snapshot twice gives field-for-field the same record. */
  lemma {:induction false} ProfileDeterministic(d1: EmployeeDto, d2: EmployeeDto, e: Employee,
                                                assignments: Option<seq<EmployeeProject>>,
                                                reviews: Option<seq<PerformanceReview>>)
    requires IsProfileOf(d1, e, assignments, reviews) && IsProfileOf(d2, e, assignments, reviews)
    ensures d1 == d2
  {
    if d1.projects.Some? {
      var p1, p2 := d1.projects.value, d2.projects.value;
      assert |p1| == |p2|;
      forall k | 0 <= k < |p1| ensures p1[k] == p2[k] {
        assert IsProjectDtoOf(p1[k], Elements(assignments)[k].project.value);
        assert IsProjectDtoOf(p2[k], Elements(assignments)[k].project.value);
      }
      assert p1 == p2;
    }
    if d1.performanceReviews.Some? {
      var r1, r2 := d1.performanceReviews.value, d2.performanceReviews.value;
      assert |r1| == |r2|;
      forall k | 0 <= k < |r1| ensures r1[k] == r2[k] {
        assert IsReviewDtoOf(r1[k], Elements(reviews)[k]);
        assert IsReviewDtoOf(r2[k], Elements(reviews)[k]);
      }
      assert r1 == r2;
    }
  }

  /**
   * An employee that meets its entity constraints is mapped completely: every
   * field set, one project record per assignment and one review record per
   * review.
   */
  lemma ValidEmployeeFullyMapped(d: EmployeeDto, e: Employee)
    requires ValidEmployee(e)
    requires IsProfileOf(d, e, e.employeeProjects, e.performanceReviews)
    ensures d.name.Some? && d.email.Some? && d.dateOfJoining.Some? && d.salary.Some?
    ensures d.projects.Some? && |d.projects.value| == |Elements(e.employeeProjects)|
    ensures d.performanceReviews.Some? && |d.performanceReviews.value| == |Elements(e.performanceReviews)|
  {
    var assignments, reviews := Elements(e.employeeProjects), Elements(e.performanceReviews);
    assert AllAssigned(assignments) by {
      forall k | 0 <= k < |assignments| ensures assignments[k].project.Some? {
        assert ValidAssignment(assignments[k]);
      }
    }
    assert AllDated(reviews) by {
      forall k | 0 <= k < |reviews| ensures reviews[k].reviewDate.Some? {
        assert ValidReview(reviews[k]);
      }
    }
  }

  /** The names fall back to the sentinels when the manager or department is missing. */
  lemma ProfileSentinels(d: EmployeeDto, e: Employee,
                         assignments: Option<seq<EmployeeProject>>, reviews: Option<seq<PerformanceReview>>)
    requires IsProfileOf(d, e, assignments, reviews)
    ensures e.manager.None? ==> d.managerName == Some("No Manager")
    ensures e.department.None? ==> d.departmentName == Some("No Department")
    ensures e.manager.Some? && e.manager.value.name.Some? ==> d.managerName == e.manager.value.name
    ensures e.department.Some? && e.department.value.name.Some? ==> d.departmentName == e.department.value.name
  {
  }

  /** An assignment without a project leaves both lists unset, whatever the reviews. */
  lemma MissingProjectLeavesListsUnset(d: EmployeeDto, e: Employee,
                                       assignments: Option<seq<EmployeeProject>>,
                                       reviews: Option<seq<PerformanceReview>>, k: nat)
    requires IsProfileOf(d, e, assignments, reviews)
    requires k < |Elements(assignments)| && Elements(assignments)[k].project.None?
    ensures d.projects.None? && d.performanceReviews.None?
    ensures d.id == Some(e.id) && d.departmentName.Some? && d.managerName.Some?
  {
  }
}
