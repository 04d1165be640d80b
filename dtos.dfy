/**
 * The flat records handed to clients. Each Java DTO is built with its no-argument
 * constructor and filled by setters, so any field may still be `null`: every
 * field is an `Option`, and the `Empty…` constants are the freshly constructed
 * records.
 */
module Dtos {
  import opened Wrappers

  datatype ProjectDto = ProjectDto(
    id: Option<int>,
    projectName: Option<string>,
    startDate: Option<string>,
    endDate: Option<string>,
    departmentName: Option<string>)

  datatype ReviewDto = ReviewDto(
    id: Option<int>,
    reviewDate: Option<string>,
    score: Option<int>,
    comments: Option<string>)

  datatype EmployeeDto = EmployeeDto(
    id: Option<int>,
    name: Option<string>,
    email: Option<string>,
    dateOfJoining: Option<string>,
    salary: Option<real>,
    managerName: Option<string>,
    departmentName: Option<string>,
    performanceReviews: Option<seq<ReviewDto>>,
    projects: Option<seq<ProjectDto>>)

  /** A dropdown entry: the id and name of a department or project. */
  datatype DropDownDto = DropDownDto(id: int, name: Option<string>)

  const EmptyProjectDto := ProjectDto(None, None, None, None, None)
  const EmptyReviewDto := ReviewDto(None, None, None, None)
  const EmptyEmployeeDto := EmployeeDto(None, None, None, None, None, None, None, None, None)
}
