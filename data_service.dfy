/**
 * The dropdown lists (`DataServiceImpl`): every department or project as an
 * {id, name} pair, sorted by ascending id.
 */
module DataService {
  import opened Wrappers
  import opened Entities
  import opened Dtos
  import opened Sorting

  function IdKey(d: DropDownDto): int {
    d.id
  }

  /** The department as a dropdown entry. */
  function DepartmentItem(dep: Department): DropDownDto {
    DropDownDto(dep.id, dep.name)
  }

  /** The project as a dropdown entry. */
  function ProjectItem(proj: Project): DropDownDto {
    DropDownDto(proj.id, proj.name)
  }

  /** `getDepartments`, given what `departmentRepository.findAll()` returned. */
  function GetDepartments(departments: seq<Department>): (r: seq<DropDownDto>)
    ensures departments == [] ==> r == []
    ensures |r| == |departments|
    ensures multiset(r) == multiset(seq(|departments|, i requires 0 <= i < |departments| => DepartmentItem(departments[i])))
    ensures SortedBy(r, IdKey)
    ensures forall o :: o in r ==> exists dep :: dep in departments && o == DepartmentItem(dep)
  {
    if |departments| == 0 then []
    else
      var items := seq(|departments|, i requires 0 <= i < |departments| => DepartmentItem(departments[i]));
      var r := SortByKey(items, IdKey);
      assert forall o :: o in r ==> o in items by {
        forall o | o in r ensures o in items {
          assert o in multiset(r);
        }
      }
      r
  }

  /** `getProjects`: the same contract as `getDepartments`, over the projects. */
  function GetProjects(projects: seq<Project>): (r: seq<DropDownDto>)
    ensures projects == [] ==> r == []
    ensures |r| == |projects|
    ensures multiset(r) == multiset(seq(|projects|, i requires 0 <= i < |projects| => ProjectItem(projects[i])))
    ensures SortedBy(r, IdKey)
    ensures forall o :: o in r ==> exists proj :: proj in projects && o == ProjectItem(proj)
  {
    if |projects| == 0 then []
    else
      var items := seq(|projects|, i requires 0 <= i < |projects| => ProjectItem(projects[i]));
      var r := SortByKey(items, IdKey);
      assert forall o :: o in r ==> o in items by {
        forall o | o in r ensures o in items {
          assert o in multiset(r);
        }
      }
      r
  }

  /**
   * Entries with the same id keep the repository's order: the sort reorders
   * only entries whose ids differ.
   */
  lemma DepartmentsStableForEqualIds(departments: seq<Department>, id: int)
    ensures WithKey(GetDepartments(departments), IdKey, id)
         == WithKey(seq(|departments|, i requires 0 <= i < |departments| => DepartmentItem(departments[i])), IdKey, id)
  {
    if |departments| > 0 {
      SortStable(seq(|departments|, i requires 0 <= i < |departments| => DepartmentItem(departments[i])), IdKey, id);
    }
  }

  /** Projects with the same id keep the repository's order, as departments do. */
  lemma ProjectsStableForEqualIds(projects: seq<Project>, id: int)
    ensures WithKey(GetProjects(projects), IdKey, id)
         == WithKey(seq(|projects|, i requires 0 <= i < |projects| => ProjectItem(projects[i])), IdKey, id)
  {
    if |projects| > 0 {
      SortStable(seq(|projects|, i requires 0 <= i < |projects| => ProjectItem(projects[i])), IdKey, id);
    }
  }

  /**
   * The lists are ordered by id, not alphabetically by name: departments 1 "Sales"
   * and 2 "Engineering" come out with "Sales" first.
   */
  lemma DepartmentsNotOrderedByName()
    ensures GetDepartments([Department(1, Some("Sales")), Department(2, Some("Engineering"))])
         == [DropDownDto(1, Some("Sales")), DropDownDto(2, Some("Engineering"))]
  {
    var deps := [Department(1, Some("Sales")), Department(2, Some("Engineering"))];
    var items := seq(|deps|, i requires 0 <= i < |deps| => DepartmentItem(deps[i]));
    assert items == [DropDownDto(1, Some("Sales")), DropDownDto(2, Some("Engineering"))];
    assert items[1..] == [DropDownDto(2, Some("Engineering"))];
    assert items[1..][1..] == [];
  }
}
