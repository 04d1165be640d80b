/**
 * The employee lookup service (`EmployeeServiceImpl`): the review-history cap
 * applied on a single fetch, the search filter built from optional criteria,
 * and the two entry points that fetch, select and map.
 *
 * The store is the sequence of employee snapshots the repository holds, in
 * the order it returns them. `findById` is the first employee with the id;
 * `findAll(specification)` keeps, in order, the employees the predicate
 * accepts.
 */
module EmployeeService {
  import opened Wrappers
  import opened Dates
  import opened Sorting
  import opened Entities
  import opened Dtos
  import opened Mapper

  /** The exceptions that leave the service. */
  datatype Failure =
    | ResourceNotFound(resourceName: string, fieldName: string)
    | DatabaseAccessError
    | NullPointer
    | IllegalArgument

  // =================================================== review-history selection

  /** Every review has a date and none is later than one before it. */
  predicate NewestFirst(reviews: seq<PerformanceReview>) {
    && AllDated(reviews)
    && forall i, j :: 0 <= i < j < |reviews| ==>
         reviews[i].reviewDate.Some? && reviews[j].reviewDate.Some?
         && !After(reviews[j].reviewDate.value, reviews[i].reviewDate.value)
  }

  /**
   * `processEmployeeReviews`. A `null` or empty collection selects nothing; a
   * collection within the cap is returned as it is; a larger one is sorted
   * newest first (stably) and cut to the cap. A negative cap makes
   * `Stream.limit` throw; a review without a date makes the comparator throw,
   * unless there is a single review and nothing is compared.
   */
  function ProcessEmployeeReviews(reviews: Option<seq<PerformanceReview>>, maxReviewsCount: int)
    : (r: Result<seq<PerformanceReview>, Failure>)
    ensures Elements(reviews) == [] ==> r == Ok([])
    ensures 0 < |Elements(reviews)| <= maxReviewsCount ==> r == Ok(Elements(reviews))
    ensures 0 < |Elements(reviews)| && maxReviewsCount < 0 ==> r == Err(IllegalArgument)
    ensures |Elements(reviews)| > maxReviewsCount >= 0 ==>
              (r.Err? <==> |Elements(reviews)| >= 2 && !AllDated(Elements(reviews)))
              && (r.Err? ==> r.error == NullPointer)
  {
    var xs := Elements(reviews);
    if |xs| == 0 then Ok([])
    else if |xs| <= maxReviewsCount then Ok(xs)
    else if maxReviewsCount < 0 then Err(IllegalArgument)
    else if |xs| >= 2 && !AllDated(xs) then Err(NullPointer)
    else Ok(SortByKey(xs, NewestFirstKey)[..maxReviewsCount])
  }

  lemma NewestFirstOfSortedKeys(s: seq<PerformanceReview>)
    requires AllDated(s) && SortedBy(s, NewestFirstKey)
    ensures NewestFirst(s)
  {
    forall i, j | 0 <= i < j < |s|
      ensures !After(s[j].reviewDate.value, s[i].reviewDate.value)
    {
      OrdinalOrder(s[j].reviewDate.value, s[i].reviewDate.value);
    }
  }

  /** The first `k` of a newest-first sort are newest first, and none of the rest is newer than any of them. */
  lemma SortedPrefixIsNewest(sorted: seq<PerformanceReview>, k: nat)
    requires AllDated(sorted) && SortedBy(sorted, NewestFirstKey) && k <= |sorted|
    ensures NewestFirst(sorted[..k])
    ensures forall x, y :: x in sorted[..k] && y in sorted[k..] ==>
              x.reviewDate.Some? && y.reviewDate.Some?
              && !After(y.reviewDate.value, x.reviewDate.value)
  {
    var sel := sorted[..k];
    assert AllDated(sel);
    assert SortedBy(sel, NewestFirstKey);
    NewestFirstOfSortedKeys(sel);
    PrefixKeysBelowSuffix(sorted, NewestFirstKey, k);
    forall x, y | x in sorted[..k] && y in sorted[k..]
      ensures x.reviewDate.Some? && y.reviewDate.Some?
      ensures !After(y.reviewDate.value, x.reviewDate.value)
    {
      assert x in sorted && y in sorted;
      OrdinalOrder(y.reviewDate.value, x.reviewDate.value);
    }
  }

  /** No review of `all` left out of `kept` is newer than a review in `kept`. */
  ghost predicate NoneLeftOutIsNewer(kept: seq<PerformanceReview>, all: seq<PerformanceReview>) {
    forall x, y :: x in kept && y in multiset(all) - multiset(kept) ==>
      x.reviewDate.Some? && y.reviewDate.Some?
      && !After(y.reviewDate.value, x.reviewDate.value)
  }

  lemma SelectionIsSortedPrefix(reviews: Option<seq<PerformanceReview>>, maxReviewsCount: int)
    requires |Elements(reviews)| > maxReviewsCount >= 0
    requires ProcessEmployeeReviews(reviews, maxReviewsCount).Ok?
    ensures ProcessEmployeeReviews(reviews, maxReviewsCount).value
         == SortByKey(Elements(reviews), NewestFirstKey)[..maxReviewsCount]
    ensures |Elements(reviews)| >= 2 ==> AllDated(Elements(reviews))
  {
  }

  /** Cutting a newest-first permutation of `all` after `k` keeps the `k` newest reviews of `all`. */
  lemma SortedCutKeepsNewest(sorted: seq<PerformanceReview>, all: seq<PerformanceReview>, k: nat)
    requires multiset(sorted) == multiset(all) && AllDated(all)
    requires SortedBy(sorted, NewestFirstKey) && k <= |sorted|
    ensures NewestFirst(sorted[..k]) && NoneLeftOutIsNewer(sorted[..k], all)
  {
    var sel := sorted[..k];
    var rest := sorted[k..];
    assert sorted == sel + rest;
    assert multiset(all) - multiset(sel) == multiset(rest);
    assert AllDated(sorted) by {
      forall i | 0 <= i < |sorted| ensures sorted[i].reviewDate.Some? {
        assert sorted[i] in multiset(all);
      }
    }
    SortedPrefixIsNewest(sorted, k);
    forall x, y | x in sel && y in multiset(all) - multiset(sel)
      ensures x.reviewDate.Some? && y.reviewDate.Some?
      ensures !After(y.reviewDate.value, x.reviewDate.value)
    {
      assert y in rest;
    }
  }

  /**
   * Over the cap, the selection has exactly `maxReviewsCount` reviews taken
   * from the input, is ordered newest first, and no review left out is newer
   * than any review kept.
   */
  lemma SelectionKeepsNewest(reviews: Option<seq<PerformanceReview>>, maxReviewsCount: int)
    requires |Elements(reviews)| > maxReviewsCount >= 0
    requires ProcessEmployeeReviews(reviews, maxReviewsCount).Ok?
    ensures var sel := ProcessEmployeeReviews(reviews, maxReviewsCount).value;
      && |sel| == maxReviewsCount
      && multiset(sel) <= multiset(Elements(reviews))
      && NewestFirst(sel)
      && NoneLeftOutIsNewer(sel, Elements(reviews))
  {
    var xs := Elements(reviews);
    var sorted := SortByKey(xs, NewestFirstKey);
    SelectionIsSortedPrefix(reviews, maxReviewsCount);
    var sel := sorted[..maxReviewsCount];
    assert sorted == sel + sorted[maxReviewsCount..];
    assert multiset(sel) <= multiset(xs);
    if |xs| == 1 {
      assert sel == [];
    } else {
      SortedCutKeepsNewest(sorted, xs, maxReviewsCount);
    }
  }

  /**
   * An employee whose reviews meet their constraints (every review dated) never
   * makes the selection fail under a non-negative cap.
   */
  lemma ValidEmployeeSelectionSucceeds(e: Employee, maxReviewsCount: int)
    requires ValidEmployee(e) && maxReviewsCount >= 0
    ensures ProcessEmployeeReviews(e.performanceReviews, maxReviewsCount).Ok?
  {
    var xs := Elements(e.performanceReviews);
    assert AllDated(xs) by {
      forall k | 0 <= k < |xs| ensures xs[k].reviewDate.Some? {
        assert ValidReview(xs[k]);
      }
    }
  }

  lemma {:induction false} WithKeyPrefix<T>(s: seq<T>, key: T -> int, v: int, k: nat)
    requires k <= |s|
    ensures WithKey(s[..k], key, v) <= WithKey(s, key, v)
  {
    if k > 0 {
      assert s[..k][1..] == s[1..][..k - 1];
      WithKeyPrefix(s[1..], key, v, k - 1);
    }
  }

  /**
   * Reviews of the same date are kept in encounter order: those of a given
   * date that are selected are the first ones of that date in the input.
   */
  lemma SelectionTiesInEncounterOrder(reviews: Option<seq<PerformanceReview>>, maxReviewsCount: int, d: Date)
    requires |Elements(reviews)| > maxReviewsCount >= 0
    requires ProcessEmployeeReviews(reviews, maxReviewsCount).Ok?
    ensures WithKey(ProcessEmployeeReviews(reviews, maxReviewsCount).value, NewestFirstKey, -Ordinal(d))
         <= WithKey(Elements(reviews), NewestFirstKey, -Ordinal(d))
  {
    var xs := Elements(reviews);
    SortStable(xs, NewestFirstKey, -Ordinal(d));
    WithKeyPrefix(SortByKey(xs, NewestFirstKey), NewestFirstKey, -Ordinal(d), maxReviewsCount);
  }

  /**
   * A collection that arrives newest first, as the `reviewDate DESC` ordering
   * of the association delivers it, is selected newest first whatever the cap.
   */
  lemma SelectionOfOrderedInputIsOrdered(reviews: Option<seq<PerformanceReview>>, maxReviewsCount: int)
    requires NewestFirst(Elements(reviews))
    requires ProcessEmployeeReviews(reviews, maxReviewsCount).Ok?
    ensures NewestFirst(ProcessEmployeeReviews(reviews, maxReviewsCount).value)
  {
    if |Elements(reviews)| > maxReviewsCount >= 0 {
      SelectionKeepsNewest(reviews, maxReviewsCount);
    }
  }

  // ========================================================= filter composition

  /** A key of the JSON filter object: missing, mapped to `null`, or holding a value. */
  datatype Field<T> = Absent | Null | Present(value: T)

  /** The filter object: department names, project names and a review date. */
  datatype FilterCriteria = FilterCriteria(
    department: Field<seq<string>>,
    projects: Field<seq<string>>,
    reviewDate: Field<string>)

  /**
   * A criterion is active when its key holds a non-empty value: a non-empty
   * list of names, or a non-empty date string.
   */
  function Active<T>(f: Field<seq<T>>): (r: Option<seq<T>>)
    ensures r.Some? <==> f.Present? && f.value != []
    ensures r.Some? ==> r.value == f.value
  {
    if f.Present? && |f.value| > 0 then Some(f.value) else None
  }

  /** An active date criterion must parse with `java.sql.Date.valueOf`. */
  predicate FilterValid(c: FilterCriteria) {
    Active(c.reviewDate).Some? ==> ParseSqlDate(Active(c.reviewDate).value).Some?
  }

  /** One JPA predicate added by an `apply…Filter` method. */
  datatype Criterion =
    | DepartmentIn(names: seq<string>)
    | ProjectIn(names: seq<string>)
    | ReviewedOn(date: Date)

  /** The predicate handed to `findAll`: `cb.conjunction()` or `cb.and(...)`. */
  datatype Predicate = Conjunction | And(parts: seq<Criterion>)

  predicate InDepartment(e: Employee, names: seq<string>) {
    e.department.Some? && e.department.value.name.Some? && e.department.value.name.value in names
  }

  predicate OnProject(e: Employee, names: seq<string>) {
    exists a :: a in Elements(e.employeeProjects)
      && a.project.Some? && a.project.value.name.Some? && a.project.value.name.value in names
  }

  predicate ReviewedOnDate(e: Employee, d: Date) {
    exists r :: r in Elements(e.performanceReviews) && r.reviewDate == Some(d)
  }

  predicate Holds(c: Criterion, e: Employee) {
    match c
    case DepartmentIn(names) => InDepartment(e, names)
    case ProjectIn(names) => OnProject(e, names)
    case ReviewedOn(d) => ReviewedOnDate(e, d)
  }

  predicate Satisfies(p: Predicate, e: Employee) {
    match p
    case Conjunction => true
    case And(parts) => forall c :: c in parts ==> Holds(c, e)
  }

  /**
   * The search's meaning, stated directly: each active criterion holds of the
   * employee, and inactive ones impose nothing.
   */
  predicate Matches(c: FilterCriteria, e: Employee)
    requires FilterValid(c)
  {
    && (Active(c.department).Some? ==> InDepartment(e, Active(c.department).value))
    && (Active(c.projects).Some? ==> OnProject(e, Active(c.projects).value))
    && (Active(c.reviewDate).Some? ==>
          ReviewedOnDate(e, ParseSqlDate(Active(c.reviewDate).value).value))
  }

  /** The employees of the store that match the criteria, in store order. */
  function Matching(store: seq<Employee>, c: FilterCriteria): (r: seq<Employee>)
    requires FilterValid(c)
    ensures multiset(r) <= multiset(store)
    ensures forall e :: e in r <==> e in store && Matches(c, e)
  {
    if store == [] then []
    else
      assert store == [store[0]] + store[1..];
      (if Matches(c, store[0]) then [store[0]] else []) + Matching(store[1..], c)
  }

  /** `employeeRepository.findAll(specification)`: the employees the predicate accepts, in store order. */
  function FindAll(store: seq<Employee>, p: Predicate): (r: seq<Employee>)
    ensures multiset(r) <= multiset(store)
    ensures forall e :: e in r <==> e in store && Satisfies(p, e)
  {
    if store == [] then []
    else
      assert store == [store[0]] + store[1..];
      (if Satisfies(p, store[0]) then [store[0]] else []) + FindAll(store[1..], p)
  }

  /** The list of JPA predicates collected while composing the filter. */
  class PredicateList {
    var items: seq<Criterion>

    constructor ()
      ensures items == []
    {
      items := [];
    }

    method Add(c: Criterion)
      modifies this
      ensures items == old(items) + [c]
    {
      items := items + [c];
    }
  }

  function DepartmentPart(c: FilterCriteria): seq<Criterion> {
    if Active(c.department).Some? then [DepartmentIn(Active(c.department).value)] else []
  }

  function ProjectPart(c: FilterCriteria): seq<Criterion> {
    if Active(c.projects).Some? then [ProjectIn(Active(c.projects).value)] else []
  }

  function ReviewDatePart(c: FilterCriteria): seq<Criterion>
    requires FilterValid(c)
  {
    if Active(c.reviewDate).Some?
    then [ReviewedOn(ParseSqlDate(Active(c.reviewDate).value).value)]
    else []
  }

  /** `applyDepartmentFilter`: adds the department-name criterion when the key holds a non-empty list. */
  method ApplyDepartmentFilter(criteria: FilterCriteria, predicates: PredicateList)
    modifies predicates
    ensures predicates.items == old(predicates.items) + DepartmentPart(criteria)
  {
    if criteria.department != Absent {
      if criteria.department.Present? && |criteria.department.value| > 0 {
        predicates.Add(DepartmentIn(criteria.department.value));
      }
    }
  }

  /** `applyProjectFilter`: adds the project-name criterion when the key holds a non-empty list. */
  method ApplyProjectFilter(criteria: FilterCriteria, predicates: PredicateList)
    modifies predicates
    ensures predicates.items == old(predicates.items) + ProjectPart(criteria)
  {
    if criteria.projects != Absent {
      if criteria.projects.Present? && |criteria.projects.value| > 0 {
        predicates.Add(ProjectIn(criteria.projects.value));
      }
    }
  }

  /**
   * `applyReviewDateFilter`: parses a non-empty date string and adds the
   * review-date criterion; `false` is the `IllegalArgumentException` of a
   * string that does not parse, with nothing added.
   */
  method ApplyReviewDateFilter(criteria: FilterCriteria, predicates: PredicateList) returns (ok: bool)
    modifies predicates
    ensures ok == FilterValid(criteria)
    ensures ok ==> predicates.items == old(predicates.items) + ReviewDatePart(criteria)
    ensures !ok ==> predicates.items == old(predicates.items)
  {
    ok := true;
    if criteria.reviewDate != Absent {
      if criteria.reviewDate.Present? && |criteria.reviewDate.value| > 0 {
        var reviewDate := ParseSqlDate(criteria.reviewDate.value);
        if reviewDate.None? {
          return false;
        }
        predicates.Add(ReviewedOn(reviewDate.value));
      }
    }
  }

  /** The conjunction of the collected criteria is the direct reading of the filter. */
  lemma ComposedPredicateMeaning(c: FilterCriteria, p: Predicate, e: Employee)
    requires FilterValid(c)
    requires var items := DepartmentPart(c) + ProjectPart(c) + ReviewDatePart(c);
      p == if items == [] then Conjunction else And(items)
    ensures Satisfies(p, e) <==> Matches(c, e)
  {
    var items := DepartmentPart(c) + ProjectPart(c) + ReviewDatePart(c);
    if Active(c.department).Some? {
      assert DepartmentIn(Active(c.department).value) in items;
    }
    if Active(c.projects).Some? {
      assert ProjectIn(Active(c.projects).value) in items;
    }
    if Active(c.reviewDate).Some? {
      assert ReviewedOn(ParseSqlDate(Active(c.reviewDate).value).value) in items;
    }
  }

  lemma {:induction false} FindAllIsMatching(store: seq<Employee>, p: Predicate, c: FilterCriteria)
    requires FilterValid(c)
    requires forall e :: Satisfies(p, e) <==> Matches(c, e)
    ensures FindAll(store, p) == Matching(store, c)
  {
    if store != [] {
      FindAllIsMatching(store[1..], p, c);
    }
  }

  /** Running the composed predicate returns exactly the matching employees. */
  lemma ComposedSearchIsMatching(store: seq<Employee>, c: FilterCriteria, p: Predicate)
    requires FilterValid(c)
    requires var items := DepartmentPart(c) + ProjectPart(c) + ReviewDatePart(c);
      p == if items == [] then Conjunction else And(items)
    ensures FindAll(store, p) == Matching(store, c)
  {
    forall e | true ensures Satisfies(p, e) <==> Matches(c, e) {
      ComposedPredicateMeaning(c, p, e);
    }
    FindAllIsMatching(store, p, c);
  }

  /**
   * `findEmployeesWithFilters`: composes the criteria into one predicate and
   * runs it. A review date that does not parse fails the whole search before
   * any employee is read.
   */
  method FindEmployeesWithFilters(store: seq<Employee>, criteria: FilterCriteria)
    returns (r: Result<seq<Employee>, Failure>)
    ensures !FilterValid(criteria) ==> r == Err(IllegalArgument)
    ensures FilterValid(criteria) ==> r == Ok(Matching(store, criteria))
  {
    var predicates := new PredicateList();
    ApplyDepartmentFilter(criteria, predicates);
    ApplyProjectFilter(criteria, predicates);
    var ok := ApplyReviewDateFilter(criteria, predicates);
    if !ok {
      return Err(IllegalArgument);
    }
    var p := if predicates.items == [] then Conjunction else And(predicates.items);
    ComposedSearchIsMatching(store, criteria, p);
    r := Ok(FindAll(store, p));
  }

  /** No key active: every employee of the store matches, in store order. */
  lemma {:induction false} NoCriteriaMatchesAll(store: seq<Employee>, c: FilterCriteria)
    requires Active(c.department).None? && Active(c.projects).None?
    requires Active(c.reviewDate).None?
    ensures Matching(store, c) == store
  {
    if store != [] {
      NoCriteriaMatchesAll(store[1..], c);
    }
  }

  /** `narrower` keeps every active key of `wider` with the same value, and may activate more. */
  predicate Narrows(narrower: FilterCriteria, wider: FilterCriteria) {
    && (Active(wider.department).Some? ==> Active(narrower.department) == Active(wider.department))
    && (Active(wider.projects).Some? ==> Active(narrower.projects) == Active(wider.projects))
    && (Active(wider.reviewDate).Some? ==> Active(narrower.reviewDate) == Active(wider.reviewDate))
  }

  /** Activating more criteria can only remove employees from the result. */
  lemma {:induction false} MoreCriteriaFewerMatches(store: seq<Employee>, narrower: FilterCriteria, wider: FilterCriteria)
    requires FilterValid(narrower) && FilterValid(wider)
    requires Narrows(narrower, wider)
    ensures multiset(Matching(store, narrower)) <= multiset(Matching(store, wider))
  {
    if store != [] {
      MoreCriteriaFewerMatches(store[1..], narrower, wider);
    }
  }

  // ============================================================ entry points

  /** `employeeRepository.findById`: the first employee of the store with the id. */
  function FindById(store: seq<Employee>, id: int): (r: Option<Employee>)
    ensures r.Some? ==> r.value in store && r.value.id == id
    ensures r.None? <==> forall e :: e in store ==> e.id != id
  {
    if store == [] then None
    else if store[0].id == id then Some(store[0])
    else FindById(store[1..], id)
  }

  /**
   * `fetchEmployeeById`. The not-found exception is raised inside the `try`
   * and lands in the generic handler, so a missing employee surfaces as the
   * database-access `RuntimeException`.
   */
  function FetchEmployeeById(store: seq<Employee>, id: int): (r: Result<Employee, Failure>)
    ensures r.Ok? ==> r.value in store && r.value.id == id
    ensures r.Err? <==> forall e :: e in store ==> e.id != id
    ensures r.Err? ==> r.error == DatabaseAccessError
  {
    match FindById(store, id)
    case Some(e) => Ok(e)
    case None => Err(DatabaseAccessError)
  }

  /** `getEmployeesData`: fetch, cap the review history, map. */
  method GetEmployeesData(store: seq<Employee>, id: int, maxReviewsCount: int)
    returns (r: Result<EmployeeDto, Failure>)
    ensures (forall e :: e in store ==> e.id != id) ==> r == Err(DatabaseAccessError)
    ensures FetchEmployeeById(store, id).Ok? ==>
      var e := FetchEmployeeById(store, id).value;
      var selected := ProcessEmployeeReviews(e.performanceReviews, maxReviewsCount);
      && (selected.Err? ==> r == Err(selected.error))
      && (selected.Ok? ==> r.Ok? && IsProfileOf(r.value, e, e.employeeProjects, Some(selected.value)))
  {
    var fetched := FetchEmployeeById(store, id);
    if fetched.Err? {
      return Err(fetched.error);
    }
    var employee := fetched.value;
    var filteredReviews := ProcessEmployeeReviews(employee.performanceReviews, maxReviewsCount);
    if filteredReviews.Err? {
      return Err(filteredReviews.error);
    }
    var dto := MapToEmployeeDto(employee, employee.employeeProjects, Some(filteredReviews.value));
    r := Ok(dto);
  }

  /** On a single fetch the record lists at most `maxReviewsCount` reviews, and exactly that many over the cap. */
  lemma FetchedReviewsCapped(e: Employee, maxReviewsCount: int, selected: seq<PerformanceReview>, d: EmployeeDto)
    requires ProcessEmployeeReviews(e.performanceReviews, maxReviewsCount) == Ok(selected)
    requires IsProfileOf(d, e, e.employeeProjects, Some(selected))
    requires d.performanceReviews.Some?
    ensures |d.performanceReviews.value| <= |Elements(e.performanceReviews)|
    ensures |Elements(e.performanceReviews)| > 0 ==> |d.performanceReviews.value| <= maxReviewsCount
    ensures |Elements(e.performanceReviews)| > maxReviewsCount >= 0 ==> |d.performanceReviews.value| == maxReviewsCount
  {
    if |Elements(e.performanceReviews)| > maxReviewsCount >= 0 {
      SelectionKeepsNewest(e.performanceReviews, maxReviewsCount);
    }
  }

  /** `validateSearchResults`: an empty result is the not-found exception. */
  function ValidateSearchResults(employees: seq<Employee>): (r: Option<Failure>)
    ensures r.Some? <==> employees == []
    ensures r.Some? ==> r.value == ResourceNotFound("Employee", "filterCriteria")
  {
    if employees == [] then Some(ResourceNotFound("Employee", "filterCriteria")) else None
  }

  /** `mapEmployeesToDtos`: one record per employee, in order, with every review (no cap). */
  method MapEmployeesToDtos(employees: seq<Employee>) returns (dtos: seq<EmployeeDto>)
    ensures |dtos| == |employees|
    ensures forall i :: 0 <= i < |employees| ==>
      IsProfileOf(dtos[i], employees[i], employees[i].employeeProjects, employees[i].performanceReviews)
  {
    dtos := [];
    for i := 0 to |employees|
      invariant |dtos| == i
      invariant forall k :: 0 <= k < i ==>
        IsProfileOf(dtos[k], employees[k], employees[k].employeeProjects, employees[k].performanceReviews)
    {
      var dto := MapToEmployeeDto(employees[i], employees[i].employeeProjects, employees[i].performanceReviews);
      dtos := dtos + [dto];
    }
  }

  /** `getAllEmployeesData`: filter, fail on an empty result, map every match. */
  method GetAllEmployeesData(store: seq<Employee>, filterCriteria: FilterCriteria)
    returns (r: Result<seq<EmployeeDto>, Failure>)
    ensures !FilterValid(filterCriteria) ==> r == Err(IllegalArgument)
    ensures FilterValid(filterCriteria) && Matching(store, filterCriteria) == [] ==>
      r == Err(ResourceNotFound("Employee", "filterCriteria"))
    ensures FilterValid(filterCriteria) && Matching(store, filterCriteria) != [] ==>
      var m := Matching(store, filterCriteria);
      && r.Ok? && |r.value| == |m|
      && forall i :: 0 <= i < |m| ==>
           IsProfileOf(r.value[i], m[i], m[i].employeeProjects, m[i].performanceReviews)
  {
    var employees := FindEmployeesWithFilters(store, filterCriteria);
    if employees.Err? {
      return Err(employees.error);
    }
    var invalid := ValidateSearchResults(employees.value);
    if invalid.Some? {
      return Err(invalid.value);
    }
    var dtos := MapEmployeesToDtos(employees.value);
    r := Ok(dtos);
  }

  /** A search lists all of a matched employee's reviews, however many there are. */
  lemma SearchListsEveryReview(d: EmployeeDto, e: Employee)
    requires IsProfileOf(d, e, e.employeeProjects, e.performanceReviews)
    requires d.performanceReviews.Some?
    ensures |d.performanceReviews.value| == |Elements(e.performanceReviews)|
    ensures forall k :: 0 <= k < |Elements(e.performanceReviews)| ==>
      d.performanceReviews.value[k].id == Some(Elements(e.performanceReviews)[k].id)
  {
  }
}
