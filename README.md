# Employee lookup service: a Dafny model

This project models the decision logic of a Spring Boot employee service.

- **Single fetch** (`EmployeeServiceImpl.getEmployeesData`): look up an employee by id, cap its review history at `maxReviewsCount`, and project it onto an `EmployeeDto`. The cap keeps the newest reviews, newest first.
- **Search** (`getAllEmployeesData`): compose a filter from up to three optional criteria (department names, project names, a review date), keep the matching employees, fail when none match, and map every match with all of its reviews.
- **Projection** (`EmployeeMapper`): null-safe date formatting, name-or-default lookups with the "No Manager" / "No Department" sentinels, and one record per assignment and per review. A catch-all handler leaves a record partly filled when a step fails.
- **Dropdowns** (`DataServiceImpl`): departments and projects as `{id, name}` pairs, sorted by ascending id.
- **Review order** (`PerformanceReview.compareTo`): newer reviews first, plus the constraints that a review has a date and a score in 0.00..10.00.

The repository is a sequence of immutable employee snapshots in the order it returns them. Every column or reference that Java may hold as `null` is an `Option`, except the ids, which are persisted keys. A `Set` association is the sequence of its elements in iteration order. Exceptions that leave the service are the `Failure` values of a `Result`.

Modules:
- `Wrappers`: `Option` and `Result`.
- `Dates`: calendar dates, `java.util.Date.compareTo`, `yyyy-MM-dd` text and `java.sql.Date.valueOf`.
- `Sorting`: a stable sort by an integer key.
- `Entities` and `Dtos`: the records.
- `Mapper`: `EmployeeMapper`.
- `DataService`: `DataServiceImpl`.
- `EmployeeService`: `EmployeeServiceImpl`.

The field-filling mapper methods and the filter composer change state step by step, as the code does. The mapper methods fill a record field by field and return early where Java throws into the catch-all. The filter composer appends to a `PredicateList` object. The selection, the dropdowns and `compareTo` are functions.

Where the documentation and the code disagree, the model follows the code:
- The dropdown controller documents its lists as sorted by name (`DataController.java:52` and `:91`), but the service sorts by id. `DataService.DepartmentsNotOrderedByName` exhibits an input where the two orders differ.
- An unknown id on the single-fetch path is documented as `ResourceNotFoundException`. In the code, the not-found exception is thrown inside the `try` and caught by `catch (Exception e)`. It therefore reaches the caller as the generic database-access `RuntimeException` (`DatabaseAccessError`).

## Model

| member | source | states |
|---|---|---|
| Dates.Compare | src/main/java/com/crm/entity/PerformanceReview.java:108 | the date comparison returns -1, 0 or 1, and 0 exactly when the dates are equal |
| Dates.CompareAntisymmetric | src/main/java/com/crm/entity/PerformanceReview.java:108 | swapping the compared dates negates the result |
| Dates.AfterTotalOrder | src/main/java/com/crm/entity/PerformanceReview.java:106-109 | "later than" is irreflexive, asymmetric, total on distinct dates and transitive |
| Dates.OrdinalOrder | src/main/java/com/crm/service/impl/EmployeeServiceImpl.java:124 | a later date has a strictly larger day number, and equal dates equal numbers, so sorting by that number is sorting by date |
| Dates.IsoString | src/main/java/com/crm/mapper/EmployeeMapper.java:25 | the `yyyy-MM-dd` text of a date is four digits spelling the year, a dash, two digits spelling the month, a dash and two digits spelling the day, and `java.sql.Date.valueOf` reads it back as the same date |
| Dates.ParseSqlDate | src/main/java/com/crm/service/impl/EmployeeServiceImpl.java:208 | `java.sql.Date.valueOf`: a text that parses has 8..10 characters, its first dash at index 4 and a second dash after one or two characters, and the date is the `Integer.parseInt` values of the three slices; anything else is the `IllegalArgumentException` (`None`) |
| Dates.WellFormedParses | src/main/java/com/crm/service/impl/EmployeeServiceImpl.java:208 | every text of four digits, a dash, one or two digits, a dash and one or two digits, with a non-zero year, month 1..12 and day 1..31, parses to the date those numbers spell |
| Dates.IsoStringParses | src/main/java/com/crm/mapper/EmployeeMapper.java:25 | parsing the padded year-month-day text yields the date it was made from |
| Entities.CompareTo | src/main/java/com/crm/entity/PerformanceReview.java:106-109 | `compareTo` fails (`None`) exactly when either review has no date |
| Entities.CompareToNewestFirst | src/main/java/com/crm/entity/PerformanceReview.java:106-109 | `a.compareTo(b)` is negative iff a is later, zero iff the dates are equal whatever the other fields, and positive iff b is later |
| Entities.CompareToAntisymmetric | src/main/java/com/crm/entity/PerformanceReview.java:107-109 | `a.compareTo(b)` is the negation of `b.compareTo(a)` |
| Entities.CompareToMatchesKey | src/main/java/com/crm/service/impl/EmployeeServiceImpl.java:124 | `compareTo` and the selection's comparator order reviews as the newest-first key does |
| Sorting.Insert | src/main/java/com/crm/service/impl/EmployeeServiceImpl.java:124 | inserting into a sorted sequence keeps it sorted and adds exactly the one element |
| Sorting.SortByKey | src/main/java/com/crm/service/impl/EmployeeServiceImpl.java:124 | the sort's output is a sorted permutation of its input |
| Sorting.SortStable | src/main/java/com/crm/service/impl/EmployeeServiceImpl.java:124 | elements with equal keys keep their encounter order |
| Sorting.PrefixKeysBelowSuffix | src/main/java/com/crm/service/impl/EmployeeServiceImpl.java:124-126 | in a sorted sequence, no element after the cut has a smaller key than one before it |
| Mapper.FormatDate | src/main/java/com/crm/mapper/EmployeeMapper.java:32-34 | null stays null; a date becomes `yyyy-MM-dd` text (ten characters, digits except the dashes at 4 and 7) that parses back to it |
| Mapper.NameOrDefault | src/main/java/com/crm/mapper/EmployeeMapper.java:42-49 | the default for a null entity or a null name, otherwise the entity's name |
| Mapper.MapToProjectDto | src/main/java/com/crm/mapper/EmployeeMapper.java:56-65 | copies id and name, formats both dates (null stays null), and defaults a missing department to "No Department" |
| Mapper.MapToReviewDto | src/main/java/com/crm/mapper/EmployeeMapper.java:72-80 | copies id, score and comments and renders the date; a review without a date fails |
| Mapper.MapToEmployeeDto | src/main/java/com/crm/mapper/EmployeeMapper.java:82-120 | the seven scalar fields are always set; the project list is set iff every assignment has a project, one record each in order; the review list is set iff, in addition, every review has a date, one record each in order; otherwise the lists stay null |
| Mapper.ProfileDeterministic | src/main/java/com/crm/mapper/EmployeeMapper.java:82-120 | the record built from a snapshot is unique: two records satisfying the profile contract are equal |
| Mapper.ValidEmployeeFullyMapped | src/main/java/com/crm/mapper/EmployeeMapper.java:82-120 | an employee meeting its entity constraints is mapped completely, one record per assignment and per review |
| Mapper.ProfileSentinels | src/main/java/com/crm/mapper/EmployeeMapper.java:92-93 | a null manager gives "No Manager", a null department "No Department"; a named one gives its name |
| Mapper.MissingProjectLeavesListsUnset | src/main/java/com/crm/mapper/EmployeeMapper.java:96-118 | an assignment without a project leaves both lists null but the scalar fields set |
| DataService.GetDepartments | src/main/java/com/crm/service/impl/DataServiceImpl.java:47-66 | empty in, empty out; otherwise a permutation of the mapped departments, ascending by id, each entry the id and name of an input department |
| DataService.GetProjects | src/main/java/com/crm/service/impl/DataServiceImpl.java:76-95 | the same contract over projects |
| DataService.DepartmentsStableForEqualIds | src/main/java/com/crm/service/impl/DataServiceImpl.java:64 | entries with equal ids keep the repository's order |
| DataService.ProjectsStableForEqualIds | src/main/java/com/crm/service/impl/DataServiceImpl.java:93 | projects with equal ids keep the repository's order |
| DataService.DepartmentsNotOrderedByName | src/main/java/com/crm/service/impl/DataServiceImpl.java:57-65 | "Sales" (id 1) is listed before "Engineering" (id 2): the order is by id, not by name |
| EmployeeService.ProcessEmployeeReviews | src/main/java/com/crm/service/impl/EmployeeServiceImpl.java:106-129 | null or empty gives an empty selection; within the cap the collection itself; a negative cap throws `IllegalArgumentException`; over the cap it fails with `NullPointerException` exactly when two or more reviews are present and one lacks a date |
| EmployeeService.NewestFirstOfSortedKeys | src/main/java/com/crm/service/impl/EmployeeServiceImpl.java:124 | dated reviews sorted by the newest-first key are newest first |
| EmployeeService.SortedPrefixIsNewest | src/main/java/com/crm/service/impl/EmployeeServiceImpl.java:122-126 | the first k of a newest-first sort are newest first, and none of the rest is newer than them |
| EmployeeService.SortedCutKeepsNewest | src/main/java/com/crm/service/impl/EmployeeServiceImpl.java:122-128 | cutting a newest-first permutation keeps a newest-first prefix, and no review left out is newer than a kept one |
| EmployeeService.SelectionKeepsNewest | src/main/java/com/crm/service/impl/EmployeeServiceImpl.java:122-128 | over the cap, the selection has exactly `maxReviewsCount` reviews drawn from the input, is newest first, and no omitted review is newer than a selected one |
| EmployeeService.ValidEmployeeSelectionSucceeds | src/main/java/com/crm/entity/PerformanceReview.java:33-36 | with every review dated, as the entity requires, the selection never fails under a non-negative cap |
| EmployeeService.SelectionTiesInEncounterOrder | src/main/java/com/crm/service/impl/EmployeeServiceImpl.java:122-126 | the selected reviews of any one date are the first reviews of that date in encounter order |
| EmployeeService.SelectionOfOrderedInputIsOrdered | src/main/java/com/crm/entity/Employee.java:63 | a collection delivered newest first is selected newest first, whatever the cap |
| EmployeeService.Active | src/main/java/com/crm/service/impl/EmployeeServiceImpl.java:176-178 | a criterion is active exactly when its key holds a non-empty list or string, and then it is that value; absent, null and empty keys impose nothing |
| EmployeeService.Matching | src/main/java/com/crm/service/impl/EmployeeServiceImpl.java:156-168 | the matches are drawn from the store, and an employee is among them iff it is in the store and meets every active criterion |
| EmployeeService.FindAll | src/main/java/com/crm/service/impl/EmployeeServiceImpl.java:157 | an employee is in the result iff it is in the store and satisfies the predicate; the result is drawn from the store |
| EmployeeService.PredicateList.Add | src/main/java/com/crm/service/impl/EmployeeServiceImpl.java:180 | appends one criterion to the collected list |
| EmployeeService.ApplyDepartmentFilter | src/main/java/com/crm/service/impl/EmployeeServiceImpl.java:175-183 | adds the department-name criterion iff the key holds a non-empty list; otherwise the list is unchanged |
| EmployeeService.ApplyProjectFilter | src/main/java/com/crm/service/impl/EmployeeServiceImpl.java:189-197 | adds the project-name criterion iff the key holds a non-empty list; otherwise the list is unchanged |
| EmployeeService.ApplyReviewDateFilter | src/main/java/com/crm/service/impl/EmployeeServiceImpl.java:202-212 | fails exactly when a non-empty date string does not parse, adding nothing; otherwise adds the parsed-date criterion iff the string is non-empty |
| EmployeeService.ComposedPredicateMeaning | src/main/java/com/crm/service/impl/EmployeeServiceImpl.java:166-167 | the conjunction of the collected criteria, or `conjunction()` when none, holds of an employee iff every active criterion does |
| EmployeeService.FindAllIsMatching | src/main/java/com/crm/service/impl/EmployeeServiceImpl.java:157-168 | running a predicate equivalent to the criteria returns exactly the matching employees |
| EmployeeService.ComposedSearchIsMatching | src/main/java/com/crm/service/impl/EmployeeServiceImpl.java:157-168 | running the predicate composed from the criteria returns exactly the matching employees |
| EmployeeService.FindEmployeesWithFilters | src/main/java/com/crm/service/impl/EmployeeServiceImpl.java:156-169 | an unparsable review date throws `IllegalArgumentException`; otherwise the result is exactly the matching employees in store order |
| EmployeeService.NoCriteriaMatchesAll | src/main/java/com/crm/service/impl/EmployeeServiceImpl.java:166 | with no active criterion every employee matches, in store order |
| EmployeeService.MoreCriteriaFewerMatches | src/main/java/com/crm/service/impl/EmployeeServiceImpl.java:166-167 | activating more criteria can only remove employees from the result |
| EmployeeService.FindById | src/main/java/com/crm/service/impl/EmployeeServiceImpl.java:85 | the lookup finds an employee with the id iff the store holds one |
| EmployeeService.FetchEmployeeById | src/main/java/com/crm/service/impl/EmployeeServiceImpl.java:82-96 | returns a stored employee with the id, and fails with the generic database-access error exactly when there is none |
| EmployeeService.GetEmployeesData | src/main/java/com/crm/service/impl/EmployeeServiceImpl.java:58-72 | an unknown id fails; otherwise a failing selection is passed on, and a successful one gives the profile of the employee with the selected reviews |
| EmployeeService.FetchedReviewsCapped | src/main/java/com/crm/service/impl/EmployeeServiceImpl.java:62-71 | a fetched record lists no more reviews than the employee has, at most the cap, and exactly the cap when the employee has more |
| EmployeeService.ValidateSearchResults | src/main/java/com/crm/service/impl/EmployeeServiceImpl.java:217-223 | fails with the not-found error exactly when the list is empty |
| EmployeeService.MapEmployeesToDtos | src/main/java/com/crm/service/impl/EmployeeServiceImpl.java:228-236 | one record per employee, in order, each the profile with all of that employee's reviews |
| EmployeeService.GetAllEmployeesData | src/main/java/com/crm/service/impl/EmployeeServiceImpl.java:140-151 | an unparsable date fails; no match fails with not-found; otherwise one profile per match, in match order, with all reviews |
| EmployeeService.SearchListsEveryReview | src/main/java/com/crm/service/impl/EmployeeServiceImpl.java:230-233 | a search record lists every review of the employee, in order, with no cap |

## Left out

- HTTP controllers, the response envelope and the exception handler are not part of this model. Among them is the controller's "id must be positive" check.
- The repositories are Spring Data interfaces with no bodies. The store is a sequence of snapshots. Duplicate rows from the search joins (no `distinct`) are persistence behaviour and are not modelled.
- The untyped JSON filter object is a typed record of three optional keys. A key holding a value of the wrong type raises `ClassCastException` in the code; the model does not represent such a key.
- `getNameOrDefault` calls `getName` by reflection. The model gives an entity an optional name; reflection failures other than a null name are not modelled.
- Dates are (year, month, day) triples with years 1..9999. Month lengths, leap years, time zones and the day rollover that `java.sql.Date.valueOf` performs for a day beyond the month's end are not modelled. Year 0000 and years beyond four digits are left out. Digits are ASCII only; `Integer.parseInt` also accepts other Unicode digits.
- The shared `SimpleDateFormat` is not thread-safe; concurrency is not modelled.
- Mapper.MapToReviewDto: renders the date as `yyyy-MM-dd`, the `toString` of the `java.sql.Date` the persistence layer loads; a plain `java.util.Date` would print differently.
- The `Double` salary and the `BigDecimal` score are copied through without arithmetic. The salary is a `real`, the score an integer number of hundredths.
- `ResourceNotFoundException` is assumed not to extend `EntityNotFoundException`; its source is not part of this model.
- Ids (`Employee`, `PerformanceReview`, `Department`, `Project`, `DropDownDto`) are plain integers: they are persisted keys and never null for a loaded entity. A null id, on which the dropdown sort's comparator would throw, is not modelled.
- Logging, configuration injection (`maxReviewsCount` is a parameter), transactions, the back-references from reviews and assignments to their employee, and the unused `reportees` and `projects` associations are not modelled.
- Sorting.SortByKey: the stream's TimSort is modelled as a stable insertion sort; only the result, not the comparisons made, is modelled. Failure on an undated review is decided up front: it happens whenever two or more reviews are sorted and one lacks a date.
- EmployeeService.SelectionTiesInEncounterOrder: stability is stated per date, as a prefix of the input's reviews with that date.
- EmployeeService.MapEmployeesToDtos: the stream `map` is a loop, because each step calls the record-filling method.
