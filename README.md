# HR training tracker: verified model of the data join and the admin roster

This project models the two pieces of logic in the HR training-compliance tracker
that are more than view glue:

- **The data service's denormalising join** (`src/data.service.ts`). An employee is
  resolved to its position and department by foreign key; the lookup fails (`null`,
  here `None`) at the first missing link. The result collects the employee's training
  records and the catalogue courses the position requires, and a completion percentage
  (completed required courses / required courses × 100, or 100 when nothing is
  required). The per-course status list (`getEmployeeCourses`), the join over all
  employees (`getAllEmployeesFullDetails`) and the two fixture accessors are modelled
  too. Everything is pure: the fixture arrays are a `Dataset` value passed to every
  function, and `find`/`filter`/`map` are the functions of module `Sequences`.
- **The admin roster** (`src/admin.component.ts`). Class `Admin.AdminComponent` holds
  the component's state (filter term, sort column and direction, course selection, the
  saving and loading flags, the form's pristine flag). `applyFilter`, `sortData`, the
  synchronous part of `onCourseSelectionChange` and the guard of `saveAssignments` are
  methods that update those fields; `filteredEmployees` and `selectedCourse` are
  functions reading them.

Modules: `Wrappers` (Option), `Records` (the record types and lookup keys),
`Sequences` (find, filter, map and their selection lemmas), `DataService`, `Text`
(trim, lower-case, `includes`, string order) and `Admin`.

Modelling choices:

- The completion percentage is a `real` computed from the two integer counts; there is
  no floating-point rounding.
- A `FullEmployee` holds the employee record in a field `employee` instead of
  spreading its fields into the result object. An `EmployeeCourse` holds its course
  in a field `course` in the same way.
- `trainingRecords.some(tr => tr.courseId === rc.id)` is `HasRecordFor`, an
  existential over the records.
- `filteredEmployees` sorts with an insertion sort on a sequence instead of the
  engine's in-place array sort. The comparator never returns 0 for two equal names,
  so the order of ties is unspecified; the model fixes one tie order and proves only
  what every correct sort gives: the result is ordered by full name and is a
  permutation of its input. When the sort column is not `'name'` the comparator
  always returns 0, and the engine's sort is stable, so the list keeps its order.
- `filteredEmployees` is a function that only reads the component. It therefore
  cannot change `allEmployeesDetails`, which is how the copy (`[...list]`) is captured.
- The constructor assumes that the component's data load delivers the fixture arrays
  themselves. The code as written cannot do that; see "## Left out".

## Model

| member | source | states |
|---|---|---|
| `Sequences.FindBy` | src/data.service.ts:19-25 | `find` by key: `None` exactly when no element has the key, otherwise the first element that has it |
| `Sequences.Filter` | src/data.service.ts:28-37 | `filter`: an element is kept exactly when it is in the input and satisfies the predicate; never longer than the input |
| `Sequences.FilterSelects` | src/data.service.ts:28-33 | a filter is the sub-sequence of exactly the positions whose element satisfies the predicate, in increasing position order |
| `Sequences.FilterAppend` | src/data.service.ts:28-33 | filtering a concatenation is the concatenation of the filters (input order is kept) |
| `Sequences.FilterKeepsAll` | src/data.service.ts:35-37 | a filter keeps as many elements as the input exactly when every element satisfies the predicate |
| `Sequences.FilterKeepsNone` | src/data.service.ts:35-37 | a filter keeps nothing exactly when no element satisfies the predicate |
| `Sequences.FilterSubMultiset` | src/data.service.ts:28-37 | a filter takes each element at most as often as the input holds it |
| `Sequences.Map` | src/data.service.ts:29-31 | `map`: the result is as long as the input and holds at each position the image of the input's element there |
| `Sequences.MapMembers` | src/data.service.ts:29-31 | a value is in a `map` exactly when some input element maps to it |
| `Sequences.FilterMap` | src/data.service.ts:15 | `map` then dropping nulls is never longer than the input, and exactly as long when no element maps to null |
| `Sequences.FilterMapMembers` | src/data.service.ts:15 | `map` then dropping nulls keeps a value exactly when some element maps to it |
| `Sequences.FilterMapAppend` | src/data.service.ts:15 | `map` then dropping nulls distributes over concatenation (input order is kept) |
| `DataService.TrainingRecordsOf` | src/data.service.ts:28 | a record is among the employee's training records exactly when it is in the fixture and its employee id is the employee's |
| `DataService.RequiredCourseIds` | src/data.service.ts:29-31 | an id is listed exactly when a position-course entry of this position names it |
| `DataService.RequiredCoursesOf` | src/data.service.ts:33 | a course is required exactly when it is in the catalogue and some position-course entry of the position names its id |
| `DataService.CompletedCourses` | src/data.service.ts:35-37 | a course counts as completed exactly when it is required and some training record names it |
| `DataService.GetEmployeeFullDetailsById` | src/data.service.ts:18-49 | on success: the first employee with the id, the first position with its position id, the first department with that position's department id; the records, required courses and percentage are those of this employee and position; the percentage lies in [0, 100] |
| `DataService.LookupFailsIffLinkMissing` | src/data.service.ts:18-26 | the lookup fails exactly when no employee has the id, or the employee's position id matches no position, or that position's department id matches no department |
| `DataService.TrainingRecordsSelected` | src/data.service.ts:28 | the training records are exactly the fixture records with the employee's id, in fixture order |
| `DataService.RequiredCoursesSelected` | src/data.service.ts:29-33 | the required courses are exactly the catalogue courses some entry of the position names, in catalogue order |
| `DataService.Percentage` | src/data.service.ts:39 | with completed at most required, the percentage lies in [0, 100], and it is 100 when nothing is required |
| `DataService.PercentageExtremes` | src/data.service.ts:39 | with at least one required course, the percentage is 100 exactly when all are completed and 0 exactly when none is |
| `DataService.CompletionExtremes` | src/data.service.ts:35-39 | for a resolved employee with required courses: 100 percent exactly when every required course has a training record, 0 percent exactly when none has |
| `DataService.FullDetailsOf` | src/data.service.ts:15 | the details of a list of employees: no more entries than employees, and an entry exactly for each successful lookup of an employee's id |
| `DataService.GetAllEmployeesFullDetails` | src/data.service.ts:14-16 | no more entries than employees; each entry is the successful lookup of some employee's id, and every successful lookup is present |
| `DataService.FullDetailsAppend` | src/data.service.ts:15 | the details of a concatenation are the concatenation of the details (employee order is kept) |
| `DataService.FullDetailsSingle` | src/data.service.ts:15 | one employee contributes its successful lookup, or nothing when the lookup fails |
| `DataService.SharedIdShadowsLater` | src/data.service.ts:15-19 | when a later employee shares its id with an earlier one (and is not itself a repeat of an earlier record), the later employee never appears in the details list, since every lookup of that id finds the earlier one |
| `DataService.GetAllEmployees` | src/data.service.ts:10-12 | every employee that has details is in the returned list |
| `DataService.GetAllCourses` | src/data.service.ts:65-67 | every course that any resolved employee is required to take is in the returned catalogue |
| `DataService.EmployeeCourseFor` | src/data.service.ts:55-61 | status Completed exactly when a record for the course exists, and then the date is the first such record's date; Pending has no date |
| `DataService.GetEmployeeCourses` | src/data.service.ts:51-63 | empty when the lookup fails; otherwise one entry per required course, in order, Completed with the first matching record's date exactly when a record exists, Pending with no date otherwise |
| `DataService.CountCompletedMatches` | src/data.service.ts:35-62 | the number of Completed entries is the completed count behind the percentage |
| `DataService.CoursesAgreeWithPercentage` | src/data.service.ts:35-62 | the percentage equals the share of Completed entries in the course list |
| `Text.Trim` | src/admin.component.ts:117 | the result has no whitespace at either end and is a slice of the input with only whitespace cut off on either side |
| `Text.Lower` | src/admin.component.ts:72 | the model's ASCII-only lower-casing keeps the length of the string |
| `Text.LowerMapsAsciiUpper` | src/admin.component.ts:72-76 | the model's ASCII-only lower-casing leaves no ASCII capital, turns each ASCII capital into its small letter and keeps every other character |
| `Text.Contains` | src/admin.component.ts:76 | `includes`: a match implies the term is no longer than the name; the empty term and the name itself always match |
| `Text.Normalize` | src/admin.component.ts:117 | the normalised term has no whitespace at either end and, with the model's ASCII-only lower-casing, is no longer than the input |
| `Text.NormalizeIdempotent` | src/admin.component.ts:115-118 | normalising a normalised term changes nothing |
| `Text.NormalizedIsLower` | src/admin.component.ts:72 | lower-casing a normalised term changes nothing |
| `Text.StrLess` | src/admin.component.ts:87 | string `<`: never true of equal strings; a proper prefix sorts first; a string never sorts before its own prefix |
| `Text.StrLessIrreflexive` | src/admin.component.ts:87 | no name sorts before itself |
| `Text.StrLessTransitive` | src/admin.component.ts:87 | the name order is transitive |
| `Text.StrLessTotal` | src/admin.component.ts:87 | two different names are ordered one way, and never both ways |
| `Admin.InOrder` | src/admin.component.ts:81-91 | one employee may precede another exactly when their full names are equal or the first name sorts before the second with `<` (the other way round when descending) |
| `Admin.InOrderTotal` | src/admin.component.ts:81-91 | of two employees, one may precede the other in either direction |
| `Admin.InOrderTransitive` | src/admin.component.ts:81-91 | the by-name ordering is transitive in both directions |
| `Admin.Insert` | src/admin.component.ts:81-91 | inserting into a sorted list gives a sorted list holding exactly one more copy of the element |
| `Admin.SortByName` | src/admin.component.ts:81-91 | the result is ordered by full name in the given direction and is a permutation of the input |
| `Admin.MatchingEmployees` | src/admin.component.ts:74-78 | an employee is kept exactly when it is in the list and its lower-cased full name contains the term |
| `Admin.NextSort` | src/admin.component.ts:120-127 | the new column is the given one; the same column flips the direction, another column resets it to ascending |
| `Admin.NextSortTwice` | src/admin.component.ts:120-127 | two calls on the current column restore the direction; on another column they leave it descending |
| `Admin.AdminComponent.constructor` | src/admin.component.ts:60-68 | the loaded courses and employee details; empty filter, sort by name ascending, nothing selected, nothing saving, pristine form |
| `Admin.AdminComponent.FilteredEmployees` | src/admin.component.ts:70-94 | an empty term gives a permutation of the loaded list; no entry occurs more often than in the loaded list; a term keeps exactly the employees whose lower-cased full name contains the lower-cased term; sorted by name in the sort direction for column 'name', otherwise in list order |
| `Admin.AdminComponent.StoredTermIsLower` | src/admin.component.ts:72 | under the invariant, the roster's lower-casing of the stored term is the identity |
| `Admin.AdminComponent.SelectedCourse` | src/admin.component.ts:107-111 | nothing for a null or 0 id; otherwise the first course with that id, nothing when no course has it |
| `Admin.AdminComponent.ApplyFilter` | src/admin.component.ts:115-118 | the stored term is the trimmed, lower-cased input and stays normalised; only the term changes |
| `Admin.AdminComponent.SortData` | src/admin.component.ts:120-127 | the new sort column and direction are `NextSort` of the old ones; nothing else changes and the stored term stays normalised |
| `Admin.AdminComponent.OnCourseSelectionChange` | src/admin.component.ts:129-138 | records the selection and resets the form to pristine; a null or 0 id clears the assigned employees, any other id starts loading; the stored term stays normalised |
| `Admin.AdminComponent.SaveAssignments` | src/admin.component.ts:151-155 | with no selected course or a pristine form nothing changes; otherwise saving starts; the stored term stays normalised |

## Left out

- The data load of the admin component (src/admin.component.ts:51-58), from the `forkJoin` call on, and its initial empty value. As written, the load cannot deliver the fixture arrays. `getAllPositions` is called while the `forkJoin` is built, and it does not exist. Even with it defined, `forkJoin` would treat each plain array as a sequence of emissions and keep only its last element. The constructor instead assumes the load delivers the arrays themselves.
- The `positions` and `employees` signals of the admin component: they only forward service data and feed the templates; `getAllPositions` is not defined in `src/data.service.ts`.
- `onCourseSelectionChange` from its `forkJoin` call on (src/admin.component.ts:140-148), and `saveAssignments` from the form read and service calls that build its `forkJoin` (src/admin.component.ts:157-177). This includes the subscription bodies and the `console.error` path. The service methods `getPositionIdsForCourse`, `getEmployeesForCourse`, `assignCourseToPositions` and `assignCourseToEmployees` are called synchronously before anything is subscribed, and they are not defined in `src/data.service.ts`. So `isSaving` and `isLoadingCourseDetails` are never reset here.
- The Angular form object: only its `pristine` flag is modelled; `reset` is modelled as setting it, and editing the form is not modelled.
- `src/course-management.component.ts`: a near-duplicate of the admin course-assignment tab built on the same missing service methods.
- `src/home.component.ts`, `src/app.component.ts`, `src/app.routes.ts`, `index.tsx`, the templates and Material modules: navigation, the clock, routing and framework plumbing.
- The fixture data in `./data` and the types in `./models` are not part of this model: the dataset is a parameter and the record types carry only the fields the code uses.
- Text.Normalize: `toLowerCase` is modelled for the ASCII letters only; the full Unicode case mapping is not modelled. Under JavaScript's mapping the normalised term can be longer than the input: "\u0130" (capital I with dot above) lower-cases to two UTF-16 code units.
- Text.Lower: only the ASCII letters are lower-cased; JavaScript's `toLowerCase` also maps other capitals ("\u00C9" to "\u00E9", "\u03A3" to "\u03C3") and can change the length ("\u0130" becomes two code units), so the length fact holds of the model only.
- Text.LowerMapsAsciiUpper: "keeps every other character" holds of the model's ASCII-only mapping, not of JavaScript's `toLowerCase`, which also changes non-ASCII capitals.
- Admin.MatchingEmployees: because lower-casing is ASCII-only, a name with a non-ASCII capital is kept differently than in JavaScript (the term "é" does not match "Émile" here).
- Admin.AdminComponent.FilteredEmployees: the same ASCII-only lower-casing decides which employees a term keeps, so "Émile" is not kept for the term "é".
- Text.StrLessTotal: strings are compared by Unicode scalar value; JavaScript compares UTF-16 code units, which orders characters outside the Basic Multilingual Plane differently.
- Admin.SortByName: the engine's sort algorithm and its order of ties are not modelled; only ordering and permutation are claimed.
- Floating-point rounding of the percentage division.
