/**
 * The admin dashboard's roster and course-assignment state: the filter term
 * and sort settings that derive the displayed employee list, the course
 * selection and the save guard.
 */
module Admin {
  import opened Wrappers
  import opened Records
  import opened Text
  import opened Sequences
  import DataService

  datatype Direction = Asc | Desc

  /** The sort settings: a column name and a direction. */
  datatype SortState = SortState(column: string, direction: Direction)

  /** The name the roster filters and sorts by: first and last name with one space. */
  function FullName(e: FullEmployee): string
  {
    e.employee.firstName + " " + e.employee.lastName
  }

  /** `a` may come before `b` in a list sorted by full name in direction `dir`. */
  predicate InOrder(a: FullEmployee, b: FullEmployee, dir: Direction)
    ensures dir == Asc ==>
      (InOrder(a, b, dir) <==> FullName(a) == FullName(b) || StrLess(FullName(a), FullName(b)))
    ensures dir == Desc ==>
      (InOrder(a, b, dir) <==> FullName(a) == FullName(b) || StrLess(FullName(b), FullName(a)))
  {
    StrLessTotal(FullName(a), FullName(b));
    match dir
    case Asc => !StrLess(FullName(b), FullName(a))
    case Desc => !StrLess(FullName(a), FullName(b))
  }

  ghost predicate Sorted(s: seq<FullEmployee>, dir: Direction)
  {
    forall i, j :: 0 <= i < j < |s| ==> InOrder(s[i], s[j], dir)
  }

  lemma InOrderTotal(a: FullEmployee, b: FullEmployee, dir: Direction)
    ensures InOrder(a, b, dir) || InOrder(b, a, dir)
  {
    StrLessTotal(FullName(a), FullName(b));
  }

  lemma InOrderTransitive(a: FullEmployee, b: FullEmployee, c: FullEmployee, dir: Direction)
    requires InOrder(a, b, dir) && InOrder(b, c, dir)
    ensures InOrder(a, c, dir)
  {
    var na, nb, nc := FullName(a), FullName(b), FullName(c);
    StrLessTotal(na, nb);
    StrLessTotal(nb, nc);
    StrLessTotal(na, nc);
    if dir == Asc {
      if StrLess(nc, na) {
        if na != nb && nb != nc {
          StrLessTransitive(na, nb, nc);
        }
      }
    } else {
      if StrLess(na, nc) {
        if na != nb && nb != nc {
          StrLessTransitive(nc, nb, na);
        }
      }
    }
  }

  /** `x` may precede every element of a sorted list it may precede the head of. */
  lemma InsertAtHead(x: FullEmployee, s: seq<FullEmployee>, dir: Direction)
    requires Sorted(s, dir) && |s| > 0 && InOrder(x, s[0], dir)
    ensures Sorted([x] + s, dir)
  {
    forall j | 0 < j < |s|
      ensures InOrder(x, s[j], dir)
    {
      InOrderTransitive(x, s[0], s[j], dir);
    }
    var r := [x] + s;
    forall i, j | 0 <= i < j < |r|
      ensures InOrder(r[i], r[j], dir)
    {
      if i > 0 {
        assert r[i] == s[i - 1] && r[j] == s[j - 1];
      }
    }
  }

  /** The head of a sorted list may precede a sorted list holding the rest of
      it and one element that it may precede. */
  lemma InsertBehindHead(x: FullEmployee, s: seq<FullEmployee>, rest: seq<FullEmployee>, dir: Direction)
    requires Sorted(s, dir) && |s| > 0 && InOrder(s[0], x, dir)
    requires Sorted(rest, dir) && multiset(rest) == multiset(s[1..]) + multiset{x}
    ensures Sorted([s[0]] + rest, dir)
  {
    forall y | y in rest
      ensures InOrder(s[0], y, dir)
    {
      assert y in multiset(rest);
      if y != x {
        assert y in multiset(s[1..]);
        var j :| 0 <= j < |s[1..]| && s[1..][j] == y;
        assert s[j + 1] == y;
      }
    }
    var r := [s[0]] + rest;
    forall i, j | 0 <= i < j < |r|
      ensures InOrder(r[i], r[j], dir)
    {
      if i == 0 {
        assert r[j] == rest[j - 1];
        assert rest[j - 1] in rest;
      } else {
        assert r[i] == rest[i - 1] && r[j] == rest[j - 1];
      }
    }
  }

  /** Insert `x` into the sorted list `s` before the first element it may precede. */
  function Insert(x: FullEmployee, s: seq<FullEmployee>, dir: Direction): (r: seq<FullEmployee>)
    requires Sorted(s, dir)
    ensures Sorted(r, dir)
    ensures multiset(r) == multiset(s) + multiset{x}
  {
    if |s| == 0 then [x]
    else if InOrder(x, s[0], dir) then
      InsertAtHead(x, s, dir);
      [x] + s
    else
      assert s == [s[0]] + s[1..];
      var rest := Insert(x, s[1..], dir);
      InOrderTotal(x, s[0], dir);
      InsertBehindHead(x, s, rest, dir);
      [s[0]] + rest
  }

  /** The roster's name sort: a permutation of `s` ordered by full name. */
  function SortByName(s: seq<FullEmployee>, dir: Direction): (r: seq<FullEmployee>)
    ensures Sorted(r, dir)
    ensures multiset(r) == multiset(s)
  {
    if |s| == 0 then []
    else
      assert s == [s[0]] + s[1..];
      Insert(s[0], SortByName(s[1..], dir), dir)
  }

  /** The employees whose lower-cased full name contains `term`, in list order. */
  function MatchingEmployees(all: seq<FullEmployee>, term: string): (r: seq<FullEmployee>)
    ensures forall e :: e in r <==> e in all && Contains(Lower(FullName(e)), term)
  {
    Filter(all, (e: FullEmployee) => Contains(Lower(FullName(e)), term))
  }

  /** `sortData(column)`: the same column flips the direction, another column
      is selected in ascending order. */
  function NextSort(s: SortState, column: string): (r: SortState)
    ensures r.column == column
    ensures s.column == column ==> r.direction != s.direction
    ensures s.column != column ==> r.direction == Asc
  {
    if s.column == column then
      SortState(column, if s.direction == Asc then Desc else Asc)
    else
      SortState(column, Asc)
  }

  /** Sorting twice by the same column restores the direction when that was
      already the column, and leaves it descending otherwise. */
  lemma NextSortTwice(s: SortState, column: string)
    ensures NextSort(NextSort(s, column), column) ==
      if s.column == column then s else SortState(column, Desc)
  {
  }

  /** A course id selects nothing when it is null or 0. */
  predicate Falsy(id: Option<int>)
  {
    id.None? || id.value == 0
  }

  class AdminComponent {
    var courses: seq<Course>
    var allEmployeesDetails: seq<FullEmployee>
    var filterTerm: string
    var sortColumn: string
    var sortDirection: Direction
    var selectedCourseId: Option<int>
    var isLoadingCourseDetails: bool
    var isSaving: bool
    var assignedEmployees: seq<Employee>
    /** The assignment form has not been edited since it was last reset. */
    var formPristine: bool

    /** The stored filter term is always normalised. */
    ghost predicate Valid()
      reads this`filterTerm
    {
      IsNormalized(filterTerm)
    }

    /** The component once its data has loaded from `db`. */
    constructor (db: Dataset)
      ensures Valid()
      ensures courses == DataService.GetAllCourses(db)
      ensures allEmployeesDetails == DataService.GetAllEmployeesFullDetails(db)
      ensures filterTerm == "" && sortColumn == "name" && sortDirection == Asc
      ensures selectedCourseId == None && !isLoadingCourseDetails && !isSaving
      ensures assignedEmployees == [] && formPristine
    {
      courses := DataService.GetAllCourses(db);
      allEmployeesDetails := DataService.GetAllEmployeesFullDetails(db);
      filterTerm := "";
      sortColumn := "name";
      sortDirection := Asc;
      selectedCourseId := None;
      isLoadingCourseDetails := false;
      isSaving := false;
      assignedEmployees := [];
      formPristine := true;
    }

    /** `filteredEmployees`: the matching employees, sorted by name when the
        sort column is 'name', computed on a copy of the loaded list. */
    function FilteredEmployees(): (r: seq<FullEmployee>)
      reads this
      ensures filterTerm == "" ==> multiset(r) == multiset(allEmployeesDetails)
      ensures filterTerm != "" ==>
        multiset(r) == multiset(MatchingEmployees(allEmployeesDetails, Lower(filterTerm)))
      ensures multiset(r) <= multiset(allEmployeesDetails)
      ensures forall e :: e in r <==>
        e in allEmployeesDetails && (filterTerm == "" || Contains(Lower(FullName(e)), Lower(filterTerm)))
      ensures sortColumn == "name" ==> Sorted(r, sortDirection)
      ensures sortColumn != "name" ==>
        r == if filterTerm == "" then allEmployeesDetails else MatchingEmployees(allEmployeesDetails, Lower(filterTerm))
    {
      var filter := Lower(filterTerm);
      var employees := if filter != "" then MatchingEmployees(allEmployeesDetails, filter) else allEmployeesDetails;
      FilterSubMultiset(allEmployeesDetails, (e: FullEmployee) => Contains(Lower(FullName(e)), filter));
      if sortColumn == "name" then
        var r := SortByName(employees, sortDirection);
        assert forall e :: e in r <==> e in multiset(employees);
        r
      else
        employees
    }

    /** Under the invariant the roster's own lower-casing of the stored term
        is the identity. */
    lemma StoredTermIsLower()
      requires Valid()
      ensures Lower(filterTerm) == filterTerm
    {
      NormalizedIsLower(filterTerm);
    }

    /** `selectedCourse`: nothing for a falsy id, else the first course with that id. */
    function SelectedCourse(): (r: Option<Course>)
      reads this
      ensures Falsy(selectedCourseId) ==> r.None?
      ensures !Falsy(selectedCourseId) ==>
        (r.None? <==> NoneHasKey(courses, CourseKey, selectedCourseId.value)) &&
        (r.Some? ==> IsFirstBy(courses, CourseKey, selectedCourseId.value, r.value))
    {
      if Falsy(selectedCourseId) then None
      else FindBy(courses, CourseKey, selectedCourseId.value)
    }

    /** `applyFilter`: store the trimmed, lower-cased input. */
    method ApplyFilter(value: string)
      modifies this`filterTerm
      ensures Valid()
      ensures filterTerm == Normalize(value)
    {
      filterTerm := Normalize(value);
      NormalizeIdempotent(value);
    }

    /** `sortData(column)`. */
    method SortData(column: string)
      requires Valid()
      modifies this`sortColumn, this`sortDirection
      ensures SortState(sortColumn, sortDirection) == NextSort(SortState(old(sortColumn), old(sortDirection)), column)
      ensures Valid()
    {
      if sortColumn == column {
        sortDirection := if sortDirection == Asc then Desc else Asc;
      } else {
        sortColumn := column;
        sortDirection := Asc;
      }
    }

    /** `onCourseSelectionChange`, up to the moment it starts loading: record
        the selection, reset the form and, for a falsy id, clear the assigned
        employees. */
    method OnCourseSelectionChange(courseId: Option<int>)
      requires Valid()
      modifies this`selectedCourseId, this`assignedEmployees, this`isLoadingCourseDetails, this`formPristine
      ensures selectedCourseId == courseId && formPristine
      ensures Falsy(courseId) ==>
        assignedEmployees == [] && isLoadingCourseDetails == old(isLoadingCourseDetails)
      ensures !Falsy(courseId) ==>
        assignedEmployees == old(assignedEmployees) && isLoadingCourseDetails
      ensures Valid()
    {
      selectedCourseId := courseId;
      formPristine := true;
      if Falsy(courseId) {
        assignedEmployees := [];
      } else {
        isLoadingCourseDetails := true;
      }
      assert unchanged(this`filterTerm);
    }

    /** `saveAssignments`, up to the moment it starts saving: nothing happens
        without a selected course or with an unedited form. */
    method SaveAssignments()
      requires Valid()
      modifies this`isSaving
      ensures Falsy(selectedCourseId) || formPristine ==> isSaving == old(isSaving)
      ensures !Falsy(selectedCourseId) && !formPristine ==> isSaving
      ensures Valid()
    {
      if Falsy(selectedCourseId) || formPristine {
        return;
      }
      isSaving := true;
    }
  }
}
