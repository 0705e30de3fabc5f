/**
 * The data service: lookups and the denormalising join over the fixture
 * dataset. The dataset is a parameter of every operation.
 */
module DataService {
  import opened Wrappers
  import opened Records
  import opened Sequences

  /** The training records of employee `e`, in fixture order. */
  function TrainingRecordsOf(db: Dataset, e: Employee): (r: seq<EmployeeTraining>)
    ensures forall t :: t in r <==> t in db.employeeTrainings && t.employeeId == e.id
  {
    Filter(db.employeeTrainings, (t: EmployeeTraining) => t.employeeId == e.id)
  }

  /** The ids of the courses position `p` requires, one per position-course entry. */
  function RequiredCourseIds(db: Dataset, p: Position): (r: seq<int>)
    ensures forall cid :: cid in r <==> exists pc :: pc in db.positionCourses && pc.positionId == p.id && pc.courseId == cid
  {
    var entries := Filter(db.positionCourses, (pc: PositionCourse) => pc.positionId == p.id);
    var courseId := (pc: PositionCourse) => pc.courseId;
    var ids := Map(entries, courseId);
    MapMembers(entries, courseId);
    ids
  }

  /** `pc` lists course `c` as required for position `p`. */
  ghost predicate Requires(db: Dataset, p: Position, c: Course)
  {
    exists pc :: pc in db.positionCourses && pc.positionId == p.id && pc.courseId == c.id
  }

  /** The catalogue courses position `p` requires, in catalogue order. */
  function RequiredCoursesOf(db: Dataset, p: Position): (r: seq<Course>)
    ensures forall c :: c in r <==> c in db.courses && Requires(db, p, c)
  {
    var ids := RequiredCourseIds(db, p);
    Filter(db.courses, (c: Course) => c.id in ids)
  }

  /** Some training record is for course `c`. */
  predicate HasRecordFor(records: seq<EmployeeTraining>, c: Course)
  {
    exists t :: t in records && t.courseId == c.id
  }

  /** The required courses that have a training record. */
  function CompletedCourses(records: seq<EmployeeTraining>, required: seq<Course>): (r: seq<Course>)
    ensures forall c :: c in r <==> c in required && HasRecordFor(records, c)
  {
    Filter(required, (c: Course) => HasRecordFor(records, c))
  }

  /** `completed / total * 100`, or 100 when nothing is required. */
  function Percentage(completed: nat, total: nat): (r: real)
    ensures completed <= total ==> 0.0 <= r <= 100.0
    ensures total == 0 ==> r == 100.0
  {
    if total > 0 then
      var q := completed as real / total as real;
      assert q * total as real == completed as real;
      assert completed <= total ==> 0.0 <= q <= 1.0;
      q * 100.0
    else 100.0
  }

  /** A lookup fails at one of its three links. */
  ghost predicate LinkMissing(db: Dataset, id: int)
  {
    NoneHasKey(db.employees, EmployeeKey, id)
    || (exists e :: IsFirstBy(db.employees, EmployeeKey, id, e) &&
          NoneHasKey(db.positions, PositionKey, e.positionId))
    || (exists e, p :: IsFirstBy(db.employees, EmployeeKey, id, e) &&
          IsFirstBy(db.positions, PositionKey, e.positionId, p) &&
          NoneHasKey(db.departments, DepartmentKey, p.departmentId))
  }

  /** `getEmployeeFullDetailsById`: employee, then position, then department,
      by foreign key; `None` at the first missing link. */
  function GetEmployeeFullDetailsById(db: Dataset, id: int): (r: Option<FullEmployee>)
    ensures r.Some? ==>
      IsFirstBy(db.employees, EmployeeKey, id, r.value.employee) &&
      IsFirstBy(db.positions, PositionKey, r.value.employee.positionId, r.value.position) &&
      IsFirstBy(db.departments, DepartmentKey, r.value.position.departmentId, r.value.department)
    ensures r.Some? ==>
      r.value.employee.id == id &&
      r.value.position.id == r.value.employee.positionId &&
      r.value.department.id == r.value.position.departmentId
    ensures r.Some? ==>
      r.value.trainingRecords == TrainingRecordsOf(db, r.value.employee) &&
      r.value.requiredCourses == RequiredCoursesOf(db, r.value.position) &&
      r.value.completionPercentage ==
        Percentage(|CompletedCourses(r.value.trainingRecords, r.value.requiredCourses)|, |r.value.requiredCourses|)
    ensures r.Some? ==> 0.0 <= r.value.completionPercentage <= 100.0
  {
    match FindBy(db.employees, EmployeeKey, id)
    case None => None
    case Some(employee) =>
      match FindBy(db.positions, PositionKey, employee.positionId)
      case None => None
      case Some(position) =>
        match FindBy(db.departments, DepartmentKey, position.departmentId)
        case None => None
        case Some(department) =>
          var trainingRecords := TrainingRecordsOf(db, employee);
          var requiredCourses := RequiredCoursesOf(db, position);
          var completedCount := |CompletedCourses(trainingRecords, requiredCourses)|;
          Some(FullEmployee(employee, position, department, trainingRecords, requiredCourses,
                            Percentage(completedCount, |requiredCourses|)))
  }

  /** The lookup fails exactly when one of its three links is missing. */
  lemma LookupFailsIffLinkMissing(db: Dataset, id: int)
    ensures GetEmployeeFullDetailsById(db, id).None? <==> LinkMissing(db, id)
  {
    var r := GetEmployeeFullDetailsById(db, id);
    match FindBy(db.employees, EmployeeKey, id)
    case None =>
    case Some(e) =>
      forall e' | IsFirstBy(db.employees, EmployeeKey, id, e')
        ensures e' == e
      {
        IsFirstByUnique(db.employees, EmployeeKey, id, e, e');
      }
      match FindBy(db.positions, PositionKey, e.positionId)
      case None =>
      case Some(p) =>
        forall p' | IsFirstBy(db.positions, PositionKey, e.positionId, p')
          ensures p' == p
        {
          IsFirstByUnique(db.positions, PositionKey, e.positionId, p, p');
        }
  }

  /** The training records are exactly the records of this employee, in fixture order. */
  lemma TrainingRecordsSelected(db: Dataset, e: Employee)
    ensures OrderedSelection(db.employeeTrainings, TrainingRecordsOf(db, e),
      set i | 0 <= i < |db.employeeTrainings| && db.employeeTrainings[i].employeeId == e.id)
  {
    FilterSelects(db.employeeTrainings, (t: EmployeeTraining) => t.employeeId == e.id);
  }

  /** The required courses are exactly the catalogue courses the position
      requires, in catalogue order. */
  lemma RequiredCoursesSelected(db: Dataset, p: Position)
    ensures OrderedSelection(db.courses, RequiredCoursesOf(db, p),
      set i | 0 <= i < |db.courses| && Requires(db, p, db.courses[i]))
  {
    var ids := RequiredCourseIds(db, p);
    var keep := (c: Course) => c.id in ids;
    FilterSelects(db.courses, keep);
    assert (set i | 0 <= i < |db.courses| && keep(db.courses[i])) ==
           (set i | 0 <= i < |db.courses| && Requires(db, p, db.courses[i]));
  }

  /** With at least one required course, the percentage is 100 exactly when
      every required course has a record and 0 exactly when none has. */
  lemma CompletionExtremes(db: Dataset, id: int)
    requires GetEmployeeFullDetailsById(db, id).Some?
    requires |GetEmployeeFullDetailsById(db, id).value.requiredCourses| > 0
    ensures var f := GetEmployeeFullDetailsById(db, id).value;
      (f.completionPercentage == 100.0 <==> forall c :: c in f.requiredCourses ==> HasRecordFor(f.trainingRecords, c)) &&
      (f.completionPercentage == 0.0 <==> forall c :: c in f.requiredCourses ==> !HasRecordFor(f.trainingRecords, c))
  {
    var f := GetEmployeeFullDetailsById(db, id).value;
    var keep := (c: Course) => HasRecordFor(f.trainingRecords, c);
    FilterKeepsAll(f.requiredCourses, keep);
    FilterKeepsNone(f.requiredCourses, keep);
    PercentageExtremes(|CompletedCourses(f.trainingRecords, f.requiredCourses)|, |f.requiredCourses|);
  }

  lemma PercentageExtremes(completed: nat, total: nat)
    requires 0 < total && completed <= total
    ensures Percentage(completed, total) == 100.0 <==> completed == total
    ensures Percentage(completed, total) == 0.0 <==> completed == 0
  {
    var n := total as real;
    var q := completed as real / n;
    assert Percentage(completed, total) == q * 100.0;
    assert q * n == completed as real;
    if q == 1.0 {
      assert completed as real == n;
    }
    if completed == total {
      assert q == 1.0;
    }
    if q == 0.0 {
      assert completed as real == 0.0;
    }
  }

  /** The successful lookups of the ids of `es`, in the order of `es`. */
  function FullDetailsOf(db: Dataset, es: seq<Employee>): (r: seq<FullEmployee>)
    ensures |r| <= |es|
    ensures forall f :: f in r <==> exists e :: e in es && GetEmployeeFullDetailsById(db, e.id) == Some(f)
  {
    var lookup := (e: Employee) => GetEmployeeFullDetailsById(db, e.id);
    var r := FilterMap(es, lookup);
    forall f
      ensures f in r <==> exists e :: e in es && GetEmployeeFullDetailsById(db, e.id) == Some(f)
    {
      FilterMapMembers(es, lookup, f);
    }
    r
  }

  /** `getAllEmployeesFullDetails`: the join mapped over all employees, failed
      lookups dropped. */
  function GetAllEmployeesFullDetails(db: Dataset): (r: seq<FullEmployee>)
    ensures |r| <= |db.employees|
    ensures forall f :: f in r <==> exists e :: e in db.employees && GetEmployeeFullDetailsById(db, e.id) == Some(f)
  {
    FullDetailsOf(db, db.employees)
  }

  /** The details list follows employee order: the details of a concatenation
      are the concatenation of the details. */
  lemma FullDetailsAppend(db: Dataset, a: seq<Employee>, b: seq<Employee>)
    ensures FullDetailsOf(db, a + b) == FullDetailsOf(db, a) + FullDetailsOf(db, b)
  {
    FilterMapAppend(a, b, (e: Employee) => GetEmployeeFullDetailsById(db, e.id));
  }

  /** One employee contributes its successful lookup, or nothing. */
  lemma FullDetailsSingle(db: Dataset, e: Employee)
    ensures FullDetailsOf(db, [e]) ==
      match GetEmployeeFullDetailsById(db, e.id)
      case None => []
      case Some(f) => [f]
  {
  }

  /** `getAllEmployees`: the employee fixture. Every employee with details is in it. */
  function GetAllEmployees(db: Dataset): (r: seq<Employee>)
    ensures forall f :: f in GetAllEmployeesFullDetails(db) ==> f.employee in r
  {
    db.employees
  }

  /** `getAllCourses`: the course catalogue. Every course any employee is
      required to take is in it. */
  function GetAllCourses(db: Dataset): (r: seq<Course>)
    ensures forall id, c ::
      (GetEmployeeFullDetailsById(db, id).Some? && c in GetEmployeeFullDetailsById(db, id).value.requiredCourses)
      ==> c in r
  {
    db.courses
  }

  /** The status entry of one required course: the first record for it, if any. */
  function EmployeeCourseFor(records: seq<EmployeeTraining>, course: Course): (r: EmployeeCourse)
    ensures r.course == course
    ensures r.status == Completed <==> HasRecordFor(records, course)
    ensures r.status == Completed <==> r.completionDate.Some?
    ensures r.completionDate.Some? ==>
      exists t :: IsFirstBy(records, RecordCourseKey, course.id, t) && r.completionDate.value == t.completionDate
  {
    match FindBy(records, RecordCourseKey, course.id)
    case None => EmployeeCourse(course, None, Pending)
    case Some(t) => EmployeeCourse(course, Some(t.completionDate), Completed)
  }

  /** `getEmployeeCourses`: one status entry per required course, in order;
      empty when the lookup fails. */
  function GetEmployeeCourses(db: Dataset, employeeId: int): (r: seq<EmployeeCourse>)
    ensures GetEmployeeFullDetailsById(db, employeeId).None? ==> r == []
    ensures GetEmployeeFullDetailsById(db, employeeId).Some? ==>
      var f := GetEmployeeFullDetailsById(db, employeeId).value;
      |r| == |f.requiredCourses| &&
      forall k :: 0 <= k < |r| ==>
        r[k].course == f.requiredCourses[k] &&
        (r[k].status == Completed <==> HasRecordFor(f.trainingRecords, r[k].course)) &&
        (r[k].status == Completed <==> r[k].completionDate.Some?) &&
        (r[k].completionDate.Some? ==> exists t ::
          IsFirstBy(f.trainingRecords, RecordCourseKey, r[k].course.id, t) && r[k].completionDate.value == t.completionDate)
  {
    match GetEmployeeFullDetailsById(db, employeeId)
    case None => []
    case Some(f) => Map(f.requiredCourses, (c: Course) => EmployeeCourseFor(f.trainingRecords, c))
  }

  /** The number of entries marked Completed. */
  function CountCompleted(entries: seq<EmployeeCourse>): nat
  {
    if |entries| == 0 then 0
    else (if entries[0].status == Completed then 1 else 0) + CountCompleted(entries[1..])
  }

  lemma {:induction false} CountCompletedMatches(records: seq<EmployeeTraining>, required: seq<Course>)
    ensures CountCompleted(Map(required, (c: Course) => EmployeeCourseFor(records, c)))
         == |CompletedCourses(records, required)|
  {
    if |required| > 0 {
      CountCompletedMatches(records, required[1..]);
      assert Map(required, (c: Course) => EmployeeCourseFor(records, c))[1..]
          == Map(required[1..], (c: Course) => EmployeeCourseFor(records, c));
    }
  }

  /** The course list and the percentage agree: the share of Completed
      entries is the completion percentage. */
  lemma CoursesAgreeWithPercentage(db: Dataset, id: int)
    requires GetEmployeeFullDetailsById(db, id).Some?
    ensures GetEmployeeFullDetailsById(db, id).value.completionPercentage
         == Percentage(CountCompleted(GetEmployeeCourses(db, id)), |GetEmployeeCourses(db, id)|)
  {
    var f := GetEmployeeFullDetailsById(db, id).value;
    CountCompletedMatches(f.trainingRecords, f.requiredCourses);
  }

  /** Of two employees sharing an id, the first lookup match is never the later one. */
  lemma FirstByNotShadowed(es: seq<Employee>, i: nat, j: nat, x: Employee)
    requires i < j < |es|
    requires es[i].id == es[j].id
    requires es[j] !in es[..j]
    requires IsFirstBy(es, EmployeeKey, x.id, x)
    ensures x != es[j]
  {
    var m :| 0 <= m < |es| && es[m] == x && forall n :: 0 <= n < m ==> EmployeeKey(es[n]) != x.id;
    if x.id == es[j].id {
      assert m <= i;
      assert es[m] in es[..j];
    }
  }

  /** Two employees sharing an id: the later one is never in the details
      list, since every lookup by that id resolves to the earlier one. */
  lemma SharedIdShadowsLater(db: Dataset, i: nat, j: nat)
    requires i < j < |db.employees|
    requires db.employees[i].id == db.employees[j].id
    requires db.employees[j] !in db.employees[..j]
    ensures forall f :: f in GetAllEmployeesFullDetails(db) ==> f.employee != db.employees[j]
  {
    forall f | f in GetAllEmployeesFullDetails(db)
      ensures f.employee != db.employees[j]
    {
      var e :| e in db.employees && GetEmployeeFullDetailsById(db, e.id) == Some(f);
      FirstByNotShadowed(db.employees, i, j, f.employee);
    }
  }
}
