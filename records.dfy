/**
 * The records of the training tracker's in-memory dataset (employees,
 * positions, departments, courses and the two join tables) and the
 * denormalised views the data service builds from them.
 */
module Records {
  import opened Wrappers

  /** A completion date, kept as the fixture's text. */
  type Date = string

  datatype Employee = Employee(id: int, firstName: string, lastName: string, positionId: int)

  datatype Position = Position(id: int, title: string, departmentId: int)

  datatype Department = Department(id: int, name: string)

  datatype Course = Course(id: int, name: string, description: string)

  /** A required-training entry: employees in `positionId` must take `courseId`. */
  datatype PositionCourse = PositionCourse(positionId: int, courseId: int)

  /** A completed-training entry. */
  datatype EmployeeTraining = EmployeeTraining(employeeId: int, courseId: int, completionDate: Date)

  /** The fixture arrays the service reads, in their fixture order. */
  datatype Dataset = Dataset(
    employees: seq<Employee>,
    positions: seq<Position>,
    departments: seq<Department>,
    courses: seq<Course>,
    positionCourses: seq<PositionCourse>,
    employeeTrainings: seq<EmployeeTraining>)

  /** An employee joined with its position, department, training records,
      required courses and completion percentage. */
  datatype FullEmployee = FullEmployee(
    employee: Employee,
    position: Position,
    department: Department,
    trainingRecords: seq<EmployeeTraining>,
    requiredCourses: seq<Course>,
    completionPercentage: real)

  datatype Status = Completed | Pending

  /** One required course of an employee with its completion status. */
  datatype EmployeeCourse = EmployeeCourse(course: Course, completionDate: Option<Date>, status: Status)

  // Keys by which the service looks records up.
  function EmployeeKey(e: Employee): int { e.id }
  function PositionKey(p: Position): int { p.id }
  function DepartmentKey(d: Department): int { d.id }
  function CourseKey(c: Course): int { c.id }
  function RecordCourseKey(t: EmployeeTraining): int { t.courseId }
}
