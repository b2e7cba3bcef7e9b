/**
 * The in-memory record store: four tables (employees, students, attendance,
 * schedules) held as fields of one object and changed by its CRUD operations.
 * Writing the tables back to their files after each change is not modelled.
 */
module SchoolStore {
  import opened Wrappers
  import opened Tables
  import opened Records

  class School {
    var employees: seq<Employee>
    var students: seq<Student>
    var attendance: seq<Attendance>
    var schedules: seq<Schedule>

    /**
     * What the operations keep once it holds: ids are unique in their tables,
     * every employee's role agrees with the position, and every schedule row
     * names an existing employee as its teacher.
     */
    ghost predicate Consistent()
      reads this
    {
      && Distinct(employees, EmployeeId)
      && Distinct(students, StudentId)
      && (forall e :: e in employees ==> RoleMatchesPosition(e))
      && TeachersKnown(employees, schedules)
    }

    /** A store over the tables as loaded from their files. */
    constructor (employees: seq<Employee>, students: seq<Student>, attendance: seq<Attendance>, schedules: seq<Schedule>)
      ensures this.employees == employees && this.students == students
      ensures this.attendance == attendance && this.schedules == schedules
    {
      this.employees := employees;
      this.students := students;
      this.attendance := attendance;
      this.schedules := schedules;
    }

    method AddEmployee(name: Value, contact: Value, position: Value, username: Value, password: Value) returns (newId: int)
      modifies this
      ensures newId == NextId(Keys(old(employees), EmployeeId))
      ensures forall i :: 0 <= i < |old(employees)| ==> old(employees)[i].id < newId
      ensures employees == old(employees) + [NewEmployee(newId, name, contact, position, username, password)]
      ensures students == old(students) && attendance == old(attendance) && schedules == old(schedules)
      ensures old(Consistent()) ==> Consistent()
    {
      newId := NextId(Keys(employees, EmployeeId));
      var row := NewEmployee(newId, name, contact, position, username, password);
      ghost var before := employees;
      employees := employees + [row];
      if old(Consistent()) {
        AppendLargerKeepsDistinct(before, EmployeeId, row);
        KeysAppend(before, EmployeeId, row);
      }
    }

    method RemoveEmployee(id: int)
      modifies this
      ensures employees == Without(old(employees), EmployeeId, id)
      ensures schedules == Without(old(schedules), ScheduleTeacher, id)
      ensures id !in Keys(employees, EmployeeId) && id !in Keys(schedules, ScheduleTeacher)
      ensures id !in Keys(old(employees), EmployeeId) ==> employees == old(employees)
      ensures old(Consistent()) && id !in Keys(old(employees), EmployeeId) ==> schedules == old(schedules)
      ensures students == old(students) && attendance == old(attendance)
      ensures old(Consistent()) ==> Consistent()
    {
      ghost var before, beforeSchedules := employees, schedules;
      employees := Without(employees, EmployeeId, id);
      schedules := Without(schedules, ScheduleTeacher, id);
      if old(Consistent()) {
        WithoutKeepsDistinct(before, EmployeeId, id);
        RemovalKeepsTeachersKnown(before, beforeSchedules, id);
      }
    }

    method UpdateEmployee(id: int, name: Value, contact: Value, position: Value, username: Value, password: Value) returns (found: bool)
      modifies this
      ensures found <==> id in Keys(old(employees), EmployeeId)
      ensures !found ==> employees == old(employees)
      ensures found ==>
        var k := FirstWith(old(employees), EmployeeId, id);
        k.Some? && employees == old(employees)[k.value := UpdatedEmployee(old(employees)[k.value], name, contact, position, username, password)]
      ensures students == old(students) && attendance == old(attendance) && schedules == old(schedules)
      ensures old(Consistent()) ==> Consistent()
    {
      match FirstWith(employees, EmployeeId, id)
      case None =>
        found := false;
      case Some(k) =>
        found := true;
        ghost var before := employees;
        var row := UpdatedEmployee(employees[k], name, contact, position, username, password);
        employees := employees[k := row];
        KeysUpdate(before, EmployeeId, k, row);
    }

    method AddStudent(age: Value, name: Value, classId: Value)
      modifies this
      ensures var newId := NextId(Keys(old(students), StudentId));
        && (forall i :: 0 <= i < |old(students)| ==> old(students)[i].id < newId)
        && students == old(students) + [NewStudent(newId, name, age, classId)]
      ensures employees == old(employees) && attendance == old(attendance) && schedules == old(schedules)
      ensures old(Consistent()) ==> Consistent()
    {
      var newId := NextId(Keys(students, StudentId));
      var row := NewStudent(newId, name, age, classId);
      ghost var before := students;
      students := students + [row];
      if old(Consistent()) {
        AppendLargerKeepsDistinct(before, StudentId, row);
      }
    }

    method RemoveStudent(id: int)
      modifies this
      ensures students == Without(old(students), StudentId, id)
      ensures id !in Keys(students, StudentId)
      ensures employees == old(employees) && attendance == old(attendance) && schedules == old(schedules)
      ensures old(Consistent()) ==> Consistent()
    {
      ghost var before := students;
      students := Without(students, StudentId, id);
      if old(Consistent()) {
        WithoutKeepsDistinct(before, StudentId, id);
      }
    }

    method UpdateStudent(id: int, name: Value, age: Value, classId: Value, mark: Value) returns (found: bool)
      modifies this
      ensures found <==> id in Keys(old(students), StudentId)
      ensures !found ==> students == old(students)
      ensures found ==>
        var k := FirstWith(old(students), StudentId, id);
        k.Some? && students == old(students)[k.value := UpdatedStudent(old(students)[k.value], name, age, classId, mark)]
      ensures employees == old(employees) && attendance == old(attendance) && schedules == old(schedules)
      ensures old(Consistent()) ==> Consistent()
    {
      match FirstWith(students, StudentId, id)
      case None =>
        found := false;
      case Some(k) =>
        found := true;
        students := students[k := UpdatedStudent(students[k], name, age, classId, mark)];
    }

    method UpdateTeacher(id: int, name: Value, contact: Value, username: Value, password: Value) returns (found: bool)
      modifies this
      ensures found <==> id in Keys(old(employees), EmployeeId)
      ensures !found ==> employees == old(employees)
      ensures found ==>
        var k := FirstWith(old(employees), EmployeeId, id);
        k.Some? && employees == old(employees)[k.value := UpdatedTeacher(old(employees)[k.value], name, contact, username, password)]
      ensures |employees| == |old(employees)|
      ensures forall i :: 0 <= i < |employees| ==>
        employees[i].position == old(employees)[i].position && employees[i].role == old(employees)[i].role
      ensures students == old(students) && attendance == old(attendance) && schedules == old(schedules)
      ensures old(Consistent()) ==> Consistent()
    {
      match FirstWith(employees, EmployeeId, id)
      case None =>
        found := false;
      case Some(k) =>
        found := true;
        ghost var before := employees;
        var row := UpdatedTeacher(employees[k], name, contact, username, password);
        employees := employees[k := row];
        KeysUpdate(before, EmployeeId, k, row);
        if old(Consistent()) {
          forall e | e in employees ensures RoleMatchesPosition(e) {
            var i :| 0 <= i < |employees| && employees[i] == e;
            assert before[i] in before;
          }
        }
    }

    method AssignTeacherToClass(className: Value, teacherId: int)
      modifies this
      ensures schedules == if teacherId in Keys(old(employees), EmployeeId)
                           then old(schedules) + [Schedule(className, teacherId)]
                           else old(schedules)
      ensures employees == old(employees) && students == old(students) && attendance == old(attendance)
      ensures old(Consistent()) ==> Consistent()
    {
      if teacherId in Keys(employees, EmployeeId) {
        schedules := schedules + [Schedule(className, teacherId)];
      }
    }

    method MarkAttendance(className: Value, date: Value, studentId: int, status: Value, teacherId: int)
      modifies this
      ensures attendance == if Schedule(className, teacherId) in old(schedules)
                            then old(attendance) + [Attendance(date, className, studentId, status)]
                            else old(attendance)
      ensures employees == old(employees) && students == old(students) && schedules == old(schedules)
      ensures old(Consistent()) ==> Consistent()
    {
      if Schedule(className, teacherId) in schedules {
        attendance := attendance + [Attendance(date, className, studentId, status)];
      }
    }

    method UpdateStudentMark(id: int, mark: Value) returns (found: bool)
      modifies this
      ensures found <==> id in Keys(old(students), StudentId)
      ensures !found || !Truthy(mark) ==> students == old(students)
      ensures found ==>
        var k := FirstWith(old(students), StudentId, id);
        k.Some? && students == old(students)[k.value := WithMark(old(students)[k.value], mark)]
      ensures employees == old(employees) && attendance == old(attendance) && schedules == old(schedules)
      ensures old(Consistent()) ==> Consistent()
    {
      match FirstWith(students, StudentId, id)
      case None =>
        found := false;
      case Some(k) =>
        found := true;
        students := students[k := WithMark(students[k], mark)];
    }
  }

  /** Every schedule row names an existing employee as its teacher. */
  ghost predicate TeachersKnown(employees: seq<Employee>, schedules: seq<Schedule>)
  {
    forall s :: s in schedules ==> s.teacherId in Keys(employees, EmployeeId)
  }

  /**
   * Removing an employee together with the schedule rows naming them keeps
   * every remaining schedule row pointing at a remaining employee; when the
   * employee is absent, no schedule row is removed.
   */
  lemma RemovalKeepsTeachersKnown(employees: seq<Employee>, schedules: seq<Schedule>, id: int)
    requires TeachersKnown(employees, schedules)
    ensures TeachersKnown(Without(employees, EmployeeId, id), Without(schedules, ScheduleTeacher, id))
    ensures id !in Keys(employees, EmployeeId) ==> Without(schedules, ScheduleTeacher, id) == schedules
  {
  }
}
