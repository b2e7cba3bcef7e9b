/**
 * The rows of the four tables of the record store and the row-level rules of
 * its operations: how a new employee's role and credentials are derived, and
 * how a partial update overwrites only the fields given a truthy value.
 *
 * Cells hold loosely typed values, as the store's callers pass them: nothing,
 * a string or an integer. `Truthy` is the language's own truthiness test
 * (`if name:`), under which nothing, the empty string and zero are false.
 */
module Records {

  datatype Value = Null | Text(text: string) | Number(n: int)

  predicate Truthy(v: Value)
  {
    match v
    case Null => false
    case Text(s) => s != ""
    case Number(n) => n != 0
  }

  /** A partial-update cell write: the given value when truthy, otherwise the current one. */
  function Overwrite(current: Value, given: Value): Value
  {
    if Truthy(given) then given else current
  }

  const Admin := Text("admin")
  const Teacher := Text("teacher")
  const Staff := Text("staff")

  /** The positions that keep their own name as role and may hold credentials. */
  predicate IsPrivileged(position: Value)
  {
    position == Admin || position == Teacher
  }

  /** The role derived from a position. */
  function RoleOf(position: Value): (role: Value)
    ensures role == Admin || role == Teacher || role == Staff
    ensures IsPrivileged(role) <==> IsPrivileged(position)
    ensures role != Staff ==> role == position
  {
    if IsPrivileged(position) then position else Staff
  }

  datatype Employee = Employee(
    id: int,
    name: Value,
    contact: Value,
    position: Value,
    username: Value,
    password: Value,
    role: Value)

  function EmployeeId(e: Employee): int { e.id }

  /** The role column agrees with the position column. */
  predicate RoleMatchesPosition(e: Employee)
  {
    e.role == RoleOf(e.position)
  }

  /** Only admins and teachers carry a username or a password. */
  predicate CredentialsOnlyIfPrivileged(e: Employee)
  {
    !IsPrivileged(e.position) ==> e.username == Null && e.password == Null
  }

  /** The row that adding an employee appends. */
  function NewEmployee(id: int, name: Value, contact: Value, position: Value, username: Value, password: Value): (e: Employee)
    ensures e.id == id && e.name == name && e.contact == contact && e.position == position
    ensures RoleMatchesPosition(e) && CredentialsOnlyIfPrivileged(e)
    ensures IsPrivileged(position) ==> e.username == username && e.password == password
  {
    var privileged := IsPrivileged(position);
    Employee(id, name, contact, position,
             if privileged then username else Null,
             if privileged then password else Null,
             RoleOf(position))
  }

  /** An employee row after a partial update; a truthy position also re-derives the role. */
  function UpdatedEmployee(e: Employee, name: Value, contact: Value, position: Value, username: Value, password: Value): (r: Employee)
    ensures r.id == e.id
    ensures r.name == (if Truthy(name) then name else e.name)
    ensures r.contact == (if Truthy(contact) then contact else e.contact)
    ensures r.username == (if Truthy(username) then username else e.username)
    ensures r.password == (if Truthy(password) then password else e.password)
    ensures Truthy(position) ==> r.position == position && r.role == RoleOf(position)
    ensures !Truthy(position) ==> r.position == e.position && r.role == e.role
    ensures RoleMatchesPosition(e) ==> RoleMatchesPosition(r)
    ensures !Truthy(name) && !Truthy(contact) && !Truthy(position) && !Truthy(username) && !Truthy(password) ==> r == e
  {
    var r := e.(name := Overwrite(e.name, name),
                contact := Overwrite(e.contact, contact),
                username := Overwrite(e.username, username),
                password := Overwrite(e.password, password));
    if Truthy(position) then r.(position := position, role := RoleOf(position)) else r
  }

  /** An employee row after a teacher's profile update: position and role are never touched. */
  function UpdatedTeacher(e: Employee, name: Value, contact: Value, username: Value, password: Value): (r: Employee)
    ensures r.id == e.id && r.position == e.position && r.role == e.role
    ensures r.name == (if Truthy(name) then name else e.name)
    ensures r.contact == (if Truthy(contact) then contact else e.contact)
    ensures r.username == (if Truthy(username) then username else e.username)
    ensures r.password == (if Truthy(password) then password else e.password)
  {
    e.(name := Overwrite(e.name, name),
       contact := Overwrite(e.contact, contact),
       username := Overwrite(e.username, username),
       password := Overwrite(e.password, password))
  }

  /** A teacher's profile update is an employee update that supplies no position. */
  lemma UpdatedTeacherIsUpdateWithoutPosition(e: Employee, name: Value, contact: Value, username: Value, password: Value)
    ensures UpdatedTeacher(e, name, contact, username, password) == UpdatedEmployee(e, name, contact, Null, username, password)
  {
  }

  /** Applying the same partial update twice changes nothing more. */
  lemma UpdatedEmployeeIdempotent(e: Employee, name: Value, contact: Value, position: Value, username: Value, password: Value)
    ensures var once := UpdatedEmployee(e, name, contact, position, username, password);
            UpdatedEmployee(once, name, contact, position, username, password) == once
  {
  }

  /**
   * A partial update does not keep the credentials rule: moving an admin or
   * teacher to any other truthy position re-derives the role as staff but
   * leaves the username and password in place.
   */
  lemma DemotionKeepsCredentials(e: Employee, p: Value)
    requires IsPrivileged(e.position) && Truthy(p) && !IsPrivileged(p)
    ensures var r := UpdatedEmployee(e, Null, Null, p, Null, Null);
            && r.role == Staff && r.username == e.username && r.password == e.password
            && (e.username != Null ==> !CredentialsOnlyIfPrivileged(r))
  {
  }

  datatype Student = Student(id: int, name: Value, age: Value, classId: Value, marks: Value)

  function StudentId(s: Student): int { s.id }

  /** The row that adding a student appends: no marks yet. */
  function NewStudent(id: int, name: Value, age: Value, classId: Value): (s: Student)
    ensures s.id == id && s.name == name && s.age == age && s.classId == classId
    ensures s.marks == Null
  {
    Student(id, name, age, classId, Null)
  }

  /** A student row after a partial update. */
  function UpdatedStudent(s: Student, name: Value, age: Value, classId: Value, mark: Value): (r: Student)
    ensures r.id == s.id
    ensures r.name == (if Truthy(name) then name else s.name)
    ensures r.age == (if Truthy(age) then age else s.age)
    ensures r.classId == (if Truthy(classId) then classId else s.classId)
    ensures r.marks == (if Truthy(mark) then mark else s.marks)
  {
    s.(name := Overwrite(s.name, name),
       age := Overwrite(s.age, age),
       classId := Overwrite(s.classId, classId),
       marks := Overwrite(s.marks, mark))
  }

  /** A student row after a mark update: only `marks` may change, and only for a truthy mark. */
  function WithMark(s: Student, mark: Value): (r: Student)
    ensures !Truthy(mark) ==> r == s
    ensures Truthy(mark) ==> r == s.(marks := mark)
  {
    s.(marks := Overwrite(s.marks, mark))
  }

  /** A mark update is a student update that supplies only a mark. */
  lemma WithMarkIsUpdateOfMarkOnly(s: Student, mark: Value)
    ensures WithMark(s, mark) == UpdatedStudent(s, Null, Null, Null, mark)
  {
  }

  /**
   * Truthiness decides which marks can be recorded: a numeric zero is ignored,
   * while the text "0" is stored.
   */
  lemma ZeroMarkIgnoredUnlessText(s: Student)
    ensures WithMark(s, Number(0)) == s
    ensures WithMark(s, Text("0")).marks == Text("0")
  {
  }

  datatype Attendance = Attendance(date: Value, classId: Value, studentId: int, status: Value)

  datatype Schedule = Schedule(classId: Value, teacherId: int)

  function ScheduleTeacher(s: Schedule): int { s.teacherId }
}
