# School record store

A model of the in-memory record store of a small school administration
application (class `School` in `school.py`). The store holds four tables,
employees, students, attendance and schedules. Its CRUD operations change
them: new ids are allocated sequentially, rows are removed by filtering,
partial updates overwrite only the fields given a truthy value, and two
appends are guarded (a schedule needs an existing employee id as its teacher, an attendance row
needs a matching schedule).

Layout:

- `wrappers.dfy`: module `Wrappers`, the `Option` type.
- `tables.dfy`: module `Tables`. Tables are sequences of rows with an integer
  key. It holds the id column (`Keys`), unique ids (`Distinct`), id allocation
  (`Max`, `NextId`), the filter used by removals (`Without`) and the
  first-match lookup used by updates (`FirstWith`), with their lemmas.
- `records.dfy`: module `Records`. It holds the cell values (`Value`, with the
  language's truthiness as `Truthy`) and the four row types. It also holds
  the row-level rules: role derivation, credentials on a new employee, and
  partial updates of employee, teacher, student and mark.
- `school.dfy`: module `SchoolStore`, class `School`. The four tables are
  `seq` fields, and each operation is a method with `modifies this`. Each
  method states the new value of every table. Each method also keeps the
  store invariant `Consistent()`: unique employee and student ids, each role
  derived from its position, and each schedule naming an existing employee.

What `school.py` does and does not hold:

- it has no lesson-plan table;
- attendance rows have no id of their own;
- `mark_attendance` only appends when the class is scheduled for that teacher;
- `assign_teacher_to_class` appends only when the teacher id is an existing employee id, and never updates an existing row;
- it has no student import and no reports.

## Model

| member | source | states |
|---|---|---|
| `Tables.Max` | school.py:51 | the maximum of a non-empty id column is one of its ids and no id exceeds it |
| `Tables.NextId` | school.py:51 | a new id is 1 for an empty table; otherwise it is one more than an existing id and greater than every existing id |
| `Tables.Without` | school.py:67-68 | the filtered table holds exactly the rows whose key differs from the removed one; it is the same table when the key is absent |
| `Tables.WithoutAppend` | school.py:67 | filtering distributes over concatenation, so kept rows stay in their original order |
| `Tables.WithoutIdempotent` | school.py:97 | removing the same id twice removes nothing more |
| `Tables.WithoutKeepsDistinct` | school.py:67 | removal keeps ids unique |
| `Tables.WithoutPresentUnique` | school.py:96-97 | with unique ids, removing a present id removes exactly one row |
| `Tables.FirstWith` | school.py:74 | the lookup finds nothing exactly when the id is absent; otherwise it finds the first row with that id, which is the only such row when ids are unique |
| `Tables.AppendLargerKeepsDistinct` | school.py:62 | appending a row whose id exceeds every existing id keeps ids unique |
| `Records.RoleOf` | school.py:52 | the role is admin, teacher or staff; it is privileged exactly when the position is; a role other than staff equals the position |
| `Records.NewEmployee` | school.py:52-61 | the new row carries the given fields and the derived role; username and password are kept only for admin and teacher, and are empty otherwise |
| `Records.UpdatedEmployee` | school.py:76-87 | only fields given a truthy value change; a truthy position re-derives the role; the id never changes; role consistency is kept; all-falsy arguments change nothing |
| `Records.UpdatedEmployeeIdempotent` | school.py:76-87 | applying the same employee update twice equals applying it once |
| `Records.DemotionKeepsCredentials` | school.py:80-87 | moving an admin or teacher to a truthy position other than admin or teacher makes the role staff but keeps the username and password, so an employee who had a username breaks the credentials rule |
| `Records.UpdatedTeacher` | school.py:120-127 | a teacher update never changes id, position or role; other fields change only when given a truthy value |
| `Records.UpdatedTeacherIsUpdateWithoutPosition` | school.py:115-128 | a teacher update equals an employee update with no position |
| `Records.NewStudent` | school.py:92 | the new student row carries the given fields and has no marks |
| `Records.UpdatedStudent` | school.py:105-112 | only the fields given a truthy value change, and the id never does |
| `Records.WithMark` | school.py:149-150 | a falsy mark leaves the row unchanged; otherwise only `marks` changes |
| `Records.WithMarkIsUpdateOfMarkOnly` | school.py:144-151 | a mark update equals a student update that gives only a mark |
| `Records.ZeroMarkIgnoredUnlessText` | school.py:149 | a numeric zero mark is ignored, while the text "0" is stored |
| `SchoolStore.RemovalKeepsTeachersKnown` | school.py:66-68 | removing an employee together with the schedule rows naming them leaves every remaining schedule row naming a remaining employee; when the employee is absent, no schedule row is removed |
| `SchoolStore.School.constructor` | school.py:18-22 | the store starts with the four tables as loaded |
| `SchoolStore.School.AddEmployee` | school.py:50-64 | returns the next sequential id, greater than every existing one; appends exactly the derived row; other tables unchanged; invariant kept |
| `SchoolStore.School.RemoveEmployee` | school.py:66-69 | drops every employee row with the id and every schedule row naming it as teacher; employees are unchanged when the id is absent, and so are schedules in a consistent store; students and attendance unchanged; invariant kept |
| `SchoolStore.School.UpdateEmployee` | school.py:71-88 | reports whether the id exists; if not, nothing changes; otherwise only the first row with that id is replaced by its partial update; invariant kept |
| `SchoolStore.School.AddStudent` | school.py:90-94 | appends exactly one row with the next sequential student id and no marks; other tables unchanged; invariant kept |
| `SchoolStore.School.RemoveStudent` | school.py:96-98 | drops every student row with the id and leaves the other tables unchanged |
| `SchoolStore.School.UpdateStudent` | school.py:100-113 | reports whether the id exists; if not, nothing changes; otherwise only the first row with that id is partially updated |
| `SchoolStore.School.UpdateTeacher` | school.py:115-128 | reports whether the id exists; if not, nothing changes; otherwise only the first matching row is updated; no row's position or role changes |
| `SchoolStore.School.AssignTeacherToClass` | school.py:131-135 | appends exactly one (class, teacher) schedule row when the teacher is an existing employee; otherwise nothing changes |
| `SchoolStore.School.MarkAttendance` | school.py:138-142 | appends exactly one attendance row when the class is scheduled for that teacher; otherwise nothing changes |
| `SchoolStore.School.UpdateStudentMark` | school.py:144-151 | reports whether the id exists; nothing changes when it does not or when the mark is falsy; otherwise only that student's `marks` is set |

## Left out

- File persistence: creating, loading and saving the CSV files (school.py:6-48). The constructor takes the loaded tables as parameters, and saving after each change is not modelled.
- pandas specifics: column dtypes, NaN cells, floats, and index labels. Tables are plain sequences of rows. A row label from `.index[0]` is modelled as the position of the first matching row.
- Cell values are nothing, a string or an integer. Floating-point marks and ages are not modelled.
- The update operations return `None` on success and `False` on a missing id. The model returns `found: bool`, with `true` standing for the `None` return.
- `Consistent()` is preserved only when it held before an operation. Tables loaded from files may violate it, and the store never checks.
- The role façades in person.py are not part of this model. Their constructors read a `users` table that the store does not define.
- The desktop forms in gui.py and the application wiring in main.py are not part of this model. That includes the caller-side checks on required fields, numeric ids and the 0-100 mark range.
