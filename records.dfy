/**
 * The shared data of the three front ends: a teacher registry, a student
 * registry and the nested attendance map
 * `teacherId -> subject -> studentId -> date -> status`.
 *
 * A subject's map (its ledger) normally holds one date map per student.  The
 * older command format of the group bot stores a status string directly under
 * a date in the same ledger, so a ledger entry is either kind.
 */
module Records {
  import opened Options
  import opened Dicts

  type Id = string

  /** The value stored for one date: a status string, or JavaScript `undefined`. */
  datatype Cell = Mark(status: string) | Undefined

  /** date -> status */
  type Days = Dict<Cell>

  /** What a ledger holds under a key: a student's date map, or a legacy status string. */
  datatype Entry = StudentDays(days: Days) | LegacyMark(mark: string)

  /** studentId (or legacy date) -> entry */
  type Ledger = Dict<Entry>

  /** subject -> ledger */
  type Subjects = Dict<Ledger>

  /** A teacher record; the registration timestamp is not modelled. */
  datatype Teacher = Teacher(name: string)

  /** A student record; the registration timestamp is not modelled. */
  datatype Student = Student(name: string, phone: string, teacherId: Id)

  /** The three global stores. */
  datatype Registry = Registry(teachers: Dict<Teacher>, students: Dict<Student>, attendance: map<Id, Subjects>)

  /** JavaScript truthiness of a ledger entry: every object is truthy, only the empty string is not. */
  predicate Truthy(e: Entry) {
    e.StudentDays? || e.mark != ""
  }

  predicate IsTeacher(r: Registry, id: Id) {
    id in r.teachers.vals
  }

  predicate IsStudent(r: Registry, id: Id) {
    id in r.students.vals
  }

  /** `teachers[id]?.name || 'Unknown Teacher'` */
  function TeacherName(r: Registry, id: Id): string {
    if id in r.teachers.vals && r.teachers.vals[id].name != "" then r.teachers.vals[id].name
    else "Unknown Teacher"
  }

  /** `students[id]?.name || 'Unknown Student'` */
  function StudentName(r: Registry, id: Id): string {
    if id in r.students.vals && r.students.vals[id].name != "" then r.students.vals[id].name
    else "Unknown Student"
  }

  /** `attendance[t] || {}` */
  function SubjectsOf(r: Registry, t: Id): Subjects {
    if t in r.attendance then r.attendance[t] else Empty()
  }

  function NotTaughtBy(t: Id): Student -> bool {
    (s: Student) => s.teacherId != t
  }

  /**
   * `getStudentsForTeacher`: the ids of the students whose teacher is `t`, in
   * registration order.
   */
  function StudentsOf(r: Registry, t: Id): (ids: seq<Id>)
    ensures forall sid :: sid in ids <==> sid in r.students.vals && r.students.vals[sid].teacherId == t
    ensures Distinct(ids)
    ensures Sublist(ids, r.students.keys)
  {
    KeepKeysDistinct(r.students.keys, r.students.vals, NotTaughtBy(t));
    KeepKeysSublist(r.students.keys, r.students.vals, NotTaughtBy(t));
    KeepKeys(r.students.keys, r.students.vals, NotTaughtBy(t))
  }

  /** The names shown in a numbered roster. */
  function RosterNames(r: Registry, ids: seq<Id>): (names: seq<string>)
    ensures |names| == |ids|
    ensures forall i | 0 <= i < |ids| :: names[i] == StudentName(r, ids[i])
  {
    if ids == [] then [] else [StudentName(r, ids[0])] + RosterNames(r, ids[1..])
  }

  /** The `name (phone)` pairs of a student listing, taken from the records directly. */
  function Listing(r: Registry, ids: seq<Id>): (rows: seq<(string, string)>)
    requires forall sid | sid in ids :: sid in r.students.vals
    ensures |rows| == |ids|
    ensures forall i | 0 <= i < |ids| :: rows[i] == (r.students.vals[ids[i]].name, r.students.vals[ids[i]].phone)
  {
    if ids == [] then [] else [(r.students.vals[ids[0]].name, r.students.vals[ids[0]].phone)] + Listing(r, ids[1..])
  }
}
