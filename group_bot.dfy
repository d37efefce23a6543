/**
 * The group bot: one message handler that answers only inside one fixed
 * WhatsApp group, serves the pending dialogue steps of the sender (teacher
 * name, subject name, student name, student phone, attendance subject) and then
 * a chain of numbered and slash commands, including list-based marking
 * (`subject.N`, `student.N X`, `bulk`, `bulk X`) and the older `/present-…`
 * commands that store a status directly under a date.
 *
 * `Step` is the handler as a function of the stores, the sender, the message
 * body, today's date and the set of students whose notification gets through.
 */
module GroupBot {
  import opened Options
  import opened Dicts
  import opened JsText
  import opened Records
  import opened Reports
  import opened Store

  /** `BOT_GROUP_ID`: the one chat the handler answers. */
  const GroupId: Id := "120363420628239379@g.us"

  /**
   * A value of `awaitingAttendanceStudent[from]` that is an object: the subject,
   * the roster snapshot (absent when the session was opened by the attendance
   * subject step) and the `bulkMode` flag.
   */
  datatype Session = Session(subject: string, roster: Option<seq<Id>>, bulkMode: bool) {
    /** `subject && studentList`: both are present (and the subject is not empty). */
    predicate Ready() {
      subject != "" && roster.Some?
    }
  }

  /**
   * The stores and the pending steps.  An awaiting value that is `false` is the
   * same as one never set, so each flag map is the set of senders whose flag is
   * on; `awaitPhone` keeps the name collected in the previous step.
   */
  datatype State = State(
    reg: Registry,
    awaitTeacherName: set<Id>,
    awaitSubject: set<Id>,
    awaitStudentName: set<Id>,
    awaitPhone: map<Id, string>,
    awaitAttendanceSubject: set<Id>,
    sessions: map<Id, Session>)

  /** A notification sent to a student; `status` is `undefined` when the command's second token is missing. */
  datatype Notice = AttendanceUpdate(to: Id, subject: string, date: string, status: Option<string>, teacher: string)

  /** The reply posted in the group, by kind and with the data it shows. */
  datatype Reply =
    | Ignored
    | Crashed                                   // the handler throws a TypeError before replying
    | TeacherRegistered(name: string)
    | SubjectAdded(subject: string)
    | SubjectExists
    | AskPhone
    | StudentAdded(name: string, phone: string, teacher: string)
    | OnlyTeachers
    | SubjectNotFound
    | NoStudents
    | StudentChoice(subject: string, names: seq<string>)
    | Instructions
    | MainMenu(teacher: string)
    | AskTeacherName
    | AskSubjectName
    | StudentMenu
    | AskStudentName
    | StudentList(entries: seq<(string, string)>)
    | NoSubjects
    | SubjectChoice(subjects: seq<string>)
    | AttendanceList(subject: string, names: seq<string>)
    | InvalidSubject
    | SubjectFigures(figures: seq<(string, Counts)>)
    | InvalidReport
    | SubjectReport(subject: string, overall: Counts, perStudent: seq<(string, Tally)>)
    | LowList(subjects: seq<string>)
    | AllAbove
    | Overview(teacher: string, figures: seq<(string, Counts)>)
    | TeacherList(rows: seq<(string, nat)>)
    | PleaseRegister
    | IndividualChoice(subjects: seq<string>)
    | MarkLinks(figures: seq<(string, Counts)>)
    | NoRecords(teacher: string)
    | MyAttendance(teacher: string, perSubject: seq<(string, Tally)>)
    | MissingInformation
    | Marked(student: string, status: Option<string>, subject: string, date: string, sent: bool)
    | InvalidStudentNumber
    | BulkPrompt(subject: string)
    | BulkDone(marked: nat, status: Option<string>, subject: string, date: string, notified: nat)
    | LegacyMarked(subject: string, letter: string, date: string)

  datatype Outcome = Outcome(state: State, reply: Reply, notices: seq<Notice>)

  function Initial(): State {
    State(Registry(Empty(), Empty(), map[]), {}, {}, {}, map[], {}, map[])
  }

  /** The value stored by `... [date] = status`: `undefined` when there is no second token. */
  function CellOf(status: Option<string>): Cell {
    match status
    case None => Undefined
    case Some(st) => Mark(st)
  }

  // ---------------------------------------------------------------- listings

  /** `name: calcPercent(name)` for every subject, with the group bot's counting rule. */
  function GroupFigures(subs: Subjects): seq<(string, Counts)> {
    FiguresOf(subs.keys, subs.vals, GroupCounts)
  }

  /** `/teachers`: each teacher's name and number of subjects, in registration order. */
  function TeacherRows(r: Registry, ids: seq<Id>): (rows: seq<(string, nat)>)
    requires forall t | t in ids :: t in r.teachers.vals
    ensures |rows| == |ids|
    ensures forall i | 0 <= i < |ids| :: rows[i] == (r.teachers.vals[ids[i]].name, |SubjectsOf(r, ids[i]).keys|)
  {
    if ids == [] then [] else [(r.teachers.vals[ids[0]].name, |SubjectsOf(r, ids[0]).keys|)] + TeacherRows(r, ids[1..])
  }

  /**
   * `/myattendance`: one row per subject in which the student's entry is
   * truthy, and a row for every such subject.
   */
  function TruthyRows(ks: seq<string>, m: map<string, Ledger>, sid: Id): (rows: seq<(string, Tally)>)
    requires forall k | k in ks :: k in m
    ensures |rows| <= |ks|
    ensures forall row | row in rows ::
      row.0 in ks && sid in m[row.0].vals && Truthy(m[row.0].vals[sid]) && row.1 == EntryTally(m[row.0].vals[sid])
    ensures forall k | k in ks && sid in m[k].vals && Truthy(m[k].vals[sid]) :: (k, EntryTally(m[k].vals[sid])) in rows
  {
    if ks == [] then []
    else
      var k := ks[0];
      (if sid in m[k].vals && Truthy(m[k].vals[sid]) then [(k, EntryTally(m[k].vals[sid]))] else []) + TruthyRows(ks[1..], m, sid)
  }

  /** The subject names of the `/myattendance` rows. */
  function RowNames(rows: seq<(string, Tally)>): (ns: seq<string>)
    ensures |ns| == |rows|
    ensures forall i | 0 <= i < |rows| :: ns[i] == rows[i].0
  {
    if rows == [] then [] else [rows[0].0] + RowNames(rows[1..])
  }

  /** The `/myattendance` rows follow the `for…in` order of the subjects. */
  lemma {:induction false} TruthyRowsInOrder(ks: seq<string>, m: map<string, Ledger>, sid: Id)
    requires forall k | k in ks :: k in m
    ensures Sublist(RowNames(TruthyRows(ks, m, sid)), ks)
  {
    if ks != [] {
      var k := ks[0];
      var rest := TruthyRows(ks[1..], m, sid);
      TruthyRowsInOrder(ks[1..], m, sid);
      assert ks == [k] + ks[1..];
      if sid in m[k].vals && Truthy(m[k].vals[sid]) {
        var row := (k, EntryTally(m[k].vals[sid]));
        assert TruthyRows(ks, m, sid) == [row] + rest;
        assert RowNames([row] + rest) == [k] + RowNames(rest);
        SublistBoth(RowNames(rest), ks[1..], k);
      } else {
        assert TruthyRows(ks, m, sid) == rest;
        SublistCons(RowNames(rest), ks[1..], k);
      }
    }
  }

  /** The notifications of a bulk write, one per roster entry, in order. */
  function BulkNotices(roster: seq<Id>, subject: string, date: string, status: Option<string>, teacher: string): (ns: seq<Notice>)
    ensures |ns| == |roster|
  {
    if roster == [] then []
    else BulkNotices(roster[..|roster| - 1], subject, date, status, teacher)
         + [AttendanceUpdate(roster[|roster| - 1], subject, date, status, teacher)]
  }

  /** The i-th notification of a bulk write goes to the i-th student of the snapshot. */
  lemma {:induction false} BulkNoticesAt(roster: seq<Id>, subject: string, date: string, status: Option<string>, teacher: string)
    ensures forall i | 0 <= i < |roster| ::
      BulkNotices(roster, subject, date, status, teacher)[i] == AttendanceUpdate(roster[i], subject, date, status, teacher)
  {
    if roster != [] {
      var init := roster[..|roster| - 1];
      BulkNoticesAt(init, subject, date, status, teacher);
      assert forall i | 0 <= i < |init| :: init[i] == roster[i];
    }
  }

  /** `notificationCount`: the roster entries whose notification gets through. */
  function DeliveredCount(roster: seq<Id>, delivered: set<Id>): (n: nat)
    ensures n <= |roster|
  {
    if roster == [] then 0
    else DeliveredCount(roster[..|roster| - 1], delivered) + (if roster[|roster| - 1] in delivered then 1 else 0)
  }
  /** Every notice delivered counts the whole roster; none delivered counts 0. */
  lemma {:induction false} DeliveredCountBounds(roster: seq<Id>, delivered: set<Id>)
    ensures (forall sid | sid in roster :: sid in delivered) ==> DeliveredCount(roster, delivered) == |roster|
    ensures (forall sid | sid in roster :: sid !in delivered) ==> DeliveredCount(roster, delivered) == 0
  {
    if roster != [] {
      var init := roster[..|roster| - 1];
      assert forall sid | sid in init :: sid in roster;
      DeliveredCountBounds(init, delivered);
    }
  }


  /** One more student of the snapshot: each prefix function takes one step. */
  lemma BulkPrefixStep(subject: string, roster: seq<Id>, i: nat, date: string,
                       status: Option<string>, teacher: string, delivered: set<Id>)
    requires i < |roster|
    ensures DeliveredCount(roster[..i + 1], delivered)
      == DeliveredCount(roster[..i], delivered) + (if roster[i] in delivered then 1 else 0)
    ensures BulkNotices(roster[..i + 1], subject, date, status, teacher)
      == BulkNotices(roster[..i], subject, date, status, teacher) + [AttendanceUpdate(roster[i], subject, date, status, teacher)]
  {
    var done := roster[..i + 1];
    assert done[..|done| - 1] == roster[..i] && done[|done| - 1] == roster[i];
  }

  // ---------------------------------------------------------------- routing

  /**
   * Which part of the handler a message reaches: nothing outside the group,
   * then the pending steps in their fixed order, then the command chain in
   * source order.  The numbered and the slash form of a command that behave
   * alike share a branch.
   */
  datatype Branch =
    | Outside
    | PendingName
    | PendingSubject
    | PendingStudentName
    | PendingPhone(name: string)
    | PendingAttendanceSubject
    | StartCmd
    | RegisterCmd
    | AddSubjectCmd                                   // "1", "/add"
    | StudentMenuCmd                                  // "2", "/students"
    | AddStudentCmd                                   // "2.1", "/addStudent"
    | ListStudentsCmd                                 // "2.2", "/viewStudents"
    | ChooseSubjectCmd                                // "3"
    | OpenSessionCmd(n: nat)                          // subject.N
    | ReportsCmd                                      // "4"
    | ReportCmd(n: nat)                               // report.N
    | LowCmd                                          // "5", "/alert"
    | OverviewCmd                                     // "6", "/view"
    | TeachersCmd                                     // "/teachers"
    | NeedsRegistration                               // a teachers-only slash command from anyone else
    | MarkIndividualCmd                               // "/markIndividual"
    | MarkCmd                                         // "/mark"
    | MyAttendanceCmd(student: Student)               // "/myattendance"
    | MarkStudentCmd(n: nat, status: Option<string>, session: Session)  // student.N X
    | BulkCmd(session: Session)                       // "bulk"
    | BulkMarkCmd(status: Option<string>, session: Session)             // bulk X
    | OnlyTeachersCmd                                 // /^(present|absent|…)/i from a non-teacher
    | LegacyCmd(letter: string, subject: string)      // /present-…, /absent-…, /holiday-…
    | Unmatched
  {
    /** A pending dialogue step. */
    predicate IsPending() {
      PendingName? || PendingSubject? || PendingStudentName? || PendingPhone? || PendingAttendanceSubject?
    }

    /** A command that starts a dialogue. */
    predicate IsPrompt() {
      RegisterCmd? || AddSubjectCmd? || AddStudentCmd?
    }

    /** Opening a session, marking from it, or a legacy write. */
    predicate IsMarking() {
      OpenSessionCmd? || MarkStudentCmd? || BulkCmd? || BulkMarkCmd? || LegacyCmd?
    }

    /** A branch that only answers. */
    predicate OnlyAnswers() {
      !IsPending() && !IsPrompt() && !IsMarking()
    }
  }

  /** `/^(present|absent|holiday|noclass|mark|attendance)/i` */
  predicate AttendanceWord(text: string) {
    || StartsWithIgnoringCase(text, "present") || StartsWithIgnoringCase(text, "absent")
    || StartsWithIgnoringCase(text, "holiday") || StartsWithIgnoringCase(text, "noclass")
    || StartsWithIgnoringCase(text, "mark") || StartsWithIgnoringCase(text, "attendance")
  }

  /** The slash commands that answer "register first" to a non-teacher. */
  predicate TeacherOnlySlash(text: string) {
    text in {"/add", "/students", "/addStudent", "/viewStudents", "/markIndividual", "/mark", "/alert", "/view"}
  }

  /** The order of the tests of the handler, on the trimmed text. */
  function Route(s: State, from: Id, text: string): Branch {
    var teacher := IsTeacher(s.reg, from);
    var session := from in s.sessions;
    if from != GroupId then Outside
    else if from in s.awaitTeacherName then PendingName
    else if from in s.awaitSubject then PendingSubject
    else if from in s.awaitStudentName then PendingStudentName
    else if from in s.awaitPhone then PendingPhone(s.awaitPhone[from])
    else if from in s.awaitAttendanceSubject then PendingAttendanceSubject
    else if text == "/start" then StartCmd
    else if text == "/register" then RegisterCmd
    else if text == "1" && teacher then AddSubjectCmd
    else if text == "2" && teacher then StudentMenuCmd
    else if text == "2.1" && teacher then AddStudentCmd
    else if text == "2.2" && teacher then ListStudentsCmd
    else if text == "3" && teacher then ChooseSubjectCmd
    else if DottedNumber(text, "subject.").Some? && !session && teacher then OpenSessionCmd(DottedNumber(text, "subject.").value)
    else if text == "4" && teacher then ReportsCmd
    else if DottedNumber(text, "report.").Some? && teacher then ReportCmd(DottedNumber(text, "report.").value)
    else if text == "5" && teacher then LowCmd
    else if text == "6" && teacher then OverviewCmd
    else if text == "/teachers" && teacher then TeachersCmd
    else if TeacherOnlySlash(text) && !teacher then NeedsRegistration
    else if text == "/add" then AddSubjectCmd
    else if text == "/students" then StudentMenuCmd
    else if text == "/addStudent" then AddStudentCmd
    else if text == "/viewStudents" then ListStudentsCmd
    else if text == "/markIndividual" then MarkIndividualCmd
    else if text == "/mark" then MarkCmd
    else if text == "/alert" then LowCmd
    else if text == "/view" then OverviewCmd
    else if text == "/myattendance" && IsStudent(s.reg, from) then MyAttendanceCmd(s.reg.students.vals[from])
    else if StudentMark(text).Some? && session && teacher then
      MarkStudentCmd(StudentMark(text).value.0, StudentMark(text).value.1, s.sessions[from])
    else if text == "bulk" && session && teacher then BulkCmd(s.sessions[from])
    else if BulkMark(text).Some? && session && s.sessions[from].bulkMode && teacher then
      BulkMarkCmd(BulkMark(text).value, s.sessions[from])
    else if AttendanceWord(text) && !teacher then OnlyTeachersCmd
    else if LegacyCommand(text).Some? then
      (if teacher then LegacyCmd(LegacyCommand(text).value.0, LegacyCommand(text).value.1) else NeedsRegistration)
    else Unmatched
  }

  // ---------------------------------------------------------------- pending steps

  /** The teacher-name step: record the teacher and start them with no subjects. */
  function NameStep(s: State, from: Id, name: string): Outcome {
    var r := s.reg;
    var r' := Registry(Put(r.teachers, from, Teacher(name)), r.students, r.attendance[from := Empty()]);
    Outcome(s.(reg := r', awaitTeacherName := s.awaitTeacherName - {from}), TeacherRegistered(name), [])
  }

  /**
   * The subject step; it throws when the sender has no attendance map, and it
   * treats a name every object inherits, such as `constructor`, as existing.
   */
  function SubjectStep(s: State, from: Id, subject: string): Outcome {
    var att := s.reg.attendance;
    var s' := s.(awaitSubject := s.awaitSubject - {from});
    if from !in att then Outcome(s, Crashed, [])
    else if !HasProperty(att[from], subject) then
      Outcome(s'.(reg := s.reg.(attendance := att[from := Put(att[from], subject, Empty())])), SubjectAdded(subject), [])
    else Outcome(s', SubjectExists, [])
  }

  /** The student-name step: remember the name and ask for the phone. */
  function StudentNameStep(s: State, from: Id, name: string): Outcome {
    Outcome(s.(awaitStudentName := s.awaitStudentName - {from}, awaitPhone := s.awaitPhone[from := name]), AskPhone, [])
  }

  /** The phone step: enrol the student with the remembered name. */
  function PhoneStep(s: State, from: Id, name: string, phoneText: string): Outcome {
    var r' := Enroll(s.reg, from, name, phoneText);
    Outcome(s.(reg := r', awaitPhone := s.awaitPhone - {from}),
      StudentAdded(name, DigitsOnly(phoneText), TeacherName(s.reg, from)), [])
  }

  /** The attendance-subject step: open a session for the named subject, without a roster. */
  function AttendanceSubjectStep(s: State, from: Id, subject: string): Outcome {
    var s' := s.(awaitAttendanceSubject := s.awaitAttendanceSubject - {from});
    if !IsTeacher(s.reg, from) then Outcome(s', OnlyTeachers, [])
    else if from !in s.reg.attendance then Outcome(s, Crashed, [])
    else if subject !in s.reg.attendance[from].vals then Outcome(s', SubjectNotFound, [])
    else
      var roster := StudentsOf(s.reg, from);
      if roster == [] then Outcome(s', NoStudents, [])
      else Outcome(s'.(sessions := s.sessions[from := Session(subject, None, false)]),
        StudentChoice(subject, RosterNames(s.reg, roster)), [])
  }

  // ---------------------------------------------------------------- marking

  /** `subject.N`: open a session over a snapshot of the teacher's students. */
  function OpenSession(s: State, from: Id, n: nat): Outcome {
    var subs := SubjectsOf(s.reg, from).keys;
    if n < 1 || n > |subs| then Outcome(s, InvalidSubject, [])
    else
      var subject := subs[n - 1];
      var roster := StudentsOf(s.reg, from);
      if roster == [] then Outcome(s, NoStudents, [])
      else Outcome(s.(sessions := s.sessions[from := Session(subject, Some(roster), false)]),
        AttendanceList(subject, RosterNames(s.reg, roster)), [])
  }

  /** `student.N X`: write today's status for the N-th student of the snapshot; the session stays open. */
  function MarkStudentStep(s: State, from: Id, n: nat, status: Option<string>, session: Session,
                           today: string, delivered: set<Id>): Outcome {
    if !session.Ready() then Outcome(s, MissingInformation, [])
    else if n < 1 || n > |session.roster.value| then Outcome(s, InvalidStudentNumber, [])
    else
      var sid := session.roster.value[n - 1];
      var r' := s.reg.(attendance := MarkIn(s.reg.attendance, from, session.subject, sid, today, CellOf(status)));
      Outcome(s.(reg := r'),
        Marked(StudentName(s.reg, sid), status, session.subject, today, sid in delivered),
        [AttendanceUpdate(sid, session.subject, today, status, TeacherName(s.reg, from))])
  }

  /** `bulk`: switch the session to bulk mode. */
  function BulkPromptStep(s: State, from: Id, session: Session): Outcome {
    if !session.Ready() then Outcome(s, MissingInformation, [])
    else Outcome(s.(sessions := s.sessions[from := session.(bulkMode := true)]), BulkPrompt(session.subject), [])
  }

  /** `bulk X`: write today's status for every student of the snapshot, then close the session. */
  function BulkStep(s: State, from: Id, status: Option<string>, session: Session, today: string, delivered: set<Id>): Outcome {
    if !session.Ready() then Outcome(s, MissingInformation, [])
    else
      var roster := session.roster.value;
      var r' := s.reg.(attendance := MarkAll(s.reg.attendance, from, session.subject, roster, today, CellOf(status)));
      Outcome(s.(reg := r', sessions := s.sessions - {from}),
        BulkDone(|roster|, status, session.subject, today, DeliveredCount(roster, delivered)),
        BulkNotices(roster, session.subject, today, status, TeacherName(s.reg, from)))
  }

  /** `/present-<s>` and friends: the letter goes directly under today's date in subject `s`. */
  function LegacyStep(s: State, from: Id, letter: string, subject: string, today: string): Outcome {
    Outcome(s.(reg := s.reg.(attendance := WriteLegacy(s.reg.attendance, from, subject, today, letter))),
      LegacyMarked(subject, letter, today), [])
  }

  // ---------------------------------------------------------------- reports

  /** `report.N` */
  function ReportStep(s: State, from: Id, n: nat): Outcome {
    var subs := SubjectsOf(s.reg, from);
    if n < 1 || n > |subs.keys| then Outcome(s, InvalidReport, [])
    else
      var subject := subs.keys[n - 1];
      var book := subs.vals[subject];
      Outcome(s, SubjectReport(subject, GroupCounts(book), StudentRows(s.reg, book, StudentsOf(s.reg, from))), [])
  }

  /** Option 5 and `/alert`: the subjects below 75%, or the all-clear. */
  function LowReply(r: Registry, from: Id): Reply {
    var low := LowSubjects(SubjectsOf(r, from));
    if low == [] then AllAbove else LowList(low)
  }

  /** `/myattendance` for a registered student `st`. */
  function MyAttendanceStep(s: State, from: Id, st: Student): Outcome {
    var teacher := TeacherName(s.reg, st.teacherId);
    if st.teacherId !in s.reg.attendance then Outcome(s, NoRecords(teacher), [])
    else
      var subs := s.reg.attendance[st.teacherId];
      Outcome(s, MyAttendance(teacher, TruthyRows(subs.keys, subs.vals, from)), [])
  }

  /** What each branch does. */
  function Perform(s: State, from: Id, text: string, today: string, delivered: set<Id>, b: Branch): Outcome {
    if b.IsPending() then PendingOutcome(s, from, text, today, delivered, b)
    else if b.IsPrompt() then PromptOutcome(s, from, text, today, delivered, b)
    else if b.IsMarking() then MarkingOutcome(s, from, text, today, delivered, b)
    else AnswerOutcome(s, from, text, today, delivered, b)
  }

  /** The pending dialogue steps. */
  function PendingOutcome(s: State, from: Id, text: string, today: string, delivered: set<Id>, b: Branch): Outcome
    requires b.IsPending()
  {
    match b
    case PendingName => NameStep(s, from, text)
    case PendingSubject => SubjectStep(s, from, text)
    case PendingStudentName => StudentNameStep(s, from, text)
    case PendingPhone(name) => PhoneStep(s, from, name, text)
    case PendingAttendanceSubject => AttendanceSubjectStep(s, from, text)
  }

  /** The commands that start a dialogue. */
  function PromptOutcome(s: State, from: Id, text: string, today: string, delivered: set<Id>, b: Branch): Outcome
    requires b.IsPrompt()
  {
    match b
    case RegisterCmd => Outcome(s.(awaitTeacherName := s.awaitTeacherName + {from}), AskTeacherName, [])
    case AddSubjectCmd => Outcome(s.(awaitSubject := s.awaitSubject + {from}), AskSubjectName, [])
    case AddStudentCmd => Outcome(s.(awaitStudentName := s.awaitStudentName + {from}), AskStudentName, [])
  }

  /** Opening a session, marking from it, and the legacy writes. */
  function MarkingOutcome(s: State, from: Id, text: string, today: string, delivered: set<Id>, b: Branch): Outcome
    requires b.IsMarking()
  {
    match b
    case OpenSessionCmd(n) => OpenSession(s, from, n)
    case MarkStudentCmd(n, status, session) => MarkStudentStep(s, from, n, status, session, today, delivered)
    case BulkCmd(session) => BulkPromptStep(s, from, session)
    case BulkMarkCmd(status, session) => BulkStep(s, from, status, session, today, delivered)
    case LegacyCmd(letter, subject) => LegacyStep(s, from, letter, subject, today)
  }

  /** The branches that only answer. */
  function AnswerOutcome(s: State, from: Id, text: string, today: string, delivered: set<Id>, b: Branch): Outcome
    requires b.OnlyAnswers()
  {
    var r := s.reg;
    match b
    case Outside => Outcome(s, Ignored, [])
    case StartCmd =>
      if !IsTeacher(r, from) then Outcome(s, Instructions, []) else Outcome(s, MainMenu(TeacherName(r, from)), [])
    case StudentMenuCmd => Outcome(s, StudentMenu, [])
    case ListStudentsCmd =>
      var list := StudentsOf(r, from);
      if list == [] then Outcome(s, NoStudents, []) else Outcome(s, StudentList(Listing(r, list)), [])
    case ChooseSubjectCmd =>
      var subs := SubjectsOf(r, from).keys;
      if subs == [] then Outcome(s, NoSubjects, []) else Outcome(s, SubjectChoice(subs), [])
    case ReportsCmd =>
      if SubjectsOf(r, from).keys == [] then Outcome(s, NoSubjects, [])
      else Outcome(s, SubjectFigures(GroupFigures(SubjectsOf(r, from))), [])
    case ReportCmd(n) => ReportStep(s, from, n)
    case LowCmd => Outcome(s, LowReply(r, from), [])
    case OverviewCmd => Outcome(s, Overview(TeacherName(r, from), GroupFigures(SubjectsOf(r, from))), [])
    case TeachersCmd => Outcome(s, TeacherList(TeacherRows(r, r.teachers.keys)), [])
    case NeedsRegistration => Outcome(s, PleaseRegister, [])
    case MarkIndividualCmd =>
      var subs := SubjectsOf(r, from).keys;
      if subs == [] then Outcome(s, NoSubjects, []) else Outcome(s, IndividualChoice(subs), [])
    case MarkCmd =>
      if SubjectsOf(r, from).keys == [] then Outcome(s, NoSubjects, [])
      else Outcome(s, MarkLinks(GroupFigures(SubjectsOf(r, from))), [])
    case MyAttendanceCmd(st) => MyAttendanceStep(s, from, st)
    case OnlyTeachersCmd => Outcome(s, OnlyTeachers, [])
    case Unmatched => Outcome(s, Ignored, [])
  }


  /**
   * The message handler: `msg.body.trim()`, then the branch the text reaches.
   * `delivered` holds the students whose notification is sent successfully.
   */
  function Step(s: State, from: Id, body: string, today: string, delivered: set<Id>): Outcome {
    var text := Trim(body);
    Perform(s, from, text, today, delivered, Route(s, from, text))
  }

  // ---------------------------------------------------------------- properties of the routing

  /** Nothing said outside the group changes anything or gets an answer. */
  lemma OutsideIgnored(s: State, from: Id, body: string, today: string, delivered: set<Id>)
    requires from != GroupId
    ensures Step(s, from, body, today, delivered) == Outcome(s, Ignored, [])
  {
    var b := Route(s, from, Trim(body));
    assert b == Outside;
    assert Perform(s, from, Trim(body), today, delivered, b) == AnswerOutcome(s, from, Trim(body), today, delivered, b);
  }

  /**
   * In the group the pending steps come first, in the order teacher name,
   * subject, student name, phone, attendance subject, whatever the text says.
   */
  lemma PendingFirst(s: State, text: string)
    ensures var b := Route(s, GroupId, text);
      && (GroupId in s.awaitTeacherName ==> b == PendingName)
      && (GroupId !in s.awaitTeacherName && GroupId in s.awaitSubject ==> b == PendingSubject)
      && (GroupId !in s.awaitTeacherName && GroupId !in s.awaitSubject && GroupId in s.awaitStudentName ==>
            b == PendingStudentName)
      && (GroupId !in s.awaitTeacherName && GroupId !in s.awaitSubject && GroupId !in s.awaitStudentName
          && GroupId in s.awaitPhone
          ==> b == PendingPhone(s.awaitPhone[GroupId]))
      && (GroupId !in s.awaitTeacherName && GroupId !in s.awaitSubject && GroupId !in s.awaitStudentName
          && GroupId !in s.awaitPhone && GroupId in s.awaitAttendanceSubject
          ==> b == PendingAttendanceSubject)
  {
  }

  /**
   * `subject.N` is only served when no marking session is open, and
   * `student.N X`, `bulk` and `bulk X` only act on the open session, `bulk X`
   * only in bulk mode.
   */
  lemma SessionCommands(s: State, from: Id, text: string)
    ensures Route(s, from, text).OpenSessionCmd? ==> from !in s.sessions
    ensures Route(s, from, text).MarkStudentCmd? ==> from in s.sessions && Route(s, from, text).session == s.sessions[from]
    ensures Route(s, from, text).BulkCmd? ==> from in s.sessions && Route(s, from, text).session == s.sessions[from]
    ensures Route(s, from, text).BulkMarkCmd? ==>
      from in s.sessions && s.sessions[from].bulkMode && Route(s, from, text).session == s.sessions[from]
  {
  }

  /**
   * The status of `student.N X` is the second single-space token: two spaces
   * give the empty status, though the pattern accepts them.
   */
  lemma StatusAfterTwoSpaces()
    ensures StudentMark("student.1  P") == Some((1, Some("")))
  {
    var t := "student.1  P";
    assert StartsWith(t, "student.");
    assert t[8..] == "1  P";
    var ds := DigitPrefix(t[8..]);
    assert ds == "1" by { assert DigitPrefix("  P") == ""; }
    assert Value(ds) == 1;
    assert SpacedLetter(t[8 + |ds|..]) by {
      assert t[9..] == "  P";
      assert IsSpace(' ');
    }
    assert SecondField(t, ' ') == Some("") by {
      assert t[..9] == "student.1" && ' ' !in t[..9];
      AfterFirstAt(t, ' ', 9);
      assert t[10..] == " P";
      assert UpTo(" P", ' ') == "";
    }
  }

  /** A tab instead of a space matches the pattern but leaves the status `undefined`. */
  lemma StatusAfterTab()
    ensures StudentMark("student.1\tP") == Some((1, None))
  {
    var t := "student.1\tP";
    assert StartsWith(t, "student.") && t[8..] == "1\tP";
    assert DigitPrefix("1\tP") == "1" by { assert DigitPrefix("\tP") == ""; }
    assert Value("1") == 1;
    assert t[9..] == "\tP" && SpacedLetter("\tP") by { assert IsSpace('\t'); }
    assert ' ' !in t by { assert forall i | 0 <= i < |t| :: t[i] != ' '; }
  }

  /** The first index of `c` decides `AfterFirst`. */
  lemma AfterFirstAt(s: string, c: char, i: nat)
    requires i < |s| && s[i] == c && c !in s[..i]
    ensures AfterFirst(s, c) == Some(s[i + 1..])
    decreases i
  {
    if i > 0 {
      assert s[0] in s[..i];
      assert s[1..][..i - 1] == s[..i][1..];
      AfterFirstAt(s[1..], c, i - 1);
      assert s[1..][i..] == s[i + 1..];
    }
  }

  // ---------------------------------------------------------------- properties of the pending steps

  /**
   * Completing the teacher-name step makes the sender a teacher with that
   * name and resets their subjects to none, whatever they had before.
   */
  lemma NameStepResets(s: State, from: Id, name: string)
    ensures var o := NameStep(s, from, name);
      && o.reply == TeacherRegistered(name)
      && o.state.reg.teachers.vals == s.reg.teachers.vals[from := Teacher(name)]
      && o.state.reg.students == s.reg.students
      && o.state.reg.attendance == s.reg.attendance[from := Empty()]
      && SubjectsOf(o.state.reg, from).keys == []
      && from !in o.state.awaitTeacherName && o.state.sessions == s.sessions
  {
  }

  /**
   * The subject step adds an empty ledger exactly when the sender does not
   * have the subject, answers that it exists otherwise, and clears the flag
   * either way; a sender without an attendance map makes it throw, leaving the
   * flag set.
   */
  lemma SubjectStepSpec(s: State, from: Id, subject: string)
    ensures var o := SubjectStep(s, from, subject);
      && (from !in s.reg.attendance <==> o.reply == Crashed)
      && (from !in s.reg.attendance ==> o.state == s)
      && (from in s.reg.attendance ==>
            && from !in o.state.awaitSubject
            && o.state.reg.teachers == s.reg.teachers && o.state.reg.students == s.reg.students
            && o.state.reg.attendance.Keys == s.reg.attendance.Keys
            && (forall u | u in s.reg.attendance && u != from :: o.state.reg.attendance[u] == s.reg.attendance[u])
            && (subject !in s.reg.attendance[from].vals && !Inherited(subject) ==>
                  && o.reply == SubjectAdded(subject)
                  && o.state.reg.attendance[from].keys == s.reg.attendance[from].keys + [subject]
                  && o.state.reg.attendance[from].vals == s.reg.attendance[from].vals[subject := Empty()])
            && (subject in s.reg.attendance[from].vals || Inherited(subject) ==> o.reply == SubjectExists && o.state.reg == s.reg))
  {
  }
  /** A subject called `constructor` is refused as existing, and the stores stay as they were. */
  lemma InheritedSubjectExists(s: State, from: Id)
    requires from in s.reg.attendance
    ensures var o := SubjectStep(s, from, "constructor");
      o.reply == SubjectExists && o.state.reg == s.reg
  {
    assert Inherited("constructor");
    SubjectStepSpec(s, from, "constructor");
  }


  /** The student-name step moves the dialogue to the phone step, carrying the name. */
  lemma StudentNameStepSpec(s: State, from: Id, name: string)
    ensures var o := StudentNameStep(s, from, name);
      && from !in o.state.awaitStudentName && from in o.state.awaitPhone && o.state.awaitPhone[from] == name
      && o.state.reg == s.reg && o.reply == AskPhone
  {
  }

  /**
   * The phone step stores the student under the digits of the text followed
   * by `@c.us` (replacing any student with that id), with the sender as
   * teacher, seeds every subject of the sender with an entry for them, and
   * clears the flag.
   */
  lemma PhoneStepSpec(s: State, from: Id, name: string, text: string)
    ensures var o := PhoneStep(s, from, name, text);
            var sid := StudentIdOf(text);
      && o.state.reg == Enroll(s.reg, from, name, text)
      && o.state.reg.students.vals == s.reg.students.vals[sid := Student(name, DigitsOnly(text), from)]
      && o.state.reg.teachers == s.reg.teachers
      && from !in o.state.awaitPhone
      && o.reply == StudentAdded(name, DigitsOnly(text), TeacherName(s.reg, from))
  {
    EnrollSpec(s.reg, from, name, text);
  }

  /**
   * The attendance-subject step refuses a non-teacher and an unknown subject,
   * opens no session when the teacher has no students, and otherwise opens a
   * session on that subject without a roster; it throws for a teacher without
   * an attendance map.
   */
  lemma AttendanceSubjectStepSpec(s: State, from: Id, subject: string)
    ensures var o := AttendanceSubjectStep(s, from, subject);
            var cleared := s.(awaitAttendanceSubject := s.awaitAttendanceSubject - {from});
      && (!IsTeacher(s.reg, from) ==> o.state == cleared && o.reply == OnlyTeachers)
      && (o.reply == Crashed <==> IsTeacher(s.reg, from) && from !in s.reg.attendance)
      && (o.reply == Crashed ==> o.state == s)
      && (IsTeacher(s.reg, from) && from in s.reg.attendance ==>
            && (subject !in s.reg.attendance[from].vals ==> o.state == cleared && o.reply == SubjectNotFound)
            && (subject in s.reg.attendance[from].vals && StudentsOf(s.reg, from) == [] ==>
                  o.state == cleared && o.reply == NoStudents)
            && (subject in s.reg.attendance[from].vals && StudentsOf(s.reg, from) != [] ==>
                  o.state == cleared.(sessions := s.sessions[from := Session(subject, None, false)])))
  {
  }

  /**
   * A session opened by the attendance-subject step has no roster, so
   * `student.N X`, `bulk` and `bulk X` all answer "missing information" and
   * change nothing.
   */
  lemma RosterlessSession(s: State, from: Id, subject: string, bulk: bool, n: nat, status: Option<string>,
                          today: string, delivered: set<Id>)
    ensures var session := Session(subject, None, bulk);
      && MarkStudentStep(s, from, n, status, session, today, delivered) == Outcome(s, MissingInformation, [])
      && BulkPromptStep(s, from, session) == Outcome(s, MissingInformation, [])
      && BulkStep(s, from, status, session, today, delivered) == Outcome(s, MissingInformation, [])
  {
  }

  // ---------------------------------------------------------------- properties of the marking commands

  /**
   * `subject.N` out of range is refused and a teacher without students gets no
   * session; otherwise a session opens on the N-th subject with a snapshot of
   * the teacher's students, not in bulk mode, and nothing else changes.
   */
  lemma OpenSessionSpec(s: State, from: Id, n: nat)
    ensures var o := OpenSession(s, from, n);
            var subs := SubjectsOf(s.reg, from).keys;
      && (n < 1 || n > |subs| ==> o == Outcome(s, InvalidSubject, []))
      && (1 <= n <= |subs| && StudentsOf(s.reg, from) == [] ==> o == Outcome(s, NoStudents, []))
      && (1 <= n <= |subs| && StudentsOf(s.reg, from) != [] ==>
            && o.state == s.(sessions := s.sessions[from := Session(subs[n - 1], Some(StudentsOf(s.reg, from)), false)])
            && o.reply == AttendanceList(subs[n - 1], RosterNames(s.reg, StudentsOf(s.reg, from))))
  {
  }

  /** `student.N X` without subject or roster, or with N outside the snapshot, changes nothing. */
  lemma MarkStudentRejects(s: State, from: Id, n: nat, status: Option<string>, session: Session,
                           today: string, delivered: set<Id>)
    requires !session.Ready() || n < 1 || n > |session.roster.value|
    ensures var o := MarkStudentStep(s, from, n, status, session, today, delivered);
      o.state == s && o.notices == [] && o.reply in {MissingInformation, InvalidStudentNumber}
  {
  }

  /**
   * `student.N X` with N in the snapshot writes X (or `undefined`) for today
   * for the N-th student, replacing any earlier value for that date, keeps the
   * session open and notifies the student.
   */
  lemma MarkStudentWrites(s: State, from: Id, n: nat, status: Option<string>, session: Session,
                          today: string, delivered: set<Id>)
    requires session.Ready() && 1 <= n <= |session.roster.value|
    ensures var o := MarkStudentStep(s, from, n, status, session, today, delivered);
            var sid := session.roster.value[n - 1];
      && o.state.reg.attendance == MarkIn(s.reg.attendance, from, session.subject, sid, today, CellOf(status))
      && (!Stuck(LedgerAt(s.reg.attendance, from, session.subject), sid) ==>
            CellAt(LedgerAt(o.state.reg.attendance, from, session.subject), sid, today) == Some(CellOf(status)))
      && o.state.sessions == s.sessions
      && o.state.reg.teachers == s.reg.teachers && o.state.reg.students == s.reg.students
      && o.reply == Marked(StudentName(s.reg, sid), status, session.subject, today, sid in delivered)
      && o.notices == [AttendanceUpdate(sid, session.subject, today, status, TeacherName(s.reg, from))]
  {
    var sid := session.roster.value[n - 1];
    MarkInSpec(s.reg.attendance, from, session.subject, sid, today, CellOf(status));
    MarkEntrySpec(LedgerAt(s.reg.attendance, from, session.subject), sid, today, CellOf(status));
  }

  /** `bulk` with a complete session switches it to bulk mode and changes nothing else. */
  lemma BulkPromptSpec(s: State, from: Id, session: Session)
    ensures var o := BulkPromptStep(s, from, session);
      && (!session.Ready() ==> o == Outcome(s, MissingInformation, []))
      && (session.Ready() ==>
            && o.state == s.(sessions := s.sessions[from := Session(session.subject, session.roster, true)])
            && o.reply == BulkPrompt(session.subject))
  {
  }

  /**
   * `bulk X` writes X (or `undefined`) for today for every student of the
   * snapshot whose entry can take it, counts every roster entry as marked,
   * sends one notification per roster entry, and closes the session.
   */
  lemma BulkStepSpec(s: State, from: Id, status: Option<string>, session: Session, today: string, delivered: set<Id>)
    requires session.Ready()
    ensures var o := BulkStep(s, from, status, session, today, delivered);
            var roster := session.roster.value;
      && o.state.reg.attendance == MarkAll(s.reg.attendance, from, session.subject, roster, today, CellOf(status))
      && (forall sid | sid in roster && !Stuck(LedgerAt(s.reg.attendance, from, session.subject), sid) ::
            CellAt(LedgerAt(o.state.reg.attendance, from, session.subject), sid, today) == Some(CellOf(status)))
      && from !in o.state.sessions
      && o.state.reg.teachers == s.reg.teachers && o.state.reg.students == s.reg.students
      && o.reply == BulkDone(|roster|, status, session.subject, today, DeliveredCount(roster, delivered))
      && |o.notices| == |roster|
      && (forall i | 0 <= i < |roster| :: o.notices[i].to == roster[i] && o.notices[i].status == status)
  {
    var roster := session.roster.value;
    BulkNoticesAt(roster, session.subject, today, status, TeacherName(s.reg, from));
    forall sid | sid in roster && !Stuck(LedgerAt(s.reg.attendance, from, session.subject), sid)
      ensures CellAt(LedgerAt(MarkAll(s.reg.attendance, from, session.subject, roster, today, CellOf(status)), from, session.subject), sid, today)
        == Some(CellOf(status))
    {
      MarkAllCovers(s.reg.attendance, from, session.subject, roster, today, CellOf(status), sid);
    }
  }

  /**
   * A bulk write changes no other subject and no other teacher, and leaves the
   * entry of every student outside the snapshot as it was.
   */
  lemma BulkStepFrame(s: State, from: Id, status: Option<string>, session: Session, today: string,
                      delivered: set<Id>, k: Id)
    requires session.Ready() && k !in session.roster.value
    ensures var a := BulkStep(s, from, status, session, today, delivered).state.reg.attendance;
            var book := LedgerAt(s.reg.attendance, from, session.subject);
            var book' := LedgerAt(a, from, session.subject);
      && (k in book'.vals <==> k in book.vals) && (k in book.vals ==> book'.vals[k] == book.vals[k])
      && (forall subject | subject != session.subject ::
            (subject in BookOf(a, from).vals <==> subject in BookOf(s.reg.attendance, from).vals)
            && (subject in BookOf(a, from).vals ==> BookOf(a, from).vals[subject] == BookOf(s.reg.attendance, from).vals[subject]))
      && (forall u | u != from :: (u in a <==> u in s.reg.attendance) && (u in a ==> a[u] == s.reg.attendance[u]))
  {
    var roster, cell := session.roster.value, CellOf(status);
    MarkAllOutside(s.reg.attendance, from, session.subject, roster, today, cell, k);
    MarkAllFrame(s.reg.attendance, from, session.subject, roster, today, cell);
  }

  /**
   * `/present-<s>` and friends store the letter directly under today's date in
   * subject `s` (created if missing), replacing that date's value; no other key
   * of the subject, no other subject and no other teacher changes.
   */
  lemma LegacyStepSpec(s: State, from: Id, letter: string, subject: string, today: string)
    ensures var a := LegacyStep(s, from, letter, subject, today).state.reg.attendance;
            var old_ := LedgerAt(s.reg.attendance, from, subject);
      && from in a && subject in a[from].vals
      && a[from].vals[subject].vals == old_.vals[today := LegacyMark(letter)]
      && (forall t | t != subject :: (t in a[from].vals <==> t in BookOf(s.reg.attendance, from).vals)
            && (t in a[from].vals ==> a[from].vals[t] == BookOf(s.reg.attendance, from).vals[t]))
      && (forall u | u != from :: (u in a <==> u in s.reg.attendance) && (u in a ==> a[u] == s.reg.attendance[u]))
  {
    WriteLegacyBook(s.reg.attendance, from, subject, today, letter);
    WriteLegacyOthers(s.reg.attendance, from, subject, today, letter);
  }

  /** `AfterFirst` on a text whose first `c` follows `p`. */
  lemma {:induction false} AfterFirstJoin(p: string, c: char, rest: string)
    requires c !in p
    ensures AfterFirst(p + [c] + rest, c) == Some(rest)
  {
    if p != [] {
      assert (p + [c] + rest)[1..] == p[1..] + [c] + rest;
      AfterFirstJoin(p[1..], c, rest);
    } else {
      assert p + [c] + rest == [c] + rest;
    }
  }

  /**
   * The legacy commands: `/present-<rest>`, `/absent-<rest>` and
   * `/holiday-<rest>` give the letter P, A or H, and the subject is `rest` up
   * to its first `-`, with `_` turned into spaces.
   */
  lemma LegacyCommandParts(word: string, rest: string)
    requires word in {"present", "absent", "holiday"}
    ensures LegacyCommand("/" + word + "-" + rest)
      == Some((if word == "present" then "P" else if word == "absent" then "A" else "H",
               UnderscoresToSpaces(UpTo(rest, '-'))))
  {
    if word == "present" {
      assert "/" + word + "-" + rest == "/present-" + rest;
      LegacyPresent(rest);
    } else if word == "absent" {
      assert "/" + word + "-" + rest == "/absent-" + rest;
      LegacyAbsent(rest);
    } else {
      assert "/" + word + "-" + rest == "/holiday-" + rest;
      LegacyHoliday(rest);
    }
  }

  /** `split('-')[1]` of a text whose first dash ends `p`. */
  lemma SecondFieldAfter(p: string, rest: string)
    requires '-' !in p
    ensures SecondField(p + "-" + rest, '-') == Some(UpTo(rest, '-'))
  {
    assert p + "-" + rest == p + ['-'] + rest;
    AfterFirstJoin(p, '-', rest);
  }

  lemma LegacyPresent(rest: string)
    ensures LegacyCommand("/present-" + rest) == Some(("P", UnderscoresToSpaces(UpTo(rest, '-'))))
  {
    var t := "/present-" + rest;
    assert t[..9] == "/present-";
    assert "/present" + "-" + rest == t;
    SecondFieldAfter("/present", rest);
  }

  lemma LegacyAbsent(rest: string)
    ensures LegacyCommand("/absent-" + rest) == Some(("A", UnderscoresToSpaces(UpTo(rest, '-'))))
  {
    var t := "/absent-" + rest;
    assert t[..8] == "/absent-";
    assert !StartsWith(t, "/present-") by { assert t[1] == 'a'; }
    assert "/absent" + "-" + rest == t;
    SecondFieldAfter("/absent", rest);
  }

  lemma LegacyHoliday(rest: string)
    ensures LegacyCommand("/holiday-" + rest) == Some(("H", UnderscoresToSpaces(UpTo(rest, '-'))))
  {
    var t := "/holiday-" + rest;
    assert t[..9] == "/holiday-";
    assert !StartsWith(t, "/present-") && !StartsWith(t, "/absent-") by { assert t[1] == 'h'; }
    assert "/holiday" + "-" + rest == t;
    SecondFieldAfter("/holiday", rest);
  }

  // ---------------------------------------------------------------- properties of the reports

  /**
   * Option 5 and `/alert` list exactly the subjects whose percentage is below
   * 75, in insertion order, and give the all-clear when there is none.
   */
  lemma LowReplySpec(r: Registry, from: Id)
    ensures var subs := SubjectsOf(r, from);
      && (LowReply(r, from) == AllAbove <==> forall s | s in subs.vals :: !Low(GroupCounts(subs.vals[s])))
      && (LowReply(r, from).LowList? ==>
            && LowReply(r, from).subjects == LowSubjects(subs)
            && Sublist(LowReply(r, from).subjects, subs.keys)
            && forall s :: s in LowReply(r, from).subjects <==> s in subs.vals && Low(GroupCounts(subs.vals[s])))
  {
    var subs := SubjectsOf(r, from);
    if LowSubjects(subs) != [] {
      assert LowSubjects(subs)[0] in LowSubjects(subs);
    }
  }

  // ---------------------------------------------------------------- invariants

  /** The id the phone step gives a student: digits followed by `@c.us`. */
  predicate StudentIdShape(id: Id) {
    |id| >= 5 && id[|id| - 5..] == "@c.us"
  }

  /**
   * Everything keyed by a sender is keyed by the group, and every student was
   * added in the group: what the stores look like after any run from the
   * initial state.
   */
  predicate GroupKeyed(s: State) {
    && s.awaitTeacherName <= {GroupId} && s.awaitSubject <= {GroupId} && s.awaitStudentName <= {GroupId}
    && s.awaitPhone.Keys <= {GroupId} && s.awaitAttendanceSubject <= {GroupId} && s.sessions.Keys <= {GroupId}
    && (forall t | t in s.reg.teachers.vals :: t == GroupId)
    && s.reg.attendance.Keys <= {GroupId}
    && (forall sid | sid in s.reg.students.vals :: s.reg.students.vals[sid].teacherId == GroupId && StudentIdShape(sid))
  }

  lemma InitialGroupKeyed()
    ensures GroupKeyed(Initial())
  {
  }

  /** A branch that only answers leaves the state as it was and notifies nobody. */
  lemma AnswersKeepState(s: State, from: Id, text: string, today: string, delivered: set<Id>, b: Branch)
    requires b.OnlyAnswers()
    ensures AnswerOutcome(s, from, text, today, delivered, b).state == s
    ensures AnswerOutcome(s, from, text, today, delivered, b).notices == []
  {
  }

  /** Every message keeps all sender-keyed state keyed by the group. */
  lemma StepKeepsGroupKeyed(s: State, from: Id, body: string, today: string, delivered: set<Id>)
    requires GroupKeyed(s)
    ensures GroupKeyed(Step(s, from, body, today, delivered).state)
  {
    if from == GroupId {
      PerformKeepsGroupKeyed(s, Trim(body), today, delivered, Route(s, from, Trim(body)));
    }
  }

  lemma PerformKeepsGroupKeyed(s: State, text: string, today: string, delivered: set<Id>, b: Branch)
    requires GroupKeyed(s)
    ensures GroupKeyed(Perform(s, GroupId, text, today, delivered, b).state)
  {
    if b.OnlyAnswers() {
      AnswersKeepState(s, GroupId, text, today, delivered, b);
    } else if b.IsPending() {
      PendingKeepsGroupKeyed(s, text, today, delivered, b);
    } else if b.IsMarking() {
      MarkingKeepsGroupKeyed(s, text, today, delivered, b);
    }
  }

  lemma PendingKeepsGroupKeyed(s: State, text: string, today: string, delivered: set<Id>, b: Branch)
    requires GroupKeyed(s) && b.IsPending()
    ensures GroupKeyed(PendingOutcome(s, GroupId, text, today, delivered, b).state)
  {
    match b
    case PendingName => NameStepKeyed(s, text);
    case PendingSubject => SubjectStepKeyed(s, text);
    case PendingStudentName =>
    case PendingPhone(name) => PhoneStepKeyed(s, name, text);
    case PendingAttendanceSubject => AttendanceSubjectStepKeyed(s, text);
  }

  lemma NameStepKeyed(s: State, name: string)
    requires GroupKeyed(s)
    ensures GroupKeyed(NameStep(s, GroupId, name).state)
  {
  }

  lemma SubjectStepKeyed(s: State, subject: string)
    requires GroupKeyed(s)
    ensures GroupKeyed(SubjectStep(s, GroupId, subject).state)
  {
  }

  lemma PhoneStepKeyed(s: State, name: string, text: string)
    requires GroupKeyed(s)
    ensures GroupKeyed(PhoneStep(s, GroupId, name, text).state)
  {
    var sid := StudentIdOf(text);
    var r' := Enroll(s.reg, GroupId, name, text);
    EnrollPeople(s.reg, GroupId, name, text);
    EnrollKeys(s.reg, GroupId, name, text);
    assert StudentIdShape(sid);
    forall x | x in r'.students.vals
      ensures r'.students.vals[x].teacherId == GroupId && StudentIdShape(x)
    {
      if x != sid {
        assert x in s.reg.students.vals;
      }
    }
  }

  lemma AttendanceSubjectStepKeyed(s: State, subject: string)
    requires GroupKeyed(s)
    ensures GroupKeyed(AttendanceSubjectStep(s, GroupId, subject).state)
  {
    AttendanceSubjectStepSpec(s, GroupId, subject);
  }

  lemma MarkingKeepsGroupKeyed(s: State, text: string, today: string, delivered: set<Id>, b: Branch)
    requires GroupKeyed(s) && b.IsMarking()
    ensures GroupKeyed(MarkingOutcome(s, GroupId, text, today, delivered, b).state)
  {
    MarkingFrame(s, GroupId, text, today, delivered, b);
  }

  /**
   * `o` differs from `s` only in the attendance and the session of `from`:
   * the registry of people and the dialogue steps stay as they were.
   */
  predicate FramedBy(s: State, o: State, from: Id) {
    && o.reg.teachers == s.reg.teachers && o.reg.students == s.reg.students
    && o.awaitTeacherName == s.awaitTeacherName && o.awaitSubject == s.awaitSubject
    && o.awaitStudentName == s.awaitStudentName && o.awaitPhone == s.awaitPhone
    && o.awaitAttendanceSubject == s.awaitAttendanceSubject
    && s.reg.attendance.Keys <= o.reg.attendance.Keys <= s.reg.attendance.Keys + {from}
    && o.sessions.Keys <= s.sessions.Keys + {from}
  }

  /** The marking commands change only the attendance and the session of the sender. */
  lemma MarkingFrame(s: State, from: Id, text: string, today: string, delivered: set<Id>, b: Branch)
    requires b.IsMarking()
    ensures FramedBy(s, MarkingOutcome(s, from, text, today, delivered, b).state, from)
  {
    match b
    case OpenSessionCmd(n) => OpenSessionFrame(s, from, n);
    case MarkStudentCmd(n, status, session) => MarkStudentFrame(s, from, n, status, session, today, delivered);
    case BulkCmd(session) => BulkPromptFrame(s, from, session);
    case BulkMarkCmd(status, session) => BulkFrame(s, from, status, session, today, delivered);
    case LegacyCmd(letter, subject) => LegacyFrame(s, from, letter, subject, today);
  }

  lemma OpenSessionFrame(s: State, from: Id, n: nat)
    ensures FramedBy(s, OpenSession(s, from, n).state, from)
  {
  }

  lemma BulkPromptFrame(s: State, from: Id, session: Session)
    ensures FramedBy(s, BulkPromptStep(s, from, session).state, from)
  {
  }

  lemma LegacyFrame(s: State, from: Id, letter: string, subject: string, today: string)
    ensures FramedBy(s, LegacyStep(s, from, letter, subject, today).state, from)
  {
  }

  lemma MarkStudentFrame(s: State, from: Id, n: nat, status: Option<string>, session: Session, today: string, delivered: set<Id>)
    ensures FramedBy(s, MarkStudentStep(s, from, n, status, session, today, delivered).state, from)
  {
    if session.Ready() && 1 <= n <= |session.roster.value| {
      MarkInSpec(s.reg.attendance, from, session.subject, session.roster.value[n - 1], today, CellOf(status));
    }
  }

  lemma BulkFrame(s: State, from: Id, status: Option<string>, session: Session, today: string, delivered: set<Id>)
    ensures FramedBy(s, BulkStep(s, from, status, session, today, delivered).state, from)
  {
    if session.Ready() {
      MarkAllFrame(s.reg.attendance, from, session.subject, session.roster.value, today, CellOf(status));
    }
  }



  /**
   * `/myattendance` is never served: the only sender heard is the group,
   * whose id is no student id.
   */
  lemma MyAttendanceUnreachable(s: State, from: Id, text: string)
    requires GroupKeyed(s)
    ensures !Route(s, from, text).MyAttendanceCmd?
  {
    if from == GroupId && IsStudent(s.reg, from) {
      assert false;
    }
  }

  /** Every teacher, and whoever is asked for a subject name, has an attendance map. */
  predicate Coherent(s: State) {
    && (forall t | t in s.reg.teachers.vals :: t in s.reg.attendance)
    && (forall t | t in s.awaitSubject :: t in s.reg.attendance)
  }

  /** What the routing guarantees the branches that need it. */
  lemma RouteGuards(s: State, from: Id, text: string)
    ensures Route(s, from, text).PendingSubject? ==> from in s.awaitSubject
    ensures Route(s, from, text).AddSubjectCmd? ==> IsTeacher(s.reg, from)
  {
  }

  /** From a coherent state no message makes the handler throw, and the state stays coherent. */
  lemma StepKeepsCoherent(s: State, from: Id, body: string, today: string, delivered: set<Id>)
    requires Coherent(s)
    ensures Step(s, from, body, today, delivered).reply != Crashed
    ensures Coherent(Step(s, from, body, today, delivered).state)
  {
    RouteGuards(s, from, Trim(body));
    PerformKeepsCoherent(s, from, Trim(body), today, delivered, Route(s, from, Trim(body)));
  }

  lemma PerformKeepsCoherent(s: State, from: Id, text: string, today: string, delivered: set<Id>, b: Branch)
    requires Coherent(s)
    requires b.PendingSubject? ==> from in s.awaitSubject
    requires b.AddSubjectCmd? ==> IsTeacher(s.reg, from)
    ensures Perform(s, from, text, today, delivered, b).reply != Crashed
    ensures Coherent(Perform(s, from, text, today, delivered, b).state)
  {
    var o := Perform(s, from, text, today, delivered, b);
    if b.IsPending() {
      assert o == PendingOutcome(s, from, text, today, delivered, b);
      PendingKeepsCoherent(s, from, text, today, delivered, b);
    } else if b.IsPrompt() {
      assert o == PromptOutcome(s, from, text, today, delivered, b);
      PromptKeepsCoherent(s, from, text, today, delivered, b);
    } else if b.IsMarking() {
      assert o == MarkingOutcome(s, from, text, today, delivered, b);
      MarkingKeepsCoherent(s, from, text, today, delivered, b);
    } else {
      assert o == AnswerOutcome(s, from, text, today, delivered, b);
      AnswersKeepState(s, from, text, today, delivered, b);
      AnswersNeverCrash(s, from, text, today, delivered, b);
    }
  }

  lemma PromptKeepsCoherent(s: State, from: Id, text: string, today: string, delivered: set<Id>, b: Branch)
    requires Coherent(s) && b.IsPrompt()
    requires b.AddSubjectCmd? ==> IsTeacher(s.reg, from)
    ensures PromptOutcome(s, from, text, today, delivered, b).reply != Crashed
    ensures Coherent(PromptOutcome(s, from, text, today, delivered, b).state)
  {
  }

  lemma AnswersNeverCrash(s: State, from: Id, text: string, today: string, delivered: set<Id>, b: Branch)
    requires b.OnlyAnswers()
    ensures AnswerOutcome(s, from, text, today, delivered, b).reply != Crashed
  {
  }

  lemma PendingKeepsCoherent(s: State, from: Id, text: string, today: string, delivered: set<Id>, b: Branch)
    requires Coherent(s) && b.IsPending()
    requires b.PendingSubject? ==> from in s.awaitSubject
    ensures PendingOutcome(s, from, text, today, delivered, b).reply != Crashed
    ensures Coherent(PendingOutcome(s, from, text, today, delivered, b).state)
  {
    match b
    case PendingName =>
    case PendingSubject => SubjectStepSpec(s, from, text);
    case PendingStudentName =>
    case PendingPhone(name) => PhoneStepCoherent(s, from, name, text);
    case PendingAttendanceSubject => AttendanceSubjectStepCoherent(s, from, text);
  }

  lemma AttendanceSubjectStepCoherent(s: State, from: Id, subject: string)
    requires Coherent(s)
    ensures AttendanceSubjectStep(s, from, subject).reply != Crashed
    ensures Coherent(AttendanceSubjectStep(s, from, subject).state)
  {
    AttendanceSubjectStepSpec(s, from, subject);
  }

  lemma PhoneStepCoherent(s: State, from: Id, name: string, text: string)
    requires Coherent(s)
    ensures Coherent(PhoneStep(s, from, name, text).state)
  {
    EnrollSpec(s.reg, from, name, text);
  }

  lemma MarkingKeepsCoherent(s: State, from: Id, text: string, today: string, delivered: set<Id>, b: Branch)
    requires Coherent(s) && b.IsMarking()
    ensures Coherent(MarkingOutcome(s, from, text, today, delivered, b).state)
  {
    MarkingFrame(s, from, text, today, delivered, b);
  }

}
