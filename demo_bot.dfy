/**
 * The private-chat bot: one message handler that first serves the pending
 * dialogue steps of the sender (teacher name, subject name, student name,
 * student phone, student selection) and then a chain of commands.
 *
 * `Step` is the handler as a function of the stores, the sender, the message
 * body and today's date; `DemoBot` holds the stores as fields and its
 * `OnMessage` updates them in place and is proved to agree with `Step`.
 */
module DemoBot {
  import opened Options
  import opened Dicts
  import opened JsText
  import opened Records
  import opened Reports
  import opened Store

  /** A value of `awaitingAttendanceStudent[from]` that is an object. */
  datatype Session =
    | Selecting(subject: string, roster: Option<seq<Id>>)  // `{subject, studentList, expectingSelection: true}`
    | Marking(subject: string, current: Id)                // `{subject, currentStudent}`

  /**
   * The stores and the pending steps.  An awaiting flag that is set to `false`
   * is the same as one never set, so each flag map is the set of senders whose
   * flag is on; `awaitPhone` keeps the name collected in the previous step.
   */
  datatype State = State(
    reg: Registry,
    awaitTeacherName: set<Id>,
    awaitSubject: set<Id>,
    awaitStudentName: set<Id>,
    awaitPhone: map<Id, string>,
    sessions: map<Id, Session>)

  /** A message sent to someone other than the sender of the command. */
  datatype Notice =
    | Welcome(to: Id)
    | AttendanceUpdate(to: Id, subject: string, date: string, status: string, teacher: string)

  /** The reply sent back to the sender, by kind and with the data it shows. */
  datatype Reply =
    | Ignored
    | TeacherRegistered(name: string)
    | SubjectAdded(subject: string)
    | SubjectExists
    | AskPhone
    | StudentAdded(name: string, phone: string)
    | SessionExpired
    | InvalidStudentNumber
    | AskStatus(student: string)
    | InstructionsSent
    | MainMenu(teacher: string)
    | AskTeacherName
    | AskSubjectName
    | StudentMenu
    | AskStudentName
    | NoStudents
    | StudentList(entries: seq<(string, string)>)
    | NoSubjects
    | SubjectChoice(subjects: seq<string>)
    | InvalidSubject
    | StudentChoice(subject: string, names: seq<string>)
    | AskValidStatus
    | Marked(student: string, status: string, subject: string)
    | SubjectFigures(figures: seq<(string, Counts)>)
    | InvalidReport
    | SubjectReport(subject: string, overall: Counts, perStudent: seq<(string, Tally)>)
    | Overview(figures: seq<(string, Counts)>)
    | RemoveMenu
    | RemoveSubjectChoice(subjects: seq<string>)
    | InvalidSubjectNumber
    | SubjectRemoved(subject: string)
    | RemoveStudentChoice(names: seq<string>)
    | StudentRemoved(name: string)
    | ConfirmDeletePrompt
    | AccountRemoved
    | MyAttendance(name: string, teacher: string, perSubject: seq<(string, Tally)>)
    | Unknown

  datatype Outcome = Outcome(state: State, reply: Reply, notices: seq<Notice>)

  function Initial(): State {
    State(Registry(Empty(), Empty(), map[]), {}, {}, {}, map[], map[])
  }

  // ---------------------------------------------------------------- report rows

  /** One `calcPercent` row per subject of the teacher, in insertion order. */
  function Figures(subs: Subjects): seq<(string, Counts)> {
    FiguresOf(subs.keys, subs.vals, LedgerCounts)
  }

  /** The per-subject rows of `/myattendance` for student `sid`. */
  function SubjectRowsOf(ks: seq<string>, m: map<string, Ledger>, sid: Id): (rows: seq<(string, Tally)>)
    requires forall k | k in ks :: k in m
    ensures |rows| == |ks|
    ensures forall i | 0 <= i < |ks| :: rows[i] == (ks[i], TallyIn(m[ks[i]], sid))
  {
    if ks == [] then [] else [(ks[0], TallyIn(m[ks[0]], sid))] + SubjectRowsOf(ks[1..], m, sid)
  }

  /** `students[sid].name` for each listed student. */
  function RawNames(r: Registry, ids: seq<Id>): (names: seq<string>)
    requires forall sid | sid in ids :: sid in r.students.vals
    ensures |names| == |ids|
    ensures forall i | 0 <= i < |ids| :: names[i] == r.students.vals[ids[i]].name
  {
    if ids == [] then [] else [r.students.vals[ids[0]].name] + RawNames(r, ids[1..])
  }

  // ---------------------------------------------------------------- routing

  /**
   * Which part of the handler a message reaches: the pending steps in their
   * fixed order, then the command chain in source order.  A branch carries the
   * data the handler reads to choose it.
   */
  datatype Branch =
    | Blank
    | PendingName
    | PendingSubject
    | PendingStudentName
    | PendingPhone(name: string)
    | PendingSelection(subject: string, roster: Option<seq<Id>>)
    | StartCmd
    | RegisterCmd
    | AddSubjectCmd                               // "1"
    | StudentMenuCmd                              // "2"
    | AddStudentCmd                               // "A", "a"
    | ListStudentsCmd                             // "B", "b"
    | ChooseSubjectCmd                            // "3"
    | OpenSessionCmd(n: nat)                      // subject.N
    | PendingStatus(subject: string, current: Id)
    | ReportsCmd                                  // "4"
    | ReportCmd(n: nat)                           // report.N
    | OverviewCmd                                 // "5"
    | RemoveMenuCmd                               // "6"
    | RemoveSubjectMenuCmd                        // "A"
    | RemoveSubjectCmd(n: nat)                    // remove.subject.N
    | RemoveStudentMenuCmd                        // "B"
    | RemoveStudentCmd(n: nat)                    // remove.student.N
    | DeleteAccountCmd                            // "7"
    | ConfirmDeleteCmd                            // confirm.delete.account
    | MyAttendanceCmd(student: Student)           // /myattendance
    | UnknownCmd
  {
    /** A pending dialogue step. */
    predicate IsPending() {
      PendingName? || PendingSubject? || PendingStudentName? || PendingPhone? || PendingSelection?
    }

    /** A command that starts a dialogue. */
    predicate IsPrompt() {
      RegisterCmd? || AddSubjectCmd? || AddStudentCmd?
    }

    /** Opening a marking session or recording a status. */
    predicate IsMarking() {
      OpenSessionCmd? || PendingStatus?
    }

    /** One of the three removals. */
    predicate IsRemoval() {
      RemoveSubjectCmd? || RemoveStudentCmd? || ConfirmDeleteCmd?
    }

    /** A branch that only answers. */
    predicate OnlyAnswers() {
      !IsPending() && !IsPrompt() && !IsMarking() && !IsRemoval()
    }
  }

  /** The order of the tests of the handler, on the trimmed text. */
  function Route(s: State, from: Id, text: string): Branch {
    var teacher := IsTeacher(s.reg, from);
    if text == "" then Blank
    else if from in s.awaitTeacherName then PendingName
    else if from in s.awaitSubject then PendingSubject
    else if from in s.awaitStudentName then PendingStudentName
    else if from in s.awaitPhone then PendingPhone(s.awaitPhone[from])
    else if from in s.sessions && s.sessions[from].Selecting? then
      PendingSelection(s.sessions[from].subject, s.sessions[from].roster)
    else if text == "/start" then StartCmd
    else if text == "/register" then RegisterCmd
    else if text == "1" && teacher then AddSubjectCmd
    else if text == "2" && teacher then StudentMenuCmd
    // "A" and "a" are the only strings whose lower case is "a" (likewise for "b")
    else if (text == "A" || text == "a") && teacher then AddStudentCmd
    else if (text == "B" || text == "b") && teacher then ListStudentsCmd
    else if text == "3" && teacher then ChooseSubjectCmd
    else if DottedNumber(text, "subject.").Some? && teacher then OpenSessionCmd(DottedNumber(text, "subject.").value)
    else if from in s.sessions && s.sessions[from].Marking? && s.sessions[from].current != "" then
      PendingStatus(s.sessions[from].subject, s.sessions[from].current)
    else if text == "4" && teacher then ReportsCmd
    else if DottedNumber(text, "report.").Some? && teacher then ReportCmd(DottedNumber(text, "report.").value)
    else if text == "5" && teacher then OverviewCmd
    else if text == "6" && teacher then RemoveMenuCmd
    else if text == "A" && teacher then RemoveSubjectMenuCmd
    else if DottedNumber(text, "remove.subject.").Some? && teacher then
      RemoveSubjectCmd(DottedNumber(text, "remove.subject.").value)
    else if text == "B" && teacher then RemoveStudentMenuCmd
    else if DottedNumber(text, "remove.student.").Some? && teacher then
      RemoveStudentCmd(DottedNumber(text, "remove.student.").value)
    else if text == "7" && teacher then DeleteAccountCmd
    else if text == "confirm.delete.account" && teacher then ConfirmDeleteCmd
    else if text == "/myattendance" && IsStudent(s.reg, from) then MyAttendanceCmd(s.reg.students.vals[from])
    else UnknownCmd
  }

  // ---------------------------------------------------------------- pending steps

  /** The teacher-name step: record the teacher, keep (or create) their subjects. */
  function NameStep(s: State, from: Id, name: string): Outcome {
    var r := s.reg;
    var r' := Registry(Put(r.teachers, from, Teacher(name)), r.students, WithBook(r.attendance, from));
    Outcome(s.(reg := r', awaitTeacherName := s.awaitTeacherName - {from}), TeacherRegistered(name), [])
  }

  /**
   * The subject step: add the subject unless the lookup finds it, which it
   * also does for a name every object inherits, such as `constructor`.
   */
  function SubjectStep(s: State, from: Id, subject: string): Outcome {
    var att := WithBook(s.reg.attendance, from);
    var s' := s.(awaitSubject := s.awaitSubject - {from});
    if !HasProperty(att[from], subject) then
      Outcome(s'.(reg := s.reg.(attendance := att[from := Put(att[from], subject, Empty())])), SubjectAdded(subject), [])
    else
      Outcome(s'.(reg := s.reg.(attendance := att)), SubjectExists, [])
  }

  /** The student-name step: remember the name and ask for the phone. */
  function StudentNameStep(s: State, from: Id, name: string): Outcome {
    Outcome(s.(awaitStudentName := s.awaitStudentName - {from}, awaitPhone := s.awaitPhone[from := name]), AskPhone, [])
  }

  /** The phone step: enrol the student with the remembered name. */
  function PhoneStep(s: State, from: Id, name: string, phoneText: string): Outcome {
    Outcome(s.(reg := Enroll(s.reg, from, name, phoneText), awaitPhone := s.awaitPhone - {from}),
      StudentAdded(name, DigitsOnly(phoneText)), [])
  }

  /** The selection step: a student number of the session's roster. */
  function SelectStep(s: State, from: Id, subject: string, roster: Option<seq<Id>>, text: string): Outcome {
    if subject == "" || roster.None? then
      Outcome(s.(sessions := s.sessions - {from}), SessionExpired, [])
    else
      var idx := ParseInt(text);
      if idx.None? || idx.value < 1 || idx.value > |roster.value| then Outcome(s, InvalidStudentNumber, [])
      else
        var sid := roster.value[idx.value - 1];
        Outcome(s.(sessions := s.sessions[from := Marking(subject, sid)]), AskStatus(StudentName(s.reg, sid)), [])
  }

  // ---------------------------------------------------------------- commands

  /** `subject.N`: open a selection session over the teacher's current students. */
  function OpenSession(s: State, from: Id, n: nat): Outcome {
    var subs := SubjectsOf(s.reg, from).keys;
    if n < 1 || n > |subs| then Outcome(s, InvalidSubject, [])
    else
      var subject := subs[n - 1];
      var roster := StudentsOf(s.reg, from);
      if roster == [] then Outcome(s, NoStudents, [])
      else Outcome(s.(sessions := s.sessions[from := Selecting(subject, Some(roster))]),
        StudentChoice(subject, RosterNames(s.reg, roster)), [])
  }

  /** The status step: record today's status, notify the student, go back to selection without the roster. */
  function StatusStep(s: State, from: Id, subject: string, current: Id, text: string, today: string): Outcome {
    match UpperStatus(text)
    case None => Outcome(s, AskValidStatus, [])
    case Some(status) =>
      var r' := s.reg.(attendance := MarkIn(s.reg.attendance, from, subject, current, today, Mark(status)));
      Outcome(s.(reg := r', sessions := s.sessions[from := Selecting(subject, None)]),
        Marked(StudentName(r', current), status, subject),
        [AttendanceUpdate(current, subject, today, status, TeacherName(r', from))])
  }

  /** `report.N` */
  function ReportStep(s: State, from: Id, n: nat): Outcome {
    var subs := SubjectsOf(s.reg, from);
    if n < 1 || n > |subs.keys| then Outcome(s, InvalidReport, [])
    else
      var subject := subs.keys[n - 1];
      var book := subs.vals[subject];
      Outcome(s, SubjectReport(subject, LedgerCounts(book), StudentRows(s.reg, book, StudentsOf(s.reg, from))), [])
  }

  /** `remove.subject.N` */
  function RemoveSubjectStep(s: State, from: Id, n: nat): Outcome {
    var subs := SubjectsOf(s.reg, from).keys;
    if n < 1 || n > |subs| then Outcome(s, InvalidSubjectNumber, [])
    else
      var subject := subs[n - 1];
      Outcome(s.(reg := s.reg.(attendance := DropSubject(s.reg.attendance, from, subject).0)), SubjectRemoved(subject), [])
  }

  /** `remove.student.N`; the reply looks the name up after the record is gone. */
  function RemoveStudentStep(s: State, from: Id, n: nat): Outcome {
    var list := StudentsOf(s.reg, from);
    if n < 1 || n > |list| then Outcome(s, InvalidStudentNumber, [])
    else
      var sid := list[n - 1];
      var r' := DropStudent(s.reg, sid).0;
      Outcome(s.(reg := r'), StudentRemoved(StudentName(r', sid)), [])
  }

  /** `/myattendance` for a registered student `st`. */
  function MyAttendanceStep(s: State, from: Id, st: Student): Outcome {
    var subs := SubjectsOf(s.reg, st.teacherId);
    Outcome(s, MyAttendance(st.name, TeacherName(s.reg, st.teacherId), SubjectRowsOf(subs.keys, subs.vals, from)), [])
  }

  /** What each branch does. */
  function Perform(s: State, from: Id, text: string, today: string, b: Branch): Outcome {
    if b.IsPending() then PendingOutcome(s, from, text, today, b)
    else if b.IsPrompt() then PromptOutcome(s, from, text, today, b)
    else if b.IsMarking() then MarkingOutcome(s, from, text, today, b)
    else if b.IsRemoval() then RemovalOutcome(s, from, text, today, b)
    else AnswerOutcome(s, from, text, today, b)
  }

  /** The pending dialogue steps. */
  function PendingOutcome(s: State, from: Id, text: string, today: string, b: Branch): Outcome
    requires b.IsPending()
  {
    match b
    case PendingName => NameStep(s, from, text)
    case PendingSubject => SubjectStep(s, from, text)
    case PendingStudentName => StudentNameStep(s, from, text)
    case PendingPhone(name) => PhoneStep(s, from, name, text)
    case PendingSelection(subject, roster) => SelectStep(s, from, subject, roster, text)
  }

  /** The commands that start a dialogue: the sender now awaits its answer. */
  function PromptOutcome(s: State, from: Id, text: string, today: string, b: Branch): Outcome
    requires b.IsPrompt()
  {
    match b
    case RegisterCmd => Outcome(s.(awaitTeacherName := s.awaitTeacherName + {from}), AskTeacherName, [])
    case AddSubjectCmd => Outcome(s.(awaitSubject := s.awaitSubject + {from}), AskSubjectName, [])
    case AddStudentCmd => Outcome(s.(awaitStudentName := s.awaitStudentName + {from}), AskStudentName, [])
  }

  /** Opening a marking session, or recording the status of its current student. */
  function MarkingOutcome(s: State, from: Id, text: string, today: string, b: Branch): Outcome
    requires b.IsMarking()
  {
    match b
    case OpenSessionCmd(n) => OpenSession(s, from, n)
    case PendingStatus(subject, current) => StatusStep(s, from, subject, current, text, today)
  }

  /** The three removals. */
  function RemovalOutcome(s: State, from: Id, text: string, today: string, b: Branch): Outcome
    requires b.IsRemoval()
  {
    match b
    case RemoveSubjectCmd(n) => RemoveSubjectStep(s, from, n)
    case RemoveStudentCmd(n) => RemoveStudentStep(s, from, n)
    case ConfirmDeleteCmd => Outcome(s.(reg := DropTeacher(s.reg, from).0), AccountRemoved, [])
  }

  /** The branches that only answer: menus, listings, reports and prompts that change nothing. */
  function AnswerOutcome(s: State, from: Id, text: string, today: string, b: Branch): Outcome
    requires b.OnlyAnswers()
  {
    var r := s.reg;
    match b
    case Blank => Outcome(s, Ignored, [])
    case StartCmd =>
      if !IsTeacher(r, from) then Outcome(s, InstructionsSent, [Welcome(from)])
      else Outcome(s, MainMenu(TeacherName(r, from)), [])
    case StudentMenuCmd => Outcome(s, StudentMenu, [])
    case ListStudentsCmd =>
      var list := StudentsOf(r, from);
      if list == [] then Outcome(s, NoStudents, []) else Outcome(s, StudentList(Listing(r, list)), [])
    case ChooseSubjectCmd =>
      var subs := SubjectsOf(r, from).keys;
      if subs == [] then Outcome(s, NoSubjects, []) else Outcome(s, SubjectChoice(subs), [])
    case ReportsCmd =>
      if SubjectsOf(r, from).keys == [] then Outcome(s, NoSubjects, [])
      else Outcome(s, SubjectFigures(Figures(SubjectsOf(r, from))), [])
    case ReportCmd(n) => ReportStep(s, from, n)
    case OverviewCmd => Outcome(s, Overview(Figures(SubjectsOf(r, from))), [])
    case RemoveMenuCmd => Outcome(s, RemoveMenu, [])
    case RemoveSubjectMenuCmd =>
      var subs := SubjectsOf(r, from).keys;
      if subs == [] then Outcome(s, NoSubjects, []) else Outcome(s, RemoveSubjectChoice(subs), [])
    case RemoveStudentMenuCmd =>
      var list := StudentsOf(r, from);
      if list == [] then Outcome(s, NoStudents, []) else Outcome(s, RemoveStudentChoice(RawNames(r, list)), [])
    case DeleteAccountCmd => Outcome(s, ConfirmDeletePrompt, [])
    case MyAttendanceCmd(st) => MyAttendanceStep(s, from, st)
    case UnknownCmd => Outcome(s, Unknown, [])
  }

  /** The message handler: `(msg.body || '').trim()`, then the branch the text reaches. */
  function Step(s: State, from: Id, body: string, today: string): Outcome {
    var text := Trim(body);
    Perform(s, from, text, today, Route(s, from, text))
  }

  // ---------------------------------------------------------------- properties of the routing

  /** The sender has no pending dialogue step and no selection session. */
  predicate Idle(s: State, from: Id) {
    && from !in s.awaitTeacherName && from !in s.awaitSubject && from !in s.awaitStudentName
    && from !in s.awaitPhone && !(from in s.sessions && s.sessions[from].Selecting?)
  }

  /**
   * The menus, listings, reports, prompts, `/start`, `/myattendance` and the
   * unknown-command reply change no state; only `/start` from a non-teacher
   * sends a message to someone, the private welcome.
   */
  lemma AnswersKeepState(s: State, from: Id, text: string, today: string, b: Branch)
    requires b.OnlyAnswers()
    ensures AnswerOutcome(s, from, text, today, b).state == s
    ensures AnswerOutcome(s, from, text, today, b).notices == if b.StartCmd? && !IsTeacher(s.reg, from) then [Welcome(from)] else []
  {
  }

  /** A message that is only whitespace is ignored. */
  lemma BlankIgnored(s: State, from: Id, body: string, today: string)
    requires AllSpace(body)
    ensures Route(s, from, Trim(body)) == Blank
  {
  }

  /**
   * The pending steps come first, in the order teacher name, subject, student
   * name, phone, selection, whatever the text says.
   */
  lemma PendingFirst(s: State, from: Id, text: string)
    requires text != ""
    ensures from in s.awaitTeacherName ==> Route(s, from, text) == PendingName
    ensures from !in s.awaitTeacherName && from in s.awaitSubject ==> Route(s, from, text) == PendingSubject
    ensures from !in s.awaitTeacherName && from !in s.awaitSubject && from in s.awaitStudentName ==>
      Route(s, from, text) == PendingStudentName
    ensures Idle(s.(awaitPhone := map[]), from) && from in s.awaitPhone ==>
      Route(s, from, text) == PendingPhone(s.awaitPhone[from])
    ensures Idle(s.(sessions := map[]), from) && from in s.sessions && s.sessions[from].Selecting? ==>
      Route(s, from, text) == PendingSelection(s.sessions[from].subject, s.sessions[from].roster)
  {
  }

  /**
   * A teacher cannot record Absent: in the status step `A` and `a` reach the
   * add-student command instead, and the status step only ever sees a text
   * whose status is not `A`.
   */
  lemma TeacherCannotMarkAbsent(s: State, from: Id, text: string)
    requires Idle(s, from) && IsTeacher(s.reg, from)
    ensures UpperStatus(text) == Some("A") ==> Route(s, from, text) == AddStudentCmd
    ensures Route(s, from, text).PendingStatus? ==> UpperStatus(text) != Some("A")
  {
  }

  /** The removal menus behind `A` and `B` are never reached: a teacher's `A` and `B` start the student dialogues first. */
  lemma RemovalMenusUnreachable(s: State, from: Id, text: string)
    ensures Route(s, from, text) != RemoveSubjectMenuCmd
    ensures Route(s, from, text) != RemoveStudentMenuCmd
  {
  }

  /** `remove.student.N` reaches the removal for an idle teacher outside the status step. */
  lemma RouteRemoveStudent(s: State, from: Id, n: nat)
    requires Idle(s, from) && IsTeacher(s.reg, from)
    requires !(from in s.sessions && s.sessions[from].Marking?)
    ensures Route(s, from, "remove.student." + Decimal(n)) == RemoveStudentCmd(n)
  {
    RemoveStudentText(n);
  }

  /** `remove.student.N` is longer than every fixed command and is read by no other dotted prefix. */
  lemma RemoveStudentText(n: nat)
    ensures var text := "remove.student." + Decimal(n);
      && |text| > 15 && text[0] == 'r'
      && DottedNumber(text, "remove.student.") == Some(n)
      && DottedNumber(text, "subject.").None? && DottedNumber(text, "report.").None?
      && DottedNumber(text, "remove.subject.").None?
  {
    var text := "remove.student." + Decimal(n);
    DottedNumberOf("remove.student.", n);
    assert text[0] == 'r' && text[2] == 'm' && text[8] == 't' && |text| > 15;
  }

  /**
   * Someone who is neither a teacher nor a student and has nothing pending
   * reaches only the welcome, the registration, or the unknown-command reply.
   */
  lemma StrangerRoutes(s: State, from: Id, text: string)
    requires Idle(s, from) && !IsTeacher(s.reg, from) && !IsStudent(s.reg, from)
    requires !(from in s.sessions && s.sessions[from].Marking? && s.sessions[from].current != "")
    ensures Route(s, from, text) in {Blank, StartCmd, RegisterCmd, UnknownCmd}
    ensures Route(s, from, text) == UnknownCmd <==> text != "" && text != "/start" && text != "/register"
  {
  }

  // ---------------------------------------------------------------- properties of the branches

  /**
   * The teacher-name step makes `from` a teacher with that name, keeps their
   * existing subjects (an empty map for a new teacher) and clears the flag,
   * leaving the other pending steps as they were.
   */
  lemma NameStepSpec(s: State, from: Id, name: string)
    ensures var o := NameStep(s, from, name);
      && o.reply == TeacherRegistered(name)
      && o.state.reg.teachers.vals == s.reg.teachers.vals[from := Teacher(name)]
      && o.state.reg.students == s.reg.students
      && from in o.state.reg.attendance
      && SubjectsOf(o.state.reg, from) == SubjectsOf(s.reg, from)
      && from !in o.state.awaitTeacherName
      && o.state.awaitSubject == s.awaitSubject && o.state.sessions == s.sessions
  {
  }

  /**
   * The subject step adds an empty ledger exactly when the teacher does not
   * have the subject yet (appending it to the subject order) and otherwise
   * answers that it exists and changes no subject; the flag is cleared either way.
   */
  lemma SubjectStepSpec(s: State, from: Id, subject: string)
    ensures var o := SubjectStep(s, from, subject);
            var old_ := SubjectsOf(s.reg, from);
      && from !in o.state.awaitSubject
      && o.state.reg.teachers == s.reg.teachers && o.state.reg.students == s.reg.students
      && (forall u | u != from :: (u in o.state.reg.attendance <==> u in s.reg.attendance)
            && (u in s.reg.attendance ==> o.state.reg.attendance[u] == s.reg.attendance[u]))
      && (subject !in old_.vals && !Inherited(subject) ==>
            && o.reply == SubjectAdded(subject)
            && from in o.state.reg.attendance
            && o.state.reg.attendance[from].keys == old_.keys + [subject]
            && o.state.reg.attendance[from].vals == old_.vals[subject := Empty()])
      && (subject in old_.vals ==> o.reply == SubjectExists && o.state.reg == s.reg)
      && (Inherited(subject) ==>
            && o.reply == SubjectExists
            && o.state.reg.attendance == s.reg.attendance[from := old_])
  {
  }
  /** A subject called `constructor` is refused as existing, and the teacher's subjects stay as they were. */
  lemma InheritedSubjectExists(s: State, from: Id)
    ensures var o := SubjectStep(s, from, "constructor");
      o.reply == SubjectExists && SubjectsOf(o.state.reg, from) == SubjectsOf(s.reg, from)
  {
    assert Inherited("constructor");
    SubjectStepSpec(s, from, "constructor");
  }


  /**
   * The phone step stores the student under the digits of the text followed
   * by `@c.us`, with the name given in the previous step and the sender as
   * teacher, and clears the flag.
   */
  lemma PhoneStepSpec(s: State, from: Id, name: string, text: string)
    ensures var o := PhoneStep(s, from, name, text);
            var sid := StudentIdOf(text);
      && o.reply == StudentAdded(name, DigitsOnly(text))
      && sid in o.state.reg.students.vals
      && o.state.reg.students.vals[sid] == Student(name, DigitsOnly(text), from)
      && from !in o.state.awaitPhone
  {
    EnrollSpec(s.reg, from, name, text);
  }

  /**
   * In selection mode a reply that is not a number from 1 to the roster's
   * length is refused and changes nothing; a number in range moves the session
   * to that student, without the roster; a session without a roster or a
   * subject expires whatever the reply.
   */
  lemma SelectStepSpec(s: State, from: Id, subject: string, roster: Option<seq<Id>>, text: string)
    ensures var o := SelectStep(s, from, subject, roster, text);
            var n := ParseInt(text);
      && (subject == "" || roster.None? ==>
            o.reply == SessionExpired && o.state == s.(sessions := s.sessions - {from}))
      && (subject != "" && roster.Some? && (n.None? || n.value < 1 || n.value > |roster.value|) ==>
            o.state == s && o.reply == InvalidStudentNumber)
      && (subject != "" && roster.Some? && n.Some? && 1 <= n.value <= |roster.value| ==>
            && o.state == s.(sessions := s.sessions[from := Marking(subject, roster.value[n.value - 1])])
            && o.reply == AskStatus(StudentName(s.reg, roster.value[n.value - 1])))
  {
  }

  /** In the status step a text that is no status letter re-prompts and changes nothing. */
  lemma StatusStepRejects(s: State, from: Id, subject: string, current: Id, text: string, today: string)
    requires UpperStatus(text).None?
    ensures var o := StatusStep(s, from, subject, current, text, today);
      o.state == s && o.reply == AskValidStatus && o.notices == []
  {
  }

  /**
   * The status step writes today's upper-cased status for the current student
   * (the date now has that status unless the entry is a non-empty legacy
   * string), notifies the student, and puts the session back in selection mode
   * without its roster, so that the next message expires it.
   */
  lemma StatusStepWrites(s: State, from: Id, subject: string, current: Id, text: string, today: string)
    requires UpperStatus(text).Some?
    ensures var o := StatusStep(s, from, subject, current, text, today);
            var status := UpperStatus(text).value;
      && o.state.reg.attendance == MarkIn(s.reg.attendance, from, subject, current, today, Mark(status))
      && (!Stuck(LedgerAt(s.reg.attendance, from, subject), current) ==>
            CellAt(LedgerAt(o.state.reg.attendance, from, subject), current, today) == Some(Mark(status)))
      && o.state.sessions == s.sessions[from := Selecting(subject, None)]
      && o.reply == Marked(StudentName(s.reg, current), status, subject)
      && o.notices == [AttendanceUpdate(current, subject, today, status, TeacherName(s.reg, from))]
  {
    var status := UpperStatus(text).value;
    MarkInSpec(s.reg.attendance, from, subject, current, today, Mark(status));
    MarkEntrySpec(LedgerAt(s.reg.attendance, from, subject), current, today, Mark(status));
  }

  /**
   * `remove.student.N` in range removes the N-th student of the teacher as
   * `removeStudent` does, and the reply always names "Unknown Student", as the
   * name is looked up after the record is deleted.
   */
  lemma RemoveStudentReply(s: State, from: Id, n: nat)
    requires 1 <= n <= |StudentsOf(s.reg, from)|
    ensures var o := RemoveStudentStep(s, from, n);
            var sid := StudentsOf(s.reg, from)[n - 1];
      && o.state.reg == DropStudent(s.reg, sid).0
      && sid !in o.state.reg.students.vals
      && o.reply == StudentRemoved("Unknown Student")
  {
    DropStudentSpec(s.reg, StudentsOf(s.reg, from)[n - 1]);
  }
}
