/**
 * The group bot as a process: the stores and the awaiting maps as fields of
 * one object, and the message handler as methods that update them in place.
 * Each method is proved to leave exactly the state the step functions of
 * `GroupBot` describe; the bulk write is the loop over the roster snapshot.
 */
module GroupProcess {
  import opened Options
  import opened Dicts
  import opened JsText
  import opened Records
  import opened Reports
  import opened Store
  import opened GroupBot

  /** One turn of the bulk loop on the attendance map: write the next roster entry. */
  method MarkNext(att: map<Id, Subjects>, cur: map<Id, Subjects>, from: Id, subject: string, roster: seq<Id>,
                  i: nat, today: string, cell: Cell)
    returns (next: map<Id, Subjects>)
    requires i < |roster| && cur == MarkAll(att, from, subject, roster[..i], today, cell)
    ensures next == MarkAll(att, from, subject, roster[..i + 1], today, cell)
  {
    next := MarkIn(cur, from, subject, roster[i], today, cell);
    MarkAllStep(att, from, subject, roster, i, today, cell);
  }

  /**
   * The loop of `bulk X`: for every student of the snapshot, in order, write
   * the status through the creation chain, count the write, notify the student
   * and count the notification when it gets through.
   */
  method BulkWrite(att: map<Id, Subjects>, from: Id, subject: string, roster: seq<Id>, today: string,
                   status: Option<string>, teacher: string, delivered: set<Id>)
    returns (att': map<Id, Subjects>, marked: nat, notified: nat, notices: seq<Notice>)
    ensures att' == MarkAll(att, from, subject, roster, today, CellOf(status))
    ensures marked == |roster|
    ensures notified == DeliveredCount(roster, delivered)
    ensures notices == BulkNotices(roster, subject, today, status, teacher)
  {
    var cell := CellOf(status);
    att', marked, notified, notices := att, 0, 0, [];
    var i := 0;
    while i < |roster|
      invariant 0 <= i <= |roster|
      invariant att' == MarkAll(att, from, subject, roster[..i], today, cell)
      invariant marked == i
      invariant notified == DeliveredCount(roster[..i], delivered)
      invariant notices == BulkNotices(roster[..i], subject, today, status, teacher)
    {
      var sid := roster[i];
      att' := MarkNext(att, att', from, subject, roster, i, today, cell);
      marked := marked + 1;
      notices := notices + [AttendanceUpdate(sid, subject, today, status, teacher)];
      if sid in delivered {
        notified := notified + 1;
      }
      BulkPrefixStep(subject, roster, i, today, status, teacher, delivered);
      i := i + 1;
    }
    assert roster[..i] == roster;
  }

  /** The bot process: the stores and the per-sender awaiting maps, updated in place by each message. */
  class Bot {
    var teachers: Dict<Teacher>
    var students: Dict<Student>
    var attendance: map<Id, Subjects>
    var awaitTeacherName: set<Id>
    var awaitSubject: set<Id>
    var awaitStudentName: set<Id>
    var awaitPhone: map<Id, string>
    var awaitAttendanceSubject: set<Id>
    var sessions: map<Id, Session>

    function Reg(): Registry
      reads this
    {
      Registry(teachers, students, attendance)
    }

    function Snapshot(): State
      reads this
    {
      State(Reg(), awaitTeacherName, awaitSubject, awaitStudentName, awaitPhone, awaitAttendanceSubject, sessions)
    }

    /** The bot starts with empty stores (the saved file is not modelled). */
    constructor ()
      ensures Snapshot() == Initial()
    {
      teachers, students, attendance := Empty(), Empty(), map[];
      awaitTeacherName, awaitSubject, awaitStudentName := {}, {}, {};
      awaitPhone, awaitAttendanceSubject, sessions := map[], {}, map[];
    }

    // ---------------------------------------------------------------- the pending steps

    /** The teacher-name step: `teachers[from] = {name}`, `attendance[from] = {}`. */
    method RegisterTeacher(from: Id, name: string) returns (reply: Reply)
      modifies this
      ensures Snapshot() == NameStep(old(Snapshot()), from, name).state
      ensures reply == NameStep(old(Snapshot()), from, name).reply
    {
      var ts := Put(teachers, from, Teacher(name));
      teachers, attendance, awaitTeacherName := ts, attendance[from := Empty()], awaitTeacherName - {from};
      reply := TeacherRegistered(name);
    }

    /** The subject step; reading `attendance[from][subject]` throws when the sender has no attendance map. */
    method AddSubject(from: Id, subject: string) returns (reply: Reply)
      modifies this
      ensures Snapshot() == SubjectStep(old(Snapshot()), from, subject).state
      ensures reply == SubjectStep(old(Snapshot()), from, subject).reply
    {
      if from !in attendance {
        reply := Crashed;
      } else {
        var book: Subjects := attendance[from];
        if !HasProperty(book, subject) {
          book := Put(book, subject, Empty());
          reply := SubjectAdded(subject);
        } else {
          reply := SubjectExists;
        }
        attendance, awaitSubject := attendance[from := book], awaitSubject - {from};
      }
    }

    /** The phone step: record the student, then give them an entry in every subject of the teacher. */
    method AddStudent(from: Id, name: string, phoneText: string) returns (reply: Reply)
      modifies this
      ensures Snapshot() == PhoneStep(old(Snapshot()), from, name, phoneText).state
      ensures reply == PhoneStep(old(Snapshot()), from, name, phoneText).reply
    {
      awaitPhone := awaitPhone - {from};
      var r' := EnrollIn(Reg(), from, name, phoneText);
      reply := StudentAdded(name, DigitsOnly(phoneText), TeacherName(Reg(), from));
      students, attendance := r'.students, r'.attendance;
    }

    /** The attendance-subject step. */
    method ChooseAttendanceSubject(from: Id, subject: string) returns (reply: Reply)
      modifies this
      ensures Snapshot() == AttendanceSubjectStep(old(Snapshot()), from, subject).state
      ensures reply == AttendanceSubjectStep(old(Snapshot()), from, subject).reply
    {
      if !IsTeacher(Reg(), from) {
        awaitAttendanceSubject := awaitAttendanceSubject - {from};
        reply := OnlyTeachers;
      } else if from !in attendance {
        reply := Crashed;
      } else if subject !in attendance[from].vals {
        awaitAttendanceSubject := awaitAttendanceSubject - {from};
        reply := SubjectNotFound;
      } else {
        var roster := StudentsOf(Reg(), from);
        if roster == [] {
          reply := NoStudents;
        } else {
          sessions := sessions[from := Session(subject, None, false)];
          reply := StudentChoice(subject, RosterNames(Reg(), roster));
        }
        awaitAttendanceSubject := awaitAttendanceSubject - {from};
      }
    }

    // ---------------------------------------------------------------- marking

    /** `student.N X`: one write through the creation chain, then one notification. */
    method MarkStudent(from: Id, n: nat, status: Option<string>, session: Session, today: string, delivered: set<Id>)
      returns (reply: Reply, notices: seq<Notice>)
      modifies this
      ensures var o := MarkStudentStep(old(Snapshot()), from, n, status, session, today, delivered);
        Snapshot() == o.state && reply == o.reply && notices == o.notices
    {
      if !session.Ready() {
        reply, notices := MissingInformation, [];
      } else if n < 1 || n > |session.roster.value| {
        reply, notices := InvalidStudentNumber, [];
      } else {
        var sid := session.roster.value[n - 1];
        attendance := MarkIn(attendance, from, session.subject, sid, today, CellOf(status));
        reply := Marked(StudentName(Reg(), sid), status, session.subject, today, sid in delivered);
        notices := [AttendanceUpdate(sid, session.subject, today, status, TeacherName(Reg(), from))];
      }
    }

    /** `bulk X`: the loop over the roster snapshot, then the session is closed. */
    method MarkBulk(from: Id, status: Option<string>, session: Session, today: string, delivered: set<Id>)
      returns (reply: Reply, notices: seq<Notice>)
      modifies this
      ensures var o := BulkStep(old(Snapshot()), from, status, session, today, delivered);
        Snapshot() == o.state && reply == o.reply && notices == o.notices
    {
      if !session.Ready() {
        reply, notices := MissingInformation, [];
      } else {
        ghost var s0 := Snapshot();
        var att, marked, notified;
        att, marked, notified, notices :=
          BulkWrite(attendance, from, session.subject, session.roster.value, today, status, TeacherName(Reg(), from), delivered);
        attendance, sessions := att, sessions - {from};
        reply := BulkDone(marked, status, session.subject, today, notified);
        assert Snapshot() == s0.(reg := s0.reg.(attendance := att), sessions := s0.sessions - {from});
      }
    }

    // ---------------------------------------------------------------- the message handler

    /**
     * `client.on('message', …)`: trim the body, find the branch the text
     * reaches and perform it.  The new state, the reply and the notifications
     * are those of `Step`.
     */
    method OnMessage(from: Id, body: string, today: string, delivered: set<Id>) returns (reply: Reply, notices: seq<Notice>)
      modifies this
      ensures Snapshot() == Step(old(Snapshot()), from, body, today, delivered).state
      ensures reply == Step(old(Snapshot()), from, body, today, delivered).reply
      ensures notices == Step(old(Snapshot()), from, body, today, delivered).notices
    {
      var text := Trim(body);
      var b := Route(Snapshot(), from, text);
      if b.IsPending() {
        reply, notices := PerformPending(from, text, today, delivered, b);
      } else if b.IsPrompt() {
        reply, notices := PerformPrompt(from, text, today, delivered, b);
      } else if b.IsMarking() {
        reply, notices := PerformMarking(from, text, today, delivered, b);
      } else {
        AnswersKeepState(Snapshot(), from, text, today, delivered, b);
        var o := Perform(Snapshot(), from, text, today, delivered, b);
        reply, notices := o.reply, o.notices;
      }
    }

    /** The pending steps. */
    method PerformPending(from: Id, text: string, today: string, delivered: set<Id>, b: Branch)
      returns (reply: Reply, notices: seq<Notice>)
      requires b.IsPending()
      modifies this
      ensures var o := PendingOutcome(old(Snapshot()), from, text, today, delivered, b);
        Snapshot() == o.state && reply == o.reply && notices == o.notices
    {
      notices := [];
      match b
      case PendingName =>
        reply := RegisterTeacher(from, text);
      case PendingSubject =>
        reply := AddSubject(from, text);
      case PendingStudentName =>
        awaitStudentName, awaitPhone := awaitStudentName - {from}, awaitPhone[from := text];
        reply := AskPhone;
      case PendingPhone(name) =>
        reply := AddStudent(from, name, text);
      case PendingAttendanceSubject =>
        reply := ChooseAttendanceSubject(from, text);
    }

    /** The commands that start a dialogue. */
    method PerformPrompt(from: Id, text: string, today: string, delivered: set<Id>, b: Branch)
      returns (reply: Reply, notices: seq<Notice>)
      requires b.IsPrompt()
      modifies this
      ensures var o := PromptOutcome(old(Snapshot()), from, text, today, delivered, b);
        Snapshot() == o.state && reply == o.reply && notices == o.notices
    {
      notices := [];
      match b
      case RegisterCmd =>
        awaitTeacherName := awaitTeacherName + {from};
        reply := AskTeacherName;
      case AddSubjectCmd =>
        awaitSubject := awaitSubject + {from};
        reply := AskSubjectName;
      case AddStudentCmd =>
        awaitStudentName := awaitStudentName + {from};
        reply := AskStudentName;
    }

    /** `subject.N`: open an attendance session on the teacher's N-th subject. */
    method OpenSessionAt(from: Id, n: nat) returns (reply: Reply)
      modifies this
      ensures var o := OpenSession(old(Snapshot()), from, n);
        Snapshot() == o.state && reply == o.reply && o.notices == []
    {
      var o := OpenSession(Snapshot(), from, n);
      sessions := o.state.sessions;
      reply := o.reply;
    }

    /** `bulk`: switch the open session to bulk mode. */
    method StartBulk(from: Id, session: Session) returns (reply: Reply)
      modifies this
      ensures var o := BulkPromptStep(old(Snapshot()), from, session);
        Snapshot() == o.state && reply == o.reply && o.notices == []
    {
      if session.Ready() {
        sessions := sessions[from := session.(bulkMode := true)];
        reply := BulkPrompt(session.subject);
      } else {
        reply := MissingInformation;
      }
    }

    /** `/present-…`, `/absent-…`, `/holiday-…`: store the letter under today's date. */
    method MarkLegacy(from: Id, letter: string, subject: string, today: string) returns (reply: Reply)
      modifies this
      ensures var o := LegacyStep(old(Snapshot()), from, letter, subject, today);
        Snapshot() == o.state && reply == o.reply && o.notices == []
    {
      attendance := WriteLegacy(attendance, from, subject, today, letter);
      reply := LegacyMarked(subject, letter, today);
    }

    /** `subject.N`, `student.N X`, `bulk`, `bulk X` and the legacy commands. */
    method PerformMarking(from: Id, text: string, today: string, delivered: set<Id>, b: Branch)
      returns (reply: Reply, notices: seq<Notice>)
      requires b.IsMarking()
      modifies this
      ensures var o := MarkingOutcome(old(Snapshot()), from, text, today, delivered, b);
        Snapshot() == o.state && reply == o.reply && notices == o.notices
    {
      match b
      case OpenSessionCmd(n) =>
        reply := OpenSessionAt(from, n);
        notices := [];
      case MarkStudentCmd(n, status, session) =>
        reply, notices := MarkStudent(from, n, status, session, today, delivered);
      case BulkCmd(session) =>
        reply := StartBulk(from, session);
        notices := [];
      case BulkMarkCmd(status, session) =>
        reply, notices := MarkBulk(from, status, session, today, delivered);
      case LegacyCmd(letter, subject) =>
        reply := MarkLegacy(from, letter, subject, today);
        notices := [];
    }
  }
}
