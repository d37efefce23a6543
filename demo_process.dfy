/**
 * The demo bot as a process: its global stores and dialogue maps as fields of
 * one object, and the removal helpers and the message handler as methods that
 * update them in place.  Each method is proved to leave exactly the state the
 * step functions of `DemoBot` describe.
 */
module DemoProcess {
  import opened Options
  import opened Dicts
  import opened JsText
  import opened Records
  import opened Reports
  import opened Store
  import opened DemoBot

  // ---------------------------------------------------------------- the removal loop

  /** `for (const sid of Object.keys(students)) if (students[sid].teacherId === t) delete students[sid]` */
  method DropOwned(ss: Dict<Student>, t: Id) returns (r: Dict<Student>)
    ensures r == RemoveWhere(ss, OwnedBy(t))
  {
    r := ss;
    var ids := ss.keys;
    var i := 0;
    PartlyRemovedStart(ss, OwnedBy(t));
    while i < |ids|
      invariant 0 <= i <= |ids|
      invariant r == PartlyRemoved(ss, OwnedBy(t), i)
    {
      var sid := ids[i];
      PartlyRemovedStep(ss, OwnedBy(t), i);
      if r.vals[sid].teacherId == t {
        r := Remove(r, sid);
      }
      i := i + 1;
    }
    PartlyRemovedDone(ss, OwnedBy(t));
  }

  // ---------------------------------------------------------------- the bot's globals

  /** The bot process: the stores and the per-user dialogue maps, updated in place by each message. */
  class Bot {
    var teachers: Dict<Teacher>
    var students: Dict<Student>
    var attendance: map<Id, Subjects>
    var awaitTeacherName: set<Id>
    var awaitSubject: set<Id>
    var awaitStudentName: set<Id>
    var awaitPhone: map<Id, string>
    var sessions: map<Id, Session>

    function Reg(): Registry
      reads this
    {
      Registry(teachers, students, attendance)
    }

    function Snapshot(): State
      reads this
    {
      State(Reg(), awaitTeacherName, awaitSubject, awaitStudentName, awaitPhone, sessions)
    }

    /** The bot starts with empty stores (the saved file is not modelled). */
    constructor ()
      ensures Snapshot() == Initial()
    {
      teachers, students, attendance := Empty(), Empty(), map[];
      awaitTeacherName, awaitSubject, awaitStudentName := {}, {}, {};
      awaitPhone, sessions := map[], map[];
    }

    /** `removeSubject(t, subject)` */
    method RemoveSubject(t: Id, subject: string) returns (ok: bool)
      modifies this
      ensures (attendance, ok) == DropSubject(old(attendance), t, subject)
      ensures teachers == old(teachers) && students == old(students)
      ensures awaitTeacherName == old(awaitTeacherName) && awaitSubject == old(awaitSubject)
      ensures awaitStudentName == old(awaitStudentName) && awaitPhone == old(awaitPhone) && sessions == old(sessions)
    {
      if t in attendance && subject in attendance[t].vals {
        attendance := attendance[t := Remove(attendance[t], subject)];
        return true;
      }
      return false;
    }

    /** `removeStudent(sid)` */
    method RemoveStudent(sid: Id) returns (ok: bool)
      modifies this
      ensures ok == DropStudent(old(Reg()), sid).1 && Reg() == DropStudent(old(Reg()), sid).0
      ensures awaitTeacherName == old(awaitTeacherName) && awaitSubject == old(awaitSubject)
      ensures awaitStudentName == old(awaitStudentName) && awaitPhone == old(awaitPhone) && sessions == old(sessions)
    {
      if sid !in students.vals {
        return false;
      }
      ghost var r0 := Reg();
      var t := students.vals[sid].teacherId;
      var ss := Remove(students, sid);
      var att := attendance;
      if t in attendance {
        var book := UpdateEach(attendance[t], DropEntry(sid));
        att := attendance[t := book];
      }
      assert Registry(teachers, ss, att) == DropStudent(r0, sid).0;
      students, attendance := ss, att;
      ok := true;
    }

    /** `removeTeacher(t)` */
    method RemoveTeacher(t: Id) returns (ok: bool)
      modifies this
      ensures ok == DropTeacher(old(Reg()), t).1 && Reg() == DropTeacher(old(Reg()), t).0
      ensures awaitTeacherName == old(awaitTeacherName) && awaitSubject == old(awaitSubject)
      ensures awaitStudentName == old(awaitStudentName) && awaitPhone == old(awaitPhone) && sessions == old(sessions)
    {
      ok := t in teachers.vals;
      if ok {
        var ts := Remove(teachers, t);
        var att := attendance - {t};
        var ss := DropOwned(students, t);
        teachers, attendance, students := ts, att, ss;
      }
    }

    // ---------------------------------------------------------------- the dialogue steps

    /** The teacher-name step. */
    method RegisterTeacher(from: Id, name: string) returns (reply: Reply)
      modifies this
      ensures Snapshot() == NameStep(old(Snapshot()), from, name).state
      ensures reply == NameStep(old(Snapshot()), from, name).reply
    {
      var ts := Put(teachers, from, Teacher(name));
      var att := WithBook(attendance, from);
      teachers, attendance, awaitTeacherName := ts, att, awaitTeacherName - {from};
      reply := TeacherRegistered(name);
    }

    /** The subject step. */
    method AddSubject(from: Id, subject: string) returns (reply: Reply)
      modifies this
      ensures Snapshot() == SubjectStep(old(Snapshot()), from, subject).state
      ensures reply == SubjectStep(old(Snapshot()), from, subject).reply
    {
      var att := WithBook(attendance, from);
      if !HasProperty(att[from], subject) {
        att := att[from := Put(att[from], subject, Empty())];
        reply := SubjectAdded(subject);
      } else {
        reply := SubjectExists;
      }
      attendance, awaitSubject := att, awaitSubject - {from};
    }

    /** The phone step: record the student, then give them an entry in every subject of the teacher. */
    method AddStudent(from: Id, name: string, phoneText: string) returns (reply: Reply)
      modifies this
      ensures Snapshot() == PhoneStep(old(Snapshot()), from, name, phoneText).state
      ensures reply == PhoneStep(old(Snapshot()), from, name, phoneText).reply
    {
      awaitPhone := awaitPhone - {from};
      var r' := EnrollIn(Reg(), from, name, phoneText);
      reply := StudentAdded(name, DigitsOnly(phoneText));
      students, attendance := r'.students, r'.attendance;
    }

    /** The status step. */
    method MarkStatus(from: Id, subject: string, current: Id, text: string, today: string) returns (reply: Reply, notices: seq<Notice>)
      modifies this
      ensures Snapshot() == StatusStep(old(Snapshot()), from, subject, current, text, today).state
      ensures reply == StatusStep(old(Snapshot()), from, subject, current, text, today).reply
      ensures notices == StatusStep(old(Snapshot()), from, subject, current, text, today).notices
    {
      var status := UpperStatus(text);
      if status.None? {
        reply, notices := AskValidStatus, [];
      } else {
        var att := MarkIn(attendance, from, subject, current, today, Mark(status.value));
        attendance, sessions := att, sessions[from := Selecting(subject, None)];
        reply := Marked(StudentName(Reg(), current), status.value, subject);
        notices := [AttendanceUpdate(current, subject, today, status.value, TeacherName(Reg(), from))];
      }
    }


    // ---------------------------------------------------------------- the message handler

    /**
     * `client.on('message', …)`: trim the body, find the branch the text
     * reaches and perform it.  The new state, the reply and the messages sent
     * to others are those of `Step`.
     */
    method OnMessage(from: Id, body: string, today: string) returns (reply: Reply, notices: seq<Notice>)
      modifies this
      ensures Snapshot() == Step(old(Snapshot()), from, body, today).state
      ensures reply == Step(old(Snapshot()), from, body, today).reply
      ensures notices == Step(old(Snapshot()), from, body, today).notices
    {
      var text := Trim(body);
      var b := Route(Snapshot(), from, text);
      if b.IsPending() {
        reply, notices := PerformPending(from, text, today, b);
      } else if b.IsPrompt() {
        reply, notices := PerformPrompt(from, text, today, b);
      } else if b.IsMarking() {
        reply, notices := PerformMarking(from, text, today, b);
      } else if b.IsRemoval() {
        reply, notices := PerformRemoval(from, text, today, b);
      } else {
        AnswersKeepState(Snapshot(), from, text, today, b);
        var o := AnswerOutcome(Snapshot(), from, text, today, b);
        reply, notices := o.reply, o.notices;
      }
    }

    /** The pending dialogue steps. */
    method PerformPending(from: Id, text: string, today: string, b: Branch) returns (reply: Reply, notices: seq<Notice>)
      requires b.IsPending()
      modifies this
      ensures var o := PendingOutcome(old(Snapshot()), from, text, today, b);
        Snapshot() == o.state && reply == o.reply && notices == o.notices
    {
      notices := [];
      match b
      case PendingName =>
        reply := RegisterTeacher(from, text);
      case PendingSubject =>
        reply := AddSubject(from, text);
      case PendingStudentName =>
        awaitStudentName, awaitPhone := awaitStudentName - {from}, awaitPhone[from := text];
        reply := AskPhone;
      case PendingPhone(name) =>
        reply := AddStudent(from, name, text);
      case PendingSelection(subject, roster) =>
        var o := SelectStep(Snapshot(), from, subject, roster, text);
        sessions := o.state.sessions;
        reply := o.reply;
    }

    /** The commands that start a dialogue. */
    method PerformPrompt(from: Id, text: string, today: string, b: Branch) returns (reply: Reply, notices: seq<Notice>)
      requires b.IsPrompt()
      modifies this
      ensures var o := PromptOutcome(old(Snapshot()), from, text, today, b);
        Snapshot() == o.state && reply == o.reply && notices == o.notices
    {
      notices := [];
      match b
      case RegisterCmd =>
        awaitTeacherName := awaitTeacherName + {from};
        reply := AskTeacherName;
      case AddSubjectCmd =>
        awaitSubject := awaitSubject + {from};
        reply := AskSubjectName;
      case AddStudentCmd =>
        awaitStudentName := awaitStudentName + {from};
        reply := AskStudentName;
    }

    /** `subject.N`: open a marking session on the teacher's N-th subject. */
    method OpenSessionAt(from: Id, n: nat) returns (reply: Reply)
      modifies this
      ensures var o := OpenSession(old(Snapshot()), from, n);
        Snapshot() == o.state && reply == o.reply && o.notices == []
    {
      var o := OpenSession(Snapshot(), from, n);
      sessions := o.state.sessions;
      reply := o.reply;
    }

    /** `subject.N` and the status step. */
    method PerformMarking(from: Id, text: string, today: string, b: Branch) returns (reply: Reply, notices: seq<Notice>)
      requires b.IsMarking()
      modifies this
      ensures var o := MarkingOutcome(old(Snapshot()), from, text, today, b);
        Snapshot() == o.state && reply == o.reply && notices == o.notices
    {
      match b
      case OpenSessionCmd(n) =>
        reply := OpenSessionAt(from, n);
        notices := [];
      case PendingStatus(subject, current) =>
        reply, notices := MarkStatus(from, subject, current, text, today);
    }

    /** `remove.subject.N`, `remove.student.N` and `confirm.delete.account`. */
    method PerformRemoval(from: Id, text: string, today: string, b: Branch) returns (reply: Reply, notices: seq<Notice>)
      requires b.IsRemoval()
      modifies this
      ensures var o := RemovalOutcome(old(Snapshot()), from, text, today, b);
        Snapshot() == o.state && reply == o.reply && notices == o.notices
    {
      notices := [];
      match b
      case RemoveSubjectCmd(n) =>
        reply := RemoveSubjectAt(from, n);
      case RemoveStudentCmd(n) =>
        reply := RemoveStudentAt(from, n);
      case ConfirmDeleteCmd =>
        DeleteAccount(from);
        reply := AccountRemoved;
    }

    /** `remove.subject.N` */
    method RemoveSubjectAt(from: Id, n: nat) returns (reply: Reply)
      modifies this
      ensures Snapshot() == RemoveSubjectStep(old(Snapshot()), from, n).state
      ensures reply == RemoveSubjectStep(old(Snapshot()), from, n).reply
    {
      var subs := SubjectsOf(Reg(), from).keys;
      if n < 1 || n > |subs| {
        reply := InvalidSubjectNumber;
      } else {
        var _ := RemoveSubject(from, subs[n - 1]);
        reply := SubjectRemoved(subs[n - 1]);
      }
    }

    /** `remove.student.N`: the reply looks the name up after the removal. */
    method RemoveStudentAt(from: Id, n: nat) returns (reply: Reply)
      modifies this
      ensures Snapshot() == RemoveStudentStep(old(Snapshot()), from, n).state
      ensures reply == RemoveStudentStep(old(Snapshot()), from, n).reply
    {
      var list := StudentsOf(Reg(), from);
      if n < 1 || n > |list| {
        reply := InvalidStudentNumber;
      } else {
        var _ := RemoveStudent(list[n - 1]);
        reply := StudentRemoved(StudentName(Reg(), list[n - 1]));
      }
    }

    /** `confirm.delete.account` */
    method DeleteAccount(from: Id)
      modifies this
      ensures Snapshot() == old(Snapshot()).(reg := DropTeacher(old(Reg()), from).0)
    {
      var _ := RemoveTeacher(from);
    }
  }
}
