/**
 * The web variant: a page with buttons over the same three stores.  A teacher
 * logs in by name, adds and deletes subjects, adds and removes students, and
 * saves one status per student for today; a student logs in by name and phone
 * and sees their figures per subject.  Python semantics throughout: `del` and
 * `in` on dictionaries, `str.replace` removing every occurrence, item
 * assignment on a string raising an exception.
 *
 * The pure functions below are the specification; the class `App` holds the
 * session state and its button methods are proved to leave exactly the stores
 * the functions describe.
 */
module WebApp {
  import opened Options
  import opened Dicts
  import opened JsText
  import opened Records
  import opened Reports
  import opened Store

  // ---------------------------------------------------------------- student ids

  /** `s.replace(c, '')`: every occurrence of `c` taken out, the rest in order. */
  function RemoveAll(s: string, c: char): (r: string)
    ensures |r| <= |s|
  {
    if s == [] then []
    else (if s[0] == c then [] else [s[0]]) + RemoveAll(s[1..], c)
  }

  /** `replace` keeps exactly the other characters, and changes nothing when `c` does not occur. */
  lemma {:induction false} RemoveAllSpec(s: string, c: char)
    ensures forall x :: x in RemoveAll(s, c) <==> x in s && x != c
    ensures c !in s ==> RemoveAll(s, c) == s
  {
    if s != [] {
      RemoveAllSpec(s[1..], c);
      assert s == [s[0]] + s[1..];
    }
  }

  lemma {:induction false} RemoveAllAppend(a: string, b: string, c: char)
    ensures RemoveAll(a + b, c) == RemoveAll(a, c) + RemoveAll(b, c)
  {
    if a != [] {
      assert (a + b)[1..] == a[1..] + b;
      RemoveAllAppend(a[1..], b, c);
    } else {
      assert a + b == b;
    }
  }

  /** `phone.replace('+', '').replace(' ', '')` */
  function Unspaced(phone: string): string {
    RemoveAll(RemoveAll(phone, '+'), ' ')
  }

  /** The web id of a student: the phone as typed, without `+` and spaces, followed by `@c.us`. */
  function WebStudentId(phone: string): (id: Id)
    ensures |id| >= 5 && id[|id| - 5..] == "@c.us"
  {
    Unspaced(phone) + "@c.us"
  }

  /** The part of the web id before `@c.us` holds exactly the characters of the phone other than `+` and space. */
  lemma WebIdCharacters(phone: string)
    ensures var id := WebStudentId(phone);
      forall x :: x in id[..|id| - 5] <==> x in phone && x != '+' && x != ' '
  {
    var id := WebStudentId(phone);
    assert id[..|id| - 5] == Unspaced(phone);
    RemoveAllSpec(phone, '+');
    RemoveAllSpec(RemoveAll(phone, '+'), ' ');
  }

  lemma UnspacedAppend(a: string, b: string)
    ensures Unspaced(a + b) == Unspaced(a) + Unspaced(b)
  {
    RemoveAllAppend(a, b, '+');
    RemoveAllAppend(RemoveAll(a, '+'), RemoveAll(b, '+'), ' ');
  }

  /** A `+` or a space typed anywhere in the phone gives the same id. */
  lemma WebIdIgnoresSeparators(a: string, b: string, c: char)
    requires c == '+' || c == ' '
    ensures WebStudentId(a + [c] + b) == WebStudentId(a + b)
  {
    assert Unspaced([c]) == [] by {
      assert [c][1..] == [];
      assert RemoveAll([c], '+') == (if c == '+' then [] else [c]);
    }
    calc {
      Unspaced(a + [c] + b);
    == { UnspacedAppend(a + [c], b); }
      Unspaced(a + [c]) + Unspaced(b);
    == { UnspacedAppend(a, [c]); }
      Unspaced(a) + Unspaced(b);
    == { UnspacedAppend(a, b); }
      Unspaced(a + b);
    }
  }

  /** On a phone of digits, `+` and spaces the web id and the bots' id agree. */
  lemma {:induction false} UnspacedDigits(phone: string)
    requires forall i | 0 <= i < |phone| :: IsDigit(phone[i]) || phone[i] == '+' || phone[i] == ' '
    ensures Unspaced(phone) == DigitsOnly(phone)
  {
    if phone != [] {
      assert phone == [phone[0]] + phone[1..];
      UnspacedAppend([phone[0]], phone[1..]);
      UnspacedDigits(phone[1..]);
      assert Unspaced([phone[0]]) == if IsDigit(phone[0]) then [phone[0]] else [] by {
        assert RemoveAll([phone[0]], '+') == if phone[0] == '+' then [] else [phone[0]];
      }
    }
  }

  /**
   * The web page and the bots give a phone the same id exactly when the phone
   * holds nothing but digits, `+` and spaces: any other character (a dash, a
   * bracket) stays in the web id and is dropped by the bots.
   */
  lemma WebIdMatchesBotsExactly(phone: string)
    ensures WebStudentId(phone) == StudentIdOf(phone)
      <==> forall i | 0 <= i < |phone| :: IsDigit(phone[i]) || phone[i] == '+' || phone[i] == ' '
  {
    if forall i | 0 <= i < |phone| :: IsDigit(phone[i]) || phone[i] == '+' || phone[i] == ' ' {
      UnspacedDigits(phone);
    } else {
      var i :| 0 <= i < |phone| && !(IsDigit(phone[i]) || phone[i] == '+' || phone[i] == ' ');
      var w := WebStudentId(phone);
      WebIdCharacters(phone);
      assert phone[i] in phone;
      assert phone[i] in w[..|w| - 5];
    }
  }

  /** Python's `students.get(sid, {}).get('name', 'Unknown Student')`: an empty name is shown as it is. */
  function WebStudentName(r: Registry, sid: Id): string {
    if sid in r.students.vals then r.students.vals[sid].name else "Unknown Student"
  }

  // ---------------------------------------------------------------- subjects

  /** What the page shows after a button. */
  datatype Feedback =
    | Done
    | EnterName             // "Please enter your name", "Please enter a subject name"
    | SubjectExists
    | EnterNameAndPhone
    | StudentExists

  /** "Add Subject" for teacher `t`: an empty name or a name already there is refused. */
  function AddSubjectTo(att: map<Id, Subjects>, t: Id, subject: string): (map<Id, Subjects>, Feedback)
    requires t in att
  {
    if subject == "" then (att, EnterName)
    else if subject in att[t].vals then (att, SubjectExists)
    else (att[t := Put(att[t], subject, Empty())], Done)
  }

  /**
   * A subject is added exactly when its name is non-empty and new; it comes
   * last, with no entries, and nothing else changes.  A refusal changes nothing.
   */
  lemma AddSubjectSpec(att: map<Id, Subjects>, t: Id, subject: string)
    requires t in att
    ensures var (a, fb) := AddSubjectTo(att, t, subject);
      && (fb == Done <==> subject != "" && subject !in att[t].vals)
      && (fb == EnterName <==> subject == "")
      && (fb != Done ==> a == att)
      && (fb == Done ==>
            && a.Keys == att.Keys
            && a[t].keys == att[t].keys + [subject]
            && a[t].vals == att[t].vals[subject := Empty()]
            && forall u | u in att && u != t :: a[u] == att[u])
  {
  }

  /** "Delete" right after "Add Subject" gives the stores back. */
  lemma AddThenDeleteSubject(att: map<Id, Subjects>, t: Id, subject: string)
    requires t in att && AddSubjectTo(att, t, subject).1 == Done
    ensures DropSubject(AddSubjectTo(att, t, subject).0, t, subject) == (att, true)
  {
    RemovePutFresh(att[t], subject, Empty());
    var a := AddSubjectTo(att, t, subject).0;
    assert a[t := Remove(a[t], subject)] == att;
  }

  // ---------------------------------------------------------------- students

  /**
   * "Add Student" for teacher `t`: both fields are required, an existing id is
   * refused, and otherwise the student is recorded with the phone as typed and
   * given an empty entry in every subject of `t` that lacks one.
   */
  function EnrollWeb(r: Registry, t: Id, name: string, phone: string): (Registry, Feedback)
    requires t in r.attendance
  {
    if name == "" || phone == "" then (r, EnterNameAndPhone)
    else
      var sid := WebStudentId(phone);
      if sid in r.students.vals then (r, StudentExists)
      else (Registry(r.teachers, Put(r.students, sid, Student(name, phone, t)),
                     r.attendance[t := MapValues(r.attendance[t], WebSeedEntry(sid))]), Done)
  }

  /**
   * Unlike the bots' registration, "Add Student" never replaces a student: it
   * adds one exactly when both fields are filled in and the id is new, and a
   * refusal changes nothing.  The new student comes last and is taught by `t`.
   */
  lemma EnrollWebSpec(r: Registry, t: Id, name: string, phone: string)
    requires t in r.attendance
    ensures var (r', fb) := EnrollWeb(r, t, name, phone);
            var sid := WebStudentId(phone);
      && (fb == Done <==> name != "" && phone != "" && sid !in r.students.vals)
      && (fb == EnterNameAndPhone <==> name == "" || phone == "")
      && (fb != Done ==> r' == r)
      && (fb == Done ==>
            && r'.teachers == r.teachers
            && r'.students.keys == r.students.keys + [sid]
            && r'.students.vals == r.students.vals[sid := Student(name, phone, t)]
            && r'.attendance.Keys == r.attendance.Keys
            && r'.attendance[t].keys == r.attendance[t].keys
            && forall u | u in r.attendance && u != t :: r'.attendance[u] == r.attendance[u])
  {
  }

  /**
   * In every subject of `t` the new student has an entry, an empty one when
   * there was none; every other entry is kept, and the subject's P and A
   * counts do not change.
   */
  lemma EnrollWebSeeds(r: Registry, t: Id, name: string, phone: string, subject: string)
    requires t in r.attendance && EnrollWeb(r, t, name, phone).1 == Done
    requires subject in r.attendance[t].vals
    ensures var l := r.attendance[t].vals[subject];
            var l' := EnrollWeb(r, t, name, phone).0.attendance[t].vals[subject];
            var sid := WebStudentId(phone);
      && sid in l'.vals
      && (sid !in l.vals ==> l'.vals[sid] == StudentDays(Empty()))
      && (forall k | k in l.vals :: k in l'.vals && l'.vals[k] == l.vals[k])
      && (forall k | k in l'.vals :: k in l.vals || k == sid)
      && WebCounts(l') == WebCounts(l)
  {
    SeedKeepsCounts(r.attendance[t].vals[subject], WebStudentId(phone));
  }

  /** "Remove": `del ledger[sid]` in every subject of `t` that has the key, then `del students[sid]`. */
  function WebDropEntry(sid: Id): Ledger -> Ledger {
    (l: Ledger) => Remove(l, sid)
  }

  function DropWebStudent(r: Registry, t: Id, sid: Id): Registry
    requires t in r.attendance
  {
    Registry(r.teachers, Remove(r.students, sid), r.attendance[t := MapValues(r.attendance[t], WebDropEntry(sid))])
  }

  /**
   * After "Remove" no subject of `t` has any entry for the student, even an
   * empty string the bots would keep; every other entry, subject, teacher and
   * student is unchanged.
   */
  lemma DropWebStudentSpec(r: Registry, t: Id, sid: Id)
    requires t in r.attendance
    ensures var r' := DropWebStudent(r, t, sid);
      && r'.teachers == r.teachers
      && r'.students.vals == r.students.vals - {sid}
      && r'.attendance.Keys == r.attendance.Keys
      && (forall u | u in r.attendance && u != t :: r'.attendance[u] == r.attendance[u])
      && r'.attendance[t].keys == r.attendance[t].keys
      && forall s | s in r.attendance[t].vals ::
           var l, l' := r.attendance[t].vals[s], r'.attendance[t].vals[s];
           && sid !in l'.vals
           && forall k | k != sid :: (k in l'.vals <==> k in l.vals) && (k in l.vals ==> l'.vals[k] == l.vals[k])
  {
  }

  /** Removing a student just added, who had no entry before, gives the stores back. */
  lemma EnrollThenDrop(r: Registry, t: Id, name: string, phone: string)
    requires t in r.attendance && EnrollWeb(r, t, name, phone).1 == Done
    requires forall s | s in r.attendance[t].vals :: WebStudentId(phone) !in r.attendance[t].vals[s].vals
    ensures DropWebStudent(EnrollWeb(r, t, name, phone).0, t, WebStudentId(phone)) == r
  {
    var sid := WebStudentId(phone);
    assert EnrollWeb(r, t, name, phone).0 == Enrolled(r, t, sid, Student(name, phone, t));
    DropEnrolled(r, t, sid, Student(name, phone, t));
  }

  /** The stores once a new student `sid` is recorded and seeded in the subjects of `t`. */
  function Enrolled(r: Registry, t: Id, sid: Id, st: Student): Registry
    requires t in r.attendance
  {
    Registry(r.teachers, Put(r.students, sid, st), r.attendance[t := MapValues(r.attendance[t], WebSeedEntry(sid))])
  }

  lemma DropEnrolled(r: Registry, t: Id, sid: Id, st: Student)
    requires t in r.attendance && sid !in r.students.vals
    requires forall s | s in r.attendance[t].vals :: sid !in r.attendance[t].vals[s].vals
    ensures DropWebStudent(Enrolled(r, t, sid, st), t, sid) == r
  {
    RemovePutFresh(r.students, sid, st);
    var seeded := MapValues(r.attendance[t], WebSeedEntry(sid));
    SeedThenDrop(r.attendance[t], sid);
    PutBack(r.attendance, t, seeded, MapValues(seeded, WebDropEntry(sid)));
  }

  /** Replacing a subject map and then restoring it gives the map of all teachers back. */
  lemma PutBack(att: map<Id, Subjects>, t: Id, b: Subjects, b': Subjects)
    requires t in att && b' == att[t]
    ensures att[t := b][t := b'] == att
  {
  }

  /** Seeding a student absent from every subject and dropping them again gives the subjects back. */
  lemma SeedThenDrop(book: Subjects, sid: Id)
    requires forall s | s in book.vals :: sid !in book.vals[s].vals
    ensures MapValues(MapValues(book, WebSeedEntry(sid)), WebDropEntry(sid)) == book
  {
    var back := MapValues(MapValues(book, WebSeedEntry(sid)), WebDropEntry(sid));
    SeedThenDropVals(book, sid);
    assert back.keys == book.keys;
  }

  /** The per-subject half of `SeedThenDrop`: every ledger comes back. */
  lemma SeedThenDropVals(book: Subjects, sid: Id)
    requires forall s | s in book.vals :: sid !in book.vals[s].vals
    ensures MapValues(MapValues(book, WebSeedEntry(sid)), WebDropEntry(sid)).vals == book.vals
  {
    var back := MapValues(MapValues(book, WebSeedEntry(sid)), WebDropEntry(sid));
    forall s | s in book.vals
      ensures back.vals[s] == book.vals[s]
    {
      SeedDropLedger(book.vals[s], sid);
    }
  }

  /** Seeding and then dropping a student who had no entry gives the ledger back. */
  lemma SeedDropLedger(l: Ledger, sid: Id)
    requires sid !in l.vals
    ensures WebDropEntry(sid)(WebSeedEntry(sid)(l)) == l
  {
    RemovePutFresh(l, sid, StudentDays(Empty()));
  }

  // ---------------------------------------------------------------- marking

  /** A choice of the status box; `status[0]` of its label is what is stored. */
  datatype Choice = Present | Absent | Holiday | NoClass {
    function Letter(): string {
      match this
      case Present => "P"
      case Absent => "A"
      case Holiday => "H"
      case NoClass => "N"
    }
  }

  function Letters(choices: seq<Choice>): (ls: seq<string>)
    ensures |ls| == |choices|
    ensures forall i | 0 <= i < |choices| :: ls[i] == choices[i].Letter()
  {
    if choices == [] then [] else [choices[0].Letter()] + Letters(choices[1..])
  }

  /** The entry of `sid` is a bare string, which a save row cannot index. */
  predicate HoldsString(l: Ledger, sid: Id) {
    sid in l.vals && l.vals[sid].LegacyMark?
  }

  /**
   * One row of "Save Attendance": `ledger[sid] = {}` when the key is missing,
   * then `ledger[sid][date] = letter`; the item assignment raises on a string
   * entry (`None`).
   */
  function WebMark(l: Ledger, sid: Id, date: string, letter: string): Option<Ledger> {
    if HoldsString(l, sid) then None
    else
      var days := if sid in l.vals then l.vals[sid].days else Empty();
      Some(Put(l, sid, StudentDays(Put(days, date, Mark(letter)))))
  }

  /**
   * A row raises exactly on a string entry; otherwise the student has the
   * letter under the date, keeps their other dates, and no other entry changes.
   */
  lemma WebMarkSpec(l: Ledger, sid: Id, date: string, letter: string)
    ensures WebMark(l, sid, date, letter).None? <==> HoldsString(l, sid)
    ensures WebMark(l, sid, date, letter).Some? ==>
      var l' := WebMark(l, sid, date, letter).value;
      && CellAt(l', sid, date) == Some(Mark(letter))
      && (forall d | d != date :: CellAt(l', sid, d) == CellAt(l, sid, d))
      && (forall k | k != sid :: (k in l'.vals <==> k in l.vals) && (k in l.vals ==> l'.vals[k] == l.vals[k]))
  {
    if !HoldsString(l, sid) {
      WebMarkWritten(l, sid, date, letter);
      WebMarkCells(l, sid, date, letter);
    }
  }

  /** The entries after a row that does not raise: the student's days with the date set. */
  lemma WebMarkWritten(l: Ledger, sid: Id, date: string, letter: string)
    requires !HoldsString(l, sid)
    ensures var days := if sid in l.vals then l.vals[sid].days else Empty();
      WebMark(l, sid, date, letter).Some? &&
      WebMark(l, sid, date, letter).value.vals == l.vals[sid := StudentDays(Put(days, date, Mark(letter)))]
  {
  }

  /** The student's cells after a row that does not raise: the date holds the letter, other dates keep theirs. */
  lemma WebMarkCells(l: Ledger, sid: Id, date: string, letter: string)
    requires !HoldsString(l, sid)
    ensures WebMark(l, sid, date, letter).Some?
    ensures var l' := WebMark(l, sid, date, letter).value;
      && CellAt(l', sid, date) == Some(Mark(letter))
      && (forall d | d != date :: CellAt(l', sid, d) == CellAt(l, sid, d))
  {
    var days := if sid in l.vals then l.vals[sid].days else Empty();
    assert days == DaysOf(l, sid);
    var days' := Put(days, date, Mark(letter));
    var l' := WebMark(l, sid, date, letter).value;
    assert l' == Put(l, sid, StudentDays(days'));
    CellAtPut(l, sid, days', date);
    forall d | d != date
      ensures CellAt(l', sid, d) == CellAt(l, sid, d)
    {
      CellAtPut(l, sid, days', d);
      CellAtDaysOf(l, sid, d);
    }
  }

  /**
   * "Save Attendance" over the rows in order: the ledger after the rows
   * written, and whether the loop got through; it stops at the first row that
   * raises, keeping the rows written before it.
   */
  function WebMarkAll(l: Ledger, ids: seq<Id>, letters: seq<string>, date: string): (Ledger, bool)
    requires |ids| == |letters|
    decreases |ids|
  {
    if ids == [] then (l, true)
    else
      var n := |ids| - 1;
      var (l', ok) := WebMarkAll(l, ids[..n], letters[..n], date);
      if !ok then (l', false)
      else match WebMark(l', ids[n], date, letters[n])
        case None => (l', false)
        case Some(l'') => (l'', true)
  }

  /** One more row of the save loop. */
  lemma WebMarkAllPrefix(l: Ledger, ids: seq<Id>, letters: seq<string>, date: string, i: nat)
    requires |ids| == |letters| && i < |ids|
    ensures var (l', ok) := WebMarkAll(l, ids[..i], letters[..i], date);
      WebMarkAll(l, ids[..i + 1], letters[..i + 1], date) ==
        if !ok then (l', false)
        else match WebMark(l', ids[i], date, letters[i])
          case None => (l', false)
          case Some(l'') => (l'', true)
  {
    assert ids[..i + 1][..i] == ids[..i] && letters[..i + 1][..i] == letters[..i];
  }

  /** Once a row has raised, the later rows change nothing. */
  lemma {:induction false} WebMarkAllStopped(l: Ledger, ids: seq<Id>, letters: seq<string>, date: string, i: nat)
    requires |ids| == |letters| && i <= |ids|
    requires !WebMarkAll(l, ids[..i], letters[..i], date).1
    ensures WebMarkAll(l, ids, letters, date) == WebMarkAll(l, ids[..i], letters[..i], date)
    decreases |ids| - i
  {
    if i == |ids| {
      assert ids[..i] == ids && letters[..i] == letters;
    } else {
      WebMarkAllPrefix(l, ids, letters, date, i);
      WebMarkAllStopped(l, ids, letters, date, i + 1);
    }
  }

  /** The save loop leaves the entry of every student outside the rows as it was. */
  lemma {:induction false} WebMarkAllFrame(l: Ledger, ids: seq<Id>, letters: seq<string>, date: string, k: Id)
    requires |ids| == |letters| && k !in ids
    ensures var l' := WebMarkAll(l, ids, letters, date).0;
      (k in l'.vals <==> k in l.vals) && (k in l.vals ==> l'.vals[k] == l.vals[k])
    decreases |ids|
  {
    if ids != [] {
      var n := |ids| - 1;
      assert k !in ids[..n] by { assert forall j | 0 <= j < n :: ids[..n][j] == ids[j]; }
      WebMarkAllFrame(l, ids[..n], letters[..n], date, k);
      var (l', ok) := WebMarkAll(l, ids[..n], letters[..n], date);
      if ok && WebMark(l', ids[n], date, letters[n]).Some? {
        WebMarkKeeps(l', ids[n], date, letters[n], k);
      }
    }
  }

  /** One save row leaves the entry of every other student as it was. */
  lemma WebMarkKeeps(l: Ledger, sid: Id, date: string, letter: string, k: Id)
    requires WebMark(l, sid, date, letter).Some? && k != sid
    ensures var l' := WebMark(l, sid, date, letter).value;
      (k in l'.vals <==> k in l.vals) && (k in l.vals ==> l'.vals[k] == l.vals[k])
  {
  }

  /**
   * The save loop gets through exactly when no student of the rows has a
   * string entry in the subject (the rows are distinct students).
   */
  lemma {:induction false} WebMarkAllRaises(l: Ledger, ids: seq<Id>, letters: seq<string>, date: string)
    requires |ids| == |letters| && Distinct(ids)
    ensures WebMarkAll(l, ids, letters, date).1
      <==> forall i | 0 <= i < |ids| :: !HoldsString(l, ids[i])
    decreases |ids|
  {
    if ids != [] {
      var n := |ids| - 1;
      var pre := ids[..n];
      DistinctInit(ids);
      WebMarkAllRaises(l, pre, letters[..n], date);
      WebMarkAllLast(l, ids, letters, date);
      NoStringSplit(l, ids);
    }
  }

  /** No row holds a string exactly when none of the earlier rows does and the last does not. */
  lemma NoStringSplit(l: Ledger, ids: seq<Id>)
    requires ids != []
    ensures var n := |ids| - 1;
      (forall i | 0 <= i < |ids| :: !HoldsString(l, ids[i]))
      <==> (forall i | 0 <= i < n :: !HoldsString(l, ids[..n][i])) && !HoldsString(l, ids[n])
  {
    var n := |ids| - 1;
    assert forall i | 0 <= i < n :: ids[..n][i] == ids[i];
  }

  /** The last row raises exactly on a string entry it finds in the ledger the earlier rows did not touch. */
  lemma WebMarkAllLast(l: Ledger, ids: seq<Id>, letters: seq<string>, date: string)
    requires |ids| == |letters| && ids != [] && ids[|ids| - 1] !in ids[..|ids| - 1]
    ensures var n := |ids| - 1;
      WebMarkAll(l, ids, letters, date).1
      <==> WebMarkAll(l, ids[..n], letters[..n], date).1 && !HoldsString(l, ids[n])
  {
    var n := |ids| - 1;
    WebMarkAllFrame(l, ids[..n], letters[..n], date, ids[n]);
    var (l', ok) := WebMarkAll(l, ids[..n], letters[..n], date);
    assert ok ==> (WebMark(l', ids[n], date, letters[n]).None? <==> HoldsString(l, ids[n]));
  }

  /** A row that does not raise leaves every other student's cells as they were. */
  lemma WebMarkOther(l: Ledger, sid: Id, date: string, letter: string, k: Id, d: string)
    requires WebMark(l, sid, date, letter).Some? && k != sid
    ensures CellAt(WebMark(l, sid, date, letter).value, k, d) == CellAt(l, k, d)
  {
  }

  /** A row that does not raise writes its letter under the date. */
  lemma WebMarkOwn(l: Ledger, sid: Id, date: string, letter: string)
    requires WebMark(l, sid, date, letter).Some?
    ensures CellAt(WebMark(l, sid, date, letter).value, sid, date) == Some(Mark(letter))
  {
  }

  /**
   * When the save loop gets through, the student of row `i` has that row's
   * letter under the date (distinct rows, so no later row overwrites it).
   */
  lemma {:induction false} WebMarkAllWritesAt(l: Ledger, ids: seq<Id>, letters: seq<string>, date: string, i: nat)
    requires |ids| == |letters| && Distinct(ids) && i < |ids|
    requires WebMarkAll(l, ids, letters, date).1
    ensures CellAt(WebMarkAll(l, ids, letters, date).0, ids[i], date) == Some(Mark(letters[i]))
    decreases |ids|
  {
    var n := |ids| - 1;
    var pre, pl := ids[..n], letters[..n];
    var mid := WebMarkAll(l, pre, pl, date);
    WebMarkAllOk(l, ids, letters, date);
    if i == n {
      WebMarkOwn(mid.0, ids[n], date, letters[n]);
    } else {
      DistinctInit(ids);
      WebMarkAllWritesAt(l, pre, pl, date, i);
      assert pre[i] == ids[i] && pl[i] == letters[i];
      assert ids[i] in pre;
      WebMarkOther(mid.0, ids[n], date, letters[n], ids[i], date);
    }
  }

  /** A save loop that gets through got through every row before the last, and the last did not raise. */
  lemma WebMarkAllOk(l: Ledger, ids: seq<Id>, letters: seq<string>, date: string)
    requires |ids| == |letters| && ids != [] && WebMarkAll(l, ids, letters, date).1
    ensures var n := |ids| - 1;
            var mid := WebMarkAll(l, ids[..n], letters[..n], date);
      && mid.1 && WebMark(mid.0, ids[n], date, letters[n]).Some?
      && WebMarkAll(l, ids, letters, date).0 == WebMark(mid.0, ids[n], date, letters[n]).value
  {
  }

  /** When the save loop gets through, every student of the rows has their row's letter under the date. */
  lemma WebMarkAllWrites(l: Ledger, ids: seq<Id>, letters: seq<string>, date: string)
    requires |ids| == |letters| && Distinct(ids)
    requires WebMarkAll(l, ids, letters, date).1
    ensures forall i | 0 <= i < |ids| :: CellAt(WebMarkAll(l, ids, letters, date).0, ids[i], date) == Some(Mark(letters[i]))
  {
    forall i | 0 <= i < |ids|
      ensures CellAt(WebMarkAll(l, ids, letters, date).0, ids[i], date) == Some(Mark(letters[i]))
    {
      WebMarkAllWritesAt(l, ids, letters, date, i);
    }
  }

  /** The loop of "Save Attendance" over the rows, stopping at the first row that raises. */
  method SaveRows(start: Ledger, ids: seq<Id>, letters: seq<string>, today: string) returns (book: Ledger, ok: bool)
    requires |ids| == |letters|
    ensures (book, ok) == WebMarkAll(start, ids, letters, today)
  {
    book, ok := start, true;
    var i := 0;
    while i < |ids| && ok
      invariant 0 <= i <= |ids|
      invariant (book, ok) == WebMarkAll(start, ids[..i], letters[..i], today)
    {
      WebMarkAllPrefix(start, ids, letters, today, i);
      var sid := ids[i];
      if sid in book.vals && book.vals[sid].LegacyMark? {
        ok := false;
      } else {
        var days := if sid in book.vals then book.vals[sid].days else Empty();
        book := Put(book, sid, StudentDays(Put(days, today, Mark(letters[i]))));
      }
      i := i + 1;
    }
    if ok {
      assert ids[..i] == ids && letters[..i] == letters;
    } else {
      WebMarkAllStopped(start, ids, letters, today, i);
    }
  }

  // ---------------------------------------------------------------- what a student sees

  /** A student's figures in one subject. */
  datatype SubjectFigures = SubjectFigures(subject: string, tally: Tally, percent: real)

  /** The page of a student: an exception, no data, or figures per subject. */
  datatype View = Raised | NoData | Figures(rows: seq<SubjectFigures>)

  /**
   * The figures of `sid` in the subjects `ks`, in order, for each subject that
   * has an entry for them; `.values()` on a string entry raises (`None`).
   */
  function ViewRows(ks: seq<string>, m: map<string, Ledger>, sid: Id): Option<seq<SubjectFigures>>
    requires forall k | k in ks :: k in m
  {
    if ks == [] then Some([])
    else
      var k := ks[0];
      var rest := ViewRows(ks[1..], m, sid);
      if sid !in m[k].vals then rest
      else match m[k].vals[sid]
        case LegacyMark(_) => None
        case StudentDays(days) =>
          var t := DaysTally(days);
          match rest
          case None => None
          case Some(rs) => Some([SubjectFigures(k, t, Percent(t.Counted()))] + rs)
  }

  /** `student_interface` */
  function StudentView(r: Registry, sid: Id): View {
    if sid !in r.students.vals then Raised
    else
      var t := r.students.vals[sid].teacherId;
      if t == "" || t !in r.attendance then NoData
      else match ViewRows(r.attendance[t].keys, r.attendance[t].vals, sid)
        case None => Raised
        case Some(rows) => Figures(rows)
  }

  function RowSubjects(rows: seq<SubjectFigures>): (ss: seq<string>)
    ensures |ss| == |rows|
    ensures forall i | 0 <= i < |rows| :: ss[i] == rows[i].subject
  {
    if rows == [] then [] else [rows[0].subject] + RowSubjects(rows[1..])
  }

  /** The view raises exactly when one of the subjects holds a string entry for the student. */
  lemma {:induction false} ViewRowsRaises(ks: seq<string>, m: map<string, Ledger>, sid: Id)
    requires forall k | k in ks :: k in m
    ensures ViewRows(ks, m, sid).None?
      <==> exists i | 0 <= i < |ks| :: sid in m[ks[i]].vals && m[ks[i]].vals[sid].LegacyMark?
  {
    if ks != [] {
      ViewRowsRaises(ks[1..], m, sid);
      if exists i | 0 <= i < |ks[1..]| :: sid in m[ks[1..][i]].vals && m[ks[1..][i]].vals[sid].LegacyMark? {
        var i :| 0 <= i < |ks[1..]| && sid in m[ks[1..][i]].vals && m[ks[1..][i]].vals[sid].LegacyMark?;
        assert ks[i + 1] == ks[1..][i];
      }
      if exists i | 0 <= i < |ks| :: sid in m[ks[i]].vals && m[ks[i]].vals[sid].LegacyMark? {
        var i :| 0 <= i < |ks| && sid in m[ks[i]].vals && m[ks[i]].vals[sid].LegacyMark?;
        if i > 0 {
          assert ks[1..][i - 1] == ks[i];
        }
      }
    }
  }

  /**
   * The rows are the subjects holding an entry for the student, in order, each
   * with the P, A, H and N counts of that entry and the percentage over P and A
   * alone.
   */
  lemma {:induction false} ViewRowsFigures(ks: seq<string>, m: map<string, Ledger>, sid: Id)
    requires forall k | k in ks :: k in m
    requires ViewRows(ks, m, sid).Some?
    ensures var rows := ViewRows(ks, m, sid).value;
      && (forall k :: k in RowSubjects(rows) <==> k in ks && sid in m[k].vals)
      && Sublist(RowSubjects(rows), ks)
      && forall row | row in rows ::
           && row.subject in m && sid in m[row.subject].vals && m[row.subject].vals[sid].StudentDays?
           && row.tally == DaysTally(m[row.subject].vals[sid].days)
           && row.percent == Percent(row.tally.Counted())
           && 0.0 <= row.percent <= 100.0
  {
    if ks != [] {
      ViewRowsFigures(ks[1..], m, sid);
      var k := ks[0];
      var rest := ViewRows(ks[1..], m, sid).value;
      assert ks == [k] + ks[1..];
      if sid in m[k].vals {
        var t := DaysTally(m[k].vals[sid].days);
        var row := SubjectFigures(k, t, Percent(t.Counted()));
        assert ViewRows(ks, m, sid).value == [row] + rest;
        assert RowSubjects([row] + rest) == [k] + RowSubjects(rest);
        SublistBoth(RowSubjects(rest), ks[1..], k);
      } else {
        SublistCons(RowSubjects(rest), ks[1..], k);
      }
    }
  }

  /**
   * A student's page: an exception when the student is not on record or holds
   * a string entry in a subject of their teacher; no data when they have no
   * teacher with a subject map; otherwise one row per subject of that teacher
   * holding an entry for them, in the teacher's subject order.
   */
  lemma StudentViewSpec(r: Registry, sid: Id)
    ensures sid !in r.students.vals ==> StudentView(r, sid) == Raised
    ensures sid in r.students.vals ==>
      var t := r.students.vals[sid].teacherId;
      && (StudentView(r, sid) == NoData <==> t == "" || t !in r.attendance)
      && (t != "" && t in r.attendance ==>
            var book := r.attendance[t];
            && ((StudentView(r, sid) == Raised) <==>
                  exists s | s in book.vals :: sid in book.vals[s].vals && book.vals[s].vals[sid].LegacyMark?)
            && (StudentView(r, sid).Figures? ==>
                  && (forall s :: s in RowSubjects(StudentView(r, sid).rows) <==> s in book.vals && sid in book.vals[s].vals)
                  && Sublist(RowSubjects(StudentView(r, sid).rows), book.keys)
                  && forall row | row in StudentView(r, sid).rows ::
                       && row.subject in book.vals && sid in book.vals[row.subject].vals
                       && row.tally == DaysTally(book.vals[row.subject].vals[sid].days)
                       && 0.0 <= row.percent <= 100.0))
  {
    if sid in r.students.vals {
      var t := r.students.vals[sid].teacherId;
      if t != "" && t in r.attendance {
        var book := r.attendance[t];
        ViewRowsRaises(book.keys, book.vals, sid);
        if exists s | s in book.vals :: sid in book.vals[s].vals && book.vals[s].vals[sid].LegacyMark? {
          var s :| s in book.vals && sid in book.vals[s].vals && book.vals[s].vals[sid].LegacyMark?;
          var i :| 0 <= i < |book.keys| && book.keys[i] == s;
        }
        if ViewRows(book.keys, book.vals, sid).Some? {
          ViewRowsFigures(book.keys, book.vals, sid);
        }
      }
    }
  }

  // ---------------------------------------------------------------- the subject report

  /** One row of the student-wise report. */
  datatype ReportRow = ReportRow(student: string, present: nat, absent: nat, total: nat, percent: real)

  /**
   * The student-wise rows of the subject report, one per entry of the subject,
   * in order.  The overall figures above them already raise on a string entry,
   * so the rows are only ever built over entries that are day maps.
   */
  function ReportRows(r: Registry, ks: seq<Id>, m: map<Id, Entry>): (rows: seq<ReportRow>)
    requires forall k | k in ks :: k in m && m[k].StudentDays?
    ensures |rows| == |ks|
  {
    if ks == [] then []
    else
      var days := m[ks[0]].days;
      var p, a := DayHits(days, "P"), DayHits(days, "A");
      [ReportRow(WebStudentName(r, ks[0]), p, a, p + a, Percent(Counts(p, a)))] + ReportRows(r, ks[1..], m)
  }

  function PresentTotal(rows: seq<ReportRow>): nat {
    if rows == [] then 0 else rows[0].present + PresentTotal(rows[1..])
  }

  function AbsentTotal(rows: seq<ReportRow>): nat {
    if rows == [] then 0 else rows[0].absent + AbsentTotal(rows[1..])
  }

  /** The student-wise rows add up to the subject's overall P and A figures. */
  lemma {:induction false} ReportRowsAddUp(r: Registry, ks: seq<Id>, m: map<Id, Entry>)
    requires forall k | k in ks :: k in m && m[k].StudentDays?
    ensures PresentTotal(ReportRows(r, ks, m)) == SumOf(ks, m, DictHit("P"))
    ensures AbsentTotal(ReportRows(r, ks, m)) == SumOf(ks, m, DictHit("A"))
  {
    if ks != [] {
      ReportRowsAddUp(r, ks[1..], m);
    }
  }

  /** Each row's total is its P plus A, and its percentage lies between 0 and 100. */
  lemma {:induction false} ReportRowsPercent(r: Registry, ks: seq<Id>, m: map<Id, Entry>)
    requires forall k | k in ks :: k in m && m[k].StudentDays?
    ensures forall row | row in ReportRows(r, ks, m) ::
      row.total == row.present + row.absent && row.percent == Percent(Counts(row.present, row.absent))
      && 0.0 <= row.percent <= 100.0
  {
    if ks != [] {
      ReportRowsPercent(r, ks[1..], m);
    }
  }

  // ---------------------------------------------------------------- the session

  /** The stores and the two logins of one browser session. */
  class App {
    var teachers: Dict<Teacher>
    var students: Dict<Student>
    var attendance: map<Id, Subjects>
    var currentTeacher: Option<Id>
    var currentStudent: Option<Id>

    function Reg(): Registry
      reads this
    {
      Registry(teachers, students, attendance)
    }

    /** The teacher pages are shown to a logged-in teacher, whose subject map the login made sure of. */
    predicate LoggedIn()
      reads this
    {
      currentTeacher.Some? && currentTeacher.value in attendance
    }

    /** `load_data()` without a saved file. */
    constructor ()
      ensures Reg() == Registry(Empty(), Empty(), map[])
      ensures currentTeacher == None && currentStudent == None
    {
      teachers, students, attendance := Empty(), Empty(), map[];
      currentTeacher, currentStudent := None, None;
    }

    /**
     * "Login as Teacher" with the id `tid` the page derives from the name: the
     * name is (re)recorded, the subject map is created only when missing, so
     * the teacher's subjects survive a new login.
     */
    method TeacherLogin(name: string, tid: Id) returns (fb: Feedback)
      modifies this
      ensures name == "" ==> fb == EnterName && Reg() == old(Reg()) && currentTeacher == old(currentTeacher)
      ensures name != "" ==>
        && fb == Done && LoggedIn() && currentTeacher == Some(tid)
        && teachers == Put(old(teachers), tid, Teacher(name)) && students == old(students)
        && attendance == WithBook(old(attendance), tid)
        && (tid in old(attendance) ==> attendance == old(attendance))
      ensures currentStudent == old(currentStudent)
    {
      if name == "" {
        return EnterName;
      }
      teachers := Put(teachers, tid, Teacher(name));
      if tid !in attendance {
        attendance := attendance[tid := Empty()];
      }
      currentTeacher := Some(tid);
      fb := Done;
    }

    /**
     * "Login as Student": the student is (re)recorded under the web id with the
     * teacher currently logged in, or with none (`""`, falsy like `None`).
     */
    method StudentLogin(name: string, phone: string) returns (fb: Feedback)
      modifies this
      ensures name == "" || phone == "" ==>
        fb == EnterNameAndPhone && Reg() == old(Reg()) && currentStudent == old(currentStudent)
      ensures name != "" && phone != "" ==>
        var teacher := if old(currentTeacher).Some? then old(currentTeacher).value else "";
        && fb == Done && currentStudent == Some(WebStudentId(phone))
        && students == Put(old(students), WebStudentId(phone), Student(name, phone, teacher))
        && teachers == old(teachers) && attendance == old(attendance)
      ensures currentTeacher == old(currentTeacher)
    {
      if name == "" || phone == "" {
        return EnterNameAndPhone;
      }
      var sid := WebStudentId(phone);
      var teacher := if currentTeacher.Some? then currentTeacher.value else "";
      students := Put(students, sid, Student(name, phone, teacher));
      currentStudent := Some(sid);
      fb := Done;
    }

    method Logout()
      modifies this
      ensures Reg() == old(Reg()) && currentTeacher == None && currentStudent == None
    {
      currentTeacher, currentStudent := None, None;
    }

    /** "Add Subject" */
    method AddSubject(subject: string) returns (fb: Feedback)
      requires LoggedIn()
      modifies this
      ensures (attendance, fb) == AddSubjectTo(old(attendance), old(currentTeacher).value, subject)
      ensures teachers == old(teachers) && students == old(students) && currentTeacher == old(currentTeacher)
      ensures currentStudent == old(currentStudent) && LoggedIn()
    {
      var t := currentTeacher.value;
      if subject == "" {
        fb := EnterName;
      } else if subject in attendance[t].vals {
        fb := SubjectExists;
      } else {
        attendance := attendance[t := Put(attendance[t], subject, Empty())];
        fb := Done;
      }
    }

    /** "Delete" next to a listed subject. */
    method DeleteSubject(subject: string)
      requires LoggedIn() && subject in attendance[currentTeacher.value].vals
      modifies this
      ensures attendance == DropSubject(old(attendance), old(currentTeacher).value, subject).0
      ensures teachers == old(teachers) && students == old(students) && currentTeacher == old(currentTeacher)
      ensures currentStudent == old(currentStudent) && LoggedIn()
    {
      var t := currentTeacher.value;
      attendance := attendance[t := Remove(attendance[t], subject)];
    }

    /** "Add Student": record the student, then seed every subject of the teacher. */
    method AddStudent(name: string, phone: string) returns (fb: Feedback)
      requires LoggedIn()
      modifies this
      ensures (Reg(), fb) == EnrollWeb(old(Reg()), old(currentTeacher).value, name, phone)
      ensures currentTeacher == old(currentTeacher) && currentStudent == old(currentStudent) && LoggedIn()
    {
      var t := currentTeacher.value;
      if name == "" || phone == "" {
        return EnterNameAndPhone;
      }
      var sid := WebStudentId(phone);
      if sid in students.vals {
        return StudentExists;
      }
      var ss := Put(students, sid, Student(name, phone, t));
      var book := UpdateEach(attendance[t], WebSeedEntry(sid));
      students, attendance := ss, attendance[t := book];
      fb := Done;
    }

    /** "Remove" next to a listed student: out of every subject of the teacher, then out of the records. */
    method RemoveStudent(sid: Id)
      requires LoggedIn() && sid in students.vals && students.vals[sid].teacherId == currentTeacher.value
      modifies this
      ensures Reg() == DropWebStudent(old(Reg()), old(currentTeacher).value, sid)
      ensures currentTeacher == old(currentTeacher) && currentStudent == old(currentStudent) && LoggedIn()
    {
      var t := currentTeacher.value;
      var book := UpdateEach(attendance[t], WebDropEntry(sid));
      var ss := Remove(students, sid);
      attendance, students := attendance[t := book], ss;
    }

    /**
     * "Save Attendance": one row per listed student of the teacher, in
     * listing order, each with the letter of its choice, written under today's
     * date in the selected subject.  The rows written before a row that raises
     * stay in the stores.
     */
    method SaveAttendance(subject: string, choices: seq<Choice>, today: string) returns (ok: bool)
      requires LoggedIn() && subject in attendance[currentTeacher.value].vals
      requires |choices| == |StudentsOf(Reg(), currentTeacher.value)|
      modifies this
      ensures var t := old(currentTeacher).value;
              var res := WebMarkAll(old(attendance)[t].vals[subject], StudentsOf(old(Reg()), t), Letters(choices), today);
        && ok == res.1
        && attendance == old(attendance)[t := Put(old(attendance)[t], subject, res.0)]
      ensures teachers == old(teachers) && students == old(students) && currentTeacher == old(currentTeacher)
      ensures currentStudent == old(currentStudent) && LoggedIn()
    {
      var t := currentTeacher.value;
      var book;
      book, ok := SaveRows(attendance[t].vals[subject], StudentsOf(Reg(), t), Letters(choices), today);
      attendance := attendance[t := Put(attendance[t], subject, book)];
    }
  }
}
