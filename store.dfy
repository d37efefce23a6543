/**
 * The attendance store's mutations as functions of the old registry: adding
 * subjects and students, writing a status for a date, and the three cascading
 * removals.  The bots' and the web page's handlers perform these step by step
 * and are proved to produce exactly these values.
 */
module Store {
  import opened Options
  import opened Dicts
  import opened JsText
  import opened Records
  import opened Reports

  /** `attendance[t] = attendance[t] || {}` */
  function WithBook(att: map<Id, Subjects>, t: Id): map<Id, Subjects> {
    if t in att then att else att[t := Empty()]
  }

  /** `attendance[t][subject] || {}` once `attendance[t]` exists. */
  function LedgerOf(subs: Subjects, subject: string): Ledger {
    if subject in subs.vals then subs.vals[subject] else Empty()
  }

  // ---------------------------------------------------------------- students

  /** The id the bots give a student: the digits of the phone followed by `@c.us`. */
  function StudentIdOf(phone: string): (id: Id)
    ensures |id| >= 5 && id[|id| - 5..] == "@c.us"
    ensures AllDigits(id[..|id| - 5])
    ensures id[..|id| - 5] == DigitsOnly(phone)
  {
    DigitsOnly(phone) + "@c.us"
  }

  /** `ledger[sid] = ledger[sid] || {}` */
  function SeedEntry(sid: Id): Ledger -> Ledger {
    (l: Ledger) => if sid in l.vals && Truthy(l.vals[sid]) then l else Put(l, sid, StudentDays(Empty()))
  }

  /** The web variant's `if sid not in ledger: ledger[sid] = {}` */
  function WebSeedEntry(sid: Id): Ledger -> Ledger {
    (l: Ledger) => if sid in l.vals then l else Put(l, sid, StudentDays(Empty()))
  }

  /**
   * The bots' phone step for teacher `t`: record the student under the id built
   * from the phone (replacing any student with that id) and give them an entry
   * in every subject of `t`.
   */
  function Enroll(r: Registry, t: Id, name: string, phoneText: string): Registry {
    var phone := DigitsOnly(phoneText);
    var sid := StudentIdOf(phoneText);
    var att := WithBook(r.attendance, t);
    Registry(r.teachers, Put(r.students, sid, Student(name, phone, t)), att[t := MapValues(att[t], SeedEntry(sid))])
  }

  /** Seeding gives the student a truthy entry in every subject and touches nothing else. */
  lemma SeedEntrySpec(l: Ledger, sid: Id)
    ensures var l' := SeedEntry(sid)(l);
      && sid in l'.vals && Truthy(l'.vals[sid])
      && (sid in l.vals && Truthy(l.vals[sid]) ==> l' == l)
      && (forall k | k != sid :: (k in l'.vals <==> k in l.vals) && (k in l.vals ==> l'.vals[k] == l.vals[k]))
  {
  }

  /**
   * The phone step stores the student under digits + `@c.us` with teacher `t`,
   * overwriting any record with that id; every subject of `t` then has a truthy
   * entry for the student, entries already truthy are kept, no other entry and
   * no other teacher's data changes.
   */
  lemma EnrollSpec(r: Registry, t: Id, name: string, phoneText: string)
    ensures var r' := Enroll(r, t, name, phoneText);
            var sid := StudentIdOf(phoneText);
      && r'.teachers == r.teachers
      && r'.students.vals == r.students.vals[sid := Student(name, DigitsOnly(phoneText), t)]
      && t in r'.attendance
      && r'.attendance[t].keys == SubjectsOf(r, t).keys
      && (forall s | s in SubjectsOf(r, t).vals ::
            var old_ := SubjectsOf(r, t).vals[s];
            var new_ := r'.attendance[t].vals[s];
            && sid in new_.vals && Truthy(new_.vals[sid])
            && (sid in old_.vals && Truthy(old_.vals[sid]) ==> new_ == old_)
            && (forall k | k != sid && k in old_.vals :: k in new_.vals && new_.vals[k] == old_.vals[k]))
      && (forall u | u != t :: u in r'.attendance <==> u in r.attendance)
      && (forall u | u != t && u in r.attendance :: r'.attendance[u] == r.attendance[u])
  {
    EnrollPeople(r, t, name, phoneText);
    EnrollSeeds(r, t, name, phoneText);
    EnrollOthers(r, t, name, phoneText);
  }

  /** The records and the subject list of `t` after the phone step. */
  lemma EnrollPeople(r: Registry, t: Id, name: string, phoneText: string)
    ensures var r' := Enroll(r, t, name, phoneText);
      && r'.teachers == r.teachers
      && r'.students.vals == r.students.vals[StudentIdOf(phoneText) := Student(name, DigitsOnly(phoneText), t)]
      && t in r'.attendance
      && r'.attendance[t] == MapValues(SubjectsOf(r, t), SeedEntry(StudentIdOf(phoneText)))
  {
  }

  /** Every subject of `t` seeds the student and keeps the other entries. */
  lemma EnrollSeeds(r: Registry, t: Id, name: string, phoneText: string)
    ensures var r' := Enroll(r, t, name, phoneText);
            var sid := StudentIdOf(phoneText);
      && t in r'.attendance
      && r'.attendance[t].keys == SubjectsOf(r, t).keys
      && (forall s | s in SubjectsOf(r, t).vals ::
            var old_ := SubjectsOf(r, t).vals[s];
            var new_ := r'.attendance[t].vals[s];
            && sid in new_.vals && Truthy(new_.vals[sid])
            && (sid in old_.vals && Truthy(old_.vals[sid]) ==> new_ == old_)
            && (forall k | k != sid && k in old_.vals :: k in new_.vals && new_.vals[k] == old_.vals[k]))
  {
    var sid := StudentIdOf(phoneText);
    var book := SubjectsOf(r, t);
    EnrollPeople(r, t, name, phoneText);
    var seeded := Enroll(r, t, name, phoneText).attendance[t];
    forall s | s in book.vals
      ensures var new_ := seeded.vals[s];
        && sid in new_.vals && Truthy(new_.vals[sid])
        && (sid in book.vals[s].vals && Truthy(book.vals[s].vals[sid]) ==> new_ == book.vals[s])
        && (forall k | k != sid && k in book.vals[s].vals :: k in new_.vals && new_.vals[k] == book.vals[s].vals[k])
    {
      SeedEntrySpec(book.vals[s], sid);
    }
  }

  /** No other teacher's subject map changes. */
  lemma EnrollOthers(r: Registry, t: Id, name: string, phoneText: string)
    ensures var r' := Enroll(r, t, name, phoneText);
      && (forall u | u != t :: u in r'.attendance <==> u in r.attendance)
      && (forall u | u != t && u in r.attendance :: r'.attendance[u] == r.attendance[u])
  {
  }

  /** Enrolling under `t` adds at most the key `t` to the attendance store. */
  lemma EnrollKeys(r: Registry, t: Id, name: string, phoneText: string)
    ensures Enroll(r, t, name, phoneText).attendance.Keys == r.attendance.Keys + {t}
  {
  }

  /** A phone without a single digit gives the id `@c.us`, shared by all such students. */
  lemma DigitlessPhone(phoneText: string)
    requires forall i | 0 <= i < |phoneText| :: !IsDigit(phoneText[i])
    ensures StudentIdOf(phoneText) == "@c.us"
  {
  }

  /** Seeding adds no P or A mark to a subject. */
  lemma SeedKeepsCounts(l: Ledger, sid: Id)
    ensures LedgerCounts(SeedEntry(sid)(l)) == LedgerCounts(l)
    ensures WebCounts(WebSeedEntry(sid)(l)) == WebCounts(l)
  {
    SeedKeepsBotCounts(l, sid);
    SeedKeepsWebCounts(l, sid);
  }

  lemma SeedKeepsBotCounts(l: Ledger, sid: Id)
    ensures LedgerCounts(SeedEntry(sid)(l)) == LedgerCounts(l)
  {
    if !(sid in l.vals && Truthy(l.vals[sid])) {
      var e := StudentDays(Empty());
      assert SeedEntry(sid)(l) == Put(l, sid, e);
      assert EntryHits('P')(e) == 0 && EntryHits('A')(e) == 0 by {
        assert DayHits(Empty(), "P") == 0 && DayHits(Empty(), "A") == 0;
      }
      SumPut(l, sid, e, EntryHits('P'));
      SumPut(l, sid, e, EntryHits('A'));
    }
  }

  lemma SeedKeepsWebCounts(l: Ledger, sid: Id)
    ensures WebCounts(WebSeedEntry(sid)(l)) == WebCounts(l)
  {
    if sid !in l.vals {
      var e := StudentDays(Empty());
      assert WebSeedEntry(sid)(l) == Put(l, sid, e);
      assert DictHit("P")(e) == 0 && DictHit("A")(e) == 0 by {
        assert DayHits(Empty(), "P") == 0 && DayHits(Empty(), "A") == 0;
      }
      SumPut(l, sid, e, DictHit("P"));
      SumPut(l, sid, e, DictHit("A"));
    }
  }

  // ---------------------------------------------------------------- marking

  /** `ledger[sid] = ledger[sid] || {}; ledger[sid][date] = cell` (a write into a legacy string is ignored). */
  function MarkEntry(book: Ledger, sid: Id, date: string, cell: Cell): Ledger {
    var e := if sid in book.vals && Truthy(book.vals[sid]) then book.vals[sid] else StudentDays(Empty());
    Put(book, sid, match e case StudentDays(d) => StudentDays(Put(d, date, cell)) case LegacyMark(_) => e)
  }

  /** The full creation chain `attendance[t] ||= {}`, `[subject] ||= {}`, then `MarkEntry`. */
  function MarkIn(att: map<Id, Subjects>, t: Id, subject: string, sid: Id, date: string, cell: Cell): map<Id, Subjects> {
    var att1 := WithBook(att, t);
    att1[t := Put(att1[t], subject, MarkEntry(LedgerOf(att1[t], subject), sid, date, cell))]
  }

  /** The date the entry of `sid` has for `date`, if any. */
  function CellAt(book: Ledger, sid: Id, date: string): Option<Cell> {
    if sid in book.vals && book.vals[sid].StudentDays? && date in book.vals[sid].days.vals
    then Some(book.vals[sid].days.vals[date])
    else None
  }

  /** A non-empty legacy string under `sid`: the one entry a write cannot change. */
  predicate Stuck(book: Ledger, sid: Id) {
    sid in book.vals && book.vals[sid].LegacyMark? && book.vals[sid].mark != ""
  }

  /**
   * Writing a status stores it for that student and date, replacing any earlier
   * value, unless the student's entry is a non-empty legacy string, which is
   * left as it is; every other entry and every other date is unchanged.
   */
  lemma MarkEntrySpec(book: Ledger, sid: Id, date: string, cell: Cell)
    ensures var b := MarkEntry(book, sid, date, cell);
      && (forall k | k != sid :: (k in b.vals <==> k in book.vals) && (k in book.vals ==> b.vals[k] == book.vals[k]))
      && (Stuck(book, sid) ==> b == book)
      && (!Stuck(book, sid) ==> CellAt(b, sid, date) == Some(cell))
      && (!Stuck(book, sid) ==> forall d | d != date :: CellAt(b, sid, d) == CellAt(book, sid, d))
  {
    var b := MarkEntry(book, sid, date, cell);
    if Stuck(book, sid) {
      PutSame(book, sid);
    } else {
      var d := if sid in book.vals && Truthy(book.vals[sid]) then book.vals[sid].days else Empty();
      assert d == DaysOf(book, sid);
      var d2 := Put(d, date, cell);
      assert b == Put(book, sid, StudentDays(d2));
      CellAtPut(book, sid, d2, date);
      forall d' | d' != date
        ensures CellAt(b, sid, d') == CellAt(book, sid, d')
      {
        CellAtPut(book, sid, d2, d');
        CellAtDaysOf(book, sid, d');
      }
    }
  }

  /** The date map of `sid`, read as `{}` when its entry is missing or a legacy string. */
  function DaysOf(book: Ledger, sid: Id): Days {
    if sid in book.vals && book.vals[sid].StudentDays? then book.vals[sid].days else Empty()
  }

  /** The cells of `sid` are the ones in its date map. */
  lemma CellAtDaysOf(book: Ledger, sid: Id, d: string)
    ensures CellAt(book, sid, d) == if d in DaysOf(book, sid).vals then Some(DaysOf(book, sid).vals[d]) else None
  {
  }

  /** The cells of `sid` once its entry is the date map `days`. */
  lemma CellAtPut(book: Ledger, sid: Id, days: Days, d: string)
    ensures CellAt(Put(book, sid, StudentDays(days)), sid, d) == if d in days.vals then Some(days.vals[d]) else None
  {
  }

  /** Last write wins: a second status for the same date replaces the first. */
  lemma LastWriteWins(book: Ledger, sid: Id, date: string, c1: Cell, c2: Cell)
    ensures MarkEntry(MarkEntry(book, sid, date, c1), sid, date, c2) == MarkEntry(book, sid, date, c2)
  {
    var e := if sid in book.vals && Truthy(book.vals[sid]) then book.vals[sid] else StudentDays(Empty());
    match e
    case StudentDays(d) =>
      PutPut(d, date, c1, c2);
      PutPut(book, sid, StudentDays(Put(d, date, c1)), StudentDays(Put(d, date, c2)));
    case LegacyMark(_) =>
      PutSame(book, sid);
  }

  /** The P (or A) count of a subject after a write: the old cell's mark leaves, the new one enters. */
  lemma MarkCounts(book: Ledger, sid: Id, date: string, cell: Cell, c: char)
    requires !Stuck(book, sid)
    ensures var before := if CellAt(book, sid, date) == Some(Mark([c])) then 1 else 0;
            var after := if cell == Mark([c]) then 1 else 0;
            Sum(MarkEntry(book, sid, date, cell), EntryHits(c)) + before == Sum(book, EntryHits(c)) + after
  {
    var e := if sid in book.vals && Truthy(book.vals[sid]) then book.vals[sid] else StudentDays(Empty());
    var d := e.days;
    assert DayHits(Empty(), [c]) == 0;
    SumPut(d, date, cell, CellHit([c]));
    SumPut(book, sid, StudentDays(Put(d, date, cell)), EntryHits(c));
    if sid in book.vals && !Truthy(book.vals[sid]) {
      assert EntryHits(c)(book.vals[sid]) == 0;
    }
  }

  /** `H` and `N` never change a subject's figures: writing one over a date that was neither P nor A. */
  lemma NeutralMarkKeepsCounts(book: Ledger, sid: Id, date: string, status: string)
    requires status != "P" && status != "A"
    requires CellAt(book, sid, date) != Some(Mark("P")) && CellAt(book, sid, date) != Some(Mark("A"))
    ensures LedgerCounts(MarkEntry(book, sid, date, Mark(status))) == LedgerCounts(book)
  {
    if Stuck(book, sid) {
      MarkEntrySpec(book, sid, date, Mark(status));
    } else {
      MarkCounts(book, sid, date, Mark(status), 'P');
      MarkCounts(book, sid, date, Mark(status), 'A');
    }
  }

  /** `attendance[t] || {}` on the attendance map alone. */
  function BookOf(att: map<Id, Subjects>, t: Id): Subjects {
    if t in att then att[t] else Empty()
  }

  /** `(attendance[t] || {})[subject] || {}` */
  function LedgerAt(att: map<Id, Subjects>, t: Id, subject: string): Ledger {
    LedgerOf(BookOf(att, t), subject)
  }

  /**
   * A write through the creation chain leaves `t` with the subject, whose
   * ledger is the old one (or `{}`) with the write applied; no other subject
   * and no other teacher changes.
   */
  lemma MarkInSpec(att: map<Id, Subjects>, t: Id, subject: string, sid: Id, date: string, cell: Cell)
    ensures var a := MarkIn(att, t, subject, sid, date, cell);
      && t in a && subject in a[t].vals
      && a[t].vals[subject] == MarkEntry(LedgerAt(att, t, subject), sid, date, cell)
      && (forall s | s != subject :: (s in a[t].vals <==> s in BookOf(att, t).vals)
            && (s in a[t].vals ==> a[t].vals[s] == BookOf(att, t).vals[s]))
      && (forall u | u != t :: (u in a <==> u in att) && (u in att ==> a[u] == att[u]))
  {
    MarkInBook(att, t, subject, sid, date, cell);
    MarkInOthers(att, t, subject, sid, date, cell);
  }

  /** A write under `t` leaves every other teacher as it was. */
  lemma MarkInOthers(att: map<Id, Subjects>, t: Id, subject: string, sid: Id, date: string, cell: Cell)
    ensures var a := MarkIn(att, t, subject, sid, date, cell);
      forall u | u != t :: (u in a <==> u in att) && (u in att ==> a[u] == att[u])
  {
  }

  /** The subjects of `t` after a write: the old ones with the written subject's ledger replaced. */
  lemma MarkInBook(att: map<Id, Subjects>, t: Id, subject: string, sid: Id, date: string, cell: Cell)
    ensures var a := MarkIn(att, t, subject, sid, date, cell);
      t in a && a[t].vals == BookOf(att, t).vals[subject := MarkEntry(LedgerAt(att, t, subject), sid, date, cell)]
  {
    var att1 := WithBook(att, t);
    assert att1[t] == BookOf(att, t);
  }

  /** The bulk write: `MarkIn` for every student of the roster, in order. */
  function MarkAll(att: map<Id, Subjects>, t: Id, subject: string, roster: seq<Id>, date: string, cell: Cell): map<Id, Subjects>
    decreases |roster|
  {
    if roster == [] then att
    else MarkIn(MarkAll(att, t, subject, roster[..|roster| - 1], date, cell), t, subject, roster[|roster| - 1], date, cell)
  }

  /** One more student of the roster: the bulk write takes one more `MarkIn`. */
  lemma MarkAllStep(att: map<Id, Subjects>, t: Id, subject: string, roster: seq<Id>, i: nat, date: string, cell: Cell)
    requires i < |roster|
    ensures MarkAll(att, t, subject, roster[..i + 1], date, cell)
      == MarkIn(MarkAll(att, t, subject, roster[..i], date, cell), t, subject, roster[i], date, cell)
  {
    var done := roster[..i + 1];
    assert done[..|done| - 1] == roster[..i];
  }

  /** A bulk write touches only the subject's ledger of teacher `t`, and creates it when the roster is not empty. */
  lemma {:induction false} MarkAllFrame(att: map<Id, Subjects>, t: Id, subject: string, roster: seq<Id>, date: string, cell: Cell)
    ensures var a := MarkAll(att, t, subject, roster, date, cell);
      && (roster != [] ==> t in a && subject in a[t].vals)
      && (forall s | s != subject :: (s in BookOf(a, t).vals <==> s in BookOf(att, t).vals)
            && (s in BookOf(a, t).vals ==> BookOf(a, t).vals[s] == BookOf(att, t).vals[s]))
      && (forall u | u != t :: (u in a <==> u in att) && (u in att ==> a[u] == att[u]))
    decreases |roster|
  {
    if roster != [] {
      MarkAllFrame(att, t, subject, roster[..|roster| - 1], date, cell);
      MarkInSpec(MarkAll(att, t, subject, roster[..|roster| - 1], date, cell), t, subject, roster[|roster| - 1], date, cell);
    }
  }

  /** A bulk write leaves every entry of a student outside the roster as it was. */
  lemma {:induction false} MarkAllOutside(att: map<Id, Subjects>, t: Id, subject: string, roster: seq<Id>, date: string, cell: Cell, k: Id)
    requires k !in roster
    ensures var book := LedgerAt(att, t, subject);
            var book' := LedgerAt(MarkAll(att, t, subject, roster, date, cell), t, subject);
      (k in book'.vals <==> k in book.vals) && (k in book.vals ==> book'.vals[k] == book.vals[k])
    decreases |roster|
  {
    if roster != [] {
      var init, last := roster[..|roster| - 1], roster[|roster| - 1];
      MarkAllOutside(att, t, subject, init, date, cell, k);
      var a0 := MarkAll(att, t, subject, init, date, cell);
      MarkInSpec(a0, t, subject, last, date, cell);
      MarkEntrySpec(LedgerAt(a0, t, subject), last, date, cell);
    }
  }

  /**
   * After a bulk write every roster student whose entry was not a non-empty
   * legacy string has `cell` for `date`.
   */
  lemma {:induction false} MarkAllCovers(att: map<Id, Subjects>, t: Id, subject: string, roster: seq<Id>, date: string, cell: Cell, sid: Id)
    requires sid in roster && !Stuck(LedgerAt(att, t, subject), sid)
    ensures CellAt(LedgerAt(MarkAll(att, t, subject, roster, date, cell), t, subject), sid, date) == Some(cell)
    decreases |roster|
  {
    var init, last := roster[..|roster| - 1], roster[|roster| - 1];
    assert roster == init + [last];
    var book0 := LedgerAt(MarkAll(att, t, subject, init, date, cell), t, subject);
    MarkAllLast(att, t, subject, roster, date, cell);
    if sid in init {
      MarkAllCovers(att, t, subject, init, date, cell, sid);
      MarkEntryKeeps(book0, last, date, cell, sid);
    } else {
      MarkAllOutside(att, t, subject, init, date, cell, sid);
      assert sid == last && !Stuck(book0, sid);
      MarkEntrySpec(book0, last, date, cell);
    }
  }

  /** The ledger after a bulk write is the ledger after all but the last student, with the last one written. */
  lemma MarkAllLast(att: map<Id, Subjects>, t: Id, subject: string, roster: seq<Id>, date: string, cell: Cell)
    requires roster != []
    ensures var init, last := roster[..|roster| - 1], roster[|roster| - 1];
      LedgerAt(MarkAll(att, t, subject, roster, date, cell), t, subject)
        == MarkEntry(LedgerAt(MarkAll(att, t, subject, init, date, cell), t, subject), last, date, cell)
  {
    var init, last := roster[..|roster| - 1], roster[|roster| - 1];
    MarkInBook(MarkAll(att, t, subject, init, date, cell), t, subject, last, date, cell);
  }

  /** A date that already has `cell` keeps it when `cell` is written for the same date of any student. */
  lemma MarkEntryKeeps(book: Ledger, k: Id, date: string, cell: Cell, sid: Id)
    requires CellAt(book, sid, date) == Some(cell)
    ensures CellAt(MarkEntry(book, k, date, cell), sid, date) == Some(cell)
  {
    MarkEntrySpec(book, k, date, cell);
  }

  // ---------------------------------------------------------------- legacy format

  /** `/present-<s>` and friends: `attendance[t][s][date] = letter` directly under the subject. */
  function WriteLegacy(att: map<Id, Subjects>, t: Id, subject: string, date: string, letter: string): map<Id, Subjects> {
    var att1 := WithBook(att, t);
    att1[t := Put(att1[t], subject, Put(LedgerOf(att1[t], subject), date, LegacyMark(letter)))]
  }

  /** A legacy write replaces one subject of `t`, the old ledger (or `{}`) with the date set. */
  lemma WriteLegacyBook(att: map<Id, Subjects>, t: Id, subject: string, date: string, letter: string)
    ensures var a := WriteLegacy(att, t, subject, date, letter);
      t in a && a[t].vals == BookOf(att, t).vals[subject := Put(LedgerAt(att, t, subject), date, LegacyMark(letter))]
  {
    assert WithBook(att, t)[t] == BookOf(att, t);
  }

  /** A legacy write leaves every other teacher as it was. */
  lemma WriteLegacyOthers(att: map<Id, Subjects>, t: Id, subject: string, date: string, letter: string)
    ensures var a := WriteLegacy(att, t, subject, date, letter);
      forall u | u != t :: (u in a <==> u in att) && (u in a ==> a[u] == att[u])
  {
  }

  // ---------------------------------------------------------------- removals

  /** `removeSubject`: deletes the subject if the teacher has it, and says whether it did. */
  function DropSubject(att: map<Id, Subjects>, t: Id, subject: string): (res: (map<Id, Subjects>, bool))
    ensures res.1 <==> t in att && subject in att[t].vals
    ensures res.1 ==> res.0 == att[t := Remove(att[t], subject)]
    ensures !res.1 ==> res.0 == att
  {
    if t in att && subject in att[t].vals then (att[t := Remove(att[t], subject)], true) else (att, false)
  }

  /** Deleting the subject removes exactly that subject of that teacher. */
  lemma DropSubjectSpec(att: map<Id, Subjects>, t: Id, subject: string)
    requires t in att && subject in att[t].vals
    ensures var a := DropSubject(att, t, subject).0;
      && a.Keys == att.Keys
      && subject !in a[t].vals
      && (forall s | s != subject :: (s in a[t].vals <==> s in att[t].vals) && (s in a[t].vals ==> a[t].vals[s] == att[t].vals[s]))
      && (forall u | u in att && u != t :: a[u] == att[u])
  {
  }

  /** `delete ledger[sid]` when the entry is truthy. */
  function DropEntry(sid: Id): Ledger -> Ledger {
    (l: Ledger) => if sid in l.vals && Truthy(l.vals[sid]) then Remove(l, sid) else l
  }

  /** `removeStudent` */
  function DropStudent(r: Registry, sid: Id): (Registry, bool) {
    if sid !in r.students.vals then (r, false)
    else
      var t := r.students.vals[sid].teacherId;
      var att := if t in r.attendance then r.attendance[t := MapValues(r.attendance[t], DropEntry(sid))] else r.attendance;
      (Registry(r.teachers, Remove(r.students, sid), att), true)
  }

  /**
   * `removeStudent` answers false and changes nothing for an unknown id;
   * otherwise the record is gone, no subject of the student's teacher keeps a
   * truthy entry for them, and every other entry, subject, teacher and student
   * is unchanged.
   */
  lemma DropStudentSpec(r: Registry, sid: Id)
    ensures var (r', ok) := DropStudent(r, sid);
      && (ok <==> sid in r.students.vals)
      && (!ok ==> r' == r)
      && (ok ==>
            var t := r.students.vals[sid].teacherId;
            && r'.teachers == r.teachers
            && r'.students.vals == r.students.vals - {sid}
            && r'.attendance.Keys == r.attendance.Keys
            && (forall u | u in r.attendance && u != t :: r'.attendance[u] == r.attendance[u])
            && (t in r.attendance ==>
                  && r'.attendance[t].keys == r.attendance[t].keys
                  && forall s | s in r.attendance[t].vals ::
                       var old_ := r.attendance[t].vals[s];
                       var new_ := r'.attendance[t].vals[s];
                       && !(sid in new_.vals && Truthy(new_.vals[sid]))
                       && forall k | k != sid :: (k in new_.vals <==> k in old_.vals) && (k in old_.vals ==> new_.vals[k] == old_.vals[k])))
  {
  }

  function OwnedBy(t: Id): Student -> bool {
    (s: Student) => s.teacherId == t
  }

  /** `removeTeacher` */
  function DropTeacher(r: Registry, t: Id): (Registry, bool) {
    if t !in r.teachers.vals then (r, false)
    else (Registry(Remove(r.teachers, t), RemoveWhere(r.students, OwnedBy(t)), r.attendance - {t}), true)
  }

  /**
   * `removeTeacher` answers false and changes nothing for a non-teacher;
   * otherwise the id is no teacher, has no attendance, no remaining student has
   * it as teacher, and every other teacher, student and subtree is unchanged.
   */
  lemma DropTeacherSpec(r: Registry, t: Id)
    ensures var (r', ok) := DropTeacher(r, t);
      && (ok <==> IsTeacher(r, t))
      && (!ok ==> r' == r)
      && (ok ==>
            && !IsTeacher(r', t) && t !in r'.attendance
            && (forall sid | sid in r'.students.vals :: r'.students.vals[sid].teacherId != t)
            && (forall u | u != t :: (u in r'.teachers.vals <==> u in r.teachers.vals) && (u in r'.attendance <==> u in r.attendance))
            && (forall u | u != t && u in r.attendance :: r'.attendance[u] == r.attendance[u])
            && (forall sid | sid in r.students.vals && r.students.vals[sid].teacherId != t ::
                  sid in r'.students.vals && r'.students.vals[sid] == r.students.vals[sid]))
  {
  }

  // ---------------------------------------------------------------- the per-subject loop

  /**
   * `for (const subj of Object.keys(book)) book[subj] = f(book[subj])`: the
   * loop both bots run over a teacher's subjects when a student is added or
   * removed.
   */
  method UpdateEach(book: Subjects, f: Ledger -> Ledger) returns (r: Subjects)
    ensures r == MapValues(book, f)
  {
    r := book;
    var subs := book.keys;
    var i := 0;
    while i < |subs|
      invariant 0 <= i <= |subs|
      invariant r.keys == subs
      invariant forall k :: k in r.vals <==> k in book.vals
      invariant forall k | k in book.vals :: r.vals[k] == if k in subs[..i] then f(book.vals[k]) else book.vals[k]
    {
      var subj := subs[i];
      DistinctAt(subs, i);
      r := Put(r, subj, f(r.vals[subj]));
      assert subs[..i + 1] == subs[..i] + [subj];
      i := i + 1;
    }
    assert subs[..i] == subs;
    assert r.vals == MapValues(book, f).vals;
  }

  /**
   * The phone step done as the bots do it: store the student, then seed an
   * entry in each subject of the teacher, one subject at a time.
   */
  method EnrollIn(r: Registry, t: Id, name: string, phoneText: string) returns (r': Registry)
    ensures r' == Enroll(r, t, name, phoneText)
  {
    var phone := DigitsOnly(phoneText);
    var sid := StudentIdOf(phoneText);
    var ss := Put(r.students, sid, Student(name, phone, t));
    var att := WithBook(r.attendance, t);
    var book := UpdateEach(att[t], SeedEntry(sid));
    r' := Registry(r.teachers, ss, att[t := book]);
  }
}
