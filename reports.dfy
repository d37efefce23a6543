/**
 * Report arithmetic: how many `P` and `A` marks a subject or a student has,
 * the attendance percentage `present / (present + absent) * 100` (0 when
 * there is neither), and the "below 75%" test of the group bot.
 * `H` (holiday) and `N` (no class) are counted for display only.
 */
module Reports {
  import opened Options
  import opened Dicts
  import opened JsText
  import opened Records

  datatype Counts = Counts(present: nat, absent: nat) {
    function Total(): nat {
      present + absent
    }
  }

  datatype Tally = Tally(present: nat, absent: nat, holiday: nat, noClass: nat) {
    function Counted(): Counts {
      Counts(present, absent)
    }
  }

  /** 1 for a date whose value is exactly `status`. */
  function CellHit(status: string): Cell -> nat {
    (c: Cell) => if c == Mark(status) then 1 else 0
  }

  /** The number of dates of a student whose status is exactly `status`. */
  function DayHits(days: Days, status: string): nat {
    Sum(days, CellHit(status))
  }

  /** Occurrences of `c` in a string: `Object.values` of a string are its characters. */
  function CharHits(m: string, c: char): (n: nat)
    ensures n == multiset(m)[c]
    ensures n <= |m|
    ensures c !in m ==> n == 0
  {
    if m == [] then 0
    else
      assert m == [m[0]] + m[1..];
      (if m[0] == c then 1 else 0) + CharHits(m[1..], c)
  }

  /** One character counts once exactly when it is the one looked for. */
  lemma CharHitsChar(x: char, c: char)
    ensures CharHits([x], c) == if x == c then 1 else 0
  {
    assert [x][1..] == [];
  }

  /** Counting works piecewise over a concatenation of strings. */
  lemma {:induction false} CharHitsAppend(a: string, b: string, c: char)
    ensures CharHits(a + b, c) == CharHits(a, c) + CharHits(b, c)
  {
    if a == [] {
      assert a + b == b;
    } else {
      assert (a + b)[0] == a[0] && (a + b)[1..] == a[1..] + b;
      CharHitsAppend(a[1..], b, c);
    }
  }

  /** `Object.values(entry).filter(v => v === c).length`, for either kind of entry. */
  function EntryHits(c: char): Entry -> nat {
    (e: Entry) =>
      match e
      case StudentDays(days) => DayHits(days, [c])
      case LegacyMark(m) => CharHits(m, c)
  }

  /** `calcPercent` of the demo bot: the P and A marks of every entry of the subject. */
  function LedgerCounts(book: Ledger): Counts {
    Counts(Sum(book, EntryHits('P')), Sum(book, EntryHits('A')))
  }

  /** 1 for a legacy entry that is exactly `status`. */
  function LegacyHit(status: string): Entry -> nat {
    (e: Entry) => if e == LegacyMark(status) then 1 else 0
  }

  /** The group bot's format test: the subject's first key contains `@c.us`. */
  predicate PerStudentFormat(book: Ledger) {
    book.keys != [] && Contains(book.keys[0], "@c.us")
  }

  /**
   * `calcPercent` of the group bot: per-student counting when the first key is a
   * student id, otherwise the P and A values stored directly under the subject.
   */
  function GroupCounts(book: Ledger): Counts {
    if PerStudentFormat(book) then LedgerCounts(book)
    else Counts(Sum(book, LegacyHit("P")), Sum(book, LegacyHit("A")))
  }

  /** The web variant counts only dictionary-valued entries. */
  function DictHit(status: string): Entry -> nat {
    (e: Entry) =>
      match e
      case StudentDays(days) => DayHits(days, status)
      case LegacyMark(_) => 0
  }

  /** `calculate_percentage`'s two counters. */
  function WebCounts(book: Ledger): Counts {
    Counts(Sum(book, DictHit("P")), Sum(book, DictHit("A")))
  }

  /** The four per-student figures of a bot report (`rec = ledger[sid] || {}`). */
  function EntryTally(e: Entry): Tally {
    Tally(EntryHits('P')(e), EntryHits('A')(e), EntryHits('H')(e), EntryHits('N')(e))
  }

  /** The bot report figures of a student with no entry in the subject. */
  function NoTally(): Tally {
    Tally(0, 0, 0, 0)
  }

  /** The four per-student figures of the web variant. */
  function DaysTally(days: Days): Tally {
    Tally(DayHits(days, "P"), DayHits(days, "A"), DayHits(days, "H"), DayHits(days, "N"))
  }

  /** `present / (present + absent) * 100`, or 0 when there is no P or A. */
  function Percent(c: Counts): (p: real)
    ensures 0.0 <= p <= 100.0
    ensures p == 0.0 <==> c.present == 0
    ensures p == 100.0 <==> c.present > 0 && c.absent == 0
  {
    if c.Total() == 0 then 0.0
    else
      var t := c.Total() as real;
      var q := c.present as real * 100.0 / t;
      DivTimes(c.present as real * 100.0, t);
      MulCancel(q, 100.0, t);
      q
  }

  /** Division by a positive real undoes multiplication. */
  lemma DivTimes(x: real, t: real)
    requires t > 0.0
    ensures x / t * t == x
  {
  }

  /** Dividing both sides of an inequality by a positive factor. */
  lemma MulCancel(x: real, y: real, t: real)
    requires t > 0.0
    ensures x * t <= y * t ==> x <= y
    ensures x * t < y * t ==> x < y
  {
    if y < x {
      assert (x - y) * t > 0.0;
      assert x * t - y * t == (x - y) * t;
    }
  }

  /** The quotient of a division by a positive divisor brackets the dividend. */
  lemma DivBounds(b: nat, d: nat)
    requires d > 0
    ensures (b / d) * d <= b < (b / d) * d + d
  {
  }

  /** Rounding to tenths, stated on reals: `p * t == x * 100` pins down the percentage. */
  lemma RealRounding(p: real, n: real, t: real, x: real)
    requires t > 0.0 && p * t == x * 100.0
    requires n * (2.0 * t) <= 2000.0 * x + t < (n + 1.0) * (2.0 * t)
    ensures n / 10.0 - 0.05 <= p < n / 10.0 + 0.05
  {
    var lo, mid, hi := 2.0 * n, 20.0 * p + 1.0, 2.0 * (n + 1.0);
    assert mid * t == 20.0 * (p * t) + t;
    assert lo * t == n * (2.0 * t) && hi * t == (n + 1.0) * (2.0 * t);
    MulCancel(lo, mid, t);
    MulCancel(mid, hi, t);
  }

  /** The percentage rounded half up to tenths (`toFixed(1)`), in tenths of a percent. */
  function Tenths(c: Counts): nat
    requires c.Total() > 0
  {
    (2000 * c.present + c.Total()) / (2 * c.Total())
  }

  /** Tenths is the percentage rounded to the nearest tenth, ties upwards. */
  lemma TenthsRounds(c: Counts)
    requires c.Total() > 0
    ensures Tenths(c) as real / 10.0 - 0.05 <= Percent(c) < Tenths(c) as real / 10.0 + 0.05
  {
    var t := c.Total();
    var n := Tenths(c);
    var b := 2000 * c.present + t;
    DivBounds(b, 2 * t);
    var d := n * (2 * t);
    assert d <= b < d + 2 * t;
    assert d as real <= b as real < d as real + (2 * t) as real;
    assert d as real == n as real * (2.0 * t as real);
    assert d as real + (2 * t) as real == (n as real + 1.0) * (2.0 * t as real);
    DivTimes(c.present as real * 100.0, t as real);
    RealRounding(Percent(c), n as real, t as real, c.present as real);
  }

  /**
   * The group bot's `pct < 75`: `pct` is the number 0 when there is no P or A,
   * and otherwise the percentage rounded to tenths; see `LowIsRoundedBelow75`.
   */
  predicate Low(c: Counts) {
    c.Total() == 0 || 2000 * c.present < 1499 * c.Total()
  }

  /** `Low` is the comparison of the rounded percentage with 75. */
  lemma LowIsRoundedBelow75(c: Counts)
    ensures Low(c) <==> c.Total() == 0 || Tenths(c) < 750
  {
    if c.Total() > 0 {
      DivBelow(2000 * c.present + c.Total(), 2 * c.Total(), 750);
    }
  }

  /** A subject is low exactly when it has no P or A, or its percentage is below 74.95. */
  lemma LowBelowThreshold(c: Counts)
    ensures Low(c) <==> c.Total() == 0 || Percent(c) < 74.95
  {
    if c.Total() > 0 {
      PercentBelow(c);
    }
  }

  lemma PercentBelow(c: Counts)
    requires c.Total() > 0
    ensures Percent(c) < 74.95 <==> 2000 * c.present < 1499 * c.Total()
  {
    DivBelowReal(c.present as real * 100.0, c.Total() as real, 74.95);
  }

  lemma DivBelowReal(a: real, t: real, b: real)
    requires t > 0.0
    ensures a / t < b <==> a < b * t
  {
    var q := a / t;
    assert q * t == a;
    MulCancel(q, b, t);
    MulCancel(b, q, t);
  }

  /** An integer quotient is below `k` exactly when the dividend is below `k` times the divisor. */
  lemma DivBelow(x: nat, d: nat, k: nat)
    requires d > 0
    ensures x / d < k <==> x < k * d
  {
    var q := x / d;
    assert x == q * d + x % d;
    if q < k {
      assert q + 1 <= k;
      assert (q + 1) * d <= k * d;
    } else {
      assert k * d <= q * d;
    }
  }

  /** The keys whose flag is set, in order. */
  function Keep(ks: seq<string>, flags: seq<bool>): seq<string>
    requires |flags| == |ks|
  {
    if ks == [] then []
    else Keep(ks[..|ks| - 1], flags[..|ks| - 1]) + (if flags[|ks| - 1] then [ks[|ks| - 1]] else [])
  }

  lemma {:induction false} KeepMembers(ks: seq<string>, flags: seq<bool>)
    requires |flags| == |ks|
    ensures forall s :: s in Keep(ks, flags) <==> exists j :: 0 <= j < |ks| && ks[j] == s && flags[j]
  {
    if ks != [] {
      var n := |ks| - 1;
      KeepMembers(ks[..n], flags[..n]);
      forall s | s in Keep(ks, flags)
        ensures exists j :: 0 <= j < |ks| && ks[j] == s && flags[j]
      {
        if s in Keep(ks[..n], flags[..n]) {
          var j :| 0 <= j < n && ks[..n][j] == s && flags[..n][j];
          assert ks[j] == s && flags[j];
        }
      }
      forall s | exists j :: 0 <= j < |ks| && ks[j] == s && flags[j]
        ensures s in Keep(ks, flags)
      {
        var j :| 0 <= j < |ks| && ks[j] == s && flags[j];
        if j < n {
          assert ks[..n][j] == s && flags[..n][j];
        }
      }
    }
  }
  /** The kept names stay in the order of `ks`. */
  lemma {:induction false} KeepInOrder(ks: seq<string>, flags: seq<bool>)
    requires |flags| == |ks|
    ensures Sublist(Keep(ks, flags), ks)
  {
    if ks != [] {
      var n := |ks| - 1;
      var init := Keep(ks[..n], flags[..n]);
      KeepInOrder(ks[..n], flags[..n]);
      SublistSnoc(init, ks[..n], ks[n]);
      assert ks[..n] + [ks[n]] == ks;
      if flags[n] {
        assert Keep(ks, flags) == init + [ks[n]];
      } else {
        assert Keep(ks, flags) == init;
      }
    }
  }


  /** For each subject name, whether the subject is low. */
  function LowFlags(ks: seq<string>, m: map<string, Ledger>): (flags: seq<bool>)
    ensures |flags| == |ks|
  {
    seq(|ks|, j requires 0 <= j < |ks| => ks[j] in m && Low(GroupCounts(m[ks[j]])))
  }

  /** The subjects listed by option 5 and `/alert`, in insertion order. */
  function LowSubjects(subs: Subjects): (low: seq<string>)
    ensures forall s :: s in low <==> s in subs.vals && Low(GroupCounts(subs.vals[s]))
    ensures Sublist(low, subs.keys)
  {
    KeepMembers(subs.keys, LowFlags(subs.keys, subs.vals));
    KeepInOrder(subs.keys, LowFlags(subs.keys, subs.vals));
    Keep(subs.keys, LowFlags(subs.keys, subs.vals))
  }

  /**
   * The loop of the demo bot's `calcPercent`: two accumulators over the
   * subject's entries.  The percentage shown is `Percent(c)`.
   */
  method CountLedger(book: Ledger) returns (c: Counts)
    ensures c == LedgerCounts(book)
  {
    var present, absent := 0, 0;
    var i := 0;
    while i < |book.keys|
      invariant 0 <= i <= |book.keys|
      invariant present == SumOf(book.keys[..i], book.vals, EntryHits('P'))
      invariant absent == SumOf(book.keys[..i], book.vals, EntryHits('A'))
    {
      var sid := book.keys[i];
      var rec := book.vals[sid];
      SumOfAppend(book.keys[..i], sid, book.vals, EntryHits('P'));
      SumOfAppend(book.keys[..i], sid, book.vals, EntryHits('A'));
      assert book.keys[..i + 1] == book.keys[..i] + [sid];
      present := present + EntryHits('P')(rec);
      absent := absent + EntryHits('A')(rec);
      i := i + 1;
    }
    assert book.keys[..i] == book.keys;
    c := Counts(present, absent);
  }

  /** The loops of the group bot's `calcPercent`, with its legacy branch. */
  method CountGroup(book: Ledger) returns (c: Counts)
    ensures c == GroupCounts(book)
  {
    if book.keys != [] && Contains(book.keys[0], "@c.us") {
      c := CountLedger(book);
      return;
    }
    var present, absent := 0, 0;
    var i := 0;
    while i < |book.keys|
      invariant 0 <= i <= |book.keys|
      invariant present == SumOf(book.keys[..i], book.vals, LegacyHit("P"))
      invariant absent == SumOf(book.keys[..i], book.vals, LegacyHit("A"))
    {
      var key := book.keys[i];
      SumOfAppend(book.keys[..i], key, book.vals, LegacyHit("P"));
      SumOfAppend(book.keys[..i], key, book.vals, LegacyHit("A"));
      assert book.keys[..i + 1] == book.keys[..i] + [key];
      present := present + LegacyHit("P")(book.vals[key]);
      absent := absent + LegacyHit("A")(book.vals[key]);
      i := i + 1;
    }
    assert book.keys[..i] == book.keys;
    c := Counts(present, absent);
  }

  /** Option 5 and `/alert`: the subjects whose percentage is below 75. */
  method ListLow(subs: Subjects) returns (low: seq<string>)
    ensures low == LowSubjects(subs)
  {
    low := ListLowIn(subs.keys, subs.vals);
  }

  /** The loop itself, over the subject names in order. */
  method ListLowIn(ks: seq<string>, m: map<string, Ledger>) returns (low: seq<string>)
    ensures low == Keep(ks, LowFlags(ks, m))
  {
    ghost var flags := LowFlags(ks, m);
    low := [];
    var i := 0;
    while i < |ks|
      invariant 0 <= i <= |ks|
      invariant low == Keep(ks[..i], flags[..i])
    {
      var s := ks[i];
      var head := [];
      if s in m {
        var c := CountGroup(m[s]);
        if Low(c) {
          head := [s];
        }
      }
      assert head == if flags[i] then [s] else [];
      assert ks[..i + 1][..i] == ks[..i] && flags[..i + 1][..i] == flags[..i];
      low := low + head;
      i := i + 1;
    }
    assert ks[..i] == ks && flags[..i] == flags;
  }




  /**
   * `calculate_percentage`: 0 for a missing teacher or subject; otherwise the
   * P and A statuses of the dictionary-valued entries, counted in a nested loop.
   */
  method CalculatePercentage(attendance: map<Id, Subjects>, teacher: Id, subject: string) returns (pct: real)
    ensures teacher !in attendance || subject !in attendance[teacher].vals ==> pct == 0.0
    ensures teacher in attendance && subject in attendance[teacher].vals ==>
      pct == Percent(WebCounts(attendance[teacher].vals[subject]))
  {
    if teacher !in attendance || subject !in attendance[teacher].vals {
      return 0.0;
    }
    var book := attendance[teacher].vals[subject];
    var present, absent := 0, 0;
    var i := 0;
    while i < |book.keys|
      invariant 0 <= i <= |book.keys|
      invariant present == SumOf(book.keys[..i], book.vals, DictHit("P"))
      invariant absent == SumOf(book.keys[..i], book.vals, DictHit("A"))
    {
      var sid := book.keys[i];
      SumOfAppend(book.keys[..i], sid, book.vals, DictHit("P"));
      SumOfAppend(book.keys[..i], sid, book.vals, DictHit("A"));
      assert book.keys[..i + 1] == book.keys[..i] + [sid];
      if book.vals[sid].StudentDays? {
        var p, a := CountDays(book.vals[sid].days);
        present := present + p;
        absent := absent + a;
      }
      i := i + 1;
    }
    assert book.keys[..i] == book.keys;
    pct := Percent(Counts(present, absent));
  }

  /** The inner loop of `calculate_percentage` over one student's dates. */
  method CountDays(days: Days) returns (present: nat, absent: nat)
    ensures present == DayHits(days, "P") && absent == DayHits(days, "A")
  {
    present, absent := 0, 0;
    var j := 0;
    while j < |days.keys|
      invariant 0 <= j <= |days.keys|
      invariant present == SumOf(days.keys[..j], days.vals, CellHit("P"))
      invariant absent == SumOf(days.keys[..j], days.vals, CellHit("A"))
    {
      var d := days.keys[j];
      SumOfAppend(days.keys[..j], d, days.vals, CellHit("P"));
      SumOfAppend(days.keys[..j], d, days.vals, CellHit("A"));
      assert days.keys[..j + 1] == days.keys[..j] + [d];
      if days.vals[d] == Mark("P") {
        present := present + 1;
      } else if days.vals[d] == Mark("A") {
        absent := absent + 1;
      }
      j := j + 1;
    }
    assert days.keys[..j] == days.keys;
  }

  /**
   * The subject-wide figures of the web report (four accumulators).  Python
   * raises an error on an entry that is not a dictionary; the result is then
   * `None`.
   */
  method SubjectTally(book: Ledger) returns (t: Option<Tally>)
    ensures t.Some? <==> forall k | k in book.vals :: book.vals[k].StudentDays?
    ensures t.Some? ==> t.value == Tally(Sum(book, DictHit("P")), Sum(book, DictHit("A")),
                                         Sum(book, DictHit("H")), Sum(book, DictHit("N")))
  {
    var p, a, h, n := 0, 0, 0, 0;
    var i := 0;
    while i < |book.keys|
      invariant 0 <= i <= |book.keys|
      invariant forall j | 0 <= j < i :: book.vals[book.keys[j]].StudentDays?
      invariant p == SumOf(book.keys[..i], book.vals, DictHit("P"))
      invariant a == SumOf(book.keys[..i], book.vals, DictHit("A"))
      invariant h == SumOf(book.keys[..i], book.vals, DictHit("H"))
      invariant n == SumOf(book.keys[..i], book.vals, DictHit("N"))
    {
      var sid := book.keys[i];
      if book.vals[sid].LegacyMark? {
        return None;
      }
      SumOfPrefix(book.keys, book.vals, DictHit("P"), i);
      SumOfPrefix(book.keys, book.vals, DictHit("A"), i);
      SumOfPrefix(book.keys, book.vals, DictHit("H"), i);
      SumOfPrefix(book.keys, book.vals, DictHit("N"), i);
      var days := book.vals[sid].days;
      p := p + DayHits(days, "P");
      a := a + DayHits(days, "A");
      h := h + DayHits(days, "H");
      n := n + DayHits(days, "N");
      i := i + 1;
    }
    assert book.keys[..i] == book.keys;
    t := Some(Tally(p, a, h, n));
  }

  /** A one-letter legacy string counts as that letter under either formula. */
  lemma LegacyLedgersAgree(book: Ledger)
    requires forall k | k in book.vals :: book.vals[k].LegacyMark? && |book.vals[k].mark| == 1
    ensures GroupCounts(book) == LedgerCounts(book)
  {
    forall k | k in book.vals
      ensures LegacyHit("P")(book.vals[k]) == EntryHits('P')(book.vals[k])
      ensures LegacyHit("A")(book.vals[k]) == EntryHits('A')(book.vals[k])
    {
      var m := book.vals[k].mark;
      assert m == [m[0]];
      assert CharHits(m, 'P') == if m[0] == 'P' then 1 else 0;
      assert CharHits(m, 'A') == if m[0] == 'A' then 1 else 0;
    }
    SumCongruent(book, book, LegacyHit("P"), EntryHits('P'));
    SumCongruent(book, book, LegacyHit("A"), EntryHits('A'));
  }

  /** On ledgers of student date maps the web counters and the demo bot's agree. */
  lemma StudentLedgersAgree(book: Ledger)
    requires forall k | k in book.vals :: book.vals[k].StudentDays?
    ensures WebCounts(book) == LedgerCounts(book)
  {
    SumCongruent(book, book, DictHit("P"), EntryHits('P'));
    SumCongruent(book, book, DictHit("A"), EntryHits('A'));
  }

  lemma {:induction false} NotContains(s: string, t: string)
    requires t != [] && t[0] !in s
    ensures !Contains(s, t)
  {
    if s != [] {
      assert s[0] != t[0];
      NotContains(s[1..], t);
    }
  }

  /**
   * A subject whose first key is a legacy date hides every student's marks from
   * the group bot: one legacy `P` followed by a student with one `P` counts as 1
   * present there and as 2 present in the demo bot.
   */
  lemma LegacyFirstHidesStudents(days: Days, book: Ledger)
    requires days.keys == ["2024-01-02"] && days.vals == map["2024-01-02" := Mark("P")]
    requires book.keys == ["2024-01-01", "1@c.us"]
    requires book.vals == map["2024-01-01" := LegacyMark("P"), "1@c.us" := StudentDays(days)]
    ensures GroupCounts(book) == Counts(1, 0)
    ensures LedgerCounts(book) == Counts(2, 0)
  {
    var legacy, entry := LegacyMark("P"), StudentDays(days);
    assert book.vals[book.keys[0]] == legacy && book.vals[book.keys[1]] == entry;
    NotContains("2024-01-01", "@c.us");
    assert !PerStudentFormat(book);
    PairCounts(book, legacy, entry);
    OnePresentDay(days);
    assert ['P'] == "P" && ['A'] == "A";
    assert EntryHits('P')(entry) == 1 && EntryHits('A')(entry) == 0;
    assert CharHits("P", 'P') == 1 && CharHits("P", 'A') == 0;
    assert EntryHits('P')(legacy) == 1 && EntryHits('A')(legacy) == 0;
    assert LegacyHit("P")(legacy) == 1 && LegacyHit("A")(legacy) == 0;
    assert LegacyHit("P")(entry) == 0 && LegacyHit("A")(entry) == 0;
  }

  /** The four sums of a two-key ledger, entry by entry. */
  lemma PairCounts(book: Ledger, e0: Entry, e1: Entry)
    requires |book.keys| == 2 && book.vals[book.keys[0]] == e0 && book.vals[book.keys[1]] == e1
    ensures Sum(book, EntryHits('P')) == EntryHits('P')(e0) + EntryHits('P')(e1)
    ensures Sum(book, EntryHits('A')) == EntryHits('A')(e0) + EntryHits('A')(e1)
    ensures Sum(book, LegacyHit("P")) == LegacyHit("P")(e0) + LegacyHit("P")(e1)
    ensures Sum(book, LegacyHit("A")) == LegacyHit("A")(e0) + LegacyHit("A")(e1)
  {
    SumOfPair(book, EntryHits('P'));
    SumOfPair(book, EntryHits('A'));
    SumOfPair(book, LegacyHit("P"));
    SumOfPair(book, LegacyHit("A"));
  }

  lemma OnePresentDay(days: Days)
    requires |days.keys| == 1 && days.vals[days.keys[0]] == Mark("P")
    ensures DayHits(days, "P") == 1 && DayHits(days, "A") == 0
  {
    var ks := days.keys;
    assert ks[0] in days.vals;
    assert ks[1..] == [];
    assert SumOf(ks[1..], days.vals, CellHit("P")) == 0 && SumOf(ks[1..], days.vals, CellHit("A")) == 0;
    assert CellHit("P")(Mark("P")) == 1 && CellHit("A")(Mark("P")) == 0;
  }

  lemma SumOfPair<V>(d: Dict<V>, f: V -> nat)
    requires |d.keys| == 2
    ensures Sum(d, f) == f(d.vals[d.keys[0]]) + f(d.vals[d.keys[1]])
  {
    var ks := d.keys;
    assert ks[0] in d.vals && ks[1] in d.vals;
    assert SumOf(ks[1..], d.vals, f) == f(d.vals[ks[1]]) + SumOf(ks[1..][1..], d.vals, f);
    assert ks[1..][1..] == [];
  }

  // ---------------------------------------------------------------- report rows

  /** `name: calcPercent(name)` for the keys `ks`, in order, with the bot's counting rule `count`. */
  function FiguresOf(ks: seq<string>, m: map<string, Ledger>, count: Ledger -> Counts): (rows: seq<(string, Counts)>)
    requires forall k | k in ks :: k in m
    ensures |rows| == |ks|
    ensures forall i | 0 <= i < |ks| :: rows[i] == (ks[i], count(m[ks[i]]))
  {
    if ks == [] then [] else [(ks[0], count(m[ks[0]]))] + FiguresOf(ks[1..], m, count)
  }

  /** `ledger[sid] || {}` counted as a report row. */
  function TallyIn(book: Ledger, sid: Id): Tally {
    if sid in book.vals then EntryTally(book.vals[sid]) else NoTally()
  }

  /** The per-student rows of `report.N`. */
  function StudentRows(r: Registry, book: Ledger, ids: seq<Id>): (rows: seq<(string, Tally)>)
    ensures |rows| == |ids|
    ensures forall i | 0 <= i < |ids| :: rows[i] == (StudentName(r, ids[i]), TallyIn(book, ids[i]))
  {
    if ids == [] then [] else [(StudentName(r, ids[0]), TallyIn(book, ids[0]))] + StudentRows(r, book, ids[1..])
  }
}
