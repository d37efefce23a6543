/**
 * The JavaScript string operations the message handlers apply to an incoming
 * message: `trim`, `replace(/\D/g, '')`, `parseInt`, `split(' ')[1]` and the
 * regular expressions that recognise the positional commands.  Strings are
 * sequences of characters; `\s` and `trim` use the same whitespace class.
 */
module JsText {
  import opened Options

  /** ECMAScript WhiteSpace and LineTerminator code points (the class of `\s` and of `trim`). */
  predicate IsSpace(c: char) {
    c == '\t' || c == '\n' || c == '\U{000B}' || c == '\U{000C}' || c == '\r' || c == ' '
    || c == '\U{00A0}' || c == '\U{1680}' || ('\U{2000}' <= c <= '\U{200A}')
    || c == '\U{2028}' || c == '\U{2029}' || c == '\U{202F}' || c == '\U{205F}'
    || c == '\U{3000}' || c == '\U{FEFF}'
  }

  /** `\d`: an ASCII decimal digit. */
  predicate IsDigit(c: char) {
    '0' <= c <= '9'
  }

  predicate AllDigits(s: string) {
    forall i | 0 <= i < |s| :: IsDigit(s[i])
  }

  predicate AllSpace(s: string) {
    forall i | 0 <= i < |s| :: IsSpace(s[i])
  }

  function TrimStart(s: string): (r: string)
    ensures |r| <= |s| && r == s[|s| - |r|..]
    ensures r == [] || !IsSpace(r[0])
    ensures AllSpace(s[..|s| - |r|])
  {
    if s != [] && IsSpace(s[0]) then TrimStart(s[1..]) else s
  }

  function TrimEnd(s: string): (r: string)
    ensures |r| <= |s| && r == s[..|r|]
    ensures r == [] || !IsSpace(r[|r| - 1])
    ensures AllSpace(s[|r|..])
  {
    if s != [] && IsSpace(s[|s| - 1]) then TrimEnd(s[..|s| - 1]) else s
  }

  /** `s.trim()` */
  function Trim(s: string): (r: string)
    ensures r == [] || (!IsSpace(r[0]) && !IsSpace(r[|r| - 1]))
    ensures |r| <= |s|
  {
    TrimEnd(TrimStart(s))
  }

  /** The trim is the body with its leading and trailing whitespace cut off. */
  lemma TrimSpec(s: string)
    ensures exists i, j | 0 <= i <= j <= |s| :: Trim(s) == s[i..j] && AllSpace(s[..i]) && AllSpace(s[j..])
  {
    var t := TrimStart(s);
    var i := |s| - |t|;
    assert t == s[i..] && AllSpace(s[..i]);
    var r := TrimEnd(t);
    var j := i + |r|;
    assert r == t[..|r|] && AllSpace(t[|r|..]);
    assert s[i..][..|r|] == s[i..j] && s[i..][|r|..] == s[j..];
    assert Trim(s) == s[i..j];
  }

  /** A string without surrounding whitespace is its own trim. */
  lemma TrimKeeps(s: string)
    requires s == [] || (!IsSpace(s[0]) && !IsSpace(s[|s| - 1]))
    ensures Trim(s) == s
  {
  }

  /** `s.replace(/\D/g, '')`: the ASCII digits of `s`, in order. */
  function DigitsOnly(s: string): (r: string)
    ensures AllDigits(r)
    ensures |r| <= |s|
    ensures AllDigits(s) ==> r == s
    ensures (forall i | 0 <= i < |s| :: !IsDigit(s[i])) ==> r == ""
  {
    if s == [] then []
    else (if IsDigit(s[0]) then [s[0]] else []) + DigitsOnly(s[1..])
  }

  /** A single character: kept exactly when it is a digit. */
  lemma DigitsOnlyChar(c: char)
    ensures DigitsOnly([c]) == if IsDigit(c) then [c] else []
  {
    assert [c][1..] == [];
  }

  /** The filter works piecewise, so every digit of the input is kept, in order. */
  lemma {:induction false} DigitsOnlyAppend(a: string, b: string)
    ensures DigitsOnly(a + b) == DigitsOnly(a) + DigitsOnly(b)
  {
    if a == [] {
      assert a + b == b;
    } else {
      var h := if IsDigit(a[0]) then [a[0]] else [];
      assert (a + b)[0] == a[0] && (a + b)[1..] == a[1..] + b;
      assert DigitsOnly(a + b) == h + DigitsOnly(a[1..] + b);
      assert DigitsOnly(a) == h + DigitsOnly(a[1..]);
      DigitsOnlyAppend(a[1..], b);
      assert h + (DigitsOnly(a[1..]) + DigitsOnly(b)) == (h + DigitsOnly(a[1..])) + DigitsOnly(b);
    }
  }

  /** The longest prefix of ASCII digits. */
  function DigitPrefix(s: string): (r: string)
    ensures AllDigits(r) && |r| <= |s| && r == s[..|r|]
    ensures |r| < |s| ==> !IsDigit(s[|r|])
  {
    if s != [] && IsDigit(s[0]) then [s[0]] + DigitPrefix(s[1..]) else []
  }

  /** The decimal value of a digit string. */
  function Value(ds: string): nat
    requires AllDigits(ds)
  {
    if ds == [] then 0 else 10 * Value(ds[..|ds| - 1]) + (ds[|ds| - 1] as int - '0' as int)
  }

  /** The decimal numeral of `n`, without leading zeros: the digits a user types for `n`. */
  function Decimal(n: nat): (s: string)
    ensures s != [] && AllDigits(s) && Value(s) == n
  {
    var d := [('0' as int + n % 10) as char];
    if n < 10 then d
    else
      var s := Decimal(n / 10) + d;
      assert s[..|s| - 1] == Decimal(n / 10);
      s
  }

  /** `parseInt(s, 10)`: `None` stands for `NaN`. */
  function ParseInt(s: string): Option<int> {
    var t := TrimStart(s);
    var negative := t != [] && t[0] == '-';
    var body := if t != [] && (t[0] == '-' || t[0] == '+') then t[1..] else t;
    var ds := DigitPrefix(body);
    var v: int := Value(ds);
    var n := if negative then 0 - v else v;
    if ds == [] then None else Some(n)
  }

  function StartsWith(s: string, prefix: string): bool {
    |prefix| <= |s| && s[..|prefix|] == prefix
  }

  /** `s.includes(t)` */
  predicate Contains(s: string, t: string)
    decreases |s|
  {
    StartsWith(s, t) || (s != [] && Contains(s[1..], t))
  }

  function LowerAscii(c: char): char {
    if 'A' <= c <= 'Z' then (c as int + 32) as char else c
  }

  /** `/^word/i` for an ASCII lower-case `word`: a case-insensitive prefix match. */
  predicate StartsWithIgnoringCase(s: string, word: string) {
    |word| <= |s| && forall i | 0 <= i < |word| :: LowerAscii(s[i]) == word[i]
  }

  /** The text after the first occurrence of `c`, if `c` occurs. */
  function AfterFirst(s: string, c: char): (r: Option<string>)
    ensures r.None? <==> c !in s
    ensures r.Some? ==> |r.value| < |s|
  {
    if s == [] then None else if s[0] == c then Some(s[1..]) else AfterFirst(s[1..], c)
  }

  /** The text before the first occurrence of `c`, or all of it. */
  function UpTo(s: string, c: char): (r: string)
    ensures c !in r && |r| <= |s| && r == s[..|r|]
  {
    if s == [] || s[0] == c then [] else [s[0]] + UpTo(s[1..], c)
  }

  /** `s.split(sep)[1]`: `None` stands for `undefined`, when `sep` does not occur. */
  function SecondField(s: string, sep: char): Option<string> {
    match AfterFirst(s, sep)
    case None => None
    case Some(rest) => Some(UpTo(rest, sep))
  }

  /** `s.replace(/_/g, ' ')` */
  function UnderscoresToSpaces(s: string): (r: string)
    ensures |r| == |s|
    ensures forall i | 0 <= i < |s| :: r[i] == (if s[i] == '_' then ' ' else s[i])
  {
    if s == [] then [] else [if s[0] == '_' then ' ' else s[0]] + UnderscoresToSpaces(s[1..])
  }

  /** `/^<prefix>\d+$/` followed by `parseInt(<digits>)`: the number written after `prefix`. */
  function DottedNumber(text: string, prefix: string): (r: Option<nat>)
    ensures r.Some? ==> |text| > |prefix| && StartsWith(text, prefix)
  {
    if |text| > |prefix| && StartsWith(text, prefix) && AllDigits(text[|prefix|..])
    then Some(Value(text[|prefix|..]))
    else None
  }

  /** A text not of the form prefix-then-digits is no such command. */
  lemma DottedNumberNone(text: string, prefix: string)
    ensures !StartsWith(text, prefix) ==> DottedNumber(text, prefix).None?
    ensures |text| == |prefix| ==> DottedNumber(text, prefix).None?
    ensures (exists i | |prefix| <= i < |text| :: !IsDigit(text[i])) ==> DottedNumber(text, prefix).None?
  {
    if exists i | |prefix| <= i < |text| :: !IsDigit(text[i]) {
      var i :| |prefix| <= i < |text| && !IsDigit(text[i]);
      assert text[|prefix|..][i - |prefix|] == text[i];
    }
  }

  /** `replace(/\D/g, '')` on `+12` keeps the two digits. */
  lemma DigitsOfPlusTwelve()
    ensures DigitsOnly("+12") == "12"
  {
    assert "+12" == "+" + "12";
    DigitsOnlyAppend("+", "12");
    DigitsOnlyChar('+');
  }

  /** The command a menu builds from an index is read back as that index. */
  lemma DottedNumberOf(prefix: string, n: nat)
    ensures DottedNumber(prefix + Decimal(n), prefix) == Some(n)
  {
    var text := prefix + Decimal(n);
    assert text[..|prefix|] == prefix && text[|prefix|..] == Decimal(n);
  }

  predicate IsStatusLetter(c: char) {
    c == 'P' || c == 'A' || c == 'H' || c == 'N'
  }

  /**
   * `/^<prefix>\s+[PAHN]$/` on the text after `prefix`: a non-empty run of
   * whitespace and one of the four status letters.
   */
  predicate SpacedLetter(tail: string) {
    |tail| >= 2 && IsStatusLetter(tail[|tail| - 1]) && AllSpace(tail[..|tail| - 1])
  }

  /**
   * `/^student\.\d+\s+[PAHN]$/`, then the student number (the digits) and the
   * status (`text.split(' ')[1]`, which is not always the letter).
   */
  function StudentMark(text: string): Option<(nat, Option<string>)> {
    if StartsWith(text, "student.") then
      var ds := DigitPrefix(text[8..]);
      if ds != [] && SpacedLetter(text[8 + |ds|..]) then Some((Value(ds), SecondField(text, ' ')))
      else None
    else None
  }

  /** `/^bulk\s+[PAHN]$/`, then the status `text.split(' ')[1]`. */
  function BulkMark(text: string): Option<Option<string>> {
    if StartsWith(text, "bulk") && SpacedLetter(text[4..]) then Some(SecondField(text, ' ')) else None
  }

  /**
   * `/present-<s>`, `/absent-<s>`, `/holiday-<s>`: the upper-cased first letter of
   * the command word and the subject, the text between the first and the second
   * `-` with underscores turned into spaces.
   */
  function LegacyCommand(text: string): (r: Option<(string, string)>)
    ensures r.Some? ==> r.value.0 in {"P", "A", "H"}
  {
    var letter :=
      if StartsWith(text, "/present-") then Some("P")
      else if StartsWith(text, "/absent-") then Some("A")
      else if StartsWith(text, "/holiday-") then Some("H")
      else None;
    match (letter, SecondField(text, '-'))
    case (Some(l), Some(subject)) => Some((l, UnderscoresToSpaces(subject)))
    case _ => None
  }

  /**
   * `text.toUpperCase()` when the result is one of `P`, `A`, `H`, `N`: the only
   * strings whose upper case is one of these letters are the letter itself and
   * its lower-case form.
   */
  function UpperStatus(text: string): Option<string> {
    if text == "P" || text == "p" then Some("P")
    else if text == "A" || text == "a" then Some("A")
    else if text == "H" || text == "h" then Some("H")
    else if text == "N" || text == "n" then Some("N")
    else None
  }
}
