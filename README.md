# HAJIRI attendance bookkeeping in Dafny

HAJIRI keeps school attendance for teachers. It has three front ends over the same three stores:

- a teacher registry;
- a student registry;
- a nested attendance map `teacherId -> subject -> studentId -> date -> status`.

The statuses are `P` (present), `A` (absent), `H` (holiday) and `N` (no class).

The front ends are:

- a private-chat WhatsApp bot (`demo.js`);
- a group WhatsApp bot (`index.js`), which answers in one fixed group only;
- a Streamlit web page (`streamlit_app.py`).

This project models, for all three:

- how the stores change;
- how the reports count;
- for each bot, how its single message handler routes a message through the pending dialogue steps and then through its command chain.

## Modules

| file | module | what it holds |
|---|---|---|
| `options.dfy` | `Options` | `Option`, which stands for JavaScript `undefined`/`NaN` and for Python exceptions |
| `dicts.dfy` | `Dicts` | insertion-ordered dictionaries (JavaScript objects, Python dicts) |
| `jstext.dfy` | `JsText` | string operations and the bots' regular-expression matchers |
| `records.dfy` | `Records` | entities, registry lookups, roster listing |
| `reports.dfy` | `Reports` | counting and percentages |
| `store.dfy` | `Store` | store mutations as functions, with their specifications |
| `demo_bot.dfy`, `demo_process.dfy` | `DemoBot`, `DemoProcess` | the private-chat bot |
| `group_bot.dfy`, `group_process.dfy` | `GroupBot`, `GroupProcess` | the group bot |
| `web_app.dfy` | `WebApp` | the web page |

`Dicts` details:

- Assigning a new key appends it. This is the order of a Python dict, and of a JavaScript object whose keys are not integer-like.
- A JavaScript object also answers for the names it inherits from `Object.prototype` (`constructor`, `toString`, …). `Dicts.HasProperty` models that lookup.
- Assigning an existing key keeps its position.
- Deleting a key removes it from the order.

`Store` details:

- The mutations are adding subjects and students, writing a status, and the three cascading removals.

## Two levels per front end

Each front end is modelled twice.

- **Functions.** A step function (`DemoBot.Step`, `GroupBot.Step`) gives the outcome of one message: the new state, a reply kind with the data it shows, and the notifications sent to students. It is the composition of a router (`Route`, the source's `if` chain) and the branch bodies (`Perform`). For the web page, one function per button plays the same role.
- **Classes.** A class (`DemoProcess.Bot`, `GroupProcess.Bot`, `WebApp.App`) holds the stores and the awaiting maps as fields. Its methods update those fields in place, as the source does. Each method is proved to leave exactly the state that the function describes.

The loops of the source are methods with loop invariants:

- the per-subject seeding and removal loops;
- the `bulk X` loop;
- the counting loops of `calcPercent` and `calculate_percentage`;
- the "Save Attendance" loop.

## Quirks modelled as written

- **Data representation.**
  - A ledger entry is either a student's date map or an older-format status string (`LegacyMark`) that the group bot's `/present-…` commands store directly under a date.
  - Writing a date into a non-empty string entry is silently ignored in JavaScript.
  - In Python, the same write raises an exception.
- **Private-chat bot (`demo.js`).**
  - A teacher's `A`/`a` reaches the add-student command before the status step. So Absent can never be recorded, and the removal menus behind `A`/`B` are unreachable.
  - The status step puts the session back into selection mode without its roster. The next selection therefore expires it.
  - `remove.student.N` replies with "Unknown Student", because it looks the name up after the record is deleted.
- **Group bot (`index.js`).**
  - It ignores every sender but one group id. So every per-sender map is keyed by that id, and `/myattendance` is never served.
  - Registering again resets the teacher's subjects.
  - Adding a subject named like an inherited property (`constructor`) answers "already exists" in both bots.
  - `student.1  P` (two spaces) stores an empty status.
  - `student.1<TAB>P` stores `undefined`.
- **Web page (`streamlit_app.py`).**
  - "Add Student" never overwrites a student.
  - "Login as Student" replaces any record with the same id, taking the teacher logged in at that moment. A bot-registered student who logs in while no teacher is logged in loses their teacher link, and their page then shows no data.
  - It removes only `+` and spaces from a phone. So a phone with a dash gets a different id on the web page than in the bots.

## Model

| member | source | states |
|---|---|---|
| JsText.Trim | demo.js:170 | the trimmed text neither starts nor ends with whitespace and is no longer than the body |
| JsText.TrimSpec | demo.js:170 | `trim()` gives the slice of the text between a whitespace-only head and a whitespace-only tail |
| JsText.DigitsOnly | index.js:160 | `replace(/\D/g, '')` keeps only ASCII digits, keeps an all-digit text unchanged and gives "" for a text without digits |
| JsText.DigitsOnlyChar | index.js:160 | on one character, the filter keeps it exactly when it is an ASCII digit |
| JsText.DigitsOnlyAppend | index.js:160 | the digit filter distributes over concatenation, so it keeps every digit in order |
| JsText.DigitsOfPlusTwelve | index.js:160 | the phone `+12` gives the digits `12` |
| JsText.DottedNumber | demo.js:318-319 | `subject.N`, `report.N` and `remove.…N` match only texts that start with the prefix and have digits after it |
| JsText.DottedNumberNone | demo.js:318-319 | the match fails when the text lacks the prefix, has nothing after it, or has a non-digit after it |
| JsText.DottedNumberOf | demo.js:318-319 | the prefix followed by the decimal form of N matches, and gives back N |
| JsText.UnderscoresToSpaces | index.js:778 | every `_` becomes a space, and nothing else changes |
| JsText.LegacyCommand | index.js:773-778 | a legacy command yields only the letters P, A or H |
| Records.StudentsOf | demo.js:77-79 | `getStudentsForTeacher` lists exactly the students whose teacherId is `t`, each once, in registration order |
| Dicts.KeepKeysSublist | demo.js:77-79 | filtering the keys of a dictionary keeps them in their order |
| Records.RosterNames | index.js:366-369 | the numbered roster shows `getStudentName` of each listed id, in order |
| Records.Listing | demo.js:300-306 | the student listing shows each student's name and phone, in order |
| Reports.CharHits | index.js:32 | `Object.values` of a string counts the occurrences of the character (its multiplicity in the string), at most the length and none when it is absent |
| Reports.CharHitsChar | index.js:32 | one character counts once exactly when it is the character looked for |
| Reports.CharHitsAppend | index.js:32 | the count over a concatenation is the sum of the counts of the parts |
| Reports.Percent | demo.js:69-70 | the percentage lies in [0,100]; it is 0 exactly when there is no P, and 100 exactly when there is a P and no A |
| Reports.TenthsRounds | index.js:44 | the tenths figure is the percentage rounded to one decimal, half up |
| Reports.LowIsRoundedBelow75 | index.js:457-458 | "low" is `pct < 75` on the rounded figure, or the number 0 when there is no P or A |
| Reports.LowBelowThreshold | index.js:457-458 | a subject is low exactly when it has no P or A, or its exact percentage is below 74.95 |
| Reports.KeepMembers | index.js:456-463 | the low listing contains exactly the listed subjects that are low |
| Reports.LowSubjects | index.js:453-466 | the subjects listed by option 5 and `/alert` are exactly the teacher's low subjects, in the order of the subjects |
| Reports.KeepInOrder | index.js:456-463 | the low listing keeps the subjects in their order |
| Reports.CountLedger | demo.js:60-71 | the demo `calcPercent` loop counts the P and A values of every entry of the subject |
| Reports.CountGroup | index.js:21-45 | the group `calcPercent` loops count per student when the first key contains `@c.us`, and otherwise count the values stored directly under the subject |
| Reports.ListLow | index.js:453-466 | the loop behind option 5 collects exactly the low subjects, in insertion order |
| Reports.ListLowIn | index.js:456-463 | the loop keeps exactly the names whose subject is low, in the order of the names |
| Reports.CalculatePercentage | streamlit_app.py:79-99 | the result is 0 for a missing teacher or subject; otherwise it is the percentage over P and A of the dictionary-valued entries |
| Reports.CountDays | streamlit_app.py:92-96 | the inner loop counts the P and A dates of one student |
| Reports.SubjectTally | streamlit_app.py:400-414 | the report figures exist exactly when every entry is a dictionary; they are the P, A, H and N sums over all entries |
| Reports.LegacyLedgersAgree | index.js:36-41 | on a subject of one-letter legacy strings, the legacy branch and per-student counting agree |
| Reports.StudentLedgersAgree | streamlit_app.py:90-96 | on date-map entries, the web counters and the bots' counters agree |
| Reports.LegacyFirstHidesStudents | index.js:27-41 | a legacy date as first key hides the students' marks: 1 present where the demo bot counts 2 |
| Reports.FiguresOf | demo.js:356 | one `name: calcPercent(name)` row per subject, in order |
| Reports.StudentRows | demo.js:366-377 | one `report.N` row per student of the teacher, with their name and their P/A/H/N counts (an empty tally when they have no entry) |
| Store.StudentIdOf | demo.js:220-222 | a bot student id is the ASCII digits of the phone, in order, followed by `@c.us` |
| Store.SeedEntrySpec | demo.js:231-233 | seeding gives the student a truthy entry, keeps a truthy one, and touches no other key |
| Store.EnrollSpec | index.js:159-190 | the phone step records the student with the sender as teacher, replacing any record with that id, and seeds every subject of the sender; other teachers are unchanged |
| Store.DigitlessPhone | index.js:160-164 | a phone without digits is accepted and gets the id `@c.us` |
| Store.SeedKeepsCounts | demo.js:231-233 | seeding an entry changes no subject's P and A counts, in the bots or on the web page |
| Store.MarkEntrySpec | demo.js:343-344 | a write stores the status for that student and date and replaces the old value (unless the entry is a non-empty string); other dates and students are unchanged |
| Store.LastWriteWins | index.js:656 | a second write for the same date replaces the first |
| Store.MarkCounts | demo.js:344 | after a write, the subject's P (or A) count loses the old cell's mark and gains the new one |
| Store.NeutralMarkKeepsCounts | demo.js:66-67 | writing H or N over a date that was neither P nor A leaves the subject's figures unchanged |
| Store.MarkInSpec | index.js:652-656 | the creation chain creates the teacher map and the subject when missing, then applies the write; other teachers are unchanged |
| Store.MarkInBook | index.js:652-656 | after a write, the teacher's subjects are the old ones with only the written ledger replaced |
| Store.MarkAllFrame | index.js:730-736 | a bulk write touches only that subject of that teacher |
| Store.MarkAllOutside | index.js:730-736 | a bulk write leaves every student outside the roster unchanged |
| Store.MarkAllCovers | index.js:730-736 | after a bulk write, every roster student whose entry can take a write has the status for the date |
| Store.MarkAllLast | index.js:730-736 | the bulk write is the write for all but the last student, followed by the last one |
| Store.MarkEntryKeeps | index.js:735 | a write for another student keeps a cell already written for that date |
| Store.DropSubject | demo.js:82-89 | `removeSubject` answers true exactly when the teacher has the subject, and then deletes only that key; false changes nothing |
| Store.DropSubjectSpec | demo.js:82-89 | after the removal the subject is gone; the teacher's other subjects and the other teachers are unchanged |
| Store.DropStudentSpec | demo.js:90-101 | `removeStudent`: an unknown id gives false and no change; otherwise the record and the student's truthy entries in their teacher's subjects are gone, and everything else is unchanged |
| Store.DropTeacherSpec | demo.js:102-111 | `removeTeacher`: a non-teacher gives false and no change; otherwise the id is no teacher, has no attendance, and no remaining student has it as teacher |
| Store.UpdateEach | demo.js:231-233 | the per-subject loop applies the same update to every subject and keeps the subject order |
| DemoBot.SubjectRowsOf | demo.js:441-451 | `/myattendance` gives one row per subject of the teacher, with the student's tally |
| DemoBot.RawNames | demo.js:415 | the removal listing shows each student's stored name |
| DemoBot.AnswersKeepState | demo.js:258-316 | menus, listings, reports and prompts change no state; only `/start` from a non-teacher sends the private welcome |
| DemoBot.BlankIgnored | demo.js:170-172 | a whitespace-only message is ignored |
| DemoBot.PendingFirst | demo.js:186-255 | the pending steps come before any command, in the order name, subject, student name, phone, selection |
| DemoBot.TeacherCannotMarkAbsent | demo.js:295-337 | a teacher's `A` reaches the add-student command, so the status step never sees A |
| DemoBot.RemovalMenusUnreachable | demo.js:395-418 | the `A`/`B` removal menus are never reached |
| DemoBot.RouteRemoveStudent | demo.js:419-420 | `remove.student.N` reaches the removal for an idle teacher |
| DemoBot.RemoveStudentText | demo.js:318-420 | `remove.student.N` gives back N to the removal matcher and matches none of `subject.`, `report.` and `remove.subject.` |
| DemoBot.StrangerRoutes | demo.js:258-456 | someone who is neither teacher nor student only gets the welcome, the registration or "unknown command" |
| DemoBot.NameStepSpec | demo.js:186-194 | the name step records the teacher, keeps their existing subjects and clears the flag |
| DemoBot.SubjectStepSpec | demo.js:196-209 | the subject step adds an empty ledger exactly when the subject is neither an own key nor an inherited name, otherwise says it exists, and clears the flag either way |
| DemoBot.InheritedSubjectExists | demo.js:196-209 | adding the subject `constructor` answers "already exists" and keeps the teacher's subjects |
| DemoBot.PhoneStepSpec | demo.js:219-238 | the phone step stores the student under digits + `@c.us` with the sender as teacher, and clears the flag |
| DemoBot.SelectStepSpec | demo.js:241-255 | a session without subject or roster expires; an invalid number changes nothing; a valid one moves to that student and drops the roster |
| DemoBot.StatusStepRejects | demo.js:334-337 | a text that is not P/A/H/N re-prompts and changes nothing |
| DemoBot.StatusStepWrites | demo.js:334-350 | the status step writes today's upper-cased status, notifies the student, and returns to selection mode without a roster |
| DemoBot.RemoveStudentReply | demo.js:419-426 | `remove.student.N` removes the N-th student as `removeStudent` does and replies "Unknown Student" |
| DemoProcess.DropOwned | demo.js:106-108 | the deletion loop removes exactly the students of the teacher, in place |
| DemoProcess.Bot.constructor | demo.js:7-10 | the bot starts with empty stores and nothing pending |
| DemoProcess.Bot.RemoveSubject | demo.js:82-89 | in place, `removeSubject` leaves the stores `DropSubject` gives, and only those |
| DemoProcess.Bot.RemoveStudent | demo.js:90-101 | in place, `removeStudent` leaves the stores `DropStudent` gives, and only those |
| DemoProcess.Bot.RemoveTeacher | demo.js:102-111 | in place, `removeTeacher` leaves the stores `DropTeacher` gives, and only those |
| DemoProcess.Bot.RegisterTeacher | demo.js:186-194 | the fields after the name step are those of `NameStep` |
| DemoProcess.Bot.AddSubject | demo.js:196-209 | the fields after the subject step are those of `SubjectStep` |
| DemoProcess.Bot.AddStudent | demo.js:219-238 | the fields after the phone step, with its seeding loop, are those of `PhoneStep` |
| DemoProcess.Bot.MarkStatus | demo.js:334-350 | the fields, reply and notification of the status step are those of `StatusStep` |
| DemoProcess.Bot.OnMessage | demo.js:168-457 | every message leaves the fields, reply and notifications that `Step` gives |
| DemoProcess.Bot.PerformPending | demo.js:186-255 | the pending steps, performed in place, agree with `Perform` |
| DemoProcess.Bot.PerformPrompt | demo.js:278-298 | the commands that set an awaiting flag agree with `Perform` |
| DemoProcess.Bot.PerformMarking | demo.js:318-350 | `subject.N` and the status step agree with `Perform` |
| DemoProcess.Bot.OpenSessionAt | demo.js:318-333 | `subject.N`, performed in place, agrees with `OpenSession` and changes only the sessions |
| DemoProcess.Bot.PerformRemoval | demo.js:403-434 | the removal commands agree with `Perform` |
| DemoProcess.Bot.RemoveSubjectAt | demo.js:403-410 | `remove.subject.N` agrees with `RemoveSubjectStep` |
| DemoProcess.Bot.RemoveStudentAt | demo.js:419-426 | `remove.student.N` agrees with `RemoveStudentStep` |
| DemoProcess.Bot.DeleteAccount | demo.js:431-434 | `confirm.delete.account` leaves the stores of `removeTeacher(from)` and keeps the pending maps |
| GroupBot.TeacherRows | index.js:484-492 | `/teachers` gives each teacher's name and number of subjects |
| GroupBot.TruthyRows | index.js:614-631 | `/myattendance` gives a row, with the entry's tally, exactly for the subjects where the student's entry is truthy |
| GroupBot.TruthyRowsInOrder | index.js:613-615 | the `/myattendance` rows follow the `for…in` order of the subjects |
| GroupBot.DeliveredCount | index.js:745-746 | the count of delivered notifications is at most the roster length |
| GroupBot.DeliveredCountBounds | index.js:745-746 | the count is the whole roster when every send succeeds, and 0 when none does |
| GroupBot.BulkNoticesAt | index.js:739-746 | the i-th bulk notification goes to the i-th student of the snapshot |
| GroupBot.BulkPrefixStep | index.js:739-747 | each pass of the bulk loop counts one more delivery exactly when the send to that student succeeds, and appends that student's notification |
| GroupBot.OutsideIgnored | index.js:113 | a message from any chat but the group changes nothing and gets no answer |
| GroupBot.PendingFirst | index.js:116-232 | in the group, the pending steps come first, in the order name, subject, student name, phone, attendance subject |
| GroupBot.SessionCommands | index.js:347 | `subject.N` needs no open session; `student.N X` and `bulk` act on the open one; `bulk X` also needs bulk mode |
| GroupBot.StatusAfterTwoSpaces | index.js:637-640 | `student.1  P` matches and stores the empty status |
| GroupBot.StatusAfterTab | index.js:637-640 | `student.1<TAB>P` matches and stores `undefined` |
| GroupBot.NameStepResets | index.js:116-124 | registering again makes the sender a teacher with no subjects |
| GroupBot.SubjectStepSpec | index.js:127-138 | the subject step adds an empty ledger exactly when the subject is neither an own key nor an inherited name, otherwise says it exists; it clears the flag, and throws when the sender has no attendance map |
| GroupBot.InheritedSubjectExists | index.js:127-138 | adding the subject `constructor` answers "already exists" and changes no store |
| GroupBot.StudentNameStepSpec | index.js:141-156 | the student-name step moves to the phone step, carrying the name |
| GroupBot.PhoneStepSpec | index.js:159-190 | the phone step records the student (replacing any with that id), seeds the sender's subjects and clears the flag |
| GroupBot.AttendanceSubjectStepSpec | index.js:193-232 | the attendance-subject step refuses non-teachers and unknown subjects, opens nothing without students, and otherwise opens a session without a roster |
| GroupBot.RosterlessSession | index.js:643-646 | on a session without a roster, `student.N X`, `bulk` and `bulk X` answer "missing information" and change nothing |
| GroupBot.OpenSessionSpec | index.js:347-389 | `subject.N` out of range is refused; no students means no session; otherwise a session opens with a snapshot of the roster |
| GroupBot.MarkStudentRejects | index.js:646-684 | `student.N X` without a complete session, or with N outside the snapshot, changes nothing |
| GroupBot.MarkStudentWrites | index.js:648-681 | `student.N X` writes today's value for the N-th snapshot student (last write wins), keeps the session and notifies the student |
| GroupBot.BulkPromptSpec | index.js:688-707 | `bulk` on a complete session turns bulk mode on and changes nothing else |
| GroupBot.BulkStepSpec | index.js:710-764 | `bulk X` writes X for every snapshot student, reports all of them as marked, sends one notification each and closes the session |
| GroupBot.BulkStepFrame | index.js:730-736 | `bulk X` leaves other students, other subjects and other teachers unchanged |
| GroupBot.LegacyStepSpec | index.js:773-787 | `/present-…` stores the letter directly under today's date in the subject, creating it when needed; nothing else changes |
| GroupBot.LegacyCommandParts | index.js:773-778 | `/present-`, `/absent-` and `/holiday-` give P, A and H; the subject is the text up to the next `-`, with `_` turned into spaces |
| GroupBot.LegacyPresent | index.js:773-778 | `/present-<rest>` gives P and the subject of `rest` |
| GroupBot.LegacyAbsent | index.js:773-778 | `/absent-<rest>` gives A and the subject of `rest` |
| GroupBot.LegacyHoliday | index.js:773-778 | `/holiday-<rest>` gives H and the subject of `rest` |
| GroupBot.LowReplySpec | index.js:453-466 | option 5 lists exactly the low subjects, in the order of the subjects, and gives the all-clear exactly when there are none |
| GroupBot.InitialGroupKeyed | index.js:100-107 | the empty start state keys everything by the group |
| GroupBot.AnswersKeepState | index.js:234-343 | the answering branches change no state and notify nobody |
| GroupBot.StepKeepsGroupKeyed | index.js:108-113 | after any message, every awaiting map, teacher and attendance key is the group id, and every student belongs to it |
| GroupBot.PerformKeepsGroupKeyed | index.js:108-787 | each branch performed for the group keeps the stores keyed by the group |
| GroupBot.PendingKeepsGroupKeyed | index.js:116-232 | the pending steps keep the stores keyed by the group |
| GroupBot.NameStepKeyed | index.js:116-124 | the name step keeps the stores keyed by the group |
| GroupBot.SubjectStepKeyed | index.js:127-138 | the subject step keeps the stores keyed by the group |
| GroupBot.PhoneStepKeyed | index.js:159-190 | the phone step keeps the stores keyed by the group, and student ids end in `@c.us` |
| GroupBot.AttendanceSubjectStepKeyed | index.js:193-232 | the attendance-subject step keeps the stores keyed by the group |
| GroupBot.MarkingKeepsGroupKeyed | index.js:347-787 | the marking commands keep the stores keyed by the group |
| GroupBot.MarkingFrame | index.js:347-787 | the marking commands change only the attendance and the session of the sender; people and dialogue steps stay as they were |
| GroupBot.MyAttendanceUnreachable | index.js:604 | `/myattendance` is never served, because the group id is no student id |
| GroupBot.RouteGuards | index.js:127 | the subject step is reached only with its flag set, and option 1 only by a teacher |
| GroupBot.StepKeepsCoherent | index.js:127-138 | from a state where every teacher has an attendance map, no message throws and that property is kept |
| GroupBot.PerformKeepsCoherent | index.js:108-787 | each branch keeps every teacher with an attendance map and does not throw |
| GroupBot.AnswersNeverCrash | index.js:234-343 | the answering branches never throw |
| GroupBot.PendingKeepsCoherent | index.js:116-232 | the pending steps do not throw and keep every teacher with an attendance map |
| GroupBot.PromptKeepsCoherent | index.js:262-307 | the commands that set an awaiting flag do not throw, and option 1 is awaited only for a teacher with an attendance map |
| GroupBot.AttendanceSubjectStepCoherent | index.js:193-232 | the attendance-subject step does not throw for a teacher with an attendance map |
| GroupBot.PhoneStepCoherent | index.js:159-190 | the phone step keeps every teacher with an attendance map |
| GroupBot.MarkingKeepsCoherent | index.js:347-787 | the marking commands keep every teacher with an attendance map |
| GroupProcess.BulkWrite | index.js:727-747 | the bulk loop leaves the attendance of `MarkAll`, counts every roster entry as marked, counts the delivered notices and sends them in roster order |
| GroupProcess.Bot.constructor | index.js:7-9 | the bot starts with empty stores and nothing pending |
| GroupProcess.Bot.RegisterTeacher | index.js:116-124 | the fields after the name step are those of `NameStep` |
| GroupProcess.Bot.AddSubject | index.js:127-138 | the fields after the subject step are those of `SubjectStep`, including the throw |
| GroupProcess.Bot.AddStudent | index.js:159-190 | the fields after the phone step, with its seeding loop, are those of `PhoneStep` |
| GroupProcess.Bot.ChooseAttendanceSubject | index.js:193-232 | the fields after the attendance-subject step are those of `AttendanceSubjectStep` |
| GroupProcess.Bot.MarkStudent | index.js:637-684 | `student.N X`, performed in place, agrees with `MarkStudentStep` |
| GroupProcess.Bot.MarkBulk | index.js:710-764 | `bulk X`, performed in place by the loop, agrees with `BulkStep` |
| GroupProcess.Bot.OnMessage | index.js:108-787 | every message leaves the fields, reply and notifications that `Step` gives |
| GroupProcess.Bot.PerformPending | index.js:116-232 | the pending steps, performed in place, agree with `Perform` |
| GroupProcess.Bot.PerformPrompt | index.js:262-307 | the commands that set an awaiting flag agree with `Perform` |
| GroupProcess.Bot.PerformMarking | index.js:347-787 | the marking and legacy commands agree with `Perform` |
| GroupProcess.Bot.OpenSessionAt | index.js:347-389 | `subject.N`, performed in place, agrees with `OpenSession` |
| GroupProcess.Bot.StartBulk | index.js:688-707 | `bulk`, performed in place, agrees with `BulkPromptStep` |
| GroupProcess.Bot.MarkLegacy | index.js:773-787 | `/present-…` and friends, performed in place, agree with `LegacyStep` |
| WebApp.RemoveAll | streamlit_app.py:288 | `str.replace(c, '')` never lengthens the text |
| WebApp.RemoveAllSpec | streamlit_app.py:288 | `str.replace(c, '')` keeps exactly the characters other than `c`, and is the identity when `c` is absent |
| WebApp.RemoveAllAppend | streamlit_app.py:288 | `replace` distributes over concatenation |
| WebApp.WebStudentId | streamlit_app.py:288 | the web id ends in `@c.us` |
| WebApp.WebIdCharacters | streamlit_app.py:288 | the part before `@c.us` holds exactly the characters of the phone other than `+` and space |
| WebApp.WebIdIgnoresSeparators | streamlit_app.py:288 | a `+` or a space anywhere in the phone does not change the id |
| WebApp.UnspacedDigits | streamlit_app.py:288 | on digits, `+` and spaces, the web clean-up equals the bots' digit filter |
| WebApp.WebIdMatchesBotsExactly | streamlit_app.py:288 | the web id and the bots' id agree exactly when the phone holds only digits, `+` and spaces |
| WebApp.AddSubjectSpec | streamlit_app.py:247-256 | "Add Subject" adds an empty ledger last exactly when the name is non-empty and new; a refusal changes nothing |
| WebApp.AddThenDeleteSubject | streamlit_app.py:247-274 | "Delete" right after "Add Subject" restores the stores |
| WebApp.EnrollWebSpec | streamlit_app.py:286-306 | "Add Student" adds a student exactly when both fields are filled and the id is new; an existing id changes nothing |
| WebApp.EnrollWebSeeds | streamlit_app.py:297-299 | every subject of the teacher gets an empty entry for the new student when it lacks one; other entries and the P/A counts are unchanged |
| WebApp.DropWebStudentSpec | streamlit_app.py:322-329 | "Remove" deletes the student's entries from every subject of the teacher, then the record; everything else is unchanged |
| WebApp.EnrollThenDrop | streamlit_app.py:286-329 | removing a student just added, who had no entries, restores the stores |
| WebApp.SeedThenDrop | streamlit_app.py:297-326 | seeding an absent student and deleting their entries restores the subjects |
| WebApp.DropEnrolled | streamlit_app.py:322-327 | deleting a freshly recorded and seeded student restores the registry |
| WebApp.Letters | streamlit_app.py:365-369 | `status[0]` of each label gives P, A, H or N, row by row |
| WebApp.WebMarkSpec | streamlit_app.py:375-377 | a save row raises exactly on a string entry; otherwise it writes the letter for today and touches nothing else |
| WebApp.WebMarkOwn | streamlit_app.py:377 | a row that does not raise writes its letter for the date |
| WebApp.WebMarkOther | streamlit_app.py:377 | a row that does not raise leaves other students' cells unchanged |
| WebApp.WebMarkKeeps | streamlit_app.py:377 | a row that does not raise leaves every other student's entry as it was |
| WebApp.WebMarkCells | streamlit_app.py:375-377 | a row on a non-string entry gives the date the letter and keeps the student's other dates |
| WebApp.WebMarkAllPrefix | streamlit_app.py:374-377 | the save loop takes one row at a time and stops at the first row that raises |
| WebApp.WebMarkAllStopped | streamlit_app.py:374-377 | once a row has raised, later rows change nothing |
| WebApp.WebMarkAllFrame | streamlit_app.py:374-377 | the save loop leaves students outside the rows unchanged |
| WebApp.WebMarkAllRaises | streamlit_app.py:374-377 | the save loop completes exactly when no listed student has a string entry |
| WebApp.WebMarkAllWritesAt | streamlit_app.py:374-377 | after a completed save, row i's student has row i's letter for today |
| WebApp.WebMarkAllWrites | streamlit_app.py:372-381 | after a completed save, every listed student has their chosen letter for today |
| WebApp.SaveRows | streamlit_app.py:374-377 | the save loop gives the ledger and completion flag of `WebMarkAll` |
| WebApp.RowSubjects | streamlit_app.py:533-535 | the subject headings of the student page, in order |
| WebApp.ViewRowsRaises | streamlit_app.py:533-543 | the student page raises exactly when one of the teacher's subjects holds a string entry for the student |
| WebApp.ViewRowsFigures | streamlit_app.py:533-545 | the student page shows exactly the subjects holding an entry for the student, in subject order, with its P/A/H/N counts and a percentage in [0,100] |
| WebApp.StudentViewSpec | streamlit_app.py:514-545 | an unknown student raises; no teacher or no subject map gives "no data"; otherwise the page shows the figures of the teacher's subjects that hold an entry for the student, in the teacher's subject order |
| WebApp.ReportRows | streamlit_app.py:429-442 | one student-wise report row per entry of the subject |
| WebApp.ReportRowsAddUp | streamlit_app.py:400-434 | the student-wise P and A columns add up to the subject's overall P and A figures |
| WebApp.ReportRowsPercent | streamlit_app.py:431-434 | each row's total is P + A and its percentage lies in [0,100] |
| WebApp.App.constructor | streamlit_app.py:69-76 | the session starts with empty data and nobody logged in |
| WebApp.App.TeacherLogin | streamlit_app.py:123-137 | the teacher login records the name and creates the subject map only when it is missing; an empty name changes nothing |
| WebApp.App.StudentLogin | streamlit_app.py:143-156 | the student login records the student under the web id, with the current teacher, replacing any record with that id; a missing field changes nothing |
| WebApp.App.Logout | streamlit_app.py:159-162 | logout clears both logins and keeps the data |
| WebApp.App.AddSubject | streamlit_app.py:246-256 | "Add Subject" in place leaves the stores `AddSubjectTo` gives |
| WebApp.App.DeleteSubject | streamlit_app.py:271-274 | "Delete" removes only that subject of the logged-in teacher |
| WebApp.App.AddStudent | streamlit_app.py:286-306 | "Add Student", with its seeding loop, leaves the registry `EnrollWeb` gives |
| WebApp.App.RemoveStudent | streamlit_app.py:322-329 | "Remove", with its deletion loop, leaves the registry `DropWebStudent` gives |
| WebApp.App.SaveAttendance | streamlit_app.py:372-381 | "Save Attendance" writes the rows of `WebMarkAll` over the teacher's students in listing order and keeps the rows written before a raise |

## Left out

- **External services.**
  - The WhatsApp client, QR codes, puppeteer, `client.initialize` and the retry loop are external transport.
  - Sending replies and notifications is left out. A reply is modelled by its kind and the data it shows. A notification's success is the parameter `delivered`.
- **Persistence.** `saveData`, `loadData` and `save_data`/`load_data` are file I/O. The stores start empty, and nothing is written to disk.
- **Time.**
  - The rate limit of the private-chat bot and the registration timestamps are left out.
  - Today's date is a parameter.
- **The daily 75% alert job in `index.js`.** It is scheduling plus sending. Its subject test is the one `Reports.Low` models.
- **The `selectedButtonId` branches of `index.js`.** They are tied to a UI library, and their subject reconstruction loses information.
- **Web rendering.** Streamlit, pandas and plotly rendering are left out, as are the welcome-page statistics and the analytics charts of the web page.
- **Web teacher id.** The web teacher id `hash(name) % 10000` is randomised per process. `WebApp.App.TeacherLogin` takes the id as a parameter.
- **Other files.** `generate-qr.js` and `run_streamlit.py` are log scraping and a process launcher. They are not part of this model.
- **The unused `cache` maps of `demo.js`.**
- **Reports.Percent: uses exact rationals, not floating point.** The bots' `toFixed(1)` string is modelled by `Reports.Tenths` as exact half-up rounding. At an exact tie, binary floating point can round the other way.
- **WebApp.App.StudentLogin: stores `""` for a `None` teacher.** With nobody logged in, Python stores `None` as the teacherId. The model stores `""`, which behaves the same in every comparison the page makes: both are falsy, and neither equals a logged-in teacher id.
- **WebApp.App.SaveAttendance: no file save after an error.** When a row raises, the page stops with an error, so the in-memory writes made before it are never saved to the file.
- **WebApp.ReportRows: requires every entry to be a date map.** The overall figures above the rows (`Reports.SubjectTally`) raise first on any string entry, so the rows are built only when every entry is a date map.
- **Records.SubjectsOf, DemoBot.SubjectStep, GroupBot.SubjectStep: subjects are kept in insertion order.** A JavaScript object lists integer-like keys (`"2"`, `"10"`) first, in ascending numeric order, and then the other keys in insertion order. The model keeps every subject in insertion order. So after adding `Math` and then `10`, `subject.1`, `report.N`, option 5 and `remove.subject.N` (index.js:349-351 and 456, demo.js:318-410) pick `10` in JavaScript but `Math` in the model.
- **GroupBot.AttendanceSubjectStepSpec: inherited names count as missing subjects.** At index.js:202 the lookup `attendance[from][subject]` finds `constructor` on the prototype and opens a session for it. The model answers "subject not found". Only the subject step models inherited names.
- **GroupBot.LegacyStepSpec: inherited names become own subjects.** `/present-constructor` (index.js:782-783) finds the inherited `constructor` and writes the date onto the shared `Object` function. The model creates an own subject `constructor` instead.
- **Interleaving at `await`.** Each message is handled to the end as one step. In JavaScript the bulk loop awaits each notification (index.js:745) and closes the session only after the loop (index.js:762), and the demo status step awaits its notification (demo.js:347). Since every group message is keyed by the one group id (index.js:113), a message handled during those waits sees a half-finished step. The model does not capture such interleavings.
- **Unreachable commands.** `/myattendance` in `index.js` and the `A`/`B` removal menus in `demo.js` are modelled but unreachable, as proved above.
