# School administration record store, in Dafny

This project models the server side of a small school administration web
application. It keeps four collections of records — students, teachers,
peons (support staff) and guards — each as one JSON array in a file. Every
entity has the same five server actions:

- `get*` returns the whole collection;
- `get*ById` returns the first record whose `id` equals `parseInt(id)`;
- `delete*` filters out the records with a given id and rewrites the file;
- `update*` spreads submitted fields over the first matching record and
  rewrites the file;
- `create*` trims and validates the submitted form, collecting every field
  error at once. It then refuses an email the collection already has.
  Otherwise it appends a record whose id is `generateId(existing)`.

The modules follow the program:

- `Text` holds the JavaScript string primitives the actions rely on:
  - `trim` and the `\s` class;
  - `split(",")` followed by `map(trim)` and `filter`;
  - global `parseInt` without a radix, including its `0x` prefix and `NaN`;
  - the email pattern `^[^\s@]+@[^\s@]+\.[^\s@]+$`, both as a scan and as a
    statement about the regular expression, proved equivalent.
- `Records` holds JSON values, records and submitted forms, and the
  `formData.get(k) || null` idioms.
- `DataUtils` models `src/lib/dataUtils.js`:
  - `Store` is a class whose `files` field maps each collection name to its
    records. Its `readOnly` field names the files that cannot be written.
  - `ReadDataFile` reads a missing or unreadable file as `[]`.
    `WriteDataFile` reports `true`, or reports `false` and changes nothing.
  - `GenerateId` is the id allocator.
- `Collections` holds the array operations the actions share: the id filter,
  `find`/`findIndex`, the duplicate-email test and the spread-and-replace of an
  update. Beside them are the uniqueness invariants those operations keep or
  break.
- `Validation` and `Repository` hold the checks and the create/update/delete
  steps that all four entities share.
- `Students`, `StudentsAdd`, `Teachers`, `Peons` and `Guards` hold one
  module per actions file.

Clocks, `parseFloat` and the file system are inputs. The current time is a
string `now`. `parseFloat` is a function `string -> Option<real>`, with
`None` standing for `NaN`. The directory of JSON files is the `Store`.

Four behaviours of the code are worth stating plainly, because a reader
might expect otherwise:

- No update action validates its fields.
- Delete reports success even when no record has the id.
- Create, update and delete report success even when the write fails.
- `generateId` returns the largest id plus one. That can be zero or negative
  when stored ids are negative, and it reuses the id of a deleted last
  record.

## Model

| member | source | states |
|---|---|---|
| DataUtils.Store.ReadDataFile | src/lib/dataUtils.js:6-15 | a stored collection reads as itself; a missing or unreadable one reads as `[]`, never as an error |
| DataUtils.Store.WriteDataFile | src/lib/dataUtils.js:17-26 | `true` exactly when the file is writable, and then reading the collection back gives the data written; `false` (a file that cannot be opened) changes nothing; other collections are untouched either way |
| DataUtils.MaxId | src/lib/dataUtils.js:35-43 | `None` exactly when no record has a numeric id; otherwise the result bounds every numeric id and is one of them |
| DataUtils.GenerateId | src/lib/dataUtils.js:28-45 | 1 for an empty collection or one without numeric ids; otherwise strictly above every numeric id (so fresh) and equal to the largest plus one |
| DataUtils.GenerateIdPermutation | src/lib/dataUtils.js:35-44 | the allocated id depends only on which records there are, not on their order |
| Records.Id | src/lib/dataUtils.js:36 | a record has an id exactly when its `id` field holds a number |
| Records.IdField | src/app/students/actions.js:18-19 | the `id` field of a record, `undefined` (`None`) exactly when it is absent |
| Records.HasIdCases | src/app/students/actions.js:18-19 | `student.id === studentId`, case by case: a number matches an equal number, a string the same string, `undefined` a record without `id`; a list never matches |
| Records.EmailOf | src/app/students/add/actions.js:62-64 | a record has a comparable email exactly when its `email` field holds a string |
| Records.Trimmed | src/app/students/add/actions.js:8-10 | the trimmed field is `trim` of the submitted value, so it has no whitespace at either end; an absent field reads as empty |
| Records.MissingTrimmed | src/app/students/add/actions.js:14-16 | a field fails `!value` after `trim` exactly when it is absent or only whitespace |
| Records.Raw | src/app/students/actions.js:54-56 | a submitted value is stored as the very string given, and as `null` exactly when absent |
| Records.OrElse | src/app/students/add/actions.js:81-82 | `formData.get(k) \|\| fallback`: the value when present and non-empty, the fallback otherwise |
| Records.IntOrNull | src/app/students/add/actions.js:80 | a number exactly when the field is given and `parseInt` yields a number, and then that number; `null` otherwise |
| Records.RealOrNull | src/app/students/add/actions.js:83 | a number exactly when the field is given and `parseFloat` yields one; `null` otherwise |
| Records.ListOrEmpty | src/app/students/add/actions.js:84-90 | a list: the parsed input when given, `[]` when not |
| Text.TrimStart | src/app/students/add/actions.js:8 | the result is no longer than the input and does not start with whitespace |
| Text.TrimStartShape | src/app/students/add/actions.js:8 | what `TrimStart` keeps is a suffix of the input, and what it cuts is whitespace |
| Text.TrimEnd | src/app/students/add/actions.js:8 | the result is no longer than the input and does not end with whitespace |
| Text.TrimEndShape | src/app/students/add/actions.js:8 | what `TrimEnd` keeps is a prefix of the input, and what it cuts is whitespace |
| Text.Trim | src/app/students/add/actions.js:8-10 | the result has no whitespace at either end |
| Text.TrimShape | src/app/students/add/actions.js:8-10 | the input is whitespace, then the trimmed string, then whitespace |
| Text.TrimTrimmed | src/app/students/add/actions.js:8-10 | trimming a string without outer whitespace leaves it as it is, so `trim` is idempotent |
| Text.TrimBlank | src/app/students/add/actions.js:14-16 | trimming leaves nothing exactly when the input is all whitespace |
| Text.Split | src/app/students/add/actions.js:87 | `split` yields at least one piece, and no piece holds the separator |
| Text.JoinSplit | src/app/students/add/actions.js:87 | joining the pieces of a split with the separator gives back the input |
| Text.SplitJoin | src/app/students/add/actions.js:87 | splitting a join of separator-free pieces gives back the pieces |
| Text.TrimAndDropEmpty | src/app/students/add/actions.js:88-89 | every kept item is non-empty and trimmed, and no more items come out than went in |
| Text.TrimAndDropEmptyPiece | src/app/students/add/actions.js:88-89 | one piece gives its trim, or nothing when the trim is empty |
| Text.TrimAndDropEmptyConcat | src/app/students/add/actions.js:88-89 | the pipeline works piece by piece and keeps order: it distributes over concatenation |
| Text.TrimAndDropEmptyMembers | src/app/students/add/actions.js:88-89 | the items kept are exactly the non-empty trims of the pieces |
| Text.TrimAndDropEmptyClean | src/app/students/add/actions.js:88-89 | items that are already non-empty and trimmed all survive, in order |
| Text.ParseList | src/app/peons/actions.js:109-115 | the items are `split(",")`, then `trim` of each piece, then the non-empty ones; each is non-empty, trimmed and comma-free |
| Text.ParseListJoin | src/app/students/add/actions.js:84-90 | a list of such items, joined with commas, parses back to itself |
| Text.DigitRun | src/app/students/add/actions.js:35 | the run `parseInt` reads stops at the first non-digit or at the end |
| Text.DigitRunDigits | src/app/students/add/actions.js:35 | every character of that run is a digit, so the run is the longest prefix of digits |
| Text.NaturalValue | src/app/students/add/actions.js:35 | a decimal numeral is one digit run with the value it denotes |
| Text.TrimStartWhitespace | src/app/students/add/actions.js:35 | leading whitespace is skipped up to the first other character |
| Text.LeadingNumberPrefix | src/app/students/add/actions.js:35 | digits followed by a non-digit are read as the value of the digits alone |
| Text.ParseIntNumeral | src/app/students/add/actions.js:35 | `parseInt` skips leading whitespace, takes an optional `-`, reads the decimal digits and ignores whatever follows the last digit |
| Text.ParseIntHex | src/app/students/add/actions.js:35 | after whitespace and an optional sign, a `0x` or `0X` prefix switches to base 16, read up to the first non-hex character |
| Text.ParseIntNoDigits | src/app/students/add/actions.js:35 | with no digit after the whitespace and the sign, the result is `NaN` |
| Text.ParseIntSigned | src/app/students/add/actions.js:35 | a `-` negates the magnitude read after it, a `+` or no sign leaves it |
| Text.ParseIntDecimalExamples | src/app/students/add/actions.js:35 | `" 12abc"` reads 12 and `"-7"` reads -7 |
| Text.ParseIntOtherExamples | src/app/students/add/actions.js:35 | `"0x1A"` reads 26 and `"+ 5"` is `NaN` |
| Text.ParseIntDecimal | src/app/students/actions.js:32 | `parseInt` reads back the decimal numeral of every integer, as it does for the id in a record's edit address |
| Text.IndexOf | src/app/students/add/actions.js:22-23 | the position of the first `@` |
| Text.ValidEmailMatches | src/app/students/add/actions.js:22-23 | every email the scan accepts matches `^[^\s@]+@[^\s@]+\.[^\s@]+$` |
| Text.MatchesValidEmail | src/app/students/add/actions.js:22-23 | every string the pattern matches passes the scan |
| Text.EmailCheckMatchesPattern | src/app/students/add/actions.js:22-23 | the scan accepts exactly the strings the pattern matches |
| Validation.Required | src/app/students/add/actions.js:14-16 | the field's message exactly when the trimmed field is missing |
| Validation.EmailProblem | src/app/students/add/actions.js:18-26 | no problem exactly when the trimmed email is present and matches the pattern; "Email is required" when missing, "Please enter a valid email address" when malformed |
| Validation.IntRange | src/app/students/add/actions.js:33-39 | an error exactly when the field is given and `parseInt` gives `NaN` or a value outside the bounds |
| Validation.RealRange | src/app/students/add/actions.js:42-48 | an error exactly when the field is given and `parseFloat` gives `NaN` or a value outside the bounds |
| Collections.Without | src/app/students/actions.js:18-20 | no record whose `id` is `===` the deleted id is left, and nothing is added |
| Collections.WithoutCounts | src/app/students/actions.js:18-20 | each record without the id is kept as many times as it occurred; each record with it is dropped |
| Collections.WithoutConcat | src/app/students/actions.js:18-20 | the filter keeps order: it distributes over concatenation |
| Collections.WithoutAbsent | src/app/students/actions.js:18-22 | deleting an id no record has leaves the collection equal to what it was |
| Collections.WithoutFrom | src/app/students/actions.js:18-20 | every kept record was in the collection |
| Collections.WithoutKeepsUniqueIds | src/app/students/actions.js:18-21 | delete keeps ids unique |
| Collections.WithoutKeepsUniqueEmails | src/app/students/actions.js:18-21 | delete keeps emails unique |
| Collections.FindIndex | src/app/students/actions.js:46 | the index of the first record whose id equals the key, or none when there is none or the key is `NaN` |
| Collections.FindById | src/app/students/actions.js:32-35 | the first record with that id; none exactly when the key is `NaN` or no record has it |
| Collections.AppendKeepsUnique | src/app/students/add/actions.js:61-99 | appending a record with the allocated id and an unused email keeps ids and emails unique and leaves the earlier records unchanged |
| Collections.Merge | src/app/students/actions.js:52-62 | the spread: listed fields overwritten, every other field kept |
| Collections.Replaced | src/app/students/actions.js:46-65 | same length; unchanged when no record matches; otherwise only the first matching index changes, with listed fields overwritten and the rest kept |
| Collections.ReplacedKeepsIds | src/app/students/actions.js:52-65 | an update that does not list `id` changes no id, so ids stay unique |
| Collections.ReplacedDuplicatesEmail | src/app/students/actions.js:52-65 | an update can give a record another record's email: unique emails before, a duplicate after |
| Collections.ReplacedChecked | src/app/students/actions.js:52-65 | the corrected update: it refuses exactly when the merged record's email is another record's email; when it writes, it writes what the update writes, and it keeps emails unique |
| Repository.Create | src/app/students/add/actions.js:51-106 | writes exactly when there are no errors and the email is unused, and then appends the one record after the earlier ones; otherwise the errors, or only the duplicate-email error |
| Repository.CreateKeepsUnique | src/app/students/add/actions.js:61-99 | a create that appends a record with the allocated id and the checked email keeps ids and emails unique |
| Repository.Add | src/app/students/add/actions.js:51-106 | returns the state `Create` decides and writes the collection it decides, or nothing; keeps ids and emails unique |
| Repository.Remove | src/app/students/actions.js:17-21 | writes the filtered collection; leaves it unchanged when the id is absent; keeps ids and emails unique |
| Repository.Update | src/app/students/actions.js:45-65 | found exactly when a record has the id; writes nothing when none does, else the replaced collection; keeps ids unique |
| Students.GetStudents | src/app/students/actions.js:5-13 | the whole stored collection, unfiltered |
| Students.DeleteStudent | src/app/students/actions.js:15-27 | writes the collection without the records whose `id` is `===` the argument (a number, a string or `undefined`) and reports success even when none has it, in which case the collection is unchanged; keeps ids and emails unique |
| Students.GetStudentById | src/app/students/actions.js:29-41 | the first record with `id === parseInt(id)`, or "Student not found" exactly when there is none |
| Students.StudentFields | src/app/students/actions.js:52-62 | lists name, email, grade, age, phone, parent name, address and `updatedAt`, so `id`, `createdAt`, `gpa` and `subjects` survive |
| Students.UpdateStudent | src/app/students/actions.js:43-72 | "Student not found" and no write for an absent id; otherwise only the first match changes; ids stay unique |
| StudentsAdd.StudentErrors | src/app/students/add/actions.js:8-48 | one keyed error for each of: missing name, missing or malformed email, missing grade, age given but outside 5..25, GPA given but outside 0..4, all together |
| StudentsAdd.NewStudent | src/app/students/add/actions.js:75-93 | the appended record carries the given id and the trimmed name, email and grade; age is `parseInt` of the field or `null`, GPA `parseFloat` or `null`; phone and address the value or `null`; subjects the parsed list or `[]` |
| StudentsAdd.CreateStudent | src/app/students/add/actions.js:5-116 | field errors, or the duplicate-email error, leave the files unchanged; success appends one student with `generateId(prior)`; ids and emails stay unique |
| Teachers.GetTeachers | src/app/teachers/actions.js:5-13 | the whole stored collection, unfiltered |
| Teachers.DeleteTeacher | src/app/teachers/actions.js:15-27 | as for students: the id's records removed, order kept, absent id leaves the collection unchanged |
| Teachers.GetTeacherById | src/app/teachers/actions.js:29-41 | the first match, or "Teacher not found" exactly when there is none |
| Teachers.TeacherFields | src/app/teachers/actions.js:52-64 | lists name, email, subject and qualification as submitted, experience as `parseInt` of the field or `null`, phone and office the value or `null`, and `updatedAt`; not `id` or `createdAt` |
| Teachers.UpdateTeacher | src/app/teachers/actions.js:43-74 | "Teacher not found" and no write for an absent id; otherwise only the first match changes; ids stay unique |
| Teachers.TeacherErrors | src/app/teachers/actions.js:79-115 | one keyed error for each of: missing name, subject or qualification, missing or malformed email, experience given but outside 0..50 |
| Teachers.NewTeacher | src/app/teachers/actions.js:142-153 | the appended record carries the given id and the trimmed fields; experience is `parseInt` of the field or `null`; phone and office the value or `null` |
| Teachers.CreateTeacher | src/app/teachers/actions.js:76-176 | failures leave the files unchanged; success appends one teacher with `generateId(prior)`; ids and emails stay unique |
| Peons.GetPeons | src/app/peons/actions.js:5-13 | the whole stored collection, unfiltered |
| Peons.DeletePeon | src/app/peons/actions.js:15-25 | the id's records removed, order kept, absent id leaves the collection unchanged |
| Peons.GetPeonById | src/app/peons/actions.js:27-39 | the first match, or "Peon not found" exactly when there is none |
| Peons.PeonErrors | src/app/peons/actions.js:44-75 | one keyed error for each of: missing name or department, missing or malformed email, salary given but `NaN` or below zero |
| Peons.NewPeon | src/app/peons/actions.js:100-118 | the appended record carries the given id and the trimmed fields; salary is `parseFloat` of the field or `null`; shift is "Morning" when empty; responsibilities the parsed list or `[]` |
| Peons.CreatePeon | src/app/peons/actions.js:41-141 | failures leave the files unchanged; success appends one peon with `generateId(prior)`; ids and emails stay unique |
| Peons.PeonFields | src/app/peons/actions.js:152-159 | lists only name, email, phone, address and `updatedAt`, all as submitted, so department, salary, shift, responsibilities, `id` and `createdAt` survive |
| Peons.UpdatePeon | src/app/peons/actions.js:143-169 | "Peon not found" and no write for an absent id; otherwise only the first match changes; ids stay unique |
| Guards.GetGuards | src/app/guards/actions.js:5-13 | the whole stored collection, unfiltered |
| Guards.DeleteGuard | src/app/guards/actions.js:15-25 | the id's records removed, order kept, absent id leaves the collection unchanged |
| Guards.GuardErrors | src/app/guards/actions.js:30-52 | one keyed error for each of: missing name or post, missing or malformed email |
| Guards.NewGuard | src/app/guards/actions.js:77-87 | the appended record carries the given id and the trimmed email; shift is "Morning" when empty; phone and address `null` when empty |
| Guards.CreateGuard | src/app/guards/actions.js:27-110 | failures leave the files unchanged; success appends one guard with `generateId(prior)`; ids and emails stay unique |
| Guards.GetGuardById | src/app/guards/actions.js:112-124 | the first match, or "Guard not found" exactly when there is none |
| Guards.GuardFields | src/app/guards/actions.js:135-144 | lists name, email and post as submitted, phone and address the value or `null`, shift "Morning" when empty, and `updatedAt`; not `id` or `createdAt` |
| Guards.UpdateGuard | src/app/guards/actions.js:126-154 | "Guard not found" and no write for an absent id; otherwise only the first match changes; ids stay unique |

## Left out

- Files, paths and JSON. A collection is a sequence of records in the
  `Store`. A missing file or one that does not parse is a name absent from
  `files`. A file that cannot be written is a name in `readOnly`. JSON
  serialisation is taken to round-trip.
- The `catch` branches of the actions and their "Failed to …" replies.
  Reading never throws, so they only guard against failures outside this
  code.
- The `...prevState` spread of the create actions. A `FormState` holds
  only `success`, `errors` and `message`.
- Concurrency: lost updates between interleaved read-modify-write requests.
- `parseFloat`: it is a parameter. Floating-point rounding and `Infinity`
  are not modelled.
- `Records.Id`: only integral numbers are ids. A non-integral, `NaN` or
  infinite `id` (which `typeof` also calls a number) is not modelled. A
  `null` array entry, which `generateId` skips, is not modelled either.
- Numbers: JavaScript has one number type, so `3 === 3.0`.
  The model keeps integers (`Num`) and reals (`Real`) apart as values, and
  `===` compares them by numeric value. `Id` and the `parseInt` lookups
  take only `Num` ids, so a stored `3.0` is not found by `getStudentById`.
- `DataUtils.GenerateId`: a file holding JSON that is not an array is not
  modelled; every collection is a sequence.
- `Text.ParseInt`: the value is exact, whereas JavaScript rounds numerals
  longer than 2^53 to the nearest double.
- `Records.IntOrNull`: a `NaN` from `parseInt` is stored as `null`, which
  is what the file holds after serialisation.
- Timestamps: `createdAt` and `updatedAt` come from two separate
  `new Date()` calls. Both are taken as the same instant, `now`.
- The delete actions take the id the page passes as it is: a JSON value or
  `undefined` (`None`), compared with `!==`. A number never equals a
  string, and `undefined` equals only a missing `id`.
- `File` values in the submitted form: every form value is a string.
- `DataUtils.Store.WriteDataFile`: a write either succeeds or fails at
  opening the file, leaving it unchanged. A write that truncates the file
  and then fails part way, leaving it empty or cut short, is not modelled.
- Each `update*` action reports success whatever `writeDataFile` returns,
  and so does each `create*` and `delete*` action. The model keeps this;
  no error is propagated.

## Findings

| source | as written | input that shows it | evidently intended | confidence | as-written member | corrected member |
|---|---|---|---|---|---|---|
| src/app/students/actions.js:52-65 (and the same update in src/app/teachers/actions.js:52-67, src/app/peons/actions.js:152-162, src/app/guards/actions.js:135-147) | the update stores the submitted email without checking it against the other records | records `{id: 1, email: "a@x.io"}` and `{id: 2, email: "b@x.io"}`; update id 2 with email `"a@x.io"` | an email used by another record is refused, as create refuses it, so emails stay unique | not executed | Collections.ReplacedDuplicatesEmail | Collections.ReplacedChecked |

The entity `update*` methods model the code as written, through
`Collections.Replaced`. `Collections.ReplacedChecked` is the corrected
update. It refuses exactly the updates that would give the record another
record's email, and it is proved to keep emails unique.
