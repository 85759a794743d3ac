# Student roster engine — a Dafny model

This project models the validation and roster engine of the `classify`
student manager:

- A **student record** (`Student.java`). The constructor accepts a record only when:
  - the name is two ASCII-letter tokens of at least two letters, separated by one space;
  - the email matches `EMAIL_REGEX`;
  - the grade lies in [0, 200];
  - the status is `REG`, `TRAB` or `BOLS`.

  `setEmail` runs the email check again. `classifyGrade` maps a grade to one of the bands Excelente, Bom, Suficiente or Insuficiente.
- The **roster** (`StudentCollection.java`). It is an ordered list of students whose emails are unique up to letter case. It provides:
  - `add`, which refuses a duplicate email;
  - lookup by email (case-insensitive);
  - searches by name substring and by inclusive grade range, each building a new roster with `add`;
  - the grade average;
  - the roster's own iterator.
- **String helpers** (`Utils.java`). These are the email grammar checked by `validateEmail`, and `center`.

Modules:

| module | file | models |
|---|---|---|
| `Wrappers` | `wrappers.dfy` | `Option`, `Result` and `Outcome`, plus `Error`, which has one constructor per exception the core throws |
| `Utils` | `utils.dfy` | the email grammar, its character-level recogniser, and `center` |
| `Students` | `students.dfy` | the field checks, `classifyGrade`, and the class `Student` |
| `Roster` | `roster.dfy` | the class `StudentCollection` and its iterator |

How the email check is modelled:
- `EMAIL_REGEX` is written twice.
  - `IsEmailAddress` is a ghost grammar with the pattern's own structure: dot-separated atoms, then `@`, then two or more dot-separated labels.
  - `Scan` is a finite-state scanner over the characters. `ValidateEmail` runs it.
- `ScanIsExpected` and `MatchesEmailRegexIff` prove that the two accept the same strings.

How the Java is mapped onto Dafny:
- Exceptions become `Fail`/`Failure` values, and the checks run in the constructor's order.
- `Student`'s email is the only field the source updates, so it is the only `var`. The getters are the fields themselves.
- The roster's `ArrayList` is a `seq<Student>` field that `Add` reassigns.
- Every loop of the source is a `while` loop with invariants:
  - `searchByEmail`, `searchByName`, `searchByGrades` and `average`;
  - the `StringBuilder` fill of `center`, over an `array<char>`.
- Each loop is proved against a specification function: `Filter`, `ByName`, `ByGrades`, `SumGrades`, `HasEmail` and `CenteredAt`.

Uniqueness of emails is `StudentCollection.Unique()`:
- `Add` preserves it, starting from the empty roster.
- It is not a class invariant. `Student.SetEmail` checks only the shape of an address, so a member can be given the email of another.
- The two searches therefore fail with `DuplicateEmail` exactly when the students they select share an email. This follows the source's `found.add`.
- A roster with unique emails never makes them fail (`SearchesSucceedOnUniqueRoster`).

## Model

| member | source | states |
|---|---|---|
| Utils.ValidateEmail | src/classify/Utils.java:11-20 | Passes exactly the strings of the EMAIL_REGEX grammar. Otherwise it fails with InvalidEmail carrying the address. |
| Utils.IsEmailAddress | src/classify/Utils.java:11-14 | The language of EMAIL_REGEX, following the pattern's structure. A local part whose dot-separated pieces are all non-empty runs of the pattern's atom class (lower-case letters, digits and its listed punctuation), then '@', then a domain of two or more dot-separated labels. Each label is [a-z0-9], optionally followed by [a-z0-9-]* and a final [a-z0-9]. |
| Utils.Scan | src/classify/Utils.java:11-14 | Runs the pattern's character-by-character recogniser over a string from a given state. One step per character, and a rejected state is never left. |
| Utils.MatchesEmailRegex | src/classify/Utils.java:17 | `email.matches(EMAIL_REGEX)`: the whole string drives the recogniser from its start state into its accepting state. |
| Utils.MatchesEmailRegexIff | src/classify/Utils.java:11-14 | The character scanner ends in its accepting state iff the whole string is local part, '@' and domain as the pattern describes. |
| Utils.ScanIsExpected | src/classify/Utils.java:11-14 | After every prefix, the scanner's state is the one the grammar predicts for that prefix. This covers the local part so far, the domain so far, and rejection. |
| Utils.EmailHasOneAtAndDotAfter | src/classify/Utils.java:12-13 | Every accepted address contains exactly one '@' and at least one '.' after it. |
| Utils.EmailHasNoUpperCase | src/classify/Utils.java:12-13 | No accepted address contains an upper-case letter: the classes are lower-case and the pattern has no case flag. |
| Utils.LocalPartHasNoAt | src/classify/Utils.java:12 | A local part contains neither '@' nor upper-case letters. |
| Utils.DomainHasNoAt | src/classify/Utils.java:13 | A domain contains neither '@' nor upper-case letters, and contains a '.'. |
| Utils.LocalPartShape | src/classify/Utils.java:12 | The local part is non-empty, does not start or end with '.', and has no two consecutive dots. |
| Utils.Center | src/classify/Utils.java:87-105 | Fails with EmptyString on "" and with LengthTooSmall when len <= the string's length. Otherwise it returns len characters: the string at offset (len - length) / 2 and spaces elsewhere, so the right margin equals the left one or exceeds it by one. |
| Students.CheckFields | src/classify/Student.java:14-31 | Passes iff the name, email, parsed grade, status and parsed date are all valid. Otherwise it returns the error of the first failing check, in source order: name, email, grade parse, grade range, status, date parse. |
| Students.IsValidName | src/classify/Student.java:14-18 | The whole name matches ^[a-zA-Z]{2,} [a-zA-Z]{2,}$: a space with a run of at least two ASCII letters on each side and nothing else. |
| Students.IsValidGrade | src/classify/Student.java:25-27 | The check rejects exactly grade < 0 or grade > 200, so both 0 and 200 are accepted. |
| Students.IsValidStatus | src/classify/Student.java:29-31 | Exact, case-sensitive membership in ValidStudentStatus (the constant of src/classify/Student.java:88-92: "REG", "TRAB" and "BOLS"), as `Arrays.asList(...).contains` compares with `equals`. |
| Students.ValidNameShape | src/classify/Student.java:14-18 | An accepted name has exactly one space, at least two characters from either end, and ASCII letters everywhere else. So digits and extra spaces are rejected. |
| Students.TwoTokensAccepted | src/classify/Student.java:14 | Any two tokens of at least two ASCII letters, joined by one space, form an accepted name. |
| Students.SpaceIsUnique | src/classify/Student.java:14 | Two spaces in an accepted name are at the same position. |
| Students.ThreeTokensRejected | src/classify/Student.java:14-18 | Three letter tokens joined by spaces form a rejected name. |
| Students.ClassifyGrade | src/classify/Student.java:74-80 | Total band table with lower bounds included: Excelente iff g >= 180, Bom iff 150 <= g < 180, Suficiente iff 120 <= g < 150, Insuficiente iff g < 120. |
| Students.ClassifyGradeIsMonotone | src/classify/Student.java:74-80 | A larger grade never gets a lower band. |
| Students.Student.constructor | src/classify/Student.java:33-36 | Once the checks pass, the fields hold exactly the arguments and the record is Valid(). |
| Students.Student.SetEmail | src/classify/Student.java:49-52 | A valid address replaces the email. An invalid one fails with InvalidEmail and leaves the email unchanged. Validity of the record is kept. |
| Students.Student.GetTextualGrade | src/classify/Student.java:66-68 | Equals classifyGrade of the student's grade. |
| Students.NewStudent | src/classify/Student.java:7-37 | Succeeds iff CheckFields passes. It then returns a fresh, valid student whose getters return exactly the arguments. Otherwise it reports the first failing check's error. |
| Roster.ToLower | src/classify/StudentCollection.java:20 | `toLowerCase` on ASCII: the same length, each A-Z replaced by its a-z letter, every other character kept. |
| Roster.SameEmail | src/classify/StudentCollection.java:20 | Two emails are equal after lower-casing both sides. |
| Roster.NameMatches | src/classify/StudentCollection.java:30 | The lower-cased query occurs at some offset of the lower-cased name (`contains`). |
| Roster.GradeInRange | src/classify/StudentCollection.java:41 | grade >= min and grade <= max, both bounds included. |
| Roster.SumGrades | src/classify/StudentCollection.java:53-56 | The grades added from the first student to the last, starting from 0. |
| Roster.ToLowerOfLowerIsIdentity | src/classify/StudentCollection.java:20 | Lower-casing leaves a string without upper-case letters unchanged. |
| Roster.SameEmailOfValidIsEquality | src/classify/StudentCollection.java:20 | For addresses the email check accepts, the roster's case-insensitive comparison is plain equality. |
| Roster.EmptyQueryMatches | src/classify/StudentCollection.java:30 | The empty query is contained in every name. |
| Roster.NameMatchesItself | src/classify/StudentCollection.java:30 | A name matches itself as a query. |
| Roster.FilterMembers | src/classify/StudentCollection.java:29-33 | An element is collected iff it is in the list and passes the test. |
| Roster.FilterAppend | src/classify/StudentCollection.java:29-33 | Collecting over a concatenation gives the two collections concatenated, so order is kept. |
| Roster.UniqueEmailsSnoc | src/classify/StudentCollection.java:11-16 | Appending a student keeps emails unique iff they were unique and the newcomer's email was absent. This is the rule add enforces. |
| Roster.FilterKeepsUniqueEmails | src/classify/StudentCollection.java:27-46 | Selecting from a list with unique emails leaves unique emails. |
| Roster.ByNameMembers | src/classify/StudentCollection.java:27-35 | searchByName keeps a student iff the lower-cased name contains the lower-cased query. |
| Roster.ByNameEmptyQuery | src/classify/StudentCollection.java:27-35 | The empty query keeps every student, in order. |
| Roster.ByNameFindsOwnName | src/classify/StudentCollection.java:27-35 | Searching by a member's own name finds that member. |
| Roster.ByGradesMembers | src/classify/StudentCollection.java:37-46 | searchByGrades keeps a student iff min <= grade <= max, both bounds included. |
| Roster.ByGradesWholeScale | src/classify/StudentCollection.java:37-46 | The range [0, 200] keeps every student whose grade is valid. |
| Roster.ByGradesEmptyInterval | src/classify/StudentCollection.java:37-46 | A range with min > max keeps no one. |
| Roster.SumGradesBounds | src/classify/StudentCollection.java:52-58 | With every grade in [lo, hi], the sum lies between lo times the count and hi times the count. |
| Roster.MeanIsBetweenBounds | src/classify/StudentCollection.java:52-58 | The mean of grades in [lo, hi] lies in [lo, hi]. |
| Roster.MeanIsValidGrade | src/classify/StudentCollection.java:52-58 | The mean of valid grades is a valid grade. |
| Roster.FilterFailsAt | src/classify/StudentCollection.java:29-33 | If found.add refuses a selected student, the full selection does not have unique emails. |
| Roster.SearchesSucceedOnUniqueRoster | src/classify/StudentCollection.java:27-46 | On a roster with unique emails, neither search can hit a duplicate. |
| Roster.StudentCollection.constructor | src/classify/StudentCollection.java:93 | A new roster is empty and satisfies Unique(). |
| Roster.StudentCollection.Unique | src/classify/StudentCollection.java:11-16 | The roster's invariant: no two members' emails are equal after lower-casing. |
| Roster.StudentCollection.SearchByEmail | src/classify/StudentCollection.java:18-25 | Returns null iff no member's email equals the query up to letter case. Otherwise it returns the first such member in list order. The roster is not modified. |
| Roster.StudentCollection.Add | src/classify/StudentCollection.java:11-16 | With the email already present up to case: fails with DuplicateEmail and leaves the list unchanged. Otherwise it appends at the end. Unique() is preserved. |
| Roster.StudentCollection.SearchByName | src/classify/StudentCollection.java:27-35 | Succeeds iff the selected students have unique emails. It then returns a fresh roster holding exactly the in-order selection of name matches. Otherwise it fails with DuplicateEmail carrying the email of the first selected student that `add` refuses. That is the first match whose email already occurs among the earlier matches, which are unique. The source roster is unchanged. |
| Roster.StudentCollection.SearchByGrades | src/classify/StudentCollection.java:37-46 | Same as SearchByName, for students with min <= grade <= max: the same in-order selection on success, and on failure the email of the first refused student. |
| Roster.StudentCollection.IsEmpty | src/classify/StudentCollection.java:48-50 | True iff the roster has no students. |
| Roster.StudentCollection.Average | src/classify/StudentCollection.java:52-58 | None (Java's NaN) iff the roster is empty. Otherwise the sum of the grades divided by their number, which is a valid grade when all grades are. |
| Roster.StudentCollection.Iterator | src/classify/StudentCollection.java:62-65 | A fresh iterator over this roster, at position 0. |
| Roster.StudentCollection.Members | src/classify/StudentCollection.java:62-83 | Walking the roster with its iterator yields exactly its students, at indices 0 .. size-1 in order. |
| Roster.StudentCollectionIterator.constructor | src/classify/StudentCollection.java:69 | The position starts at 0. |
| Roster.StudentCollectionIterator.HasNext | src/classify/StudentCollection.java:72-74 | While the position is within the list, hasNext is false exactly when pos == size. |
| Roster.StudentCollectionIterator.Next | src/classify/StudentCollection.java:77-82 | Before the end: returns the student at pos, and pos advances by 1. At the end: returns None and pos stays. The position stays within the list. |

## Left out

- `ClassifyShell.java` is not part of this model. That covers the console menus, file reading and writing, `System.exit`, the clock, report formatting, and the CSV split that hands strings to `Student`.
- `Utils.acceptInt`, `acceptDouble`, `acceptNumber` and `readNumber` are left out: they are interactive console input loops.
- `Utils.clearScreen`, `pause`, `pauseMute` and the OS-detection helpers are left out: they spawn processes and read system properties.
- `LocalDate.parse` is left out as a foreign library.
  - The date reaches `NewStudent` already parsed, as `Option<Date>`.
  - `None` stands for the parse exception, which the source raises after the status check.
  - No calendar rule is modelled. The "born after 1920" comment in the constructor is not enforced by the code, and not by the model.
- `Double.parseDouble` is left out.
  - The grade reaches `NewStudent` already parsed, as `Option<real>`, where `None` stands for `NumberFormatException`.
  - Grades are exact reals. The model does not capture floating-point rounding in `average`, or NaN and infinite grades.
  - A NaN grade passes the source's range check, because both comparisons are false.
- `Student.toString` and `StudentCollection.show` are left out: they only format output.
- The exception messages are left out. Each error carries the offending value instead of the formatted text.
- Utils.Center: strings are sequences of Unicode characters, not of UTF-16 code units as Java's `length()` and `charAt` count them. For text outside the Basic Multilingual Plane, the length check, the offset and the padding therefore differ from Java's. For example, Java rejects `center("😀", 2)`, while the model centres it.
- Roster.ToLower: models `String.toLowerCase` on ASCII letters only. Unicode case folding is not modelled, and neither are locale-specific mappings.
- Roster.StudentCollection.Average: the empty roster gives `None`, where Java computes 0.0 / 0 = NaN. The source does not guard this case, and its callers can reach it.
- Roster.StudentCollectionIterator.Next: past the end, `ArrayList.get` throws. The model instead returns `None` and leaves the position unchanged.
- Roster.StudentCollection.Unique: it is not preserved by `Students.Student.SetEmail`. Nothing in the source re-checks uniqueness when an email is changed.
- The iterator's `remove` (the interface default, unsupported) is left out, as is Java's fail-fast concurrent-modification check. Neither appears in the source.
