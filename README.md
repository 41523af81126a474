# Service-hours tracker: a verified model

The student service-hours tracker keeps one CSV row per logged session:
student name, date, hours and approval status. This project models its core
in Dafny and proves what that core promises:

- **Validator** (`validator.dfy`): `is_row_corrupted`. It runs a fixed
  sequence of checks: four columns, non-blank fields, a `YYYY-MM-DD` shaped
  date, hours that parse as a non-negative number, and a status of `true` or
  `false` in any case. The first failure is reported as `Row <n>: …`.
- **School** (`school.dfy`):
  - the diagnostics scan `check_for_corrupted_rows`;
  - the approved-hours fold and sorted emission of `create_total_hours_csv`;
  - the case-insensitive, first-match look-up `get_student_total_hours`;
  - the `Student` class and the module-level loop that adds every valid row's
    hours to a `Student` object per name.
- **Organization** (`organization.dfy`): the approval pass. Every row whose
  status field, as stored and without stripping, lower-cases to `false` is
  shown to the approver. A `y` answer in any case rewrites that status to
  `true` in place. A status written ` false`, with a leading space, passes the
  validator but is never shown, so the pass never approves it
  (`Organization.PaddedFalseNeverPending`).
- **Text**, **Numbers** and **Wrappers**: the string helpers the core uses.
  These are `strip()` and `lower()` on ASCII, digit strings, code-point string
  order, and the decimal reading that stands in for `float()`.

Rows arrive already split into fields, as `seq<string>`. Row numbers are
1-based, as in `enumerate(reader, start=1)`. Each fold is specified by a
recursive function over the rows (`Names`, `Total`, and `HoursByName` for the
dictionary the loops build). The methods that loop are proved equal to those
functions, and the properties are proved about the functions. The diagnostics
scan is specified for any row check (`Diagnostics(rows, check)`). The method
`CheckForCorruptedRows` fixes the check to `is_row_corrupted` with the row's
number (`RowCheck`).

The docstring of `create_total_hours_csv` promises no duplicate entries per
student (school.py:92). The code keys its dictionary by the stripped name
exactly as written (school.py:114), so case is kept. Two counted rows whose
stripped names differ only in case, such as `Ann` and `ann`, give two summary
entries (`School.CaseVariantsKeptApart`). The emitted names are sorted by
code point (school.py:134), not case-insensitively: a name starting with an
ASCII capital A-Z sorts before one starting with a-z, so `Bob` comes before
`ann` (`Text.CapitalsSortFirst`). Letters outside ASCII follow their code
points, so `ann` sorts before `Émile`. The look-up folds case
(school.py:162), so asking for `ann` returns the hours of whichever case
variant is listed first (`School.ExampleLookupTakesFirst`).

Both folds read the hours as `float(row[2])`, without stripping
(school.py:115 and 202). The model reads the field after `strip()` instead.
The two agree when the only padding is space, tab, newline, vertical tab,
form feed or carriage return. `float()` ignores those, and the validator has
already checked the stripped field. They differ for the separator characters
\x1c-\x1f, which `strip()` removes but `float()` does not accept (see
"## Left out").

## Model

| member | source | states |
|---|---|---|
| Validator.AllPresent | school.py:19-38 | four fields, none of which is blank after strip() |
| Validator.WellFormed | school.py:19-55 | a row is good when all checks hold together, in no particular order: four fields, none blank after strip, a date of the right shape, hours that parse and are not negative, a status of true or false in any case |
| Validator.IsDatePattern | school.py:41 | the anchored pattern: exactly ten characters, four digits, a hyphen, two digits, a hyphen, two digits |
| Validator.FirstViolation | school.py:16-57 | no violation is found exactly when the row is well formed |
| Validator.FirstViolationReports | school.py:19-55 | each reason is reported exactly when all earlier checks passed and its own check fails, in the order: too few columns (with the count found), blank name, date, hours and status, bad date shape, unparsable hours, negative hours, bad status |
| Validator.IsRowCorrupted | school.py:5-57 | the flag is set exactly when the row is not well formed; a good row carries an empty message; a bad one carries a longer message that starts with the row label and ": " |
| Validator.IsStatusLiteral | school.py:53-54 | the stripped status lower-cases to "true" or to "false" |
| Validator.HoursOf | school.py:45-48 | the hours of a well-formed row are never negative |
| Validator.RowInfo | school.py:16 | without a number the label is "Row"; with one it is "Row " followed by a digit string with no leading zero that reads back as the number |
| Validator.Describe | school.py:20-55 | the message text of each reason, quoting the count found or the stripped field text where the source does |
| Validator.MissingColumnsReported | school.py:19-20 | a row with fewer than four fields gets the missing-columns message, and the count in it reads back as the field count |
| Validator.BlankRowReportsName | school.py:16-29 | four blank fields in row 1 are reported as "Row 1" with the missing-name message, the first empty check winning |
| Validator.NoCalendarCheck | school.py:41-42 | the date check is a shape check only: month 13, day 40 is accepted |
| Validator.BadDateReported | school.py:41-42 | a date "x" in an otherwise good row is reported as an invalid date quoting "x" |
| Validator.ZeroAcceptedNegativeRejected | school.py:45-48 | zero hours pass; a negative whole number is rejected as negative hours, not as unparsable |
| Text.IsSpace | school.py:23-26 | the characters strip() removes: the ASCII space, the control characters 9 to 13 (tab, newline, vertical tab, form feed, carriage return) and the separators 28 to 31 |
| Text.Trim | school.py:23-26 | strip: drops the leading and the trailing run of whitespace (its properties are the two Spec lemmas below) |
| Text.Lower | school.py:53 | lower: maps A-Z to a-z and keeps every other character, position by position |
| Text.TrimEmptyIffBlank | school.py:23-38 | a stripped field is empty exactly when every character is whitespace |
| Text.LeadingSpacesSpec | school.py:23-26 | strip removes the whole leading run of whitespace and stops at the first other character |
| Text.TrailingSpacesSpec | school.py:23-26 | strip removes the whole trailing run of whitespace and stops at the last other character |
| Text.EqualsIgnoringCaseIsLower | school.py:53-54 | the case-insensitive comparison agrees with comparing the lower-cased text |
| Text.NatToString | school.py:20 | the decimal rendering of a count is a non-empty digit string with no leading zero that reads back as the count |
| Text.Less | school.py:134 | the order sorted() puts names in: code point by code point, and a proper prefix sorts first |
| Text.LessTotal | school.py:134 | the string order compares any two different names |
| Text.LessTransitive | school.py:134 | the string order is transitive |
| Text.LessIrreflexive | school.py:134 | no name sorts before itself |
| Text.CapitalsSortFirst | school.py:134 | the order is by code point: a name starting with an ASCII capital A-Z sorts before one starting with a-z |
| Numbers.ParseUnsigned | school.py:46 | the unsigned part of the number grammar: digits with at most one point and at least one digit on some side of it ("12", "1.", ".5", "1.5"); anything else does not parse; a value read is never negative |
| Numbers.ParseDecimal | school.py:45-46 | empty text is not a number; a negative value comes only from a leading minus sign |
| Numbers.ParseNatRendering | school.py:45-46 | a digit string reads back as the number it renders |
| Numbers.ParseNegatedNatRendering | school.py:45-48 | a minus sign before a digit string reads back as the negated number |
| Numbers.FractionValue | school.py:46 | the digits after the point add less than one |
| Numbers.IndexOf | school.py:46 | the index found is within the text, and a point stands there unless it is the length |
| Numbers.IndexOfFirst | school.py:46 | no point occurs before the index found, so it is the first point |
| School.CheckForCorruptedRows | school.py:69-87 | returns exactly the diagnostics list of the rows under is_row_corrupted with each row's 1-based number |
| School.RowCheck | school.py:79 | the check the scan applies: is_row_corrupted on the row with its 1-based number |
| School.Verdicts | school.py:78-79 | the check's verdict on every row, in order, with positions numbered from 1 |
| School.Collect | school.py:80-81 | the (position, message) pairs of the flagged verdicts, in order of position |
| School.Diagnostics | school.py:78-81 | the list the scan builds: the collected pairs of the verdicts of the rows |
| School.VerdictAt | school.py:78-79 | proof step that unfolds the definition: the verdict at position p is the check applied to row p with the number p |
| School.CollectStep | school.py:80-81 | one more verdict appends its (position, message) entry exactly when it is flagged |
| School.CollectEntry | school.py:80-81 | each collected entry is a flagged verdict at its own 1-based position, with its message |
| School.CollectOrdered | school.py:78-81 | collected positions strictly increase |
| School.CollectComplete | school.py:80-81 | every flagged verdict is collected |
| School.DiagnosticAt | school.py:78-81 | entry k names a row within the file that the check flags, and carries the check's message for it |
| School.DiagnosticsExact | school.py:78-81 | for any row check: each entry is a flagged row's 1-based number with that row's message; entries strictly ascend; every flagged row appears |
| School.FlaggedIffMalformed | school.py:79-80 | with is_row_corrupted as the check, a row is flagged exactly when it is not well formed |
| School.IsApproved | school.py:116-119 | the stripped status lower-cases to "true" |
| School.Included | school.py:109-119 | a row the fold takes in: well formed and, for the summary, approved; the tally takes in every well-formed row |
| School.Names | school.py:107-122 | the stripped names of the rows the fold takes in, case kept |
| School.Total | school.py:107-122 | the sum of the hours of the rows the fold takes in whose stripped name is exactly the name, in row order |
| School.HoursByName | school.py:107-122 | the dictionary the loop builds, row by row: a counted row adds its hours under its stripped name, starting from 0.0 |
| School.IsSummaryOf | school.py:95-135 | a summary of the rows: its names are strictly sorted and are exactly the counted names, and each entry holds that name's approved total |
| School.CreateTotalHours | school.py:95-135 | the summary's names are strictly sorted and are exactly the trimmed names of the approved valid rows; each total is the sum of that name's approved valid hours |
| School.CountedRow | school.py:109-119 | a row counts exactly when it is well formed and, for the summary, approved; it then yields the trimmed name and the hours |
| School.NextRow | school.py:107-122 | reading the row at position i changes the dictionary exactly as the fold does |
| School.AddHoursTo | school.py:120-122 | adds the hours under the name, starting from zero for a new name, and leaves every other name alone |
| School.HoursByNameStep | school.py:107-122 | one more row adds its hours under its trimmed name when it counts, and changes nothing otherwise |
| School.HoursByNameIsFold | school.py:107-122 | the dictionary has one key per counted name, holding that name's total |
| School.SortedKeys | school.py:134 | the keys come out strictly sorted, each exactly once |
| School.Least | school.py:134 | picks the member that sorts before every other |
| School.SortedSameElements | school.py:134 | two strictly sorted name lists with the same members are the same list |
| School.SummaryUnique | school.py:95-135 | only one summary fits a given file |
| School.SummaryOrderIndependent | school.py:107-122 | with exact sums, reordering the rows leaves the summary unchanged |
| School.TotalPermutation | school.py:107-122 | with exact sums, reordering the rows changes no total |
| School.NamesPermutation | school.py:107-122 | reordering the rows changes no name set |
| School.FoldStep | school.py:107-122 | one more row changes the fold by that row's contribution only |
| School.FoldSkips | school.py:109-111 | proof step that unfolds the definition: a row the fold does not take in leaves every name and total unchanged |
| School.TotalAppend | school.py:107-122 | each total over two parts of the file is the sum of the totals over the parts |
| School.NamesAppend | school.py:107-122 | the names over two parts of the file are the union of the names over the parts |
| School.TotalNonNegative | school.py:119-122 | a student's total is never negative |
| School.TotalOfAbsentName | school.py:120-121 | a name with no counted row has total zero |
| School.ApprovedWithinAllValid | school.py:113-122 | the approved total never exceeds the all-valid total, and approved names are among the valid ones |
| School.CaseVariantsKeptApart | school.py:114-122 | two counted rows with different trimmed names, even names that differ only in case, give two keys, each with its own row's hours |
| School.SameStudent | school.py:159-162 | the stripped stored name and the asked name lower-case to the same text |
| School.IsFirstMatch | school.py:162-163 | entry k names the student and no earlier entry does |
| School.StudentTotalHours | school.py:157-167 | returns the total of the first summary row whose trimmed name equals the asked name ignoring case, or 0.0 when none does |
| School.FirstMatchUnique | school.py:162-163 | proof step that unfolds the definition: the first matching row is unique |
| School.ExampleLookupTakesFirst | school.py:162-163 | asking for "ann" matches the "Ann" row listed before it |
| School.Student.constructor | school.py:178-180 | a new student has the given name and zero hours |
| School.Student.AddHours | school.py:182-183 | adds the hours to the running total |
| School.Credit | school.py:204-207 | creates the Student under the name when there is none, then adds the hours to it; other entries keep their objects and the objects stay distinct |
| School.TallyStudents | school.py:190-207 | one fresh, distinct Student per trimmed name of a valid row; each total is that name's sum over all valid rows, approved or not |
| Organization.HasStatus | organization.py:12 | every row has a field 3, which the pass reads without a guard |
| Organization.IsPending | organization.py:12 | the status field, not stripped, lower-cases to "false" |
| Organization.Approves | organization.py:14 | the answer lower-cases to "y" |
| Organization.Decide | organization.py:14-15 | an approving answer writes "true" into field 3; any other answer leaves the row as it was |
| Organization.PendingCount | organization.py:11-13 | the number of pending rows, which is the number of prompts the pass shows |
| Organization.ApprovalPass | organization.py:11-15 | the reference pass: rows keep their number and order; the pending row numbered k from 0 becomes Decide of it with answer k; other rows are kept |
| Organization.ApprovePending | organization.py:11-18 | rewrites the rows in place to the approval pass of the original rows and uses one decision per pending row |
| Organization.Review | organization.py:12-14 | a row is pending exactly when its status field, unstripped, lower-cases to "false"; it is approved exactly when it is pending and the next decision lower-cases to "y" |
| Organization.ApprovalPassExtend | organization.py:11-15 | the pass over one more row is the pass over the prefix plus that row's outcome, a pending row taking the next unused decision |
| Organization.ApprovalPassAt | organization.py:11-15 | a pending row takes the decision numbered by the pending rows before it; other rows are unchanged |
| Organization.OnlyStatusWritten | organization.py:15 | the pass writes only the status field, and only the value "true" |
| Organization.ChangedExactlyWhenApproved | organization.py:12-15 | a row changes exactly when it is pending and its decision is "y" in any case, and then only its status becomes "true" |
| Organization.DecisionsInOrder | organization.py:11-13 | a pending row takes an earlier decision than any row after it |
| Organization.PendingCountAppend | organization.py:12 | one more row adds one to the pending count exactly when it is pending |
| Organization.PendingCountMonotone | organization.py:11-12 | a prefix never has more pending rows than the file |
| Organization.AllApprovedLeavesNonePending | organization.py:11-15 | if every answer is "y", no row is pending after the pass |
| Organization.PaddedFalseNeverPending | organization.py:12 | a status " false" strips to "false", which the validator accepts, yet the row is not pending and the pass leaves it unchanged |
| Organization.PassWithoutPendingIsIdentity | organization.py:11-12 | a file with no pending row is left unchanged and asks nothing |

## Left out

- File I/O: the model takes rows as already parsed. It leaves out opening, reading and writing `service_hours.csv` and `total_hours.csv`, the CSV quoting rules, the header row, the branches for a missing file, `exit()`, and the exception handlers that print and return.
- Printing: the per-row "Corrupted …" lines, the warning printed before each fold, the prompts and confirmations of the approval pass, and the final reports printed by looping over `students.values()`.
- Validator.FirstViolation: `float()` is modelled as a decimal reader with an optional sign, digits and an optional fraction. Exponents, `inf`, `nan` and digit-group underscores are not accepted. Python would accept them, and `nan` would pass the negative check.
- Validator.FirstViolation: hours are exact rationals, so floating-point rounding is not modelled.
- Validator.FirstViolation: `\d` and `strip()` are modelled on ASCII only. Unicode digits and non-ASCII whitespace are not modelled.
- School.CreateTotalHours: the names are stripped with the ASCII whitespace set, so a name padded with a non-ASCII space such as U+00A0 stays a separate key, while Python strips it (school.py:114).
- School.TallyStudents: the same ASCII-only strip() of the name (school.py:200).
- School.SameStudent: the stored name is stripped with the ASCII whitespace set only (school.py:159), and it is lower-cased on ASCII letters only.
- Validator.Describe: the negative-hours message quotes the trimmed field text, not Python's `repr` of the parsed float (`-1` rather than `-1.0`).
- School.StudentTotalHours: takes the summary as typed pairs, so the skip for a row with fewer than two fields or an unparsable total is not modelled. Neither is the call that first builds the missing summary file.
- School.CreateTotalHours: the emitted rows are returned as a sequence of pairs. Writing them, and the `float` text of each total, is not modelled.
- School.StudentTotalHours: `lower()` is modelled on ASCII letters only. Python also folds non-ASCII letters, so a stored "émile" matches "ÉMILE" in the source but not in the model. The status and answer comparisons are against ASCII literals, where ASCII folding gives the same result.
- School.SummaryOrderIndependent: order-independence holds for exact sums only. The source adds floats in row order, and float addition is not associative: 0.1, 0.2 and 0.3 sum to 0.6000000000000001 in that order and to 0.6 in reverse.
- School.TotalPermutation: the same caveat. Totals are exact rational sums, so they do not depend on row order, while the source's float totals can.
- School.CreateTotalHours: the hours are read after `strip()`, while school.py:115 calls `float()` on the field unstripped. A field padded with \x1c-\x1f passes the validator but makes `float()` raise `ValueError`. The source then prints the error and returns without writing any summary (school.py:125-127). The model counts the row's hours instead.
- School.TallyStudents: the same read. At school.py:202 the `ValueError` for such a field is caught, and school.py:208-210 skip the row. The model credits the row's hours instead.
- School.TallyStudents: the order in which `students.values()` is printed is not modelled.
- Organization.ApprovePending: answers come from standard input in the source. Here they are a sequence parameter. Running out of answers raises `EOFError` in the source; the model makes enough answers a precondition instead.
- Organization.ApprovePending: a row with fewer than four fields raises `IndexError` in the source. The model requires every row to have a status field.
