# Employee record store, modelled in Dafny

This project models the record store of `employee_management.py`, a small
Python program that keeps employees in the CSV file `employees.csv`. The
model covers three parts.

- **The file.** `create_file` writes the header
  `ID,Name,Department,Age,Salary` when the file does not exist.
  `save_employee` appends one comma-joined line per employee.
  `load_employees` reads the header line, skips blank lines, and turns every
  other line into an employee. A missing file is created and then loaded
  again.
- **Adding.** `add_employee` converts the id and the age with `int()` and the
  salary with `float()`, keeps the name and the department as typed, and
  saves nothing when a conversion fails.
- **Analysis.** `analyze_data` computes the employee count, the highest and
  lowest salary, and a per-department count kept in a dictionary. The
  dictionary's keys stay in the order departments are first met.

The file is modelled as its text, an `Option<string>` where `None` means the
file does not exist. Lines come from cutting that text the way Python's
text-mode file iteration does: `"\n"`, `"\r\n"` and a lone `"\r"` each end a
line. Keeping the text rather than a list of lines lets the model show that
an append after an unterminated last line does not start a new line
(`Text.LinesAppendUnterminated`).

Modules:

- `Wrappers` (`wrappers.dfy`): `Option` and `Result`.
- `Text` (`text.dfy`): `str.strip`, `str.split`, `str.join`, and line
  iteration.
- `Numbers` (`numbers.dfy`): `str()`, `int()` and `float()` on plain decimal
  notation. A float is modelled as the exact decimal `str()` prints for it.
- `RecordStore` (`record_store.dfy`): the file operations, the line codec,
  and `add_employee`.
- `Analysis` (`analysis.dfy`): `analyze_data`.

`load_employees` uses fields 0 to 4 of each line and ignores further
fields (`RecordStore.ExtraFieldsIgnored`). The fields are read in order:
`int()` of field 0, fields 1 and 2, `int()` of field 3, `float()` of
field 4. The first of these that fails raises, so a line with too few
fields raises `IndexError` only when every field it has before the missing
one converts; otherwise the earlier `ValueError` wins
(`RecordStore.ParseFields`).

`int()` and `str()` of an int raise `ValueError` beyond 4300 digits
(Python's default `sys.int_info.default_max_str_digits`), and `int()` and
`float()` skip only part of the whitespace `strip()` removes: the
information separators U+001C to U+001F are not skipped. The model follows
both rules.

## Model

| member | source | states |
|---|---|---|
| Text.Strip | employee_management/employee_management.py:26-27 | `strip()` leaves no whitespace at either end, and leaves text that has none there unchanged |
| Text.StripTrims | employee_management/employee_management.py:26-27 | `strip()` returns a contiguous middle part of the text; everything removed before and after it is whitespace |
| Text.Join | employee_management/employee_management.py:54 | `','.join(values)` starts with the first value |
| Text.JoinKeeps | employee_management/employee_management.py:54 | every character of `','.join(values)` is a comma or comes from one of the values |
| Text.Split | employee_management/employee_management.py:27 | `split(',')` gives at least one field and no field holds a comma |
| Text.JoinSplit | employee_management/employee_management.py:27 | joining the fields of `split(',')` with commas gives the line back, so splitting loses nothing |
| Text.SplitKeeps | employee_management/employee_management.py:27 | every character of a field comes from the split line |
| Text.SplitJoin | employee_management/employee_management.py:54 | splitting a comma-joined list gives the list back when no element holds a comma |
| Text.SplitConcat | employee_management/employee_management.py:27 | a comma placed between two texts splits them apart: the fields of the whole are the fields of the left part followed by those of the right |
| Text.Translate | employee_management/employee_management.py:25 | a text-mode read leaves no `"\r"`, never lengthens the text, and yields empty text only from empty text |
| Text.TranslateCrLf | employee_management/employee_management.py:25 | a `"\r\n"` pair is read as a single `"\n"`, and the text on either side is read as it would be alone |
| Text.TranslateLoneCr | employee_management/employee_management.py:25 | a `"\r"` not followed by `"\n"` is read as `"\n"`, and the text on either side is read as it would be alone |
| Text.TranslateKeeps | employee_management/employee_management.py:25 | every character other than `"\r"` is read as itself, and the text on either side is read as it would be alone |
| Text.Lines | employee_management/employee_management.py:25 | iterating a file yields no lines exactly when the file is empty |
| Text.LinesAppend | employee_management/employee_management.py:53-54 | appending a terminated line after text whose last line is terminated adds exactly that line to the lines read back; earlier lines are unchanged |
| Text.LinesAppendUnterminated | employee_management/employee_management.py:53-54 | appending a line and its `"\n"` after a last line without terminator starts no new line: the appended text joins that last line, and the earlier lines are unchanged |
| Text.LinesCons | employee_management/employee_management.py:22-25 | after a first line and its `"\n"`, iteration yields the lines of whatever follows |
| Text.SingleLine | employee_management/employee_management.py:10-11 | a text holding one line without breaks, followed by `"\n"`, reads back as exactly that line |
| Text.LinesHaveNoBreaks | employee_management/employee_management.py:25 | no line yielded by iterating a file holds `"\n"` or `"\r"` |
| Numbers.NatToString | employee_management/employee_management.py:51 | `str()` of a non-negative int is non-empty decimal digits with no leading zero, denoting that number |
| Numbers.IntToString | employee_management/employee_management.py:51 | `str()` of an int is non-empty, holds only a minus sign and digits, does not end in the sign, and starts with `-` exactly when the int is negative |
| Numbers.ParseInt | employee_management/employee_management.py:29-32 | `int()` succeeds exactly on text without an information separator that is, once surrounding whitespace is stripped, an optional sign and at most 4300 digits; the result has the magnitude the digits denote and is negative when it is non-zero and the sign is `-` |
| Numbers.NatToStringShortest | employee_management/employee_management.py:51 | `str()` of the number a run of digits denotes is no longer than that run |
| Numbers.ParsedIntWithinLimit | employee_management/employee_management.py:51 | every int `int()` returns has at most 4300 digits, so `str()` can write it |
| Numbers.IntRoundTrip | employee_management/employee_management.py:51 | `int(str(n)) == n` for every int of at most 4300 digits, so a saved id or age reads back unchanged |
| Numbers.TrimFraction | employee_management/employee_management.py:33 | the digits after the point are reduced to the shape `str()` prints, with the value unchanged; digits already in that shape are kept |
| Numbers.FloatToString | employee_management/employee_management.py:51 | `str()` of a float is at least three characters of sign, digits and point; it starts with a sign or digit and ends with a digit |
| Numbers.FloatRoundTrip | employee_management/employee_management.py:33 | `float(str(x)) == x` for every float, sign included, so a saved salary reads back unchanged |
| Numbers.IntLiteralIsFloat | employee_management/employee_management.py:65 | text `int()` accepts is accepted by `float()` as the same number, so a whole-number salary entry is a valid salary |
| Numbers.ParseFloat | employee_management/employee_management.py:33 | `float()` succeeds exactly on text without an information separator that is, once surrounding whitespace is stripped, an optional sign followed by digits and points with at most one point and at least one digit; the result is negative exactly when the sign is `-` |
| Numbers.ParseFloatValue | employee_management/employee_management.py:65 | the number `float()` returns is the literal's digits read as one integer, divided by ten for each digit after the point, with the sign applied |
| Numbers.MagnitudeSyntax | employee_management/employee_management.py:33 | the unsigned part of a float is read exactly when it has the syntax of one |
| Numbers.MagnitudeValue | employee_management/employee_management.py:33 | the unsigned part of a float is read as the number the literal denotes |
| RecordStore.CreateFile | employee_management/employee_management.py:6-13 | a missing file becomes exactly the header followed by `"\n"`, whose only line is the header; an existing file is left exactly as it was |
| RecordStore.CreateFileIdempotent | employee_management/employee_management.py:8-13 | creating the file twice is the same as creating it once |
| RecordStore.SaveEmployee | employee_management/employee_management.py:44-54 | an empty dictionary leaves the file as it was, missing or not; otherwise the old content is kept as a prefix and exactly the joined line and `"\n"` follow it |
| RecordStore.ParseFields | employee_management/employee_management.py:27-34 | a line's fields parse exactly when there are at least five and fields 0 and 3 pass `int()` and field 4 passes `float()`; the employee then holds those numbers and fields 1 and 2 verbatim; the errors follow the evaluation order of the dictionary literal: a bad id comes first; with a good id, a line of fewer than four fields is missing field `|v|`, then a bad age is reported, then a missing fifth field, then a bad salary; a missing-field error always names the field count, which is below five |
| RecordStore.NonBlankMembers | employee_management/employee_management.py:26 | the kept lines are lines of the input that are not blank after `strip()`, and every such line is kept |
| RecordStore.NonBlankConcat | employee_management/employee_management.py:25-26 | skipping blank lines keeps the remaining lines in file order |
| RecordStore.ParseAll | employee_management/employee_management.py:25-34 | loading succeeds exactly when every kept line parses; it then yields one employee per kept line, in order; otherwise the error is that of the first line that fails |
| RecordStore.Load | employee_management/employee_management.py:15-42 | a missing file is created and the result is the empty list; an existing file is unchanged, and the result is one employee per non-blank line after the first, or else the error of the first such line that fails to parse, every earlier one parsing |
| RecordStore.CreatedFileIsEmpty | employee_management/employee_management.py:36-42 | the recursive load on a freshly created file succeeds with no employees |
| RecordStore.HeaderIgnored | employee_management/employee_management.py:22-25 | the first line, whatever it holds, never becomes an employee; the result is what the following lines yield |
| RecordStore.AddEmployee | employee_management/employee_management.py:56-78 | when id, age or salary fails to convert, nothing is saved and the file is unchanged; otherwise the employee built from the converted answers is saved as the dictionary ID, Name, Department, Age, Salary |
| RecordStore.HeaderMatchesKeys | employee_management/employee_management.py:70-76 | the keys of the saved dictionary, joined by commas, are exactly the header line |
| RecordStore.EmployeeLineShape | employee_management/employee_management.py:50-54 | the saved line of an employee whose name and department hold no comma or line break is one non-blank line without line breaks that `strip()` leaves alone and `split(',')` cuts into the five texts it was joined from |
| RecordStore.LineRoundTrip | employee_management/employee_management.py:27-34 | the line a storable employee is saved as parses back to that employee; storable means name and department hold no comma or line break and id and age have at most 4300 digits |
| RecordStore.ExtraFieldsIgnored | employee_management/employee_management.py:27-34 | anything after a fifth comma is ignored: the line still parses to the same employee |
| RecordStore.ParsedIsStorable | employee_management/employee_management.py:27-33 | an employee read from one line is storable: name and department hold no comma and no line break, and id and age came from `int()` |
| RecordStore.LoadedAreStorable | employee_management/employee_management.py:25-34 | every employee loaded from a file is storable |
| RecordStore.EmptyFileFirstSaveIsHeader | employee_management/employee_management.py:10-13 | `create_file` leaves an existing empty file as it is, without a header, and the first employee saved to it is then read as the header, so loading yields no employees |
| RecordStore.SaveThenLoad | employee_management/employee_management.py:53-54 | after saving a storable employee to a non-empty file whose last line is terminated, loading gives the earlier result with that employee added last, and the file stays terminated |
| RecordStore.RoundTripIff | employee_management/employee_management.py:51-54 | saving then loading adds exactly the saved employee at the end if and only if it is storable |
| RecordStore.FreshFileRoundTrip | employee_management/employee_management.py:8-11 | on a newly created file, one saved employee loads back as the only record if and only if it is storable |
| RecordStore.SaveTwiceOrder | employee_management/employee_management.py:53-54 | saving A and then B loads A before B, both after the records already there |
| RecordStore.AddThenLoad | employee_management/employee_management.py:60-78 | after an accepted addition with storable text fields, the new employee loads last; after a rejected one, loading yields what it did before |
| Analysis.Get | employee_management/employee_management.py:119 | `dept_counts.get(dept, 0)` is 0 for a department that is not a key, and, the keys being distinct, the count stored under the department when it is one |
| Analysis.Put | employee_management/employee_management.py:119 | assigning a dictionary key keeps an existing key in place or appends a new key last; keys stay distinct; other entries are unchanged and the key holds the new count |
| Analysis.FirstSeenElements | employee_management/employee_management.py:116-119 | the first-seen list of departments holds each department exactly once and nothing else |
| Analysis.FirstSeenOrder | employee_management/employee_management.py:116-119 | a department listed before another has already occurred wherever the other occurs |
| Analysis.TallyStep | employee_management/employee_management.py:118-119 | one pass of the loop body turns the counts of the departments seen so far into the counts of those plus one more, and the total grows by one |
| Analysis.CountDepartments | employee_management/employee_management.py:116-119 | counting a list of departments one by one yields the dictionary of its distinct departments in first-seen order, each with its number of occurrences, the counts summing to the list's length |
| Analysis.DepartmentCounts | employee_management/employee_management.py:116-119 | the dictionary's keys are the distinct departments in first-seen order; each count is the number of employees in that department; the counts sum to the number of employees |
| Analysis.CountsUnique | employee_management/employee_management.py:116-119 | only one dictionary counts a given list of departments, so the loop's result is fully determined |
| Analysis.MaxSalary | employee_management/employee_management.py:112 | the highest salary is one of the salaries and none exceeds it |
| Analysis.MinSalary | employee_management/employee_management.py:113 | the lowest salary is one of the salaries and none is below it |
| Analysis.Summarize | employee_management/employee_management.py:100-119 | the empty list gives no report; otherwise the report has the employee count, a highest and a lowest salary among the employees that bound every salary, and the department counts |
| Analysis.AnalyzeData | employee_management/employee_management.py:99-119 | a load error escapes; an empty load gives no report; otherwise the report describes the loaded employees |

## Left out

- The menu loop, `main`, the `input()` prompts, every `print` and the `KeyboardInterrupt` handling (lines 130-163). These are interactive input and output. The five answers `add_employee` reads become parameters of `RecordStore.AddEmployee`.
- `view_employees` and its `tabulate` table (lines 82-93). This is display only, through an outside library.
- The average salary, `np.mean` and its `:.2f` formatting (lines 111 and 122). This is binary floating-point arithmetic inside numpy.
- The `"Couldn't find path to file"` message `create_file` prints (line 9). It is output only.
- Filesystem behaviour beyond existence and content. Not modelled: permission and other I/O errors, partial writes after a crash, concurrent writers, the text encoding, and newline translation on write. The model assumes `"\n"` is written as `"\n"`.
- Numbers.ParseInt: accepts only an ASCII sign and ASCII digits after stripping. Python's `int()` also accepts `_` between digits and non-ASCII decimal digits.
- Numbers.IntToString: does not raise the `ValueError` that `str()` raises on an int of more than 4300 digits. Every int the program saves comes from `int()`, which never returns one (`Numbers.ParsedIntWithinLimit`).
- RecordStore.SaveEmployee: for the same reason, it does not model `str()` raising on an int of more than 4300 digits.
- Numbers.ParseFloat: accepts only an optional sign, ASCII digits and at most one point. Python's `float()` also accepts exponents, `inf`, `nan`, `_` between digits and non-ASCII digits.
- Numbers.FloatToString: a float is the exact decimal `str()` prints, in positional notation. The model does not round to the nearest binary double, and does not model the exponent notation `str()` uses for very large or very small magnitudes.
- Numbers.ParseFloatValue: the value is the exact decimal the literal denotes. Python's `float()` rounds it to the nearest binary double, which is not modelled.
- Analysis.MaxSalary: on a tie between `0.0` and `-0.0` it keeps the earlier salary, and it has no NaN case. Which zero numpy returns for such a tie is not modelled.
- Analysis.MinSalary: the same tie and NaN caveat as `Analysis.MaxSalary`.
- RecordStore.Load: the header list that `load_employees` builds at line 22 is never used, so the model only drops that line.
