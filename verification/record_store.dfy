/** The employee record store: the CSV file `employees.csv` as an optional
    text (`None` while the file does not exist), the functions that create
    it, append one employee to it and load every employee from it, and the
    parse-then-save logic of adding an employee. */
module RecordStore {
  import opened Wrappers
  import opened Text
  import opened Numbers

  /** One employee, with the five fields in file order. */
  datatype Employee = Employee(id: int, name: string, department: string, age: int, salary: Float)

  /** A value held in an employee dictionary. */
  datatype FieldValue = IntValue(i: int) | TextValue(text: string) | FloatValue(f: Float)

  /** One key-value pair; a dictionary is a sequence of them in insertion
      order, which is the order `keys()` returns. */
  datatype Field = Field(key: string, value: FieldValue)

  /** The field names, in the order of the header and of the dictionary
      `add_employee` builds. */
  const HeaderNames: seq<string> := ["ID", "Name", "Department", "Age", "Salary"]

  /** The header line `create_file` writes, "ID,Name,Department,Age,Salary":
      the field names joined by commas. */
  const Header: string := Join(HeaderNames, ',')

  /** The header is one non-empty line. */
  lemma HeaderIsPlain()
    ensures Header != [] && NoLineBreak(Header)
  {
    var names := HeaderNames;
    JoinEnds(names, ',');
    JoinAvoids(names, ',', '\n');
    JoinAvoids(names, ',', '\r');
  }

  /** The file's text, or `None` when there is no such file. */
  type File = Option<string>

  /** What opening the file in append mode starts from. */
  function Contents(f: File): string {
    match f
    case None => []
    case Some(t) => t
  }

  /** `str(v)`. */
  function Show(v: FieldValue): string {
    match v
    case IntValue(i) => IntToString(i)
    case TextValue(t) => t
    case FloatValue(x) => FloatToString(x)
  }

  /** The dictionary `add_employee` builds from a validated employee. */
  function ToDict(e: Employee): seq<Field> {
    [ Field("ID", IntValue(e.id)),
      Field("Name", TextValue(e.name)),
      Field("Department", TextValue(e.department)),
      Field("Age", IntValue(e.age)),
      Field("Salary", FloatValue(e.salary)) ]
  }

  function Keys(d: seq<Field>): (ks: seq<string>)
    ensures |ks| == |d|
  {
    seq(|d|, k requires 0 <= k < |d| => d[k].key)
  }

  /** `str()` of every value, in key order. */
  function Values(d: seq<Field>): (vs: seq<string>)
    ensures |vs| == |d|
  {
    seq(|d|, k requires 0 <= k < |d| => Show(d[k].value))
  }

  /** The line `save_employee` writes for a non-empty dictionary, without
      its "\n". */
  function DictLine(d: seq<Field>): string
    requires |d| >= 1
  {
    Join(Values(d), ',')
  }

  /** The line an employee is saved as. */
  function EmployeeLine(e: Employee): string {
    DictLine(ToDict(e))
  }

  /** `create_file`: exclusive creation writes the header; an existing file
      is left alone and the "already exists" error is swallowed. */
  function CreateFile(f: File): (r: File)
    ensures r.Some?
    ensures f.Some? ==> r == f
    ensures f.None? ==> r.value == Header + "\n" && Lines(r.value) == [Header]
  {
    if f.Some? then f
    else
      HeaderIsPlain();
      SingleLine(Header);
      Some(Header + "\n")
  }

  /** `save_employee`: nothing for an empty dictionary; otherwise one line
      appended in append mode, which also creates a missing file. */
  function SaveEmployee(f: File, d: seq<Field>): (r: File)
    ensures d == [] ==> r == f
    ensures d != [] ==> r.Some? && Contents(f) <= r.value
    ensures d != [] ==> r.value[|Contents(f)|..] == DictLine(d) + "\n"
  {
    if d == [] then f
    else
      var t := Contents(f) + DictLine(d) + "\n";
      assert t[|Contents(f)|..] == DictLine(d) + "\n";
      Some(t)
  }

  /** Why loading stopped: Python's `IndexError` (too few fields) and
      `ValueError` (a field `int()` or `float()` rejects), with the index of
      the field involved. */
  datatype LoadError = MissingField(index: nat) | BadNumber(index: nat)

  /** `values[i]` as text. */
  function TextField(v: seq<string>, i: nat): (r: Result<string, LoadError>)
    ensures r.Failure? ==> r.error == MissingField(i) && i >= |v|
  {
    if i < |v| then Success(v[i]) else Failure(MissingField(i))
  }

  /** `int(values[i])`. */
  function IntField(v: seq<string>, i: nat): (r: Result<int, LoadError>)
    ensures r.Failure? ==> r.error.index == i && (r.error.MissingField? <==> i >= |v|)
  {
    if i >= |v| then Failure(MissingField(i))
    else match ParseInt(v[i])
      case Some(n) => Success(n)
      case None => Failure(BadNumber(i))
  }

  /** `float(values[i])`. */
  function FloatField(v: seq<string>, i: nat): (r: Result<Float, LoadError>)
    ensures r.Failure? ==> r.error.index == i && (r.error.MissingField? <==> i >= |v|)
  {
    if i >= |v| then Failure(MissingField(i))
    else match ParseFloat(v[i])
      case Some(x) => Success(x)
      case None => Failure(BadNumber(i))
  }

  /** `line.strip().split(',')`. */
  function Fields(line: string): seq<string> {
    Split(Strip(line), ',')
  }

  /** The dictionary literal of `load_employees` on the fields of a line,
      evaluated left to right: the first field that is missing or not a
      number is the error. */
  function ParseFields(v: seq<string>): (r: Result<Employee, LoadError>)
    ensures r.Success? <==> |v| >= 5 && ParseInt(v[0]).Some? && ParseInt(v[3]).Some? && ParseFloat(v[4]).Some?
    ensures r.Success? ==> r.value == Employee(ParseInt(v[0]).value, v[1], v[2], ParseInt(v[3]).value, ParseFloat(v[4]).value)
    ensures |v| >= 1 && ParseInt(v[0]).None? ==> r == Failure(BadNumber(0))
    ensures r.Failure? && r.error.MissingField? ==> r.error.index == |v| < 5
    ensures |v| >= 1 && ParseInt(v[0]).Some? && |v| < 4 ==> r == Failure(MissingField(|v|))
    ensures |v| >= 4 && ParseInt(v[0]).Some? && ParseInt(v[3]).None? ==> r == Failure(BadNumber(3))
    ensures |v| == 4 && ParseInt(v[0]).Some? && ParseInt(v[3]).Some? ==> r == Failure(MissingField(4))
    ensures |v| >= 5 && ParseInt(v[0]).Some? && ParseInt(v[3]).Some? && ParseFloat(v[4]).None? ==>
      r == Failure(BadNumber(4))
  {
    var id :- IntField(v, 0);
    var name :- TextField(v, 1);
    var department :- TextField(v, 2);
    var age :- IntField(v, 3);
    var salary :- FloatField(v, 4);
    Success(Employee(id, name, department, age, salary))
  }

  /** One line of the file after the header, as `load_employees` reads it. */
  function ParseLine(line: string): Result<Employee, LoadError> {
    ParseFields(Fields(line))
  }

  predicate IsBlank(line: string) {
    Strip(line) == []
  }

  /** The lines of the file body `load_employees` parses, in their order:
      the non-blank ones. */
  function NonBlank(lines: seq<string>): seq<string> {
    if lines == [] then []
    else
      var rest := NonBlank(lines[1..]);
      if IsBlank(lines[0]) then rest else [lines[0]] + rest
  }

  /** The kept lines are exactly the lines that are not blank. */
  lemma {:induction false} NonBlankMembers(lines: seq<string>)
    ensures forall x :: x in NonBlank(lines) <==> x in lines && !IsBlank(x)
  {
    if lines != [] {
      NonBlankMembers(lines[1..]);
      assert lines == [lines[0]] + lines[1..];
    }
  }

  /** Parsing a run of lines one after the other, with the per-line parser
      as a parameter: every line becomes a record, and the first line the
      parser rejects ends the run with that line's error. */
  function ParseAll<T>(data: seq<string>, parse: string -> Result<T, LoadError>): (r: Result<seq<T>, LoadError>)
    ensures r.Success? <==> forall k :: 0 <= k < |data| ==> parse(data[k]).Success?
    ensures r.Success? ==>
      |r.value| == |data| && forall k :: 0 <= k < |data| ==> parse(data[k]) == Success(r.value[k])
    ensures r.Failure? ==>
      exists k :: 0 <= k < |data| && parse(data[k]) == Failure(r.error)
        && forall j :: 0 <= j < k ==> parse(data[j]).Success?
  {
    if data == [] then Success([])
    else
      match parse(data[0])
      case Failure(e) => Failure(e)
      case Success(x) =>
        var rest := ParseAll(data[1..], parse);
        assert forall k :: 1 <= k < |data| ==> data[k] == data[1..][k - 1];
        match rest
        case Failure(e) =>
          Failure(e)
        case Success(xs) =>
          Success([x] + xs)
  }

  /** `load_employees`' loop over the lines after the header: blank lines
      are passed over and every other line must parse. */
  function ParseRecords(lines: seq<string>): Result<seq<Employee>, LoadError> {
    ParseAll(NonBlank(lines), ParseLine)
  }

  /** Every line after the first, which `readline()` consumed as the header. */
  function AfterHeader(text: string): seq<string> {
    var ls := Lines(text);
    if ls == [] then [] else ls[1..]
  }

  /** The lines of an existing file that are parsed as employees. */
  function DataLines(text: string): seq<string> {
    NonBlank(AfterHeader(text))
  }

  /** The file after a load, and either the employees or the error that
      escaped. */
  datatype Loaded = Loaded(file: File, employees: Result<seq<Employee>, LoadError>)

  /** `load_employees`. A missing file is created and loaded again, and the
      second load's list is thrown away. */
  function Load(f: File): (r: Loaded)
    ensures f.None? ==> r.file == CreateFile(f) && r.employees == Success([])
    ensures f.Some? ==> r.file == f
    ensures f.Some? ==> var data := DataLines(f.value);
      r.employees.Success? <==> forall k :: 0 <= k < |data| ==> ParseLine(data[k]).Success?
    ensures f.Some? && r.employees.Success? ==> var data := DataLines(f.value);
      |r.employees.value| == |data|
        && forall k :: 0 <= k < |data| ==> ParseLine(data[k]) == Success(r.employees.value[k])
    ensures f.Some? && r.employees.Failure? ==> var data := DataLines(f.value);
      exists k :: 0 <= k < |data| && ParseLine(data[k]) == Failure(r.employees.error)
        && forall j :: 0 <= j < k ==> ParseLine(data[j]).Success?
    decreases if f.None? then 1 else 0
  {
    match f
    case None =>
      var created := CreateFile(f);
      assert AfterHeader(created.value) == [];
      var retry := Load(created);
      (match retry.employees
       case Failure(e) => Loaded(retry.file, Failure(e))
       case Success(_) => Loaded(retry.file, Success([])))
    case Some(text) =>
      Loaded(f, ParseRecords(AfterHeader(text)))
  }

  /** The outcome of `add_employee`: the file afterwards and the employee
      that was saved, `None` when an input was rejected. */
  datatype Added = Added(file: File, employee: Option<Employee>)

  /** `add_employee` with its five `input()` answers as parameters: the
      `ValueError` of any conversion returns before anything is saved. */
  function AddEmployee(f: File, idText: string, name: string, department: string,
                       ageText: string, salaryText: string): (r: Added)
    ensures r.employee.None? <==>
      ParseInt(idText).None? || ParseInt(ageText).None? || ParseFloat(salaryText).None?
    ensures r.employee.None? ==> r.file == f
    ensures r.employee.Some? ==>
      r.employee.value == Employee(ParseInt(idText).value, name, department, ParseInt(ageText).value, ParseFloat(salaryText).value)
    ensures r.employee.Some? ==> r.file == SaveEmployee(f, ToDict(r.employee.value))
  {
    match ParseInt(idText)
    case None => Added(f, None)
    case Some(id) =>
      match ParseInt(ageText)
      case None => Added(f, None)
      case Some(age) =>
        match ParseFloat(salaryText)
        case None => Added(f, None)
        case Some(salary) =>
          var e := Employee(id, name, department, age, salary);
          Added(SaveEmployee(f, ToDict(e)), Some(e))
  }

  /** A text field survives being written and read back: no comma, which
      would split it, and no line break, which would end the line. */
  predicate Plain(s: string) {
    ',' !in s && NoLineBreak(s)
  }

  /** The employees whose saved line reads back as themselves: plain text
      fields, and integers short enough for `int()` to read back. */
  predicate Storable(e: Employee) {
    Plain(e.name) && Plain(e.department) && WithinDigitLimit(e.id) && WithinDigitLimit(e.age)
  }

  /** The texts `save_employee` joins for an employee, in header order. */
  lemma EmployeeFields(e: Employee)
    ensures Values(ToDict(e)) == [IntToString(e.id), e.name, e.department, IntToString(e.age), FloatToString(e.salary)]
    ensures EmployeeLine(e) == Join(Values(ToDict(e)), ',')
  {
  }

  /** Fields free of commas and line breaks, the outer two without
      surrounding whitespace, join into one line that reads back as them. */
  lemma PlainLine(fields: seq<string>)
    requires |fields| >= 1
    requires forall k :: 0 <= k < |fields| ==> Plain(fields[k])
    requires fields[0] != [] && !IsSpace(fields[0][0])
    requires var last := fields[|fields| - 1]; last != [] && !IsSpace(last[|last| - 1])
    ensures var line := Join(fields, ',');
      line != [] && NoLineBreak(line) && Strip(line) == line && Fields(line) == fields
  {
    var line := Join(fields, ',');
    JoinEnds(fields, ',');
    JoinAvoids(fields, ',', '\n');
    JoinAvoids(fields, ',', '\r');
    SplitJoin(fields, ',');
  }

  /** `str()` of an int is plain and starts with a sign or a digit. */
  lemma IntTextPlain(n: int)
    ensures Plain(IntToString(n)) && !IsSpace(IntToString(n)[0])
  {
    var s := IntToString(n);
    assert s[0] in s;
  }

  /** `str()` of a float is plain and ends with a digit. */
  lemma FloatTextPlain(x: Float)
    ensures Plain(FloatToString(x))
    ensures var s := FloatToString(x); !IsSpace(s[|s| - 1])
  {
    var s := FloatToString(x);
    DigitIsNotSpace(s[|s| - 1]);
  }

  /** Five plain texts, the first starting and the last ending without
      whitespace, join into one line that reads back as them. */
  lemma FiveFieldLine(a: string, b: string, c: string, d: string, g: string)
    requires Plain(a) && Plain(b) && Plain(c) && Plain(d) && Plain(g)
    requires a != [] && !IsSpace(a[0]) && g != [] && !IsSpace(g[|g| - 1])
    ensures var line := Join([a, b, c, d, g], ',');
      line != [] && NoLineBreak(line) && Strip(line) == line && Fields(line) == [a, b, c, d, g]
  {
    var fields := [a, b, c, d, g];
    assert forall k :: 0 <= k < |fields| ==> Plain(fields[k]);
    PlainLine(fields);
  }

  /** The line of an employee with plain text fields is one non-blank line
      that splits back into the five texts it was joined from. */
  lemma EmployeeLineShape(e: Employee)
    requires Plain(e.name) && Plain(e.department)
    ensures var line := EmployeeLine(e);
      line != [] && NoLineBreak(line) && Strip(line) == line
        && Fields(line) == [IntToString(e.id), e.name, e.department, IntToString(e.age), FloatToString(e.salary)]
  {
    var a, d, g := IntToString(e.id), IntToString(e.age), FloatToString(e.salary);
    IntTextPlain(e.id);
    IntTextPlain(e.age);
    FloatTextPlain(e.salary);
    FiveFieldLine(a, e.name, e.department, d, g);
    EmployeeFields(e);
  }

  /** A line whose first five fields are an employee's saved texts parses
      to that employee. */
  lemma ParseLineOf(line: string, e: Employee)
    requires |Fields(line)| >= 5
    requires Fields(line)[..5] == [IntToString(e.id), e.name, e.department, IntToString(e.age), FloatToString(e.salary)]
    requires WithinDigitLimit(e.id) && WithinDigitLimit(e.age)
    ensures ParseLine(line) == Success(e)
  {
    var v := Fields(line);
    assert v[0] == IntToString(e.id) && v[1] == e.name && v[2] == e.department;
    assert v[3] == IntToString(e.age) && v[4] == FloatToString(e.salary);
    IntRoundTrip(e.id);
    IntRoundTrip(e.age);
    FloatRoundTrip(e.salary);
  }

  /** The line an employee is saved as parses back to that employee when
      neither text field holds a comma or a line break. */
  lemma LineRoundTrip(e: Employee)
    requires Storable(e)
    ensures ParseLine(EmployeeLine(e)) == Success(e)
  {
    EmployeeLineShape(e);
    assert Fields(EmployeeLine(e))[..5] == Fields(EmployeeLine(e));
    ParseLineOf(EmployeeLine(e), e);
  }

  /** An employee read from a single line is storable: its text fields
      hold no comma and no line break, and its integers came from `int()`. */
  lemma ParsedIsStorable(line: string)
    requires NoLineBreak(line)
    requires ParseLine(line).Success?
    ensures Storable(ParseLine(line).value)
  {
    ParsedTextsPlain(line);
    var v := Fields(line);
    ParsedIntWithinLimit(v[0]);
    ParsedIntWithinLimit(v[3]);
  }

  /** Text fields read from a single line hold no comma and no line break. */
  lemma ParsedTextsPlain(line: string)
    requires NoLineBreak(line)
    requires ParseLine(line).Success?
    ensures Plain(ParseLine(line).value.name) && Plain(ParseLine(line).value.department)
  {
    FieldPlain(line, 1);
    FieldPlain(line, 2);
  }

  /** Every field of a single line is plain. */
  lemma FieldPlain(line: string, k: nat)
    requires NoLineBreak(line)
    requires k < |Fields(line)|
    ensures Plain(Fields(line)[k])
  {
    StripKeeps(line);
    SplitKeeps(Strip(line), ',');
  }

  /** Every employee a file yields is storable. */
  lemma LoadedAreStorable(text: string)
    requires Load(Some(text)).employees.Success?
    ensures forall e :: e in Load(Some(text)).employees.value ==> Storable(e)
  {
    var es := Load(Some(text)).employees.value;
    var data := DataLines(text);
    LinesHaveNoBreaks(text);
    forall e | e in es
      ensures Storable(e)
    {
      var k :| 0 <= k < |es| && es[k] == e;
      NonBlankMembers(AfterHeader(text));
      assert data[k] in data;
      ParsedIsStorable(data[k]);
    }
  }

  /** A non-blank line added at the end is kept at the end. */
  lemma {:induction false} NonBlankSnoc(lines: seq<string>, l: string)
    requires !IsBlank(l)
    ensures NonBlank(lines + [l]) == NonBlank(lines) + [l]
  {
    if lines == [] {
      assert [] + [l] == [l];
    } else {
      assert (lines + [l])[1..] == lines[1..] + [l];
      NonBlankSnoc(lines[1..], l);
    }
  }

  /** A loaded list with one more record at its end; an error stays. */
  function Extended<T>(r: Result<seq<T>, LoadError>, x: T): Result<seq<T>, LoadError> {
    match r
    case Success(xs) => Success(xs + [x])
    case Failure(err) => Failure(err)
  }

  /** One more line that parses adds its record at the end. */
  lemma {:induction false} ParseAllSnoc<T>(data: seq<string>, l: string, parse: string -> Result<T, LoadError>, x: T)
    requires parse(l) == Success(x)
    ensures ParseAll(data + [l], parse) == Extended(ParseAll(data, parse), x)
  {
    if data == [] {
      assert [] + [l] == [l] && [l][1..] == [];
      assert ParseAll([], parse) == Success([]);
      assert ParseAll([l], parse) == Success([x] + []);
      assert [x] + [] == [] + [x];
      assert Extended(ParseAll(data, parse), x) == Success([] + [x]);
    } else {
      assert (data + [l])[0] == data[0];
      assert (data + [l])[1..] == data[1..] + [l];
      match parse(data[0])
      case Failure(_) =>
      case Success(y) =>
        ParseAllSnoc(data[1..], l, parse, x);
        match ParseAll(data[1..], parse)
        case Failure(_) =>
        case Success(ys) =>
          assert [y] + (ys + [x]) == ([y] + ys) + [x];
    }
  }

  /** One more terminated line after a non-empty terminated text is one
      more line after the header. */
  lemma AfterHeaderAppend(text: string, line: string)
    requires text != [] && Terminated(text)
    requires line != [] && NoLineBreak(line)
    ensures AfterHeader(text + line + "\n") == AfterHeader(text) + [line]
  {
    LinesAppend(text, line);
    var ls := Lines(text);
    var longer := Lines(text + line + "\n");
    assert longer == ls + [line] && ls != [];
    assert longer[1..] == ls[1..] + [line];
  }

  /** Loading a file with one more line that parses yields one more record
      at the end. */
  lemma LoadAppend(text: string, line: string, e: Employee)
    requires text != [] && Terminated(text)
    requires line != [] && NoLineBreak(line) && !IsBlank(line)
    requires ParseLine(line) == Success(e)
    ensures Load(Some(text + line + "\n")).employees == Extended(Load(Some(text)).employees, e)
  {
    AfterHeaderAppend(text, line);
    NonBlankSnoc(AfterHeader(text), line);
    ParseAllSnoc(DataLines(text), line, ParseLine, e);
  }

  /** Saving a storable employee to a file that already has its header and
      ends with a line break: loading afterwards yields what it yielded
      before, followed by that employee. */
  lemma SaveThenLoad(text: string, e: Employee)
    requires text != [] && Terminated(text)
    requires Storable(e)
    ensures var saved := SaveEmployee(Some(text), ToDict(e));
      saved.Some? && saved.value != [] && Terminated(saved.value)
        && Load(saved).employees == Extended(Load(Some(text)).employees, e)
  {
    var line := EmployeeLine(e);
    EmployeeLineShape(e);
    LineRoundTrip(e);
    LoadAppend(text, line, e);
  }

  /** Text after the last field a saved line has is read as further fields
      and ignored. */
  lemma ExtraFieldsIgnored(e: Employee, extra: string)
    requires Storable(e)
    ensures ParseLine(EmployeeLine(e) + "," + extra) == Success(e)
  {
    var line := EmployeeLine(e);
    EmployeeLineShape(e);
    var s := line + "," + extra;
    var x := line + ",";
    assert s == x + extra && s[0] == line[0];
    StripRightAppend(x, extra);
    assert Strip(s) == line + [','] + StripRight(extra);
    SplitConcat(line, StripRight(extra), ',');
    assert Fields(s)[..5] == Fields(line);
    ParseLineOf(s, e);
  }

  /** Blank lines are dropped wherever they are, and the order of the rest
      is kept. */
  lemma {:induction false} NonBlankConcat(a: seq<string>, b: seq<string>)
    ensures NonBlank(a + b) == NonBlank(a) + NonBlank(b)
  {
    if a == [] {
      assert a + b == b;
    } else {
      assert (a + b)[0] == a[0];
      assert (a + b)[1..] == a[1..] + b;
      NonBlankConcat(a[1..], b);
    }
  }

  /** Whatever the first line holds, it is not read as an employee: the
      records come from the lines after it. */
  lemma HeaderIgnored(first: string, rest: string)
    requires NoLineBreak(first)
    ensures Load(Some(first + "\n" + rest)).employees == ParseRecords(Lines(rest))
  {
    LinesCons(first, rest);
    var ls := Lines(first + "\n" + rest);
    assert ls[1..] == Lines(rest);
  }

  /** The header names the fields in the order `add_employee` inserts them,
      which is the order `save_employee` writes them. */
  lemma HeaderMatchesKeys(e: Employee)
    ensures Join(Keys(ToDict(e)), ',') == Header
  {
    assert Keys(ToDict(e)) == HeaderNames;
  }

  /** Creating the file is idempotent. */
  lemma CreateFileIdempotent(f: File)
    ensures CreateFile(CreateFile(f)) == CreateFile(f)
  {
  }

  /** A freshly created file loads as no employees. */
  lemma CreatedFileIsEmpty()
    ensures Load(CreateFile(None)).employees == Success([])
    ensures Load(CreateFile(None)).file == CreateFile(None)
  {
    var text := CreateFile(None).value;
    assert Lines(text) == [Header];
    assert AfterHeader(text) == [];
  }

  /** Saving an employee and loading gives back exactly what was there plus
      that employee if and only if neither text field holds a comma or a
      line break. */
  lemma RoundTripIff(text: string, e: Employee)
    requires text != [] && Terminated(text)
    requires Load(Some(text)).employees.Success?
    ensures Load(SaveEmployee(Some(text), ToDict(e))).employees == Extended(Load(Some(text)).employees, e)
      <==> Storable(e)
  {
    var saved := SaveEmployee(Some(text), ToDict(e));
    if Storable(e) {
      SaveThenLoad(text, e);
    }
    if Load(saved).employees.Success? {
      LoadedAreStorable(saved.value);
    }
  }

  /** On a file holding no employees, an employee is read back as the only
      record if and only if it is storable. */
  lemma RoundTripFromEmpty(f: File, e: Employee)
    requires f.Some? && f.value != [] && Terminated(f.value)
    requires Load(f).employees == Success([])
    ensures Load(SaveEmployee(f, ToDict(e))).employees == Success([e]) <==> Storable(e)
  {
    var empty: seq<Employee> := [];
    assert empty + [e] == [e];
    RoundTripIff(f.value, e);
  }

  /** On a new file, an employee is read back as the only record if and only
      if it is storable. */
  lemma FreshFileRoundTrip(e: Employee)
    ensures Load(SaveEmployee(CreateFile(None), ToDict(e))).employees == Success([e]) <==> Storable(e)
  {
    CreatedFileIsEmpty();
    RoundTripFromEmpty(CreateFile(None), e);
  }

  /** Two saves are read back in the order they were made. */
  lemma SaveTwiceOrder(text: string, a: Employee, b: Employee)
    requires text != [] && Terminated(text)
    requires Storable(a) && Storable(b)
    ensures var once := SaveEmployee(Some(text), ToDict(a));
      Load(SaveEmployee(once, ToDict(b))).employees
        == Extended(Extended(Load(Some(text)).employees, a), b)
  {
    SaveThenLoad(text, a);
    var once := SaveEmployee(Some(text), ToDict(a));
    SaveThenLoad(once.value, b);
  }

  /** An accepted addition is read back at the end of the list when its
      text fields are storable; a rejected one leaves the list as it was. */
  lemma AddThenLoad(text: string, idText: string, name: string, department: string,
                    ageText: string, salaryText: string)
    requires text != [] && Terminated(text)
    requires Plain(name) && Plain(department)
    ensures var r := AddEmployee(Some(text), idText, name, department, ageText, salaryText);
      Load(r.file).employees == match r.employee
        case None => Load(Some(text)).employees
        case Some(e) => Extended(Load(Some(text)).employees, e)
  {
    var r := AddEmployee(Some(text), idText, name, department, ageText, salaryText);
    if r.employee.Some? {
      ParsedIntWithinLimit(idText);
      ParsedIntWithinLimit(ageText);
      SaveThenLoad(text, r.employee.value);
    }
  }

  /** `create_file` leaves an existing empty file without a header, so the
      first line saved to it is read as the header and never loaded. */
  lemma EmptyFileFirstSaveIsHeader(e: Employee)
    requires Plain(e.name) && Plain(e.department)
    ensures CreateFile(Some([])) == Some([])
    ensures Load(SaveEmployee(Some([]), ToDict(e))).employees == Success([])
  {
    var line := EmployeeLine(e);
    EmployeeLineShape(e);
    SingleLine(line);
    assert [] + line + "\n" == line + "\n";
    assert AfterHeader(line + "\n") == [];
  }
}
