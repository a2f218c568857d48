/** `analyze_data`: the employee count, the highest and lowest salary, and
    the number of employees per department in the order departments are
    first met. */
module Analysis {
  import opened Wrappers
  import opened Numbers
  import opened RecordStore

  /** One entry of the department dictionary. */
  datatype DeptCount = DeptCount(department: string, count: nat)

  /** What `analyze_data` reports for a non-empty list of employees. */
  datatype Report = Report(total: nat, highest: Float, lowest: Float, departments: seq<DeptCount>)

  function Departments(es: seq<Employee>): (ds: seq<string>)
    ensures |ds| == |es| && forall k :: 0 <= k < |es| ==> ds[k] == es[k].department
  {
    seq(|es|, k requires 0 <= k < |es| => es[k].department)
  }

  function Salaries(es: seq<Employee>): (xs: seq<Float>)
    ensures |xs| == |es| && forall k :: 0 <= k < |es| ==> xs[k] == es[k].salary
  {
    seq(|es|, k requires 0 <= k < |es| => es[k].salary)
  }

  /** How many times `x` occurs in `s`. */
  function Occurrences(s: seq<string>, x: string): nat {
    if s == [] then 0
    else Occurrences(s[..|s| - 1], x) + (if s[|s| - 1] == x then 1 else 0)
  }

  /** The distinct elements of `s` in the order of their first occurrence:
      the reference the department dictionary's keys are checked against. */
  function FirstSeen(s: seq<string>): seq<string> {
    if s == [] then []
    else
      var d := FirstSeen(s[..|s| - 1]);
      if s[|s| - 1] in d then d else d + [s[|s| - 1]]
  }

  predicate Distinct(s: seq<string>) {
    forall i, j :: 0 <= i < j < |s| ==> s[i] != s[j]
  }

  /** The keys of the department dictionary, in insertion order. */
  function Names(cs: seq<DeptCount>): (ns: seq<string>)
    ensures |ns| == |cs| && forall k :: 0 <= k < |cs| ==> ns[k] == cs[k].department
  {
    seq(|cs|, k requires 0 <= k < |cs| => cs[k].department)
  }

  /** The sum of the counts. */
  function Total(cs: seq<DeptCount>): nat {
    if cs == [] then 0 else Total(cs[..|cs| - 1]) + cs[|cs| - 1].count
  }

  /** `cs` is the department dictionary for the departments `s`: one key per
      distinct department, in first-seen order, each counting how often it
      occurs. */
  predicate CountsOf(cs: seq<DeptCount>, s: seq<string>) {
    && Names(cs) == FirstSeen(s)
    && forall k :: 0 <= k < |cs| ==> cs[k].count == Occurrences(s, cs[k].department)
  }

  /** Where key `d` sits in the dictionary. */
  function Position(cs: seq<DeptCount>, d: string): (i: nat)
    requires d in Names(cs)
    ensures i < |cs| && cs[i].department == d
    ensures forall k :: 0 <= k < i ==> cs[k].department != d
  {
    if cs[0].department == d then 0
    else
      assert Names(cs[1..]) == Names(cs)[1..];
      Position(cs[1..], d) + 1
  }

  /** `dept_counts.get(d, 0)`. */
  function Get(cs: seq<DeptCount>, d: string): (v: nat)
    ensures d !in Names(cs) ==> v == 0
    ensures Distinct(Names(cs)) ==>
      forall k :: 0 <= k < |cs| && cs[k].department == d ==> v == cs[k].count
  {
    if d in Names(cs) then cs[Position(cs, d)].count else 0
  }

  /** `dept_counts[d] = v`: an existing key keeps its place, a new key goes
      last. */
  function Put(cs: seq<DeptCount>, d: string, v: nat): (r: seq<DeptCount>)
    requires Distinct(Names(cs))
    ensures Names(r) == if d in Names(cs) then Names(cs) else Names(cs) + [d]
    ensures Distinct(Names(r))
    ensures forall k :: 0 <= k < |cs| && cs[k].department != d ==> r[k] == cs[k]
    ensures forall k :: 0 <= k < |r| && r[k].department == d ==> r[k].count == v
  {
    if d in Names(cs) then
      var i := Position(cs, d);
      var r := cs[i := DeptCount(d, v)];
      assert Names(r) == Names(cs);
      r
    else
      var r := cs + [DeptCount(d, v)];
      assert Names(r) == Names(cs) + [d];
      r
  }

  lemma {:induction false} OccurrencesAbsent(s: seq<string>, x: string)
    requires x !in s
    ensures Occurrences(s, x) == 0
  {
    if s != [] {
      OccurrencesAbsent(s[..|s| - 1], x);
    }
  }

  /** The first-seen list holds every element once. */
  lemma {:induction false} FirstSeenElements(s: seq<string>)
    ensures Distinct(FirstSeen(s))
    ensures forall x :: x in FirstSeen(s) <==> x in s
  {
    if s != [] {
      var p := s[..|s| - 1];
      FirstSeenElements(p);
      assert s == p + [s[|s| - 1]];
    }
  }

  /** Every element `fs` lists before the one `s` holds at `q` occurs in
      `s` before `q`. */
  predicate OrderedByFirstSeen(fs: seq<string>, s: seq<string>) {
    forall i, j, q :: 0 <= i < j < |fs| && 0 <= q < |s| && s[q] == fs[j] ==> fs[i] in s[..q]
  }

  lemma FirstSeenOrderStep(p: seq<string>, x: string)
    requires OrderedByFirstSeen(FirstSeen(p), p)
    ensures OrderedByFirstSeen(FirstSeen(p + [x]), p + [x])
  {
    var s := p + [x];
    assert s[..|s| - 1] == p;
    FirstSeenElements(p);
    var fs := FirstSeen(s);
    var fp := FirstSeen(p);
    assert fs == if x in fp then fp else fp + [x];
    forall i, j, q | 0 <= i < j < |fs| && 0 <= q < |s| && s[q] == fs[j]
      ensures fs[i] in s[..q]
    {
      assert fs[i] == fp[i];
      if q < |p| {
        assert s[..q] == p[..q] && s[q] == p[q];
        assert p[q] in fp;
        assert j < |fp| && fs[j] == fp[j];
      } else {
        assert s[..q] == p;
        assert fp[i] in fp;
      }
    }
  }

  /** The first-seen list is ordered by first occurrence: wherever an
      element occurs in `s`, every element listed before it has already
      occurred. */
  lemma {:induction false} FirstSeenOrder(s: seq<string>)
    ensures OrderedByFirstSeen(FirstSeen(s), s)
  {
    if s != [] {
      var p := s[..|s| - 1];
      FirstSeenOrder(p);
      FirstSeenOrderStep(p, s[|s| - 1]);
      assert p + [s[|s| - 1]] == s;
    }
  }

  /** Changing one count changes the total by the difference. */
  lemma {:induction false} TotalUpdate(cs: seq<DeptCount>, i: nat, c: DeptCount)
    requires i < |cs|
    ensures Total(cs[i := c]) + cs[i].count == Total(cs) + c.count
  {
    var n := |cs| - 1;
    if i < n {
      assert cs[i := c][..n] == cs[..n][i := c];
      TotalUpdate(cs[..n], i, c);
    } else {
      assert cs[i := c][..n] == cs[..n];
    }
  }

  /** One pass of the loop body keeps the dictionary counting the
      departments seen so far. */
  lemma TallyStep(cs: seq<DeptCount>, s: seq<string>, d: string)
    requires CountsOf(cs, s)
    ensures Distinct(Names(cs))
    ensures CountsOf(Put(cs, d, Get(cs, d) + 1), s + [d])
    ensures Total(Put(cs, d, Get(cs, d) + 1)) == Total(cs) + 1
  {
    FirstSeenElements(s);
    if d in Names(cs) {
      TallyKnown(cs, s, d);
    } else {
      TallyNew(cs, s, d);
    }
  }

  /** The loop body on a department already in the dictionary. */
  lemma TallyKnown(cs: seq<DeptCount>, s: seq<string>, d: string)
    requires CountsOf(cs, s) && Distinct(Names(cs)) && d in Names(cs)
    ensures CountsOf(Put(cs, d, Get(cs, d) + 1), s + [d])
    ensures Total(Put(cs, d, Get(cs, d) + 1)) == Total(cs) + 1
  {
    var t := s + [d];
    assert t[..|t| - 1] == s;
    FirstSeenElements(s);
    var r := Put(cs, d, Get(cs, d) + 1);
    var i := Position(cs, d);
    TotalUpdate(cs, i, DeptCount(d, Get(cs, d) + 1));
    assert forall k :: 0 <= k < |r| ==> r[k].count == Occurrences(t, r[k].department);
  }

  /** The loop body on a department met for the first time. */
  lemma TallyNew(cs: seq<DeptCount>, s: seq<string>, d: string)
    requires CountsOf(cs, s) && Distinct(Names(cs)) && d !in Names(cs)
    ensures CountsOf(Put(cs, d, Get(cs, d) + 1), s + [d])
    ensures Total(Put(cs, d, Get(cs, d) + 1)) == Total(cs) + 1
  {
    var t := s + [d];
    assert t[..|t| - 1] == s;
    FirstSeenElements(s);
    var r := Put(cs, d, Get(cs, d) + 1);
    OccurrencesAbsent(s, d);
    assert r[..|r| - 1] == cs;
    assert forall k :: 0 <= k < |r| ==> r[k].count == Occurrences(t, r[k].department);
  }

  /** `TallyStep` for the next element of a list whose prefix is counted. */
  lemma TallyPrefix(cs: seq<DeptCount>, s: seq<string>, i: nat)
    requires i < |s| && CountsOf(cs, s[..i])
    ensures Distinct(Names(cs))
    ensures CountsOf(Put(cs, s[i], Get(cs, s[i]) + 1), s[..i + 1])
    ensures Total(Put(cs, s[i], Get(cs, s[i]) + 1)) == Total(cs) + 1
  {
    TallyStep(cs, s[..i], s[i]);
    assert s[..i + 1] == s[..i] + [s[i]];
  }

  /** The counting loop over a list of departments. */
  method CountDepartments(s: seq<string>) returns (cs: seq<DeptCount>)
    ensures CountsOf(cs, s)
    ensures Total(cs) == |s|
  {
    cs := [];
    var i := 0;
    while i < |s|
      invariant 0 <= i <= |s|
      invariant CountsOf(cs, s[..i])
      invariant Total(cs) == i
    {
      TallyPrefix(cs, s, i);
      cs := Put(cs, s[i], Get(cs, s[i]) + 1);
      i := i + 1;
    }
    assert s[..i] == s;
  }

  /** The department loop of `analyze_data`. */
  method DepartmentCounts(es: seq<Employee>) returns (cs: seq<DeptCount>)
    ensures CountsOf(cs, Departments(es))
    ensures Total(cs) == |es|
  {
    cs := CountDepartments(Departments(es));
  }

  /** The department dictionary is determined by the departments it
      counts: any two dictionaries that count the same list are equal. */
  lemma CountsUnique(a: seq<DeptCount>, b: seq<DeptCount>, s: seq<string>)
    requires CountsOf(a, s) && CountsOf(b, s)
    ensures a == b
  {
    assert |a| == |Names(a)| == |Names(b)| == |b|;
    forall k | 0 <= k < |a|
      ensures a[k] == b[k]
    {
      assert Names(a)[k] == Names(b)[k];
    }
  }

  /** `np.max` of the salaries: a salary of the list no other exceeds. */
  function MaxSalary(xs: seq<Float>): (m: Float)
    requires xs != []
    ensures m in xs
    ensures forall k :: 0 <= k < |xs| ==> Value(xs[k]) <= Value(m)
  {
    if |xs| == 1 then xs[0]
    else
      var p := xs[..|xs| - 1];
      var m := MaxSalary(p);
      assert forall k :: 0 <= k < |p| ==> xs[k] == p[k];
      if Value(xs[|xs| - 1]) > Value(m) then xs[|xs| - 1] else m
  }

  /** `np.min` of the salaries: a salary of the list no other is below. */
  function MinSalary(xs: seq<Float>): (m: Float)
    requires xs != []
    ensures m in xs
    ensures forall k :: 0 <= k < |xs| ==> Value(m) <= Value(xs[k])
  {
    if |xs| == 1 then xs[0]
    else
      var p := xs[..|xs| - 1];
      var m := MinSalary(p);
      assert forall k :: 0 <= k < |p| ==> xs[k] == p[k];
      if Value(xs[|xs| - 1]) < Value(m) then xs[|xs| - 1] else m
  }

  /** `report` holds the right statistics for the employees `es`: their
      number, a highest and a lowest salary that occur among them, and the
      department counts. */
  predicate Describes(report: Report, es: seq<Employee>) {
    && report.total == |es|
    && report.highest in Salaries(es) && report.lowest in Salaries(es)
    && (forall e :: e in es ==> Value(report.lowest) <= Value(e.salary) <= Value(report.highest))
    && CountsOf(report.departments, Departments(es))
    && Total(report.departments) == |es|
  }

  /** The statistics `analyze_data` prints for a list of employees; `None`
      for the empty list, where it stops early. */
  method Summarize(es: seq<Employee>) returns (r: Option<Report>)
    ensures r.None? <==> es == []
    ensures r.Some? ==> Describes(r.value, es)
  {
    if es == [] {
      return None;
    }
    var salaries := Salaries(es);
    var highest := MaxSalary(salaries);
    var lowest := MinSalary(salaries);
    var departments := DepartmentCounts(es);
    r := Some(Report(|es|, highest, lowest, departments));
  }

  /** `analyze_data` on the file: a load error escapes, no employees means
      no report. */
  method AnalyzeData(f: File) returns (file: File, outcome: Result<Option<Report>, LoadError>)
    ensures file == Load(f).file
    ensures Load(f).employees.Failure? ==> outcome == Failure(Load(f).employees.error)
    ensures Load(f).employees.Success? ==> outcome.Success?
    ensures Load(f).employees.Success? ==>
      (outcome.value.None? <==> Load(f).employees.value == [])
    ensures Load(f).employees.Success? && outcome.value.Some? ==>
      Describes(outcome.value.value, Load(f).employees.value)
  {
    var loaded := Load(f);
    file := loaded.file;
    match loaded.employees
    case Failure(e) =>
      outcome := Failure(e);
    case Success(es) =>
      var report := Summarize(es);
      outcome := Success(report);
  }
}
