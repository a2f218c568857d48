/** The pieces of Python's text handling the record store relies on:
    `str.strip()`, `str.split(sep)`, `sep.join(...)`, and the way a file
    opened in text mode is cut into lines when it is iterated (universal
    newlines: "\n", "\r" and "\r\n" each end a line). */
module Text {

  /** The characters Python's `str.isspace()` accepts; `strip()`, `int()` and
      `float()` remove these from both ends of a string. */
  predicate IsSpace(c: char) {
    var n := c as int;
    || 9 <= n <= 13
    || 28 <= n <= 32
    || n == 0x85 || n == 0xA0 || n == 0x1680
    || 0x2000 <= n <= 0x200A
    || n == 0x2028 || n == 0x2029 || n == 0x202F || n == 0x205F || n == 0x3000
  }

  /** `str.lstrip()`: the suffix left after the longest all-whitespace prefix. */
  function StripLeft(s: string): (r: string)
    ensures |r| <= |s| && r == s[|s| - |r|..]
    ensures forall i :: 0 <= i < |s| - |r| ==> IsSpace(s[i])
    ensures r == [] || !IsSpace(r[0])
  {
    if s != [] && IsSpace(s[0]) then StripLeft(s[1..]) else s
  }

  /** `str.rstrip()`: the prefix left after the longest all-whitespace suffix. */
  function StripRight(s: string): (r: string)
    ensures |r| <= |s| && r == s[..|r|]
    ensures forall i :: |r| <= i < |s| ==> IsSpace(s[i])
    ensures r == [] || !IsSpace(r[|r| - 1])
  {
    if s != [] && IsSpace(s[|s| - 1]) then StripRight(s[..|s| - 1]) else s
  }

  /** `str.strip()`. */
  function Strip(s: string): (r: string)
    ensures r == [] || (!IsSpace(r[0]) && !IsSpace(r[|r| - 1]))
    ensures s == [] || (!IsSpace(s[0]) && !IsSpace(s[|s| - 1])) ==> r == s
  {
    var l := StripLeft(s);
    var r := StripRight(l);
    assert r == [] ==> l == [];
    r
  }

  /** `strip()` removes whitespace from the two ends of a text and nothing
      else. */
  lemma StripTrims(s: string)
    ensures exists i :: Trimmed(s, Strip(s), i)
  {
    var l := StripLeft(s);
    var r := Strip(s);
    var i := |s| - |l|;
    assert r == s[i..i + |r|];
    assert forall k :: i + |r| <= k < |s| ==> s[k] == l[k - i];
    assert Trimmed(s, r, i);
  }

  /** `r` is `s` without its first `i` characters and some more at the
      end, and every character removed is whitespace. */
  predicate Trimmed(s: string, r: string, i: nat) {
    && i + |r| <= |s| && r == s[i..i + |r|]
    && (forall k :: 0 <= k < i ==> IsSpace(s[k]))
    && (forall k :: i + |r| <= k < |s| ==> IsSpace(s[k]))
  }

  /** Stripping only removes characters. */
  lemma StripKeeps(s: string)
    ensures forall c :: c in Strip(s) ==> c in s
  {
    var l := StripLeft(s);
    assert forall c :: c in StripRight(l) ==> c in l;
    assert forall c :: c in l ==> c in s;
  }

  /** Stripping the right end of `x + y` leaves `x` alone when `x` ends in a
      non-space character. */
  lemma {:induction false} StripRightAppend(x: string, y: string)
    requires x != [] && !IsSpace(x[|x| - 1])
    ensures StripRight(x + y) == x + StripRight(y)
    decreases |y|
  {
    if y != [] && IsSpace(y[|y| - 1]) {
      assert (x + y)[..|x + y| - 1] == x + y[..|y| - 1];
      StripRightAppend(x, y[..|y| - 1]);
    } else if y == [] {
      assert x + y == x;
    }
  }

  /** `sep.join(fields)` for a non-empty list. */
  function Join(fields: seq<string>, sep: char): (r: string)
    requires |fields| >= 1
    ensures fields[0] <= r
  {
    if |fields| == 1 then fields[0] else fields[0] + [sep] + Join(fields[1..], sep)
  }

  /** Every character of a joined text is the separator or comes from one
      of the fields. */
  lemma {:induction false} JoinKeeps(fields: seq<string>, sep: char)
    requires |fields| >= 1
    ensures forall c :: c in Join(fields, sep) ==> c == sep || exists k :: 0 <= k < |fields| && c in fields[k]
  {
    if |fields| > 1 {
      var rest := fields[1..];
      JoinKeeps(rest, sep);
      forall c | c in Join(fields, sep)
        ensures c == sep || exists k :: 0 <= k < |fields| && c in fields[k]
      {
        if c in Join(rest, sep) && c != sep {
          var k :| 0 <= k < |rest| && c in rest[k];
          assert rest[k] == fields[k + 1];
        }
      }
    }
  }

  /** A joined text starts with the first field's first character and ends
      with the last field's last character. */
  lemma {:induction false} JoinEnds(fields: seq<string>, sep: char)
    requires |fields| >= 1 && fields[0] != [] && fields[|fields| - 1] != []
    ensures var s := Join(fields, sep);
      s != [] && s[0] == fields[0][0] && s[|s| - 1] == fields[|fields| - 1][|fields[|fields| - 1]| - 1]
  {
    if |fields| > 1 {
      var rest := fields[1..];
      if |rest| > 1 {
        JoinLast(rest, sep);
      }
    }
  }

  lemma {:induction false} JoinLast(fields: seq<string>, sep: char)
    requires |fields| >= 1 && fields[|fields| - 1] != []
    ensures var s := Join(fields, sep);
      s != [] && s[|s| - 1] == fields[|fields| - 1][|fields[|fields| - 1]| - 1]
  {
    if |fields| > 1 {
      JoinLast(fields[1..], sep);
    }
  }

  /** A character that is not the separator and occurs in no field does not
      occur in the joined text. */
  lemma {:induction false} JoinAvoids(fields: seq<string>, sep: char, c: char)
    requires |fields| >= 1 && c != sep
    requires forall k :: 0 <= k < |fields| ==> c !in fields[k]
    ensures c !in Join(fields, sep)
  {
    if |fields| > 1 {
      assert forall k :: 0 <= k < |fields| - 1 ==> fields[1..][k] == fields[k + 1];
      JoinAvoids(fields[1..], sep, c);
    }
  }

  /** `s.split(sep)`: the pieces between separators, empty ones included.
      The result is never empty and no piece holds the separator. */
  function Split(s: string, sep: char): (r: seq<string>)
    ensures |r| >= 1
    ensures forall k :: 0 <= k < |r| ==> sep !in r[k]
  {
    if s == [] then [[]]
    else
      var rest := Split(s[1..], sep);
      if s[0] == sep then
        [[]] + rest
      else
        var r := [[s[0]] + rest[0]] + rest[1..];
        assert r[1..] == rest[1..];
        r
  }

  /** Joining the pieces with the separator gives the split text back. */
  lemma {:induction false} JoinSplit(s: string, sep: char)
    ensures Join(Split(s, sep), sep) == s
  {
    if s != [] {
      JoinSplit(s[1..], sep);
      var rest := Split(s[1..], sep);
      if s[0] == sep {
        assert [sep] + s[1..] == s;
      } else {
        var r := Split(s, sep);
        assert r[1..] == rest[1..];
        if |rest| > 1 {
          assert Join(r, sep) == [s[0]] + rest[0] + [sep] + Join(rest[1..], sep);
        }
        assert [s[0]] + s[1..] == s;
      }
    }
  }

  /** Every character of a piece comes from the split text. */
  lemma {:induction false} SplitKeeps(s: string, sep: char)
    ensures forall k, c :: 0 <= k < |Split(s, sep)| && c in Split(s, sep)[k] ==> c in s
  {
    if s != [] {
      SplitKeeps(s[1..], sep);
      var rest := Split(s[1..], sep);
      var r := Split(s, sep);
      assert forall c :: c in s[1..] ==> c in s;
      forall k, c | 0 <= k < |r| && c in r[k]
        ensures c in s
      {
        if s[0] == sep {
          assert r[k] == ([[]] + rest)[k];
        } else if k == 0 {
          assert r[0] == [s[0]] + rest[0];
        } else {
          assert r[k] == rest[k];
        }
      }
    }
  }

  /** A string with no separator splits into itself. */
  lemma {:induction false} SplitNoSeparator(s: string, sep: char)
    requires sep !in s
    ensures Split(s, sep) == [s]
  {
    if s != [] {
      SplitNoSeparator(s[1..], sep);
      assert [s[0]] + s[1..] == s;
    }
  }

  /** Splitting distributes over a separator placed between two strings. */
  lemma {:induction false} SplitConcat(a: string, b: string, sep: char)
    ensures Split(a + [sep] + b, sep) == Split(a, sep) + Split(b, sep)
  {
    var s := a + [sep] + b;
    if a == [] {
      assert s[0] == sep && s[1..] == b;
    } else {
      assert s[0] == a[0];
      assert s[1..] == a[1..] + [sep] + b;
      SplitConcat(a[1..], b, sep);
    }
  }

  /** `split` undoes `join` when no field holds the separator. */
  lemma {:induction false} SplitJoin(fields: seq<string>, sep: char)
    requires |fields| >= 1
    requires forall k :: 0 <= k < |fields| ==> sep !in fields[k]
    ensures Split(Join(fields, sep), sep) == fields
  {
    SplitNoSeparator(fields[0], sep);
    if |fields| > 1 {
      SplitJoin(fields[1..], sep);
      SplitConcat(fields[0], Join(fields[1..], sep), sep);
      assert [fields[0]] + fields[1..] == fields;
    }
  }

  predicate IsLineBreak(c: char) {
    c == '\n' || c == '\r'
  }

  predicate NoLineBreak(s: string) {
    '\n' !in s && '\r' !in s
  }

  /** The text is empty or its last line is terminated. */
  predicate Terminated(t: string) {
    t == [] || IsLineBreak(t[|t| - 1])
  }

  /** How many characters the first unit of a text-mode read consumes: two
      for a "\r\n" pair, one otherwise. */
  function Step(t: string): (n: nat)
    requires t != []
    ensures 1 <= n <= |t|
  {
    if t[0] == '\r' && |t| > 1 && t[1] == '\n' then 2 else 1
  }

  /** What a unit starting with `c` reads as. */
  function Unit(c: char): string {
    if c == '\r' then "\n" else [c]
  }

  /** Universal-newline translation done by a text-mode read: "\r\n" and a
      lone "\r" both become "\n". */
  function Translate(t: string): (r: string)
    ensures '\r' !in r
    ensures |r| <= |t|
    ensures r == [] <==> t == []
  {
    if t == [] then [] else Unit(t[0]) + Translate(t[Step(t)..])
  }

  /** Translation works piecewise unless the cut falls inside a "\r\n" pair. */
  lemma {:induction false} TranslateConcat(a: string, b: string)
    requires a == [] || b == [] || a[|a| - 1] != '\r' || b[0] != '\n'
    ensures Translate(a + b) == Translate(a) + Translate(b)
    decreases |a|
  {
    if a == [] {
      assert a + b == b;
    } else if b == [] {
      assert a + b == a;
    } else {
      var n := Step(a);
      StepConcat(a, b);
      TranslateConcat(a[n..], b);
      TranslateConcatStep(a, b, n);
    }
  }

  /** The inductive step of `TranslateConcat`: the first unit of `a` is
      also the first unit of `a + b`. */
  lemma TranslateConcatStep(a: string, b: string, n: nat)
    requires a != [] && n == Step(a)
    requires (a + b)[0] == a[0] && Step(a + b) == n && (a + b)[n..] == a[n..] + b
    requires Translate(a[n..] + b) == Translate(a[n..]) + Translate(b)
    ensures Translate(a + b) == Translate(a) + Translate(b)
  {
    TranslateUnfold(a + b);
    TranslateUnfold(a);
    var u, x, y := Unit(a[0]), Translate(a[n..]), Translate(b);
    assert u + (x + y) == (u + x) + y;
  }

  /** One step of the translation, for use where the definition should not
      be unfolded further. */
  lemma TranslateUnfold(t: string)
    requires t != []
    ensures Translate(t) == Unit(t[0]) + Translate(t[Step(t)..])
  {
  }

  /** The first unit of `a + b` is that of `a` when the cut does not fall
      inside a "\r\n" pair. */
  lemma StepConcat(a: string, b: string)
    requires a != [] && b != []
    requires a[|a| - 1] != '\r' || b[0] != '\n'
    ensures var n := Step(a);
      (a + b)[0] == a[0] && Step(a + b) == n && (a + b)[n..] == a[n..] + b
        && (a[n..] == [] || a[n..][|a[n..]| - 1] == a[|a| - 1])
  {
    var s := a + b;
    assert |a| > 1 ==> s[1] == a[1];
  }

  /** Text without "\r" or "\n" is left as it is. */
  lemma {:induction false} TranslatePlain(t: string)
    requires NoLineBreak(t)
    ensures Translate(t) == t
  {
    if t != [] {
      TranslatePlain(t[1..]);
      assert [t[0]] + t[1..] == t;
    }
  }

  /** The universal-newline rule for a "\r\n" pair: it reads as one "\n". */
  lemma TranslateCrLf(a: string, b: string)
    requires a == [] || a[|a| - 1] != '\r'
    ensures Translate(a + "\r\n" + b) == Translate(a) + "\n" + Translate(b)
  {
    var w := "\r\n" + b;
    assert a + "\r\n" + b == a + w;
    TranslateConcat(a, w);
    TranslateUnfold(w);
    assert Step(w) == 2 && w[2..] == b;
  }

  /** The universal-newline rule for a lone "\r": it reads as "\n". */
  lemma TranslateLoneCr(a: string, b: string)
    requires a == [] || a[|a| - 1] != '\r'
    requires b == [] || b[0] != '\n'
    ensures Translate(a + "\r" + b) == Translate(a) + "\n" + Translate(b)
  {
    var w := "\r" + b;
    assert a + "\r" + b == a + w;
    assert w[1..] == b;
    TranslateConcat(a, w);
    LoneCrStep(w);
  }

  /** A text that starts with a "\r" not followed by "\n" reads that "\r"
      as "\n". */
  lemma LoneCrStep(w: string)
    requires w != [] && w[0] == '\r'
    requires |w| == 1 || w[1] != '\n'
    ensures Translate(w) == "\n" + Translate(w[1..])
  {
    TranslateUnfold(w);
  }

  /** Every character other than "\r" reads as itself. */
  lemma TranslateKeeps(a: string, c: char, b: string)
    requires c != '\r'
    requires a == [] || a[|a| - 1] != '\r' || c != '\n'
    ensures Translate(a + [c] + b) == Translate(a) + [c] + Translate(b)
  {
    var w := [c] + b;
    assert a + [c] + b == a + w;
    TranslateConcat(a, w);
    TranslateUnfold(w);
    assert Step(w) == 1 && w[1..] == b;
  }

  /** A non-empty text ends with a line break exactly when its translation
      ends with "\n". */
  lemma {:induction false} TranslateTerminated(t: string)
    requires t != [] && Terminated(t)
    ensures Translate(t)[|Translate(t)| - 1] == '\n'
    decreases |t|
  {
    var n := Step(t);
    var u := Unit(t[0]);
    var r := Translate(t[n..]);
    assert Translate(t) == u + r;
    if n < |t| {
      assert t[n..][|t| - n - 1] == t[|t| - 1];
      TranslateTerminated(t[n..]);
    } else {
      assert r == [];
    }
  }

  /** The list of lines without the empty piece a final "\n" leaves behind. */
  function DropFinalEmpty(pieces: seq<string>): seq<string>
    requires |pieces| >= 1
  {
    if pieces[|pieces| - 1] == [] then pieces[..|pieces| - 1] else pieces
  }

  /** The lines `for line in file` yields, terminators removed: the
      translated text cut at every "\n", where a final "\n" does not start
      another line. An empty text has no lines. */
  function Lines(t: string): (ls: seq<string>)
    ensures ls == [] <==> t == []
  {
    DropFinalEmpty(Split(Translate(t), '\n'))
  }

  /** No line `Lines` yields holds a line break. */
  lemma LinesHaveNoBreaks(t: string)
    ensures forall k :: 0 <= k < |Lines(t)| ==> NoLineBreak(Lines(t)[k])
  {
    var pieces := Split(Translate(t), '\n');
    SplitKeeps(Translate(t), '\n');
    forall k | 0 <= k < |Lines(t)|
      ensures NoLineBreak(Lines(t)[k])
    {
      assert Lines(t)[k] == pieces[k];
    }
  }

  /** A line of text followed by "\n" comes out first, whatever follows. */
  lemma LinesCons(h: string, rest: string)
    requires NoLineBreak(h)
    ensures Lines(h + "\n" + rest) == [h] + Lines(rest)
  {
    var r := Translate(rest);
    TranslateLineFirst(h, rest);
    SplitConcat(h, r, '\n');
    SplitNoSeparator(h, '\n');
  }

  /** A plain line and its "\n" translate to themselves, whatever follows. */
  lemma TranslateLineFirst(h: string, rest: string)
    requires NoLineBreak(h)
    ensures Translate(h + "\n" + rest) == h + ['\n'] + Translate(rest)
  {
    TranslatePlainLine(h);
    TranslateConcat(h + "\n", rest);
  }

  /** A plain line and its "\n" translate to themselves. */
  lemma TranslatePlainLine(h: string)
    requires NoLineBreak(h)
    ensures Translate(h + "\n") == h + "\n"
  {
    TranslatePlain(h);
    TranslateConcat(h, "\n");
    assert Translate("\n") == "\n";
  }

  /** A text that is one plain line with its "\n" reads as that line. */
  lemma SingleLine(h: string)
    requires h != [] && NoLineBreak(h)
    ensures Lines(h + "\n") == [h]
  {
    LinesAppend([], h);
    assert [] + h + "\n" == h + "\n";
  }

  /** `l + "\n"` splits into `l` and the empty piece after it. */
  lemma SplitLine(l: string)
    requires '\n' !in l
    ensures Split(l + "\n", '\n') == [l, []]
  {
    assert l + "\n" == l + ['\n'] + [];
    SplitConcat(l, [], '\n');
    SplitNoSeparator(l, '\n');
  }

  /** On translated text: one more "\n"-terminated line after text that is
      empty or ends in "\n" adds exactly that line. */
  lemma CutAppend(u: string, l: string)
    requires u == [] || u[|u| - 1] == '\n'
    requires '\n' !in l
    ensures DropFinalEmpty(Split(u + l + "\n", '\n')) == DropFinalEmpty(Split(u, '\n')) + [l]
  {
    SplitLine(l);
    if u == [] {
      assert u + l + "\n" == l + "\n";
    } else {
      var sv := Split(u[..|u| - 1], '\n');
      SplitAfterBreak(u, []);
      SplitAfterBreak(u, l + "\n");
      assert u + [] == u;
      assert u + (l + "\n") == u + l + "\n";
      assert DropFinalEmpty(sv + [[]]) == sv;
      assert DropFinalEmpty(sv + [l, []]) == sv + [l];
    }
  }

  /** Text ending in a separator splits into its pieces before that
      separator followed by the pieces of whatever comes next. */
  lemma SplitAfterBreak(u: string, w: string)
    requires u != [] && u[|u| - 1] == '\n'
    ensures Split(u + w, '\n') == Split(u[..|u| - 1], '\n') + Split(w, '\n')
  {
    var v := u[..|u| - 1];
    assert u + w == v + ['\n'] + w;
    SplitConcat(v, w, '\n');
  }

  /** Translating text followed by a plain terminated line. */
  lemma TranslateAppendLine(t: string, l: string)
    requires Terminated(t)
    requires l != [] && NoLineBreak(l)
    ensures Translate(t + l + "\n") == Translate(t) + l + "\n"
  {
    var w := l + "\n";
    TranslatePlainLine(l);
    assert w[0] == l[0] && l[0] in l;
    assert t + l + "\n" == t + w;
    TranslateConcat(t, w);
    assert Translate(t) + w == Translate(t) + l + "\n";
  }

  /** Appending one terminated line to a text whose last line is terminated
      adds exactly that line and leaves the earlier lines as they were. */
  lemma LinesAppend(t: string, l: string)
    requires Terminated(t)
    requires l != [] && NoLineBreak(l)
    ensures Lines(t + l + "\n") == Lines(t) + [l]
  {
    TranslateAppendLine(t, l);
    if t != [] {
      TranslateTerminated(t);
    }
    CutAppend(Translate(t), l);
  }

  /** A text that ends in a character other than "\r" translates to text
      ending in that character. */
  lemma {:induction false} TranslateLast(t: string)
    requires t != [] && t[|t| - 1] != '\r'
    ensures Translate(t) != [] && Translate(t)[|Translate(t)| - 1] == t[|t| - 1]
    decreases |t|
  {
    var n := Step(t);
    var u := Unit(t[0]);
    var r := Translate(t[n..]);
    assert Translate(t) == u + r;
    if n < |t| {
      assert t[n..][|t| - n - 1] == t[|t| - 1];
      TranslateLast(t[n..]);
    } else {
      assert r == [];
    }
  }

  /** The pieces of `p` with text `y` added to the last one. */
  function Extend(p: seq<string>, y: string): seq<string>
    requires |p| >= 1
  {
    p[..|p| - 1] + [p[|p| - 1] + y]
  }

  /** Text without a separator added to the end of `x` lengthens the last
      piece of `x` and adds none. */
  lemma {:induction false} SplitExtend(x: string, y: string, sep: char)
    requires sep !in y
    ensures Split(x + y, sep) == Extend(Split(x, sep), y)
  {
    if x == [] {
      assert x + y == y;
      SplitNoSeparator(y, sep);
    } else {
      SplitExtend(x[1..], y, sep);
      assert (x + y)[0] == x[0] && (x + y)[1..] == x[1..] + y;
      SplitExtendStep(x[0], Split(x[1..], sep), y, sep);
    }
  }

  /** The inductive step of `SplitExtend`: one more character in front. */
  lemma SplitExtendStep(c: char, q: seq<string>, y: string, sep: char)
    requires |q| >= 1
    ensures var e := Extend(q, y);
      (if c == sep then [[]] + e else [[c] + e[0]] + e[1..])
        == Extend(if c == sep then [[]] + q else [[c] + q[0]] + q[1..], y)
  {
    var m := |q|;
    if c != sep && m == 1 {
      assert [c] + (q[0] + y) == ([c] + q[0]) + y;
    }
  }

  /** Text that does not end in the separator has a non-empty last piece. */
  lemma SplitLastPiece(x: string, sep: char)
    requires x != [] && x[|x| - 1] != sep
    ensures var p := Split(x, sep); p[|p| - 1] != []
  {
    var v := x[..|x| - 1];
    var c := x[|x| - 1];
    assert v + [c] == x;
    SplitExtend(v, [c], sep);
    var p := Split(v, sep);
    assert Extend(p, [c])[|p| - 1] == p[|p| - 1] + [c];
  }

  /** Translating text that does not end in "\r", followed by a plain line
      and its "\n". */
  lemma TranslateAfter(t: string, l: string)
    requires t != [] && t[|t| - 1] != '\r'
    requires NoLineBreak(l)
    ensures Translate(t + l + "\n") == Translate(t) + l + "\n"
  {
    var w := l + "\n";
    TranslatePlainLine(l);
    assert t + l + "\n" == t + w;
    TranslateConcat(t, w);
    assert Translate(t) + w == Translate(t) + l + "\n";
  }

  /** Appending a line and its "\n" to text whose last line has no
      terminator does not start a new line: the appended text becomes part
      of that last line, and the earlier lines stay as they were. */
  lemma LinesAppendUnterminated(t: string, l: string)
    requires t != [] && !IsLineBreak(t[|t| - 1])
    requires NoLineBreak(l)
    ensures var ls := Lines(t);
      Lines(t + l + "\n") == ls[..|ls| - 1] + [ls[|ls| - 1] + l]
  {
    var u := Translate(t);
    TranslateAfter(t, l);
    TranslateLast(t);
    var p := Split(u, '\n');
    SplitLastPiece(u, '\n');
    assert Lines(t) == p;
    SplitExtend(u, l, '\n');
    assert u + l + "\n" == (u + l) + ['\n'] + [];
    SplitConcat(u + l, [], '\n');
    assert Split(u + l + "\n", '\n') == Extend(p, l) + [[]];
  }
}
