/** Python's `str()` of an `int` and of a `float`, and the `int()` and
    `float()` conversions back from text, restricted to plain decimal
    notation. A float is modelled as the exact decimal its `str()` shows. */
module Numbers {
  import opened Wrappers
  import opened Text

  type Digit = d: int | 0 <= d <= 9

  predicate IsDigit(c: char) {
    '0' <= c <= '9'
  }

  predicate AllDigits(s: string) {
    forall k :: 0 <= k < |s| ==> IsDigit(s[k])
  }

  function DigitChar(d: Digit): (c: char)
    ensures IsDigit(c) && DigitOf(c) == d
  {
    ('0' as int + d) as char
  }

  function DigitOf(c: char): Digit
    requires IsDigit(c)
  {
    c as int - '0' as int
  }

  /** The number a run of decimal digits denotes; leading zeros allowed. */
  function DigitsValue(s: string): nat
    requires AllDigits(s)
  {
    if s == [] then 0 else 10 * DigitsValue(s[..|s| - 1]) + DigitOf(s[|s| - 1])
  }

  /** `str(n)` for `n >= 0`: its decimal digits, without leading zeros. */
  function NatToString(n: nat): (s: string)
    ensures s != [] && AllDigits(s)
    ensures DigitsValue(s) == n
    ensures s[0] == '0' ==> s == "0"
  {
    if n < 10 then [DigitChar(n)]
    else
      var p := NatToString(n / 10);
      var s := p + [DigitChar(n % 10)];
      assert s[..|s| - 1] == p;
      s
  }

  function Abs(n: int): nat {
    if n < 0 then -n else n
  }

  /** `str(n)` for any `int`. */
  function IntToString(n: int): (s: string)
    ensures s != []
    ensures forall c :: c in s ==> c == '-' || IsDigit(c)
    ensures s[|s| - 1] != '-'
    ensures s[0] == '-' <==> n < 0
  {
    if n < 0 then "-" + NatToString(-n) else NatToString(n)
  }

  /** The most digits `int()` converts and `str()` of an int produces:
      Python's default `sys.int_info.default_max_str_digits`. Beyond it
      both raise `ValueError`. */
  const MaxDigits: nat := 4300

  /** The ints whose `str()` stays within the digit limit. */
  predicate WithinDigitLimit(n: int) {
    |NatToString(Abs(n))| <= MaxDigits
  }

  /** The information separators U+001C to U+001F: `str.isspace()` accepts
      them, but `int()` and `float()` do not skip them around a number. */
  predicate IsInfoSeparator(c: char) {
    28 <= c as int <= 31
  }

  predicate NoInfoSeparator(s: string) {
    forall k :: 0 <= k < |s| ==> !IsInfoSeparator(s[k])
  }

  /** The text after an optional leading sign. */
  function Unsigned(t: string): (u: string)
    ensures |u| <= |t| && u == t[|t| - |u|..]
    ensures u != t <==> t != [] && (t[0] == '-' || t[0] == '+')
  {
    if t != [] && (t[0] == '-' || t[0] == '+') then t[1..] else t
  }

  /** The syntax `int()` accepts once surrounding whitespace is stripped:
      an optional sign and one or more decimal digits. */
  predicate IsIntLiteral(t: string) {
    || (t != [] && AllDigits(t))
    || (|t| >= 2 && (t[0] == '+' || t[0] == '-') && AllDigits(t[1..]))
  }

  /** `int(text)`; `None` where Python raises `ValueError`. Only whitespace
      other than the information separators is skipped, and at most
      `MaxDigits` digits are converted. */
  function ParseInt(text: string): (r: Option<int>)
    ensures r.Some? <==>
      NoInfoSeparator(text) && IsIntLiteral(Strip(text)) && |Unsigned(Strip(text))| <= MaxDigits
    ensures r.Some? ==> Abs(r.value) == DigitsValue(Unsigned(Strip(text)))
    ensures r.Some? && r.value != 0 ==> (r.value < 0 <==> Strip(text)[0] == '-')
  {
    if !NoInfoSeparator(text) then None
    else
      var t := Strip(text);
      var digits := Unsigned(t);
      if digits != [] && AllDigits(digits) && |digits| <= MaxDigits then
        var magnitude: int := DigitsValue(digits);
        Some(if t[0] == '-' then -magnitude else magnitude)
      else None
  }

  /** Leading zeros aside, `str()` writes no more digits than were read. */
  lemma {:induction false} NatToStringShortest(d: string)
    requires d != [] && AllDigits(d)
    ensures |NatToString(DigitsValue(d))| <= |d|
  {
    var p := d[..|d| - 1];
    var n := DigitsValue(d);
    if p != [] && n >= 10 {
      assert n / 10 == DigitsValue(p);
      NatToStringShortest(p);
    }
  }

  /** Every int `int()` returns can be written back by `str()`. */
  lemma ParsedIntWithinLimit(text: string)
    requires ParseInt(text).Some?
    ensures WithinDigitLimit(ParseInt(text).value)
  {
    NatToStringShortest(Unsigned(Strip(text)));
  }

  /** A text of signs, points and digits holds no information separator. */
  lemma NumeralHasNoSeparator(s: string)
    requires forall c :: c in s ==> c == '-' || c == '.' || IsDigit(c)
    ensures NoInfoSeparator(s)
  {
    forall k | 0 <= k < |s|
      ensures !IsInfoSeparator(s[k])
    {
      assert s[k] in s;
    }
  }

  /** `int(str(n)) == n` for every int within the digit limit. */
  lemma IntRoundTrip(n: int)
    requires WithinDigitLimit(n)
    ensures ParseInt(IntToString(n)) == Some(n)
  {
    IntTextShape(n);
    ParseIntOf(IntToString(n), n);
  }

  /** `str(n)` has nothing to strip, no information separator, and its
      digits after the sign are those of `|n|`. */
  lemma IntTextShape(n: int)
    ensures var s := IntToString(n);
      Strip(s) == s && NoInfoSeparator(s) && Unsigned(s) == NatToString(Abs(n))
  {
    var s := IntToString(n);
    var d := NatToString(Abs(n));
    assert !IsSpace(s[0]) && !IsSpace(s[|s| - 1]);
    NumeralHasNoSeparator(s);
    if n < 0 {
      assert s[1..] == d;
    } else {
      assert IsDigit(d[0]);
    }
  }

  /** Reading back a text whose digits after the sign are those of `|n|`
      and whose sign is that of `n`. */
  lemma ParseIntOf(s: string, n: int)
    requires Strip(s) == s && NoInfoSeparator(s)
    requires Unsigned(s) == NatToString(Abs(n)) && WithinDigitLimit(n)
    requires s[0] == '-' <==> n < 0
    ensures ParseInt(s) == Some(n)
  {
    var d := Unsigned(s);
    assert IsIntLiteral(s) by {
      if d != s {
        assert s[1..] == d;
      }
    }
  }

  /** A float as the decimal its `str()` prints: a sign, the integral part,
      and the digits after the point. */
  datatype Decimal = Decimal(negative: bool, whole: nat, fraction: seq<Digit>)

  /** The shape `str()` gives a float: at least one digit after the point,
      and no trailing zero unless that zero is the only one ("75000.0"). */
  predicate Canonical(d: Decimal) {
    |d.fraction| >= 1 && (|d.fraction| == 1 || d.fraction[|d.fraction| - 1] != 0)
  }

  type Float = d: Decimal | Canonical(d) witness Decimal(false, 0, [0])

  /** The value of the digits after a decimal point. */
  function FractionValue(ds: seq<Digit>): real {
    if ds == [] then 0.0 else (ds[0] as real + FractionValue(ds[1..])) / 10.0
  }

  /** The number a decimal denotes; negative zero has value zero. */
  function Value(d: Decimal): real {
    var magnitude := d.whole as real + FractionValue(d.fraction);
    if d.negative then -magnitude else magnitude
  }

  /** A trailing zero digit does not change a fraction's value. */
  lemma {:induction false} TrailingZero(ds: seq<Digit>)
    ensures FractionValue(ds + [0]) == FractionValue(ds)
  {
    if ds != [] {
      assert (ds + [0])[1..] == ds[1..] + [0];
      TrailingZero(ds[1..]);
    }
  }

  /** Drop trailing zeros after the point but keep at least one digit. */
  function TrimFraction(ds: seq<Digit>): (r: seq<Digit>)
    ensures Canonical(Decimal(false, 0, r))
    ensures FractionValue(r) == FractionValue(ds)
    ensures Canonical(Decimal(false, 0, ds)) ==> r == ds
  {
    if ds == [] then [0]
    else if |ds| > 1 && ds[|ds| - 1] == 0 then
      var p := ds[..|ds| - 1];
      assert p + [0] == ds;
      TrailingZero(p);
      TrimFraction(p)
    else if ds == [0] then [0]
    else ds
  }

  function ToDigits(s: string): (ds: seq<Digit>)
    requires AllDigits(s)
    ensures |ds| == |s|
  {
    seq(|s|, k requires 0 <= k < |s| => DigitOf(s[k]))
  }

  function FromDigits(ds: seq<Digit>): (s: string)
    ensures |s| == |ds| && AllDigits(s)
    ensures ToDigits(s) == ds
  {
    seq(|ds|, k requires 0 <= k < |ds| => DigitChar(ds[k]))
  }

  /** The digits of a float around its decimal point, without the sign. */
  function MagnitudeString(x: Float): (s: string)
    ensures |s| >= 3
    ensures forall c :: c in s ==> c == '.' || IsDigit(c)
    ensures IsDigit(s[0]) && IsDigit(s[|s| - 1])
  {
    var w := NatToString(x.whole);
    var f := FromDigits(x.fraction);
    var s := w + "." + f;
    assert s[|s| - 1] == f[|f| - 1];
    assert s[0] == w[0];
    s
  }

  /** `str(x)` for a float, in positional notation. */
  function FloatToString(x: Float): (s: string)
    ensures |s| >= 3
    ensures forall c :: c in s ==> c == '-' || c == '.' || IsDigit(c)
    ensures IsDigit(s[|s| - 1])
    ensures s[0] == '-' || IsDigit(s[0])
  {
    (if x.negative then "-" else "") + MagnitudeString(x)
  }

  /** Index of the first `c` in `s`. */
  function IndexOf(s: string, c: char): (i: nat)
    requires c in s
    ensures i < |s| && s[i] == c && c !in s[..i]
  {
    if s[0] == c then 0
    else
      assert s == [s[0]] + s[1..];
      var j := IndexOf(s[1..], c);
      assert s[..j + 1] == [s[0]] + s[1..][..j];
      j + 1
  }

  /** The unsigned part of `float()`'s syntax: digits with at most one
      decimal point and at least one digit ("5", "5.", ".5", "12.25"). */
  function ParseMagnitude(body: string): (r: Option<Float>)
    ensures r.Some? ==> !r.value.negative
  {
    if '.' in body then
      var k := IndexOf(body, '.');
      var w := body[..k];
      var f := body[k + 1..];
      if AllDigits(w) && AllDigits(f) && |body| >= 2 then
        Some(Decimal(false, DigitsValue(w), TrimFraction(ToDigits(f))))
      else None
    else if body != [] && AllDigits(body) then Some(Decimal(false, DigitsValue(body), [0]))
    else None
  }

  /** `float()` on text that has already been stripped: an optional sign,
      then the unsigned part. */
  function ParseSignedFloat(t: string): Option<Float> {
    match ParseMagnitude(Unsigned(t))
    case None => None
    case Some(m) => Some(m.(negative := t != [] && t[0] == '-'))
  }

  /** The syntax of the unsigned part of a float literal: only digits and
      points, no two points, and at least one digit. */
  predicate IsMagnitudeLiteral(b: string) {
    && (forall k :: 0 <= k < |b| ==> b[k] == '.' || IsDigit(b[k]))
    && (forall i, j :: 0 <= i < j < |b| && b[i] == '.' ==> b[j] != '.')
    && (exists k :: 0 <= k < |b| && IsDigit(b[k]))
  }

  /** The syntax `float()` accepts once surrounding whitespace is stripped:
      an optional sign and an unsigned part. */
  predicate IsFloatLiteral(t: string) {
    IsMagnitudeLiteral(Unsigned(t))
  }

  /** The digits of a literal with its point left out. */
  function DropPoint(b: string): (d: string)
    ensures (forall k :: 0 <= k < |b| ==> b[k] == '.' || IsDigit(b[k])) ==> AllDigits(d)
  {
    if b == [] then []
    else DropPoint(b[..|b| - 1]) + (if b[|b| - 1] == '.' then [] else [b[|b| - 1]])
  }

  /** How many characters follow the point; 0 without a point. */
  function Places(b: string): nat {
    if '.' in b then |b| - 1 - IndexOf(b, '.') else 0
  }

  /** `x` times ten to the power `n`. */
  function Scale(x: real, n: nat): real
    decreases n
  {
    if n == 0 then x else Scale(10.0 * x, n - 1)
  }

  /** `x` divided by ten to the power `n`. */
  function Shrink(x: real, n: nat): real
    decreases n
  {
    if n == 0 then x else Shrink(x / 10.0, n - 1)
  }

  /** The number an unsigned literal denotes: all its digits read as one
      integer, divided by ten once for every place after the point. */
  function LiteralValue(b: string): real
    requires IsMagnitudeLiteral(b)
  {
    Shrink(DigitsValue(DropPoint(b)) as real, Places(b))
  }

  /** `float(text)`; `None` where Python raises `ValueError`. */
  function ParseFloat(text: string): (r: Option<Float>)
    ensures r.Some? <==> NoInfoSeparator(text) && IsFloatLiteral(Strip(text))
    ensures r.Some? ==> (r.value.negative <==> Strip(text)[0] == '-')
  {
    if !NoInfoSeparator(text) then None
    else
      var t := Strip(text);
      MagnitudeSyntax(Unsigned(t));
      ParseSignedFloat(t)
  }

  /** What `float()` reads has the value its text denotes, sign included. */
  lemma ParseFloatValue(text: string)
    requires ParseFloat(text).Some?
    ensures IsFloatLiteral(Strip(text))
    ensures Value(ParseFloat(text).value)
      == (if Strip(text)[0] == '-' then -1.0 else 1.0) * LiteralValue(Unsigned(Strip(text)))
  {
    MagnitudeValue(Unsigned(Strip(text)));
  }

  /** Scaling commutes with a factor of ten. */
  lemma {:induction false} ScaleTen(x: real, n: nat)
    ensures Scale(10.0 * x, n) == 10.0 * Scale(x, n)
    decreases n
  {
    if n > 0 {
      ScaleTen(10.0 * x, n - 1);
    }
  }

  /** Scaling distributes over a sum. */
  lemma {:induction false} ScaleAdd(x: real, y: real, n: nat)
    ensures Scale(x + y, n) == Scale(x, n) + Scale(y, n)
    decreases n
  {
    if n > 0 {
      assert 10.0 * (x + y) == 10.0 * x + 10.0 * y;
      ScaleAdd(10.0 * x, 10.0 * y, n - 1);
    }
  }

  /** Shrinking distributes over a sum. */
  lemma {:induction false} ShrinkAdd(x: real, y: real, n: nat)
    ensures Shrink(x + y, n) == Shrink(x, n) + Shrink(y, n)
    decreases n
  {
    if n > 0 {
      assert (x + y) / 10.0 == x / 10.0 + y / 10.0;
      ShrinkAdd(x / 10.0, y / 10.0, n - 1);
    }
  }

  /** Shrinking undoes scaling. */
  lemma {:induction false} ShrinkScale(x: real, n: nat)
    ensures Shrink(Scale(x, n), n) == x
    decreases n
  {
    if n > 0 {
      ScaleTen(x, n - 1);
      assert Scale(x, n) / 10.0 == Scale(x, n - 1);
      ShrinkScale(x, n - 1);
    }
  }

  /** The number a run of digits denotes, split after any prefix. */
  lemma {:induction false} DigitsConcat(w: string, f: string)
    requires AllDigits(w) && AllDigits(f)
    ensures AllDigits(w + f)
    ensures DigitsValue(w + f) as real == Scale(DigitsValue(w) as real, |f|) + DigitsValue(f) as real
  {
    var s := w + f;
    AllDigitsConcat(w, f);
    if f == [] {
      assert s == w;
    } else {
      var g := f[..|f| - 1];
      var last := DigitOf(f[|f| - 1]);
      assert s[..|s| - 1] == w + g;
      DigitsConcat(w, g);
      var a := DigitsValue(w) as real;
      ScaleTen(a, |g|);
      assert DigitsValue(s) == 10 * DigitsValue(w + g) + last;
      assert DigitsValue(f) == 10 * DigitsValue(g) + last;
    }
  }

  lemma AllDigitsConcat(w: string, f: string)
    requires AllDigits(w) && AllDigits(f)
    ensures AllDigits(w + f)
  {
    var s := w + f;
    forall k | 0 <= k < |s|
      ensures IsDigit(s[k])
    {
      if k < |w| {
        assert s[k] == w[k];
      } else {
        assert s[k] == f[k - |w|];
      }
    }
  }

  /** Digits after a point, scaled up by their count, are the integer
      those digits denote. */
  lemma {:induction false} FractionScaled(f: string)
    requires AllDigits(f)
    ensures Scale(FractionValue(ToDigits(f)), |f|) == DigitsValue(f) as real
  {
    if f == [] {
      assert ToDigits(f) == [];
    } else {
      var g := f[1..];
      FractionScaled(g);
      ToDigitsTail(f);
      var d := DigitOf(f[0]) as real;
      var x := FractionValue(ToDigits(g));
      assert FractionValue(ToDigits(f)) == (d + x) / 10.0;
      assert 10.0 * ((d + x) / 10.0) == d + x;
      ScaleAdd(d, x, |g|);
      DigitsHead(f);
    }
  }

  lemma ToDigitsTail(f: string)
    requires f != [] && AllDigits(f)
    ensures ToDigits(f)[0] == DigitOf(f[0]) && ToDigits(f)[1..] == ToDigits(f[1..])
  {
    var a, b := ToDigits(f)[1..], ToDigits(f[1..]);
    assert |a| == |b|;
    forall k | 0 <= k < |a|
      ensures a[k] == b[k]
    {
      assert a[k] == DigitOf(f[k + 1]);
    }
  }

  /** The number a run of digits denotes, by its first digit. */
  lemma DigitsHead(f: string)
    requires f != [] && AllDigits(f)
    ensures DigitsValue(f) as real == Scale(DigitOf(f[0]) as real, |f| - 1) + DigitsValue(f[1..]) as real
  {
    var c := f[0];
    var g := f[1..];
    assert [c] + g == f;
    DigitsConcat([c], g);
    assert DigitsValue([c]) == DigitOf(c) by {
      assert [c][..0] == [];
    }
  }

  /** Leaving out the point distributes over concatenation. */
  lemma {:induction false} DropPointConcat(x: string, y: string)
    ensures DropPoint(x + y) == DropPoint(x) + DropPoint(y)
  {
    if y != [] {
      var z := y[..|y| - 1];
      assert (x + y)[..|x + y| - 1] == x + z;
      DropPointConcat(x, z);
    } else {
      assert x + y == x;
    }
  }

  lemma {:induction false} DropPointDigits(d: string)
    requires AllDigits(d)
    ensures DropPoint(d) == d
  {
    if d != [] {
      DropPointDigits(d[..|d| - 1]);
    }
  }

  /** The unsigned part is read exactly when it has the syntax of one. */
  lemma MagnitudeSyntax(b: string)
    ensures ParseMagnitude(b).Some? <==> IsMagnitudeLiteral(b)
  {
    if '.' in b {
      var k := IndexOf(b, '.');
      var w := b[..k];
      var f := b[k + 1..];
      if ParseMagnitude(b).Some? {
        forall i | 0 <= i < |b|
          ensures b[i] == '.' || IsDigit(b[i])
          ensures b[i] == '.' ==> i == k
        {
          if i < k { assert b[i] == w[i]; }
          else if i > k { assert b[i] == f[i - k - 1]; }
        }
        var d := if k == 0 then 1 else 0;
        assert IsDigit(b[d]);
      }
      if IsMagnitudeLiteral(b) {
        forall i | 0 <= i < |w| ensures IsDigit(w[i]) {
          assert w[i] in w;
        }
        forall i | 0 <= i < |f| ensures IsDigit(f[i]) {
          assert f[i] == b[k + 1 + i];
        }
        var d :| 0 <= d < |b| && IsDigit(b[d]);
        assert d != k;
      }
    } else {
      if IsMagnitudeLiteral(b) {
        forall i | 0 <= i < |b| ensures IsDigit(b[i]) {
          assert b[i] in b;
        }
      }
      if b != [] && AllDigits(b) {
        assert IsDigit(b[0]);
      }
    }
  }

  /** Leaving out the point of "whole.fraction" and counting its places. */
  lemma PointedDigits(w: string, f: string)
    requires AllDigits(w) && AllDigits(f)
    ensures DropPoint(w + "." + f) == w + f
    ensures '.' in w + "." + f && Places(w + "." + f) == |f|
  {
    var v := w + ".";
    DropPointConcat(v, f);
    DropPointConcat(w, ".");
    assert DropPoint(".") == [] by {
      assert "."[..0] == [];
    }
    DropPointDigits(w);
    DropPointDigits(f);
    assert DropPoint(v) == w by {
      assert w + [] == w;
    }
    PointIndex(w, f);
  }

  lemma PointIndex(w: string, f: string)
    requires AllDigits(w)
    ensures '.' in w + "." + f && IndexOf(w + "." + f, '.') == |w|
  {
    var b := w + "." + f;
    assert '.' !in w;
    assert b[|w|] == '.';
    assert b[..|w|] == w;
  }

  /** All the digits of "whole.fraction" read as one integer and shifted
      back by the places after the point give whole plus fraction. */
  lemma PointedValue(w: string, f: string)
    requires AllDigits(w) && AllDigits(f)
    ensures AllDigits(w + f)
    ensures Shrink(DigitsValue(w + f) as real, |f|) == DigitsValue(w) as real + FractionValue(ToDigits(f))
  {
    DigitsConcat(w, f);
    FractionScaled(f);
    var a := DigitsValue(w) as real;
    var fv := FractionValue(ToDigits(f));
    ShrinkAdd(Scale(a, |f|), DigitsValue(f) as real, |f|);
    ShrinkScale(a, |f|);
    ShrinkScale(fv, |f|);
  }

  /** What the unsigned part is read as has the value the literal denotes. */
  lemma MagnitudeValue(b: string)
    ensures ParseMagnitude(b).Some? ==>
      IsMagnitudeLiteral(b) && Value(ParseMagnitude(b).value) == LiteralValue(b)
  {
    MagnitudeSyntax(b);
    if ParseMagnitude(b).Some? {
      if '.' in b {
        var k := IndexOf(b, '.');
        var w := b[..k];
        var f := b[k + 1..];
        assert b == w + "." + f;
        PointedDigits(w, f);
        PointedValue(w, f);
      } else {
        DropPointDigits(b);
        assert FractionValue([0]) == 0.0 by {
          assert [0][1..] == [];
        }
      }
    }
  }

  /** Reading "whole.fraction" without a sign. */
  lemma ParseMagnitudePointed(w: string, f: string)
    requires w != [] && AllDigits(w) && AllDigits(f)
    ensures ParseMagnitude(w + "." + f) == Some(Decimal(false, DigitsValue(w), TrimFraction(ToDigits(f))))
  {
    var body := w + "." + f;
    assert '.' !in w;
    assert body[|w|] == '.';
    assert body[..|w|] == w;
    assert IndexOf(body, '.') == |w|;
    assert body[|w| + 1..] == f;
  }

  /** The unsigned digits of a float read back as that float made
      non-negative. */
  lemma MagnitudeRoundTrip(x: Float)
    ensures ParseMagnitude(MagnitudeString(x)) == Some(x.(negative := false))
  {
    ParseMagnitudePointed(NatToString(x.whole), FromDigits(x.fraction));
  }

  lemma DigitIsNotSpace(c: char)
    requires IsDigit(c)
    ensures !IsSpace(c) && c != '-' && c != '+'
  {
  }

  /** The sign step of `float()`: an optional minus sign in front of an
      unsigned text is kept on the number read from that text. */
  lemma SignedFloat(t: string, negative: bool, body: string, m: Float)
    requires t == (if negative then "-" else "") + body
    requires body != [] && body[0] != '-' && body[0] != '+'
    requires ParseMagnitude(body) == Some(m)
    ensures ParseSignedFloat(t) == Some(m.(negative := negative))
  {
    if negative {
      assert t[1..] == body;
    } else {
      assert Unsigned(t) == body;
      assert m.(negative := false) == m;
    }
  }

  /** The text of a float has nothing for `float()` to strip or reject. */
  lemma FloatTextClean(x: Float)
    ensures NoInfoSeparator(FloatToString(x)) && Strip(FloatToString(x)) == FloatToString(x)
  {
    var t := FloatToString(x);
    NumeralHasNoSeparator(t);
    NumeralStripped(t);
  }

  /** A numeral that starts with a sign or a digit and ends with a digit
      has nothing to strip. */
  lemma NumeralStripped(s: string)
    requires s != [] && (s[0] == '-' || IsDigit(s[0])) && IsDigit(s[|s| - 1])
    ensures Strip(s) == s
  {
    DigitIsNotSpace(s[|s| - 1]);
    if IsDigit(s[0]) {
      DigitIsNotSpace(s[0]);
    }
  }

  /** `float()` reads the text of a float by its sign step alone. */
  lemma FloatTextSigned(x: Float)
    ensures ParseFloat(FloatToString(x)) == ParseSignedFloat(FloatToString(x))
  {
    FloatTextClean(x);
  }

  /** `float(str(x)) == x`: the text a float is saved as reads back as the
      same float. */
  lemma FloatRoundTrip(x: Float)
    ensures ParseFloat(FloatToString(x)) == Some(x)
  {
    var t := FloatToString(x);
    var body := MagnitudeString(x);
    var m := x.(negative := false);
    FloatTextSigned(x);
    DigitIsNotSpace(body[0]);
    MagnitudeRoundTrip(x);
    SignedFloat(t, x.negative, body, m);
    assert m.(negative := x.negative) == x;
  }

  /** An unsigned run of digits reads as a float with nothing after the
      point. */
  lemma DigitsAsFloat(body: string)
    requires body != [] && AllDigits(body)
    ensures ParseMagnitude(body) == Some(Decimal(false, DigitsValue(body), [0]))
    ensures Value(Decimal(false, DigitsValue(body), [0])) == DigitsValue(body) as real
  {
    assert '.' !in body by {
      forall k | 0 <= k < |body|
        ensures body[k] != '.'
      {
        assert IsDigit(body[k]);
      }
    }
    assert FractionValue([0]) == 0.0 by {
      assert [0][1..] == [];
    }
  }

  /** Text `int()` accepts is accepted by `float()` as the same number. */
  lemma IntLiteralIsFloat(text: string)
    requires ParseInt(text).Some?
    ensures ParseFloat(text).Some?
    ensures Value(ParseFloat(text).value) == ParseInt(text).value as real
  {
    var t := Strip(text);
    var body := Unsigned(t);
    var n := ParseInt(text).value;
    DigitsAsFloat(body);
    var m := Decimal(false, DigitsValue(body), [0]);
    assert ParseFloat(text) == Some(m.(negative := t[0] == '-'));
    assert Abs(n) == DigitsValue(body);
  }
}
