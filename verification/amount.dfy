/** The lenient currency parser of the importer (`parseAmount`): strip
    currency marks, trim, and read the longest decimal prefix the way
    `parseFloat` does, defaulting to zero. */
module Amount {
  import opened Wrappers
  import opened Text
  import Seqs

  /** A CSV cell as the row normaliser sees it: absent (`undefined`),
      a string, or an already numeric value. */
  datatype Cell = Missing | Str(text: string) | Num(value: real)

  /** `Math.abs` on an amount. */
  function Abs(x: real): (r: real)
    ensures r >= 0.0 && (r == x || r == -x)
  {
    if x < 0.0 then -x else x
  }

  /** The characters removed before parsing: `$`, `,`, `€`, `£`, `¥`. */
  predicate IsCurrencyMark(c: char) {
    c == '$' || c == ',' || c == '€' || c == '£' || c == '¥'
  }

  /** `s.replace(/[$,€£¥]/g, '')`: `s` with every currency mark removed,
      the other characters kept in order. */
  function StripCurrency(s: string): (r: string)
    ensures |r| <= |s|
  {
    if s == [] then []
    else (if IsCurrencyMark(s[0]) then [] else [s[0]]) + StripCurrency(s[1..])
  }

  /** No currency mark survives stripping. */
  lemma {:induction false} StripLeavesNoMarks(s: string)
    ensures forall i :: 0 <= i < |StripCurrency(s)| ==> !IsCurrencyMark(StripCurrency(s)[i])
  {
    if s != [] {
      StripLeavesNoMarks(s[1..]);
      var r := StripCurrency(s);
      var rest := StripCurrency(s[1..]);
      var k := |r| - |rest|;
      forall i | 0 <= i < |r|
        ensures !IsCurrencyMark(r[i])
      {
        if i >= k {
          assert r[i] == rest[i - k];
        }
      }
    }
  }

  /** Every character left after stripping sits at some index of the
      input. */
  lemma {:induction false} StripKeeps(s: string, j: int) returns (k: int)
    requires 0 <= j < |StripCurrency(s)|
    ensures 0 <= k < |s| && s[k] == StripCurrency(s)[j]
  {
    if IsCurrencyMark(s[0]) {
      k := StripKeeps(s[1..], j);
      k := k + 1;
    } else if j == 0 {
      k := 0;
    } else {
      k := StripKeeps(s[1..], j - 1);
      k := k + 1;
    }
  }

  /** Stripping distributes over concatenation. */
  lemma {:induction false} StripConcat(a: string, b: string)
    ensures StripCurrency(a + b) == StripCurrency(a) + StripCurrency(b)
  {
    if a == [] {
      assert a + b == b;
    } else {
      assert (a + b)[1..] == a[1..] + b;
      StripConcat(a[1..], b);
    }
  }

  /** Stripping one character drops it exactly when it is a mark. */
  lemma StripOne(c: char)
    ensures StripCurrency([c]) == if IsCurrencyMark(c) then [] else [c]
  {
    assert [c][1..] == [];
  }

  /** A string without currency marks is left alone. */
  lemma {:induction false} StripUnmarked(s: string)
    requires forall i :: 0 <= i < |s| ==> !IsCurrencyMark(s[i])
    ensures StripCurrency(s) == s
  {
    if s != [] {
      assert !IsCurrencyMark(s[0]);
      StripUnmarked(s[1..]);
    }
  }

  predicate IsDigit(c: char) {
    '0' <= c <= '9'
  }

  predicate AllDigits(s: string) {
    forall i :: 0 <= i < |s| ==> IsDigit(s[i])
  }

  /** Length of the longest all-digit prefix of `s`. */
  function DigitRun(s: string): (n: nat)
    ensures n <= |s|
    ensures n > 0 ==> IsDigit(s[0])
  {
    if |s| > 0 && IsDigit(s[0]) then 1 + DigitRun(s[1..]) else 0
  }

  /** The value of one decimal digit. */
  function DigitValue(c: char): int {
    c as int - '0' as int
  }

  /** The decimal value of a digit string (0 for the empty string). */
  function DigitsValue(d: string): int {
    if |d| == 0 then 0 else DigitsValue(d[..|d| - 1]) * 10 + DigitValue(d[|d| - 1])
  }

  /** The value of the digits after a decimal point: `0.d1d2...`. */
  function FractionValue(f: string): real {
    if |f| == 0 then 0.0 else (DigitValue(f[0]) as real + FractionValue(f[1..])) / 10.0
  }

  /** `x` times ten to the power `e`. */
  function Scale(x: real, e: int): real
    decreases if e < 0 then -e else e
  {
    if e == 0 then x else if e > 0 then Scale(x, e - 1) * 10.0 else Scale(x, e + 1) / 10.0
  }

  /** The value of an exponent part `e`/`E`, optional sign, digits at the
      start of `s`; 0 when `s` does not start with a complete one. */
  function ExponentOf(s: string): int {
    if |s| >= 2 && (s[0] == 'e' || s[0] == 'E') then
      var k := if s[1] == '-' || s[1] == '+' then 2 else 1;
      var v := DigitsValue(s[k..][..DigitRun(s[k..])]);
      if s[1] == '-' then -v else v
    else 0
  }

  /** The value of `whole.frac` written in decimal. */
  function Magnitude(whole: string, frac: string): real {
    DigitsValue(whole) as real + FractionValue(frac)
  }

  /** The unsigned decimal literal at the start of `body`: digits, an
      optional point and fraction digits (at least one digit in all), then
      an optional exponent; the rest is ignored. */
  function UnsignedDecimal(body: string): (r: Option<real>)
    ensures r.Some? ==> exists i :: 0 <= i < |body| && IsDigit(body[i])
  {
    var whole := body[..DigitRun(body)];
    var tail := body[|whole|..];
    var pointed := |tail| > 0 && tail[0] == '.';
    var frac := if pointed then tail[1..][..DigitRun(tail[1..])] else [];
    var rest := if pointed then tail[1 + |frac|..] else tail;
    if |whole| + |frac| == 0 then None
    else
      assert |whole| > 0 ==> IsDigit(body[0]);
      assert |whole| == 0 && |frac| > 0 ==> IsDigit(body[1]);
      Some(Scale(Magnitude(whole, frac), ExponentOf(rest)))
  }

  /** `parseFloat` on a string with no leading white space: an optional
      sign before an unsigned decimal literal. `None` stands for `NaN`. */
  function ParseFloat(t: string): (r: Option<real>)
    ensures r.Some? ==> exists i :: 0 <= i < |t| && IsDigit(t[i])
  {
    if |t| > 0 && (t[0] == '-' || t[0] == '+') then
      match UnsignedDecimal(t[1..])
      case Some(v) =>
        assert exists i :: 0 <= i < |t[1..]| && IsDigit(t[1..][i]);
        Some(if t[0] == '-' then -v else v)
      case None => None
    else UnsignedDecimal(t)
  }

  /** A successful `parseFloat` read a digit. */
  lemma ParsedDigit(t: string) returns (j: int)
    requires ParseFloat(t).Some?
    ensures 0 <= j < |t| && IsDigit(t[j])
  {
    j :| 0 <= j < |t| && IsDigit(t[j]);
  }

  /** Each character of the stripped, trimmed text sits at some index of
      the raw text. */
  lemma CleanedKeeps(s: string, j: int) returns (k: int)
    requires 0 <= j < |Trim(StripCurrency(s))|
    ensures 0 <= k < |s| && s[k] == Trim(StripCurrency(s))[j]
  {
    var i := TrimKeeps(StripCurrency(s), j);
    k := StripKeeps(s, i);
  }

  /** A parse of the stripped, trimmed text succeeds only if the raw text
      holds a digit. */
  lemma ParsedNeedsDigit(s: string) returns (k: int)
    requires ParseFloat(Trim(StripCurrency(s))).Some?
    ensures 0 <= k < |s| && IsDigit(s[k])
  {
    var j := ParsedDigit(Trim(StripCurrency(s)));
    k := CleanedKeeps(s, j);
  }

  /** `parseAmount`: numbers pass through, an absent or empty cell is 0,
      anything else is stripped of currency marks, trimmed and read with
      `parseFloat`, `NaN` becoming 0. A non-zero result from a string
      needs a digit somewhere in it. */
  function ParseAmount(v: Cell): (r: real)
    ensures v.Num? ==> r == v.value
    ensures v.Missing? ==> r == 0.0
    ensures v.Str? && r != 0.0 ==> exists i :: 0 <= i < |v.text| && IsDigit(v.text[i])
  {
    match v
    case Num(x) => x
    case Missing => 0.0
    case Str(s) =>
      if s == "" then 0.0
      else
        var p := ParseFloat(Trim(StripCurrency(s)));
        if p.Some? then
          assert exists k :: 0 <= k < |s| && IsDigit(s[k]) by {
            var k := ParsedNeedsDigit(s);
          }
          p.value
        else 0.0
  }

  /** Removing the currency marks first changes nothing: every `$ , € £ ¥`
      is dropped before the number is read. */
  lemma ParseAmountIgnoresMarks(s: string)
    ensures ParseAmount(Str(StripCurrency(s))) == ParseAmount(Str(s))
  {
    StripLeavesNoMarks(s);
    StripUnmarked(StripCurrency(s));
  }

  /** Digits of a natural number, most significant first. */
  function NatDigits(n: nat): (d: string)
    ensures |d| >= 1 && AllDigits(d)
    ensures DigitsValue(d) == n
  {
    if n < 10 then
      assert [('0' as int + n) as char][..0] == [];
      [('0' as int + n) as char]
    else
      var d := NatDigits(n / 10) + [('0' as int + n % 10) as char];
      assert d[..|d| - 1] == NatDigits(n / 10);
      d
  }

  /** The two-digit cents part of a cents amount. */
  function Cents(m: nat): (f: string)
    requires m < 100
    ensures |f| == 2 && AllDigits(f) && DigitsValue(f) == m
    ensures DigitValue(f[0]) == m / 10 && DigitValue(f[1]) == m % 10
  {
    var f := [('0' as int + m / 10) as char, ('0' as int + m % 10) as char];
    assert f[..1][..0] == [];
    assert f[..1] == [f[0]];
    assert DigitsValue(f[..1]) == m / 10;
    f
  }

  /** The minus sign of a negative cents amount. */
  function SignOf(c: int): string {
    if c < 0 then "-" else ""
  }

  /** The magnitude of a cents amount as dollars, point, two cent digits. */
  function DollarsAndCents(c: int): string {
    var m := if c < 0 then -c else c;
    NatDigits(m / 100) + "." + Cents(m % 100)
  }

  /** A cents amount written the way a bank export writes it: optional
      minus, dollar sign, whole dollars, point, two digits of cents. */
  function FormatCents(c: int): string {
    SignOf(c) + "$" + DollarsAndCents(c)
  }

  lemma {:induction false} DigitRunAfter(x: string, y: string)
    requires AllDigits(x)
    ensures DigitRun(x + y) == |x| + DigitRun(y)
  {
    if x != [] {
      assert (x + y)[0] == x[0] && IsDigit(x[0]);
      assert (x + y)[1..] == x[1..] + y;
      DigitRunAfter(x[1..], y);
    } else {
      assert x + y == y;
    }
  }

  /** Stripping a formatted amount leaves the sign and the plain number. */
  lemma StripFormatted(sign: string, num: string)
    requires sign == "" || sign == "-"
    requires forall i :: 0 <= i < |num| ==> IsDigit(num[i]) || num[i] == '.'
    ensures StripCurrency(sign + "$" + num) == sign + num
  {
    StripConcat(sign + "$", num);
    StripSignDollar(sign);
    StripPlain(num);
  }

  /** Digits and points have no currency mark to strip. */
  lemma StripPlain(num: string)
    requires forall i :: 0 <= i < |num| ==> IsDigit(num[i]) || num[i] == '.'
    ensures StripCurrency(num) == num
  {
    forall i | 0 <= i < |num|
      ensures !IsCurrencyMark(num[i])
    {
      assert IsDigit(num[i]) || num[i] == '.';
    }
    StripUnmarked(num);
  }

  /** Stripping an optional minus and a dollar sign leaves the minus. */
  lemma StripSignDollar(sign: string)
    requires sign == "" || sign == "-"
    ensures StripCurrency(sign + "$") == sign
  {
    StripOne('$');
    if sign == "" {
      assert sign + "$" == ['$'];
    } else {
      assert sign + "$" == ['-'] + ['$'];
      StripOne('-');
      StripConcat(['-'], ['$']);
    }
  }

  /** The unsigned literal digits, point, digits reads as its value. */
  lemma UnsignedPlain(d: string, f: string)
    requires |d| >= 1 && AllDigits(d) && AllDigits(f)
    ensures UnsignedDecimal(d + "." + f) == Some(Magnitude(d, f))
  {
    var body := d + ("." + f);
    assert d + "." + f == body;
    DigitRunAfter(d, "." + f);
    assert DigitRun("." + f) == 0;
    assert body[..|d|] == d;
    assert body[|d|..] == "." + f;
    DigitRunAfter(f, "");
    assert f + "" == f;
    assert ("." + f)[1..] == f;
    assert f[..|f|] == f;
    assert ("." + f)[1 + |f|..] == "";
    assert DigitRun(body) == |d|;
    var whole := body[..DigitRun(body)];
    assert whole == d;
    var tail := body[|whole|..];
    assert tail == "." + f;
    var frac := tail[1..][..DigitRun(tail[1..])];
    assert frac == f;
    var rest := tail[1 + |frac|..];
    assert rest == "";
    assert ExponentOf(rest) == 0;
    assert Scale(Magnitude(d, f), 0) == Magnitude(d, f);
  }

  /** `parseFloat` on a string that starts with a digit reads the unsigned
      literal. */
  lemma ParseFloatUnsigned(num: string)
    requires |num| > 0 && IsDigit(num[0])
    ensures ParseFloat(num) == UnsignedDecimal(num)
  {
  }

  /** `parseFloat` on a minus sign and a literal negates the literal. */
  lemma ParseFloatNegated(num: string)
    requires UnsignedDecimal(num).Some?
    ensures ParseFloat("-" + num) == Some(-UnsignedDecimal(num).value)
  {
    assert ("-" + num)[1..] == num;
  }

  /** The decimal reading of dollars and cents is the cents over 100. */
  lemma MagnitudeOfCents(m: nat)
    ensures Magnitude(NatDigits(m / 100), Cents(m % 100)) == m as real / 100.0
  {
    var r := m % 100;
    var f := Cents(r);
    assert f[1..][1..] == [] && f[1..][0] == f[1];
    assert FractionValue(f[1..]) == (r % 10) as real / 10.0;
    assert r / 10 * 10 + r % 10 == r;
    assert FractionValue(f) == r as real / 100.0;
    assert m / 100 * 100 + r == m;
  }

  /** The formatted amount loses only its dollar sign to stripping. */
  lemma StripFormatCents(c: int)
    ensures StripCurrency(FormatCents(c)) == SignOf(c) + DollarsAndCents(c)
  {
    var m := if c < 0 then -c else c;
    var d := NatDigits(m / 100);
    var f := Cents(m % 100);
    var num := DollarsAndCents(c);
    assert num == d + "." + f;
    assert forall i :: 0 <= i < |num| ==> IsDigit(num[i]) || num[i] == '.' by {
      forall i | 0 <= i < |num|
        ensures IsDigit(num[i]) || num[i] == '.'
      {
        if i < |d| {
          assert num[i] == d[i];
        } else if i > |d| {
          assert num[i] == f[i - |d| - 1];
        }
      }
    }
    StripFormatted(SignOf(c), num);
  }

  /** The stripped text of a formatted amount has nothing to trim. */
  lemma TrimStrippedCents(c: int)
    ensures Trim(SignOf(c) + DollarsAndCents(c)) == SignOf(c) + DollarsAndCents(c)
  {
    var m := if c < 0 then -c else c;
    var f := Cents(m % 100);
    var t := SignOf(c) + DollarsAndCents(c);
    assert t[|t| - 1] == f[1];
    assert t[0] == '-' || t[0] == NatDigits(m / 100)[0];
    TrimUnpadded(t);
  }

  /** The unsigned part of a formatted amount reads as its magnitude. */
  lemma ReadDollarsAndCents(c: int)
    ensures var num := DollarsAndCents(c);
      |num| > 0 && IsDigit(num[0])
      && UnsignedDecimal(num) == Some((if c < 0 then -c else c) as real / 100.0)
  {
    var m := if c < 0 then -c else c;
    var d := NatDigits(m / 100);
    var f := Cents(m % 100);
    assert DollarsAndCents(c) == d + "." + f;
    assert DollarsAndCents(c)[0] == d[0];
    MagnitudeOfCents(m);
    UnsignedPlain(d, f);
  }

  /** Reading the stripped text of a negative formatted amount. */
  lemma ReadStrippedNegative(c: int)
    requires c < 0
    ensures ParseFloat(SignOf(c) + DollarsAndCents(c)) == Some(c as real / 100.0)
  {
    var num := DollarsAndCents(c);
    assert SignOf(c) == "-";
    assert -((-c) as real / 100.0) == c as real / 100.0;
    ReadDollarsAndCents(c);
    ParseFloatNegated(num);
  }

  /** Reading the stripped text of a non-negative formatted amount. */
  lemma ReadStrippedNonNegative(c: int)
    requires c >= 0
    ensures ParseFloat(SignOf(c) + DollarsAndCents(c)) == Some(c as real / 100.0)
  {
    var num := DollarsAndCents(c);
    assert SignOf(c) == "";
    assert SignOf(c) + num == num;
    ReadDollarsAndCents(c);
    ParseFloatUnsigned(num);
  }

  /** Reading the stripped text of a formatted amount. */
  lemma ReadStrippedCents(c: int)
    ensures ParseFloat(SignOf(c) + DollarsAndCents(c)) == Some(c as real / 100.0)
  {
    if c < 0 {
      ReadStrippedNegative(c);
    } else {
      ReadStrippedNonNegative(c);
    }
  }

  /** Reading back a formatted amount gives the amount: parsing
      `FormatCents(c)` yields `c / 100`. */
  lemma ParseAmountRoundTrip(c: int)
    ensures ParseAmount(Str(FormatCents(c))) == c as real / 100.0
  {
    assert FormatCents(c) != "";
    StripFormatCents(c);
    TrimStrippedCents(c);
    ReadStrippedCents(c);
  }

  /** Stripping `$`, digits, a thousands comma and a plain number
      leaves the digits and the number. */
  lemma StripGrouped(a: string, b: string)
    requires AllDigits(a)
    requires forall i :: 0 <= i < |b| ==> IsDigit(b[i]) || b[i] == '.'
    ensures StripCurrency("$" + a + "," + b) == a + b
  {
    StripConcat("$" + a + ",", b);
    StripConcat("$" + a, ",");
    StripConcat("$", a);
    StripOne('$');
    StripOne(',');
    StripPlain(a);
    StripPlain(b);
    assert [] + a == a && a + [] == a;
  }

  /** Two digit strings run together are a digit string. */
  lemma DigitsJoin(a: string, b: string)
    requires AllDigits(a) && AllDigits(b)
    ensures AllDigits(a + b)
  {
    forall i | 0 <= i < |a + b|
      ensures IsDigit((a + b)[i])
    {
      if i >= |a| {
        assert (a + b)[i] == b[i - |a|];
      }
    }
  }

  /** The grouped amount strips to its digits, point and fraction. */
  lemma StripGroupedAmount(a: string, b: string, f: string)
    requires AllDigits(a) && AllDigits(b) && AllDigits(f)
    ensures StripCurrency("$" + a + "," + b + "." + f) == (a + b) + "." + f
  {
    var num := b + "." + f;
    assert "$" + a + "," + b + "." + f == "$" + a + "," + num;
    forall i | 0 <= i < |num|
      ensures IsDigit(num[i]) || num[i] == '.'
    {
      if i < |b| {
        assert num[i] == b[i];
      } else if i > |b| {
        assert num[i] == f[i - |b| - 1];
      }
    }
    StripGrouped(a, num);
    assert a + num == (a + b) + "." + f;
  }

  /** Digits, a point and digits: nothing to strip. */
  lemma StripPointed(d: string, f: string)
    requires AllDigits(d) && AllDigits(f)
    ensures StripCurrency(d + "." + f) == d + "." + f
  {
    var t := d + "." + f;
    forall i | 0 <= i < |t|
      ensures IsDigit(t[i]) || t[i] == '.'
    {
      if i < |d| {
        assert t[i] == d[i];
      } else if i > |d| {
        assert t[i] == f[i - |d| - 1];
      }
    }
    StripPlain(t);
  }

  /** Digits, a point and digits: nothing to trim. */
  lemma TrimPointed(d: string, f: string)
    requires |d| >= 1 && AllDigits(d) && AllDigits(f)
    ensures Trim(d + "." + f) == d + "." + f
  {
    var t := d + "." + f;
    assert t[0] == d[0];
    assert t[|t| - 1] == (if |f| > 0 then f[|f| - 1] else '.');
    TrimUnpadded(t);
  }

  /** Digits, a point and digits: `parseFloat` reads the whole literal. */
  lemma ReadPointed(d: string, f: string)
    requires |d| >= 1 && AllDigits(d) && AllDigits(f)
    ensures ParseFloat(d + "." + f) == Some(Magnitude(d, f))
  {
    assert (d + "." + f)[0] == d[0];
    UnsignedPlain(d, f);
    ParseFloatUnsigned(d + "." + f);
  }

  /** Digits followed by a point and digits read as their decimal value. */
  lemma ReadPlain(d: string, f: string)
    requires |d| >= 1 && AllDigits(d) && AllDigits(f)
    ensures ParseAmount(Str(d + "." + f)) == Magnitude(d, f)
  {
    assert d + "." + f != "";
    StripPointed(d, f);
    TrimPointed(d, f);
    ReadPointed(d, f);
  }

  /** A thousands separator is ignored: `"$" + a + "," + b + "." + f`
      reads as the number whose whole part is the digits of `a` and `b`
      run together. */
  lemma ParseAmountGrouped(a: string, b: string, f: string)
    requires |a| >= 1 && AllDigits(a) && AllDigits(b) && AllDigits(f)
    ensures ParseAmount(Str("$" + a + "," + b + "." + f)) == Magnitude(a + b, f)
  {
    StripGroupedAmount(a, b, f);
    ParseAmountIgnoresMarks("$" + a + "," + b + "." + f);
    DigitsJoin(a, b);
    ReadPlain(a + b, f);
  }

  lemma DigitsExample()
    ensures AllDigits("1234") && DigitsValue("1234") == 1234
  {
    assert "1234"[..3] == "123" && "123"[..2] == "12" && "12"[..1] == "1" && "1"[..0] == "";
  }

  lemma FractionExample()
    ensures AllDigits("56") && FractionValue("56") == 0.56
  {
    assert "56"[1..] == "6" && "6"[1..] == "";
  }

  /** The importer's headline example: `"$1,234.56"` reads as 1234.56. */
  lemma ParseAmountExample()
    ensures ParseAmount(Str("$1,234.56")) == 1234.56
  {
    assert "$1,234.56" == "$" + "1" + "," + "234" + "." + "56";
    assert "1" + "234" == "1234";
    ParseAmountGrouped("1", "234", "56");
    DigitsExample();
    FractionExample();
  }
}
