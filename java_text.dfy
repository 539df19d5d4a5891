/** The Java string and number conversions the feed's values go through:
    `String.trim`, the decimal rendering of an integer (`Long.toString`) and
    Jackson's lenient text-to-double conversion (`NumberInput.parseAsDouble`,
    which trims, hands the text to `Double.parseDouble`, and falls back to a
    default when that throws). Doubles are modelled as reals. */
module JavaText {
  import opened Results

  predicate IsDigit(c: char) {
    '0' <= c <= '9'
  }

  predicate AllDigits(s: string) {
    forall i :: 0 <= i < |s| ==> IsDigit(s[i])
  }

  /** Java's `String.trim`: drops every leading and trailing char <= ' '. */
  function Trim(s: string): string {
    TrimEnd(TrimStart(s))
  }

  function TrimStart(s: string): string {
    if |s| > 0 && s[0] <= ' ' then TrimStart(s[1..]) else s
  }

  function TrimEnd(s: string): string {
    if |s| > 0 && s[|s| - 1] <= ' ' then TrimEnd(s[..|s| - 1]) else s
  }

  /** The value of a run of decimal digits, most significant first. */
  function DigitsValue(s: string): nat
    requires AllDigits(s)
  {
    if s == [] then 0 else DigitsValue(s[..|s| - 1]) * 10 + (s[|s| - 1] as int - '0' as int)
  }

  /** The value of the digits after a decimal point: "25" is 0.25. */
  function Fraction(s: string): real
    requires AllDigits(s)
  {
    if s == [] then 0.0 else ((s[0] as int - '0' as int) as real + Fraction(s[1..])) / 10.0
  }

  /** `v` times ten to the power `e`. */
  function Scaled(v: real, e: int): real
    decreases if e < 0 then -e else e
  {
    if e == 0 then v else if e > 0 then Scaled(v, e - 1) * 10.0 else Scaled(v, e + 1) / 10.0
  }

  /** The first index holding `a` or `b`, or `|s|` when there is none. */
  function IndexOf(s: string, a: char, b: char): (i: nat)
    ensures i <= |s|
    ensures i < |s| ==> s[i] == a || s[i] == b
    ensures forall k :: 0 <= k < i ==> s[k] != a && s[k] != b
  {
    if s == [] then 0 else if s[0] == a || s[0] == b then 0 else 1 + IndexOf(s[1..], a, b)
  }

  function DigitChar(d: nat): char
    requires d < 10
  {
    ('0' as int + d) as char
  }

  /** Java's decimal rendering of a non-negative integer. */
  function NatToText(n: nat): string
  {
    if n < 10 then [DigitChar(n)] else NatToText(n / 10) + [DigitChar(n % 10)]
  }

  /** Java's decimal rendering of an integer: a minus sign, then the digits. */
  function IntToText(i: int): string
  {
    if i < 0 then "-" + NatToText(-i) else NatToText(i)
  }

  /** The mantissa of a Java floating literal: digits, an optional point and
      more digits, with at least one digit in all. */
  function Mantissa(m: string): Option<real>
  {
    var dot := IndexOf(m, '.', '.');
    var whole := m[..dot];
    var fraction := if dot < |m| then m[dot + 1..] else [];
    if AllDigits(whole) && AllDigits(fraction) && |whole| + |fraction| > 0 then
      Some(DigitsValue(whole) as real + Fraction(fraction))
    else
      None
  }

  /** The exponent of a Java floating literal: an optional sign, then digits. */
  function Exponent(x: string): Option<int>
  {
    var digits := Unsigned(x);
    if |digits| > 0 && AllDigits(digits) then
      var v: int := DigitsValue(digits);
      Some(if Negative(x) then -v else v)
    else
      None
  }

  predicate Negative(t: string) {
    |t| > 0 && t[0] == '-'
  }

  /** The text after a leading `+` or `-`, if there is one. */
  function Unsigned(t: string): string {
    if |t| > 0 && (t[0] == '+' || t[0] == '-') then t[1..] else t
  }

  predicate IsTypeSuffix(c: char) {
    c == 'f' || c == 'F' || c == 'd' || c == 'D'
  }

  /** The text without a trailing `f`, `F`, `d` or `D` type suffix. */
  function StripSuffix(u: string): string {
    if |u| > 0 && IsTypeSuffix(u[|u| - 1]) then u[..|u| - 1] else u
  }

  /** The value of an unsigned literal without its type suffix: a mantissa
      and an optional `e`/`E` exponent. */
  function Magnitude(body: string): Option<real>
  {
    var e := IndexOf(body, 'e', 'E');
    var mantissa := Mantissa(body[..e]);
    var exponent := if e < |body| then Exponent(body[e + 1..]) else Some(0);
    if mantissa.None? || exponent.None? then None
    else Some(Scaled(mantissa.value, exponent.value))
  }

  /** `Double.parseDouble` on already trimmed text: an optional sign, a
      mantissa, an optional exponent and an optional type suffix; `None`
      where Java throws `NumberFormatException`. */
  function ParseDouble(t: string): Option<real>
  {
    match Magnitude(StripSuffix(Unsigned(t)))
    case None => None
    case Some(v) => Some(if Negative(t) then -v else v)
  }

  /** Jackson's `NumberInput.parseAsDouble(text, 0.0)`: the trimmed text's
      value, or the default 0.0 when the text is empty or not a number. */
  function ParseAsDouble(s: string): (r: real)
    ensures ParseDouble(Trim(s)).Some? ==> r == ParseDouble(Trim(s)).value
    ensures ParseDouble(Trim(s)).None? ==> r == 0.0
  {
    match ParseDouble(Trim(s))
    case Some(v) => v
    case None => 0.0
  }

  lemma {:induction false} NatToTextDigits(n: nat)
    ensures |NatToText(n)| > 0 && AllDigits(NatToText(n))
    ensures DigitsValue(NatToText(n)) == n
  {
    if n >= 10 {
      NatToTextDigits(n / 10);
      var s := NatToText(n);
      assert s[..|s| - 1] == NatToText(n / 10);
    }
  }

  lemma {:induction false} IndexOfAbsent(s: string, a: char, b: char)
    requires forall k :: 0 <= k < |s| ==> s[k] != a && s[k] != b
    ensures IndexOf(s, a, b) == |s|
  {
    if s != [] {
      IndexOfAbsent(s[1..], a, b);
    }
  }

  lemma IndexOfFirst(s: string, a: char, b: char, i: nat)
    requires i < |s| && (s[i] == a || s[i] == b)
    requires forall k :: 0 <= k < i ==> s[k] != a && s[k] != b
    ensures IndexOf(s, a, b) == i
  {
  }

  /** Text that neither starts nor ends with a blank is its own trim. */
  lemma TrimUnblanked(s: string)
    requires |s| > 0 && s[0] > ' ' && s[|s| - 1] > ' '
    ensures Trim(s) == s
  {
  }

  /** A run of digits with no point is a mantissa worth its value. */
  lemma MantissaOfDigits(s: string)
    requires |s| > 0 && AllDigits(s)
    ensures Mantissa(s) == Some(DigitsValue(s) as real)
  {
    IndexOfAbsent(s, '.', '.');
    assert s[..|s|] == s;
    var none: string := [];
    assert Fraction(none) == 0.0;
  }

  /** A literal with no exponent is worth its mantissa. */
  lemma MagnitudeWithoutExponent(s: string)
    requires forall k :: 0 <= k < |s| ==> s[k] != 'e' && s[k] != 'E'
    ensures Magnitude(s) == Mantissa(s)
  {
    IndexOfAbsent(s, 'e', 'E');
    assert s[..|s|] == s;
  }

  /** A non-empty run of digits is read as its value. */
  lemma MagnitudeOfDigits(s: string)
    requires |s| > 0 && AllDigits(s)
    ensures Magnitude(s) == Some(DigitsValue(s) as real)
  {
    MantissaOfDigits(s);
    MagnitudeWithoutExponent(s);
  }

  /** Parsing the digits of a natural number gives the number back. */
  lemma NatRoundTrip(n: nat)
    ensures ParseDouble(NatToText(n)) == Some(n as real)
  {
    var s := NatToText(n);
    NatToTextDigits(n);
    assert Unsigned(s) == s && !Negative(s);
    assert StripSuffix(s) == s;
    MagnitudeOfDigits(s);
  }

  /** A plain decimal such as "65259.8918" (digits, a point, digits) reads
      as its whole part plus its fraction scaled by the number of places. */
  lemma DecimalText(whole: string, fraction: string)
    requires AllDigits(whole) && AllDigits(fraction) && |whole| > 0
    ensures ParseAsDouble(whole + "." + fraction)
         == DigitsValue(whole) as real + Fraction(fraction)
  {
    var s := whole + "." + fraction;
    TrimUnblanked(s);
    assert Unsigned(s) == s && !Negative(s);
    assert StripSuffix(s) == s;
    forall k | 0 <= k < |s| ensures s[k] != 'e' && s[k] != 'E' {
      if k < |whole| { assert s[k] == whole[k]; }
      else if k > |whole| { assert s[k] == fraction[k - |whole| - 1]; }
    }
    MagnitudeWithoutExponent(s);
    MantissaOfDecimal(whole, fraction);
  }

  lemma MantissaOfDecimal(whole: string, fraction: string)
    requires AllDigits(whole) && AllDigits(fraction) && |whole| > 0
    ensures Mantissa(whole + "." + fraction)
         == Some(DigitsValue(whole) as real + Fraction(fraction))
  {
    var s := whole + "." + fraction;
    PointAfterDigits(whole, fraction);
    assert s[..|whole|] == whole;
    assert s[|whole| + 1..] == fraction;
    MantissaAtPoint(s, |whole|);
  }

  /** A mantissa whose first point is at `dot`, with digits on both sides. */
  lemma {:induction false} MantissaAtPoint(m: string, dot: nat)
    requires dot < |m| && IndexOf(m, '.', '.') == dot
    requires AllDigits(m[..dot]) && AllDigits(m[dot + 1..]) && dot > 0
    ensures Mantissa(m) == Some(DigitsValue(m[..dot]) as real + Fraction(m[dot + 1..]))
  {
  }

  lemma PointAfterDigits(whole: string, fraction: string)
    requires AllDigits(whole)
    ensures IndexOf(whole + "." + fraction, '.', '.') == |whole|
  {
    var s := whole + "." + fraction;
    forall k | 0 <= k < |whole| ensures s[k] != '.' {
      assert s[k] == whole[k];
    }
    IndexOfFirst(s, '.', '.', |whole|);
  }

  /** Text that is not a Java number, such as the empty string or "abc",
      falls back to Jackson's default 0.0 instead of failing. */
  lemma Unparseable()
    ensures ParseAsDouble("") == 0.0
    ensures ParseAsDouble("abc") == 0.0
    ensures ParseAsDouble("1.2.3") == 0.0
  {
    Letters();
    TwoPoints();
  }

  lemma Letters()
    ensures ParseDouble("abc") == None
  {
    assert Unsigned("abc") == "abc" && StripSuffix("abc") == "abc";
    IndexOfAbsent("abc", 'e', 'E');
    IndexOfAbsent("abc", '.', '.');
    assert "abc"[..3] == "abc";
    assert !AllDigits("abc") by { assert !IsDigit("abc"[0]); }
    assert Mantissa("abc") == None;
  }

  lemma TwoPoints()
    ensures ParseDouble("1.2.3") == None
  {
    assert Unsigned("1.2.3") == "1.2.3" && StripSuffix("1.2.3") == "1.2.3";
    IndexOfAbsent("1.2.3", 'e', 'E');
    assert "1.2.3"[..5] == "1.2.3";
    assert IndexOf("1.2.3", '.', '.') == 1;
    assert "1.2.3"[2..] == "2.3";
    assert !AllDigits("2.3") by { assert !IsDigit("2.3"[1]); }
    assert Mantissa("1.2.3") == None;
  }

  /** Surrounding blanks are ignored and exponents and type suffixes are
      honoured, as by `Double.parseDouble`. */
  lemma Lenient()
    ensures ParseAsDouble(" 42 ") == 42.0
    ensures ParseAsDouble("1.5e3") == 1500.0
    ensures ParseAsDouble("-2.5d") == -2.5
  {
    Blanks();
    Exponential();
    Suffixed();
  }

  lemma Blanks()
    ensures ParseAsDouble(" 42 ") == 42.0
  {
    assert Trim(" 42 ") == "42" by {
      assert TrimStart(" 42 ") == "42 ";
      assert "42 "[..2] == "42";
    }
    assert NatToText(42) == "42";
    NatRoundTrip(42);
  }

  lemma MagnitudeWithExponent(m: string, x: string)
    requires forall k :: 0 <= k < |m| ==> m[k] != 'e' && m[k] != 'E'
    ensures Magnitude(m + "e" + x)
         == if Mantissa(m).None? || Exponent(x).None? then None
            else Some(Scaled(Mantissa(m).value, Exponent(x).value))
  {
    var s := m + "e" + x;
    forall k | 0 <= k < |m| ensures s[k] != 'e' && s[k] != 'E' {
      assert s[k] == m[k];
    }
    IndexOfFirst(s, 'e', 'E', |m|);
    assert s[..|m|] == m;
    assert s[|m| + 1..] == x;
    assert Mantissa(s[..IndexOf(s, 'e', 'E')]) == Mantissa(m);
    assert IndexOf(s, 'e', 'E') < |s|;
    assert Exponent(s[IndexOf(s, 'e', 'E') + 1..]) == Exponent(x);
  }

  lemma Exponential()
    ensures ParseAsDouble("1.5e3") == 1500.0
  {
    TrimUnblanked("1.5e3");
    assert Unsigned("1.5e3") == "1.5e3" && !Negative("1.5e3");
    assert StripSuffix("1.5e3") == "1.5e3";
    ExponentialMagnitude();
    assert ParseDouble("1.5e3") == Some(1500.0);
  }

  lemma ExponentialMagnitude()
    ensures Magnitude("1.5e3") == Some(1500.0)
  {
    assert "1.5e3" == "1.5" + "e" + "3";
    MagnitudeWithExponent("1.5", "3");
    OneAndAHalf();
    ExponentThree();
    assert Scaled(1.5, 3) == Scaled(1.5, 2) * 10.0;
    assert Scaled(1.5, 2) == Scaled(1.5, 1) * 10.0;
    assert Scaled(1.5, 1) == Scaled(1.5, 0) * 10.0;
  }

  lemma OneAndAHalf()
    ensures Mantissa("1.5") == Some(1.5)
  {
    assert "1.5" == "1" + "." + "5";
    SimpleDecimal("1", "5");
  }

  lemma ExponentThree()
    ensures Exponent("3") == Some(3)
  {
    assert Unsigned("3") == "3" && !Negative("3");
    assert "3"[..0] == "";
    assert DigitsValue("3") == 3;
  }

  lemma Suffixed()
    ensures ParseAsDouble("-2.5d") == -2.5
  {
    TrimUnblanked("-2.5d");
    assert Unsigned("-2.5d") == "2.5d";
    assert StripSuffix("2.5d") == "2.5";
    MagnitudeWithoutExponent("2.5");
    SimpleDecimal("2", "5");
  }

  lemma SimpleDecimal(w: string, f: string)
    requires |w| == 1 && |f| == 1 && IsDigit(w[0]) && IsDigit(f[0])
    ensures Mantissa(w + "." + f)
         == Some((w[0] as int - '0' as int) as real + (f[0] as int - '0' as int) as real / 10.0)
  {
    MantissaOfDecimal(w, f);
    assert w[..0] == [] && f[..0] == [];
    assert DigitsValue(w) == w[0] as int - '0' as int;
    assert f[1..] == [];
  }
}
