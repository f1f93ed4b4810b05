/** `StringUtils` of the legacy package tree: `quote`, `smartQuote`,
    `formatQuotient` and `normalizeEOL`. */
module StringUtils {

  import opened Wrappers
  import opened JavaLang
  import opened RegExPatterns
  import opened SeqFacts

  /** A `java.lang.Number`. The integral boxes (`Byte`, `Short`, `Integer`,
      `Long`, `BigInteger`, ...) carry their value; a `Double` or `Float`
      carries the text `String.valueOf` gives it, since floating-point
      formatting is not part of this model. */
  datatype Number = Integral(value: int) | Floating(text: string)

  /** The `Object` argument of `smartQuote`. `Other` carries the result of
      the object's `toString()`. */
  datatype JavaObject = JString(s: string) | JNumber(n: Number) | Other(text: string) | Null

  /** `String.valueOf(Object)`: `"null"` for a null reference. */
  function ValueOf(o: JavaObject): string {
    match o
    case JString(s) => s
    case JNumber(Integral(v)) => IntToString(v)
    case JNumber(Floating(t)) => t
    case Other(t) => t
    case Null => "null"
  }

  // ---------------------------------------------------------------------------
  // quote / smartQuote

  const SINGLE_QUOTE: char := '\''
  const DOUBLE_QUOTE: char := '"'

  /** `quote(s, single)`: `s` between two single or two double quotation marks. */
  function Quote(s: string, single: bool): (r: string)
    ensures |r| == |s| + 2
    ensures r[1..|r| - 1] == s
    ensures r[0] == r[|r| - 1] == (if single then SINGLE_QUOTE else DOUBLE_QUOTE)
  {
    var q := if single then SINGLE_QUOTE else DOUBLE_QUOTE;
    [q] + s + [q]
  }

  /** `smartQuote(o)`: strings in double quotes, numbers through
      `formatQuotient` without quotes, anything else (null included) as
      `String.valueOf` in single quotes. Only the number case can throw,
      with the exceptions of the written `formatQuotient`. */
  function SmartQuote(o: JavaObject): (r: Result<string>)
    ensures o.JString? ==> r == Ok(Quote(o.s, false))
    ensures o.Other? || o.Null? ==> r == Ok(Quote(ValueOf(o), true))
    ensures o.JNumber? ==> r == FormatQuotientAsWritten(o.n)
    ensures r.Err? ==> o.JNumber? && o.n.Floating?
  {
    match o
    case JNumber(n) => FormatQuotientAsWritten(n)
    case JString(s) => Ok(Quote(s, false))
    case _ => Ok(Quote(ValueOf(o), true))
  }

  /** `smartQuote` with the corrected `formatQuotient`: it never throws. */
  function SmartQuoteIntended(o: JavaObject): (r: string)
    ensures o.JString? ==> r == Quote(o.s, false)
    ensures o.JNumber? ==> r == FormatQuotient(o.n)
    ensures o.Other? || o.Null? ==> r == Quote(ValueOf(o), true)
  {
    match o
    case JNumber(n) => FormatQuotient(n)
    case JString(s) => Quote(s, false)
    case _ => Quote(ValueOf(o), true)
  }

  /** Wherever the written `smartQuote` returns, the corrected one returns
      the same text; it throws only on a `Double` or `Float`, whose text the
      corrected one returns unchanged. */
  lemma SmartQuoteAgrees(o: JavaObject)
    ensures SmartQuote(o).Ok? ==> SmartQuote(o).value == SmartQuoteIntended(o)
    ensures SmartQuote(o).Err? ==> o.JNumber? && o.n.Floating? && SmartQuoteIntended(o) == o.n.text
  {
    if o.JNumber? {
      FormatQuotientAgrees(o.n);
    }
  }

  /** The first character of `smartQuote`'s result tells strings, integral
      numbers and everything else apart, and the quoted text can be read back. */
  lemma SmartQuoteDistinguishes(o: JavaObject)
    ensures !(o.JNumber? && o.n.Floating?) ==> SmartQuote(o).Ok?
    ensures o.JString? ==> SmartQuote(o).value[0] == DOUBLE_QUOTE
    ensures o.Other? || o.Null? ==> SmartQuote(o).value[0] == SINGLE_QUOTE
    ensures o.JNumber? && o.n.Integral? ==> ParseInt(SmartQuote(o).value) == Ok(o.n.value) || !IsInt32(o.n.value)
    ensures o.JNumber? && o.n.Integral? ==>
      var r := SmartQuote(o).value; |r| > 0 && r[0] != DOUBLE_QUOTE && r[0] != SINGLE_QUOTE
    ensures o.JString? ==> var r := SmartQuote(o).value; r[1..|r| - 1] == o.s
    ensures SmartQuote(Null) == Ok("'null'")
  {
    if o.JNumber? && o.n.Integral? {
      if IsInt32(o.n.value) {
        ParseIntRoundTrip(o.n.value);
      }
      var r := IntToString(o.n.value);
      assert r[0] == '-' || IsAsciiDigit(r[0]);
    }
    assert Quote("null", true) == "'null'";
  }

  // ---------------------------------------------------------------------------
  // formatQuotient

  /** `formatQuotient` as written: a `Double`/`Float` text is split on periods
      and `Integer.valueOf` reads the second piece; a zero fraction is
      dropped. The array access throws when there is no period (`"NaN"`,
      `"Infinity"`), and `Integer.valueOf` throws on an exponent
      (`"1.0E10"`) or on a fraction longer than the `int` range allows. */
  function FormatQuotientAsWritten(n: Number): (r: Result<string>)
    ensures n.Integral? ==> r == Ok(IntToString(n.value))
    ensures r.Err? ==> n.Floating? && (r.error == IndexOutOfBounds || r.error == NumberFormat)
    ensures r.Ok? && n.Floating? ==>
      r.value == n.text || (|JavaSplit(n.text, '.')| > 0 && r.value == JavaSplit(n.text, '.')[0])
  {
    match n
    case Integral(v) => Ok(IntToString(v))
    case Floating(text) =>
      var segments := JavaSplit(text, '.');
      if |segments| < 2 then Err(IndexOutOfBounds)
      else
        var fraction :- ParseInt(segments[1]);
        Ok(if fraction == 0 then segments[0] else text)
  }

  /** A numeral `Integer.valueOf` would read as zero: an optional sign and a
      non-empty run of `'0'`. */
  predicate IsZeroNumeral(g: string) {
    |Unsigned(g)| > 0 && forall i :: 0 <= i < |Unsigned(g)| ==> Unsigned(g)[i] == '0'
  }

  /** `formatQuotient` with the zero test done on the digits themselves, so
      that it returns the text unchanged where the written form throws. This
      is the form `SmartQuoteIntended` uses. */
  function FormatQuotient(n: Number): (r: string)
    ensures n.Integral? ==> ParseDecimal(r) == Some(n.value)
    ensures n.Floating? ==>
      r == n.text || (|JavaSplit(n.text, '.')| > 0 && r == JavaSplit(n.text, '.')[0])
  {
    match n
    case Integral(v) => IntToStringRoundTrip(v); IntToString(v)
    case Floating(text) =>
      var segments := JavaSplit(text, '.');
      if |segments| >= 2 && IsZeroNumeral(segments[1]) then segments[0] else text
  }

  lemma {:induction false} DecimalValueZero(s: string)
    requires forall i :: 0 <= i < |s| ==> IsAsciiDigit(s[i])
    ensures DecimalValue(s) == 0 <==> forall i :: 0 <= i < |s| ==> s[i] == '0'
    decreases |s|
  {
    if |s| > 0 {
      var init := s[..|s| - 1];
      DecimalValueZero(init);
      assert forall i :: 0 <= i < |init| ==> init[i] == s[i];
    }
  }

  /** Wherever the written `formatQuotient` returns, the corrected one returns
      the same text; where it throws, the corrected one returns the text
      unchanged. */
  lemma FormatQuotientAgrees(n: Number)
    ensures FormatQuotientAsWritten(n).Ok? ==> FormatQuotient(n) == FormatQuotientAsWritten(n).value
    ensures FormatQuotientAsWritten(n).Err? ==> FormatQuotient(n) == n.text
  {
    if n.Floating? {
      var segments := JavaSplit(n.text, '.');
      if |segments| >= 2 {
        var g := segments[1];
        var digits := Unsigned(g);
        if |digits| > 0 && forall i :: 0 <= i < |digits| ==> IsAsciiDigit(digits[i]) {
          DecimalValueZero(digits);
          assert IsZeroNumeral(g) <==> DecimalValue(digits) == 0;
          if ParseInt(g).Ok? {
            assert ParseInt(g).value == 0 <==> DecimalValue(digits) == 0;
          } else {
            assert DecimalValue(digits) != 0;
          }
        } else {
          assert !IsZeroNumeral(g);
          assert ParseInt(g).Err?;
        }
      }
    }
  }

  /** `"1.0"` loses its zero fraction. */
  lemma FormatQuotientDropsZeroFraction()
    ensures FormatQuotient(Floating("1.0")) == "1"
  {
    SplitJoin(["1", "0"], '.');
    assert Join(["1", "0"], '.') == "1.0";
    assert IsZeroNumeral("0") by {
      assert Unsigned("0") == "0";
    }
  }

  /** `"2.5"` keeps its fraction. */
  lemma FormatQuotientKeepsFraction()
    ensures FormatQuotient(Floating("2.5")) == "2.5"
  {
    SplitJoin(["2", "5"], '.');
    assert Join(["2", "5"], '.') == "2.5";
    assert !IsZeroNumeral("5") by {
      assert Unsigned("5") == "5";
    }
  }

  /** `String.valueOf(Double.NaN)` has no period, so the written
      `formatQuotient` reads past the end of the split array. */
  lemma FormatQuotientThrowsOnNaN()
    ensures FormatQuotientAsWritten(Floating("NaN")) == Err(IndexOutOfBounds)
    ensures FormatQuotient(Floating("NaN")) == "NaN"
  {
    assert '.' !in "NaN";
  }

  /** A `Double` text whose fraction has more than ten digits and does not
      start with `0`, as `String.valueOf(0.1 + 0.2)` is
      `"0.30000000000000004"`: the fraction is too long for
      `Integer.valueOf`, so the written `formatQuotient` throws. */
  lemma FormatQuotientThrowsOnLongFraction(whole: string, fraction: string)
    requires '.' !in whole && '.' !in fraction
    requires |fraction| > 10 && fraction[0] != '0'
    requires forall i :: 0 <= i < |fraction| ==> IsAsciiDigit(fraction[i])
    ensures FormatQuotientAsWritten(Floating(whole + "." + fraction)) == Err(NumberFormat)
    ensures FormatQuotient(Floating(whole + "." + fraction)) == whole + "." + fraction
  {
    SplitAtPeriod(whole, fraction);
    LongNumeralOverflows(fraction);
    assert !IsZeroNumeral(fraction) by {
      assert Unsigned(fraction)[0] != '0';
    }
  }

  /** A text with one period splits into the two pieces around it. */
  lemma SplitAtPeriod(whole: string, fraction: string)
    requires '.' !in whole && '.' !in fraction && |fraction| > 0
    ensures JavaSplit(whole + "." + fraction, '.') == [whole, fraction]
  {
    var text := whole + "." + fraction;
    assert [whole, fraction][1..] == [fraction];
    assert JoinWith([fraction], ".") == fraction;
    assert Join([whole, fraction], '.') == whole + "." + JoinWith([fraction], ".");
    SplitJoin([whole, fraction], '.');
    assert text[|whole|] == '.';
  }

  /** A numeral of more than ten digits, not starting with `0`, is beyond
      the `int` range. */
  lemma LongNumeralOverflows(s: string)
    requires |s| > 10 && s[0] != '0'
    requires forall i :: 0 <= i < |s| ==> IsAsciiDigit(s[i])
    ensures ParseInt(s) == Err(NumberFormat)
  {
    DecimalValueAtLeast(s);
    Pow10Grows(10, |s| - 1);
    assert Pow10(10) == 10000000000;
    assert Unsigned(s) == s;
  }

  lemma {:induction false} Pow10Grows(j: nat, k: nat)
    requires j <= k
    ensures Pow10(j) <= Pow10(k)
    decreases k - j
  {
    if j < k {
      Pow10Grows(j, k - 1);
    }
  }

  /** A numeral of `k + 1` digits with a non-zero first digit is at least `10^k`. */
  lemma {:induction false} DecimalValueAtLeast(s: string)
    requires |s| > 0 && s[0] != '0'
    requires forall i :: 0 <= i < |s| ==> IsAsciiDigit(s[i])
    ensures DecimalValue(s) >= Pow10(|s| - 1)
    decreases |s|
  {
    if |s| > 1 {
      DecimalValueAtLeast(s[..|s| - 1]);
    }
  }

  function Pow10(k: nat): (r: nat)
    ensures r >= 1
  {
    if k == 0 then 1 else 10 * Pow10(k - 1)
  }

  // ---------------------------------------------------------------------------
  // normalizeEOL

  predicate NoNewline(s: string) {
    forall i :: 0 <= i < |s| ==> s[i] != '\n'
  }

  predicate NoCarriageReturn(s: string) {
    forall i :: 0 <= i < |s| ==> s[i] != '\r'
  }

  /** `normalizeEOL(text)`: `replaceAll` of the `LINE_SEPARATORS` pattern by
      `System.lineSeparator()`, passed in as `lineSeparator`. Matches are
      found left to right and do not overlap, so `\r\n` is replaced once. */
  function NormalizeEOL(text: string, lineSeparator: string): (r: string)
    decreases |text|
  {
    if |text| == 0 then text
    else
      var n := SeparatorMatch(text);
      if n > 0 then lineSeparator + NormalizeEOL(text[n..], lineSeparator)
      else [text[0]] + NormalizeEOL(text[1..], lineSeparator)
  }

  /** Every `\n` and every `\r` of the input is part of a separator match,
      so the result holds such a character only where the platform
      separator does. */
  lemma {:induction false} NormalizeEOLTerminators(text: string, lineSeparator: string)
    ensures NoNewline(lineSeparator) ==> NoNewline(NormalizeEOL(text, lineSeparator))
    ensures NoCarriageReturn(lineSeparator) ==> NoCarriageReturn(NormalizeEOL(text, lineSeparator))
    decreases |text|
  {
    if |text| > 0 {
      var n := SeparatorMatch(text);
      var rest := text[if n > 0 then n else 1..];
      NormalizeEOLTerminators(rest, lineSeparator);
      var head := if n > 0 then lineSeparator else [text[0]];
      var tail := NormalizeEOL(rest, lineSeparator);
      assert NormalizeEOL(text, lineSeparator) == head + tail;
    }
  }

  /** A separator match at the start of `t` is not changed by appending to
      `t`, unless `t` ends in a `\r` that could pair with a following `\n`. */
  lemma SeparatorMatchOfPrefix(t: string, u: string)
    requires |t| > 0 && t[|t| - 1] != '\r'
    ensures SeparatorMatch(t + u) == SeparatorMatch(t)
  {
    assert (t + u)[0] == t[0];
    if |t| >= 2 {
      assert (t + u)[..2] == t[..2];
    }
  }

  /** How far `normalizeEOL` advances through `t` in one step. */
  function Step(t: string): (k: nat)
    requires |t| > 0
    ensures 1 <= k <= |t|
  {
    if SeparatorMatch(t) > 0 then SeparatorMatch(t) else 1
  }

  /** What `normalizeEOL` writes for the step at the start of `t`. */
  function StepOutput(t: string, lineSeparator: string): string
    requires |t| > 0
  {
    if SeparatorMatch(t) > 0 then lineSeparator else [t[0]]
  }

  lemma NormalizeEOLUnfold(t: string, lineSeparator: string)
    requires |t| > 0
    ensures NormalizeEOL(t, lineSeparator) == StepOutput(t, lineSeparator) + NormalizeEOL(t[Step(t)..], lineSeparator)
  {
  }

  /** One step of `NormalizeEOLAppend`: what `t + u` normalises to, given
      how the rest of `t` followed by `u` normalises. */
  lemma NormalizeEOLAppendStep(t: string, u: string, lineSeparator: string)
    requires |t| > 0 && t[|t| - 1] != '\r'
    requires NormalizeEOL(t[Step(t)..] + u, lineSeparator)
          == NormalizeEOL(t[Step(t)..], lineSeparator) + NormalizeEOL(u, lineSeparator)
    ensures NormalizeEOL(t + u, lineSeparator) == NormalizeEOL(t, lineSeparator) + NormalizeEOL(u, lineSeparator)
  {
    StepOfAppend(t, u, lineSeparator);
    NormalizeEOLUnfold(t + u, lineSeparator);
    NormalizeEOLUnfold(t, lineSeparator);
    var k := Step(t);
    AppendAssociates(StepOutput(t, lineSeparator), NormalizeEOL(t[k..], lineSeparator), NormalizeEOL(u, lineSeparator));
  }

  lemma StepOfAppend(t: string, u: string, lineSeparator: string)
    requires |t| > 0 && t[|t| - 1] != '\r'
    ensures Step(t + u) == Step(t) && StepOutput(t + u, lineSeparator) == StepOutput(t, lineSeparator)
    ensures (t + u)[Step(t)..] == t[Step(t)..] + u
  {
    SeparatorMatchOfPrefix(t, u);
    assert (t + u)[0] == t[0];
  }

  /** Text that does not end in `\r` normalises independently of what
      follows it: no separator match can straddle the boundary. */
  lemma {:induction false} NormalizeEOLAppend(t: string, u: string, lineSeparator: string)
    requires |t| == 0 || t[|t| - 1] != '\r'
    ensures NormalizeEOL(t + u, lineSeparator) == NormalizeEOL(t, lineSeparator) + NormalizeEOL(u, lineSeparator)
    decreases |t|
  {
    if |t| == 0 {
      assert t + u == u;
    } else {
      NormalizeEOLAppend(t[Step(t)..], u, lineSeparator);
      NormalizeEOLAppendStep(t, u, lineSeparator);
    }
  }

  /** Text ending in any of the three separators normalises to the same
      result, as long as the text before the separator does not itself end
      in `\r`. */
  lemma NormalizeEOLEndings(t: string, sep: string, lineSeparator: string)
    requires IsLineSeparator(sep)
    requires |t| == 0 || t[|t| - 1] != '\r'
    ensures NormalizeEOL(t + sep, lineSeparator) == NormalizeEOL(t, lineSeparator) + lineSeparator
  {
    NormalizeEOLAppend(t, sep, lineSeparator);
    assert sep[SeparatorMatch(sep)..] == "";
  }

  /** The library's end-of-line test: `"Sample text"` followed by the
      Windows, Unix or Macintosh separator normalises identically. */
  lemma NormalizeEOLExample(lineSeparator: string)
    ensures NormalizeEOL("Sample text" + WINDOWS_SEPARATOR, lineSeparator)
         == NormalizeEOL("Sample text" + UNIX_SEPARATOR, lineSeparator)
         == NormalizeEOL("Sample text" + MACINTOSH_SEPARATOR, lineSeparator)
  {
    NormalizeEOLEndings("Sample text", WINDOWS_SEPARATOR, lineSeparator);
    NormalizeEOLEndings("Sample text", UNIX_SEPARATOR, lineSeparator);
    NormalizeEOLEndings("Sample text", MACINTOSH_SEPARATOR, lineSeparator);
  }

  /** With one of the three separators as the platform separator, normalising
      twice is normalising once. */
  lemma {:induction false} NormalizeEOLIdempotent(text: string, lineSeparator: string)
    requires IsLineSeparator(lineSeparator)
    ensures NormalizeEOL(NormalizeEOL(text, lineSeparator), lineSeparator) == NormalizeEOL(text, lineSeparator)
    decreases |text|
  {
    if |text| > 0 {
      var n := SeparatorMatch(text);
      if n > 0 {
        var t := NormalizeEOL(text[n..], lineSeparator);
        NormalizeEOLIdempotent(text[n..], lineSeparator);
        if lineSeparator == MACINTOSH_SEPARATOR {
          NormalizeEOLTerminators(text[n..], lineSeparator);
          assert NoNewline(t);
          assert !(UNIX_SEPARATOR <= t);
        }
        SeparatorsMatchWhole(lineSeparator, t);
        assert (lineSeparator + t)[|lineSeparator|..] == t;
      } else {
        var t := NormalizeEOL(text[1..], lineSeparator);
        NormalizeEOLIdempotent(text[1..], lineSeparator);
        assert ([text[0]] + t)[1..] == t;
      }
    }
  }
}
