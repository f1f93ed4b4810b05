/** The pieces of `java.lang` behaviour the modelled code relies on: 32-bit
    `int` arithmetic, ASCII character classes, `String.equalsIgnoreCase`,
    `String.replace`, `String.split` on a single literal character and the
    decimal form of an integer (`String.valueOf` of an `Integer` or `Long`). */
module JavaLang {

  import opened Wrappers
  import opened SeqFacts

  /** `Integer.MAX_VALUE` */
  const INT_MAX: int := 0x7FFF_FFFF
  /** `Integer.MIN_VALUE` */
  const INT_MIN: int := -0x8000_0000

  predicate IsInt32(x: int) {
    INT_MIN <= x <= INT_MAX
  }

  /** The value Java's `int` addition yields: the mathematical value reduced
      into the 32-bit two's-complement range. */
  function Wrap32(x: int): (r: int)
    ensures IsInt32(r)
    ensures (r - x) % 0x1_0000_0000 == 0
    ensures IsInt32(x) ==> r == x
  {
    var m := (x - INT_MIN) % 0x1_0000_0000;
    m + INT_MIN
  }

  // ---------------------------------------------------------------------------
  // Characters

  predicate IsAsciiDigit(c: char) {
    '0' <= c <= '9'
  }

  predicate IsAsciiLetter(c: char) {
    ('a' <= c <= 'z') || ('A' <= c <= 'Z')
  }

  predicate IsAsciiAlphanumeric(c: char) {
    IsAsciiLetter(c) || IsAsciiDigit(c)
  }

  function ToLowerAscii(c: char): (r: char)
    ensures 'A' <= c <= 'Z' ==> r != c && 'a' <= r <= 'z'
    ensures !('A' <= c <= 'Z') ==> r == c
  {
    if 'A' <= c <= 'Z' then (c as int + 32) as char else c
  }

  /** `String.equalsIgnoreCase`, with case folding restricted to ASCII letters. */
  predicate EqualsIgnoreCase(a: string, b: string) {
    |a| == |b| && forall i :: 0 <= i < |a| ==> ToLowerAscii(a[i]) == ToLowerAscii(b[i])
  }

  lemma EqualsIgnoreCaseIsEquivalence(a: string, b: string, c: string)
    ensures EqualsIgnoreCase(a, a)
    ensures EqualsIgnoreCase(a, b) ==> EqualsIgnoreCase(b, a)
    ensures EqualsIgnoreCase(a, b) && EqualsIgnoreCase(b, c) ==> EqualsIgnoreCase(a, c)
  {
  }

  // ---------------------------------------------------------------------------
  // String.replace(CharSequence, CharSequence)

  /** Number of non-overlapping occurrences of `t` in `s`, found left to right. */
  function CountOccurrences(s: string, t: string): nat
    requires |t| > 0
    decreases |s|
  {
    if |s| == 0 then 0
    else if t <= s then 1 + CountOccurrences(s[|t|..], t)
    else CountOccurrences(s[1..], t)
  }

  /** `s.replace(t, r)`: every occurrence of the non-empty literal `t`, scanned
      left to right without overlap, is replaced by `r`. */
  function Replace(s: string, t: string, r: string): string
    requires |t| > 0
    decreases |s|
  {
    if |s| == 0 then s
    else if t <= s then r + Replace(s[|t|..], t, r)
    else [s[0]] + Replace(s[1..], t, r)
  }

  /** Whether `t` occurs anywhere in `s`: as a prefix of `s` or of one of its
      suffixes. */
  predicate Occurs(s: string, t: string)
    decreases |s|
  {
    t <= s || (|s| > 0 && Occurs(s[1..], t))
  }

  lemma {:induction false} ReplaceAbsent(s: string, t: string, r: string)
    requires |t| > 0
    requires !Occurs(s, t)
    ensures Replace(s, t, r) == s
    ensures CountOccurrences(s, t) == 0
    decreases |s|
  {
    if |s| == 0 {
    } else {
      ReplaceAbsent(s[1..], t, r);
    }
  }

  lemma {:induction false} ReplaceBySelf(s: string, t: string)
    requires |t| > 0
    ensures Replace(s, t, t) == s
    decreases |s|
  {
    if |s| == 0 {
    } else if t <= s {
      ReplaceBySelf(s[|t|..], t);
      assert s == t + s[|t|..];
    } else {
      ReplaceBySelf(s[1..], t);
      assert s == [s[0]] + s[1..];
    }
  }

  /** Replacing one character by another is a pointwise map. */
  lemma {:induction false} ReplaceChar(s: string, from: char, to: char)
    ensures |Replace(s, [from], [to])| == |s|
    ensures forall i :: 0 <= i < |s| ==>
      Replace(s, [from], [to])[i] == if s[i] == from then to else s[i]
    decreases |s|
  {
    if |s| > 0 {
      ReplaceChar(s[1..], from, to);
      var rest := Replace(s[1..], [from], [to]);
      assert [from] <= s <==> s[0] == from;
      if s[0] == from {
        assert Replace(s, [from], [to]) == [to] + rest;
      } else {
        assert Replace(s, [from], [to]) == [s[0]] + rest;
      }
    }
  }

  // ---------------------------------------------------------------------------
  // Splitting on one literal character

  /** All pieces between occurrences of `c`, empty pieces included. */
  function Split(s: string, c: char): (parts: seq<string>)
    ensures |parts| >= 1
    ensures forall i :: 0 <= i < |parts| ==> c !in parts[i]
    decreases |s|
  {
    if |s| == 0 then [""]
    else
      var rest := Split(s[1..], c);
      if s[0] == c then [""] + rest
      else [[s[0]] + rest[0]] + rest[1..]
  }

  /** `String.join(delimiter, parts)`: the parts with the delimiter between
      each two neighbours. */
  function JoinWith(parts: seq<string>, delimiter: string): string
    decreases |parts|
  {
    if |parts| == 0 then ""
    else if |parts| == 1 then parts[0]
    else parts[0] + delimiter + JoinWith(parts[1..], delimiter)
  }

  /** Three parts joined: each delimiter sits between two of them. */
  lemma JoinThree(a: string, b: string, c: string, delimiter: string)
    ensures JoinWith([a, b, c], delimiter) == a + delimiter + b + delimiter + c
  {
    assert [a, b, c][1..] == [b, c];
    assert [b, c][1..] == [c];
    calc {
      JoinWith([a, b, c], delimiter);
      a + delimiter + JoinWith([b, c], delimiter);
      a + delimiter + (b + delimiter + JoinWith([c], delimiter));
      a + delimiter + (b + delimiter + c);
      { AppendAssociates(a + delimiter, b + delimiter, c); }
      a + delimiter + (b + delimiter) + c;
      { AppendAssociates(a + delimiter, b, delimiter); }
      a + delimiter + b + delimiter + c;
    }
  }

  /** `String.join` with a one-character delimiter, the inverse of `Split`. */
  function Join(parts: seq<string>, c: char): string
    requires |parts| >= 1
  {
    JoinWith(parts, [c])
  }

  lemma {:induction false} JoinSplit(s: string, c: char)
    ensures Join(Split(s, c), c) == s
    decreases |s|
  {
    if |s| == 0 {
    } else {
      var rest := Split(s[1..], c);
      JoinSplit(s[1..], c);
      if s[0] == c {
        assert Split(s, c)[1..] == rest;
      } else {
        var parts := Split(s, c);
        if |rest| == 1 {
        } else {
          assert parts[1..] == rest[1..];
          assert Join(parts, c) == [s[0]] + rest[0] + [c] + Join(rest[1..], c);
        }
      }
    }
  }

  lemma {:induction false} SplitJoin(parts: seq<string>, c: char)
    requires |parts| >= 1
    requires forall i :: 0 <= i < |parts| ==> c !in parts[i]
    ensures Split(Join(parts, c), c) == parts
    decreases |parts|, |parts[0]|
  {
    var p := parts[0];
    if |p| == 0 {
      if |parts| == 1 {
      } else {
        var tail := Join(parts[1..], c);
        SplitJoin(parts[1..], c);
        assert Join(parts, c) == [c] + tail;
        assert (([c] + tail)[1..]) == tail;
      }
    } else {
      var shorter := parts[0 := p[1..]];
      assert c !in p[1..];
      SplitJoin(shorter, c);
      var s := Join(parts, c);
      if |parts| == 1 {
        assert s == p == [p[0]] + p[1..];
        assert s[1..] == Join(shorter, c);
      } else {
        assert shorter[1..] == parts[1..];
        assert s == [p[0]] + (p[1..] + [c] + Join(parts[1..], c));
        assert s[1..] == Join(shorter, c);
      }
      assert s[0] == p[0] != c;
      var rest := Split(s[1..], c);
      assert rest == shorter;
      assert Split(s, c) == [[s[0]] + rest[0]] + rest[1..];
      assert [p[0]] + p[1..] == p;
      assert [p] + parts[1..] == parts;
    }
  }

  /** Without the delimiter there is exactly one piece: the whole string. */
  lemma {:induction false} SplitWithoutDelimiter(s: string, c: char)
    requires c !in s
    ensures Split(s, c) == [s]
    decreases |s|
  {
    if |s| > 0 {
      assert c !in s[1..];
      SplitWithoutDelimiter(s[1..], c);
      assert [s[0]] + s[1..] == s;
    }
  }

  /** Drops the empty strings at the end of `parts`. */
  function DropTrailingEmpty(parts: seq<string>): (r: seq<string>)
    ensures |r| <= |parts| && r == parts[..|r|]
    ensures |r| > 0 ==> r[|r| - 1] != ""
    ensures forall i :: |r| <= i < |parts| ==> parts[i] == ""
  {
    if |parts| == 0 then parts
    else if parts[|parts| - 1] == "" then DropTrailingEmpty(parts[..|parts| - 1])
    else parts
  }

  /** `s.split(regex)` for a regex that matches exactly the character `c`:
      the input itself when `c` does not occur, otherwise the pieces with the
      trailing empty ones removed. */
  function JavaSplit(s: string, c: char): seq<string>
  {
    if c !in s then [s] else DropTrailingEmpty(Split(s, c))
  }

  // ---------------------------------------------------------------------------
  // Decimal strings

  function DigitChar(d: nat): char
    requires d < 10
  {
    (48 + d) as char
  }

  function DigitValue(c: char): nat
    requires IsAsciiDigit(c)
  {
    c as int - 48
  }

  /** Decimal digits of `n` without leading zeros ("0" for zero). */
  function NatToDecimal(n: nat): (s: string)
    ensures |s| >= 1
    ensures forall i :: 0 <= i < |s| ==> IsAsciiDigit(s[i])
    ensures |s| > 1 ==> s[0] != '0'
    decreases n
  {
    if n < 10 then [DigitChar(n)] else NatToDecimal(n / 10) + [DigitChar(n % 10)]
  }

  /** Value of a string of decimal digits. */
  function DecimalValue(s: string): nat
    requires forall i :: 0 <= i < |s| ==> IsAsciiDigit(s[i])
    decreases |s|
  {
    if |s| == 0 then 0 else 10 * DecimalValue(s[..|s| - 1]) + DigitValue(s[|s| - 1])
  }

  /** `String.valueOf` of an `Integer` or `Long`: an optional minus sign
      followed by the decimal digits. */
  function IntToString(n: int): (s: string)
    ensures |s| >= 1
  {
    if n < 0 then "-" + NatToDecimal(-n) else NatToDecimal(n)
  }

  /** Reads an integer back from the form `IntToString` writes. */
  function ParseDecimal(s: string): Option<int>
  {
    if |s| > 0 && s[0] == '-' && |s| > 1 && (forall i :: 1 <= i < |s| ==> IsAsciiDigit(s[i]))
    then Some(0 - DecimalValue(s[1..]))
    else if |s| > 0 && forall i :: 0 <= i < |s| ==> IsAsciiDigit(s[i])
    then Some(DecimalValue(s))
    else None
  }

  /** `Integer.parseInt` (and so `Integer.valueOf`) on ASCII input: an
      optional sign, at least one decimal digit, and a value inside the `int`
      range; anything else throws `NumberFormatException`. */
  function ParseInt(s: string): (r: Result<int>)
    ensures r.Ok? ==> IsInt32(r.value)
    ensures r.Ok? ==> |s| > 0 && (IsAsciiDigit(s[0]) || s[0] == '-' || s[0] == '+')
  {
    var digits := Unsigned(s);
    if |digits| == 0 || !(forall i :: 0 <= i < |digits| ==> IsAsciiDigit(digits[i])) then Err(NumberFormat)
    else
      var magnitude := DecimalValue(digits);
      var v := if |s| > 0 && s[0] == '-' then 0 - magnitude else magnitude;
      if IsInt32(v) then Ok(v) else Err(NumberFormat)
  }

  /** A numeral without its leading sign, if it has one. */
  function Unsigned(s: string): (r: string)
    ensures r == s || (|s| > 0 && r == s[1..] && (s[0] == '-' || s[0] == '+'))
  {
    if |s| > 0 && (s[0] == '-' || s[0] == '+') then s[1..] else s
  }

  lemma {:induction false} DecimalRoundTrip(n: nat)
    ensures DecimalValue(NatToDecimal(n)) == n
    decreases n
  {
    if n < 10 {
    } else {
      DecimalRoundTrip(n / 10);
      var s := NatToDecimal(n);
      assert s[..|s| - 1] == NatToDecimal(n / 10);
    }
  }

  /** `Integer.parseInt` reads back every `int` that `String.valueOf` writes. */
  lemma ParseIntRoundTrip(n: int)
    requires IsInt32(n)
    ensures ParseInt(IntToString(n)) == Ok(n)
  {
    if n < 0 {
      ParseIntNegative(0 - n);
    } else {
      ParseIntNatural(n);
    }
  }

  lemma ParseIntNatural(n: nat)
    requires n <= INT_MAX
    ensures ParseInt(NatToDecimal(n)) == Ok(n)
  {
    var s := NatToDecimal(n);
    DecimalRoundTrip(n);
    assert IsAsciiDigit(s[0]);
    assert Unsigned(s) == s;
  }

  lemma ParseIntNegative(n: nat)
    requires 0 < n <= INT_MAX + 1
    ensures ParseInt("-" + NatToDecimal(n)) == Ok(-(n as int))
  {
    var d := NatToDecimal(n);
    var s := "-" + d;
    DecimalRoundTrip(n);
    assert s[1..] == d;
    assert Unsigned(s) == d;
  }

  /** Every integer, of any width, reads back from its decimal form. */
  lemma IntToStringRoundTrip(n: int)
    ensures ParseDecimal(IntToString(n)) == Some(n)
  {
    if n < 0 {
      ParseDecimalNegative(0 - n);
    } else {
      ParseDecimalNatural(n);
    }
  }

  lemma ParseDecimalNatural(n: nat)
    ensures ParseDecimal(NatToDecimal(n)) == Some(n)
  {
    var s := NatToDecimal(n);
    DecimalRoundTrip(n);
    assert IsAsciiDigit(s[0]);
  }

  lemma ParseDecimalNegative(n: nat)
    requires 0 < n
    ensures ParseDecimal("-" + NatToDecimal(n)) == Some(-(n as int))
  {
    var d := NatToDecimal(n);
    var s := "-" + d;
    DecimalRoundTrip(n);
    assert s[1..] == d;
    assert forall i :: 1 <= i < |s| ==> s[i] == d[i - 1];
  }
}
