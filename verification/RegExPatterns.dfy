/** The compiled patterns of `RegExPatterns`, written as hand-coded
    recognizers: `SIMPLE_VERSION_NUMBER` (`^\d+(?:\.\d+)*$`),
    `UNIX_NAMING_CONVENTION` (`^[A-Za-z0-9]+[A-Za-z0-9._-]*$`) and
    `LINE_SEPARATORS` (`(\n|\r\n|\r)`, built from the `LineSeparator`
    constants).

    Both anchored patterns are used through `Matcher.find()` without the
    MULTILINE flag, so `^` matches only at the start of the input and `$`
    matches at the end or just before one final line terminator. */
module RegExPatterns {

  import opened JavaLang

  /** `LineSeparator.Unix` */
  const UNIX_SEPARATOR: string := "\n"
  /** `LineSeparator.Windows` */
  const WINDOWS_SEPARATOR: string := "\r\n"
  /** `LineSeparator.Macintosh` */
  const MACINTOSH_SEPARATOR: string := "\r"

  predicate IsLineSeparator(sep: string) {
    sep == UNIX_SEPARATOR || sep == WINDOWS_SEPARATOR || sep == MACINTOSH_SEPARATOR
  }

  // ---------------------------------------------------------------------------
  // Anchors

  /** The characters `java.util.regex` treats as line terminators. */
  predicate IsLineTerminator(c: char) {
    c == '\n' || c == '\r' || c == '\U{85}' || c == '\U{2028}' || c == '\U{2029}'
  }

  /** The part of `s` before the last position where a non-MULTILINE `$`
      matches: `s` itself, or `s` without one final line terminator, where
      `\r\n` counts as a single terminator. */
  function ChompLineTerminator(s: string): (r: string)
    ensures r <= s && |s| - 2 <= |r|
    ensures |s| >= 2 && s[|s| - 2..] == "\r\n" ==> r == s[..|s| - 2]
    ensures |s| >= 1 && IsLineTerminator(s[|s| - 1]) && !(|s| >= 2 && s[|s| - 2..] == "\r\n") ==> r == s[..|s| - 1]
    ensures |s| == 0 || !IsLineTerminator(s[|s| - 1]) ==> r == s
    ensures (forall i :: 0 <= i < |s| ==> !IsLineTerminator(s[i])) ==> r == s
  {
    if |s| >= 2 && s[|s| - 2] == '\r' && s[|s| - 1] == '\n' then
      assert s[|s| - 2..] == "\r\n";
      s[..|s| - 2]
    else if |s| >= 1 && IsLineTerminator(s[|s| - 1]) then
      s[..|s| - 1]
    else s
  }

  /** The inverse view: a text that does not end in a line terminator,
      followed by nothing, by `\r\n` or by one line terminator, is chomped
      back to itself, and every text is its chomped part followed by such an
      ending. */
  lemma ChompTerminator(t: string, ending: string)
    requires |t| == 0 || !IsLineTerminator(t[|t| - 1])
    requires ending == "" || ending == "\r\n" || (|ending| == 1 && IsLineTerminator(ending[0]))
    ensures ChompLineTerminator(t + ending) == t
    ensures var s := t + ending; var r := ChompLineTerminator(s);
            && s == r + s[|r|..]
            && (s[|r|..] == "" || s[|r|..] == "\r\n" || (|s[|r|..]| == 1 && IsLineTerminator(s[|r|..][0])))
  {
    var s := t + ending;
    assert s[..|t|] == t;
    assert s[|t|..] == ending;
    if ending == "\r\n" {
      assert s[|s| - 2..] == "\r\n";
    } else if |ending| == 1 {
      assert |s| >= 2 ==> s[|s| - 2] == t[|t| - 1];
    } else {
      assert s == t;
    }
  }

  // ---------------------------------------------------------------------------
  // SIMPLE_VERSION_NUMBER

  /** `\d+`: a non-empty run of ASCII digits (`\d` is ASCII-only by default). */
  predicate IsDigitRun(g: string) {
    |g| > 0 && forall i :: 0 <= i < |g| ==> IsAsciiDigit(g[i])
  }

  /** `\d+(?:\.\d+)*` matched against all of `v`: every piece between
      periods is a non-empty digit run. */
  predicate IsVersionNumber(v: string) {
    var groups := Split(v, '.');
    forall i :: 0 <= i < |groups| ==> IsDigitRun(groups[i])
  }

  predicate IsVersionChar(c: char) {
    IsAsciiDigit(c) || c == '.'
  }

  /** The rules the pattern's documentation lists: no letters, whitespace,
      signs or other special characters; no leading or trailing period; no
      two periods in a row. */
  predicate FollowsVersionRules(v: string) {
    && |v| > 0
    && v[0] != '.'
    && v[|v| - 1] != '.'
    && (forall i :: 0 <= i < |v| ==> IsVersionChar(v[i]))
    && (forall i :: 0 <= i < |v| - 1 ==> !(v[i] == '.' && v[i + 1] == '.'))
  }

  /** `SIMPLE_VERSION_NUMBER.matcher(s).find()`. */
  function FindVersionNumber(s: string): (found: bool)
    ensures found <==> FollowsVersionRules(ChompLineTerminator(s))
  {
    VersionRules(ChompLineTerminator(s));
    IsVersionNumber(ChompLineTerminator(s))
  }

  /** Every piece after the first is a digit run; the first piece consists of
      digits but may be empty. */
  predicate TailGroupsAreRuns(v: string) {
    var groups := Split(v, '.');
    && (forall i :: 0 <= i < |groups[0]| ==> IsAsciiDigit(groups[0][i]))
    && (forall i :: 1 <= i < |groups| ==> IsDigitRun(groups[i]))
  }

  /** `FollowsVersionRules` without the non-empty and no-leading-period rules. */
  predicate FollowsLooseRules(v: string) {
    && (|v| > 0 ==> v[|v| - 1] != '.')
    && (forall i :: 0 <= i < |v| ==> IsVersionChar(v[i]))
    && (forall i :: 0 <= i < |v| - 1 ==> !(v[i] == '.' && v[i + 1] == '.'))
  }

  lemma LooseRulesCons(v: string)
    requires |v| > 0
    ensures FollowsLooseRules(v) <==>
      IsVersionChar(v[0]) && FollowsLooseRules(v[1..])
      && (v[0] == '.' ==> |v| > 1 && v[1] != '.')
  {
    var w := v[1..];
    if IsVersionChar(v[0]) && FollowsLooseRules(w) && (v[0] == '.' ==> |v| > 1 && v[1] != '.') {
      forall i | 0 <= i < |v| - 1
        ensures !(v[i] == '.' && v[i + 1] == '.')
      {
        if i > 0 {
          assert v[i] == w[i - 1] && v[i + 1] == w[i];
        }
      }
    }
    if FollowsLooseRules(v) {
      forall i | 0 <= i < |w| - 1
        ensures !(w[i] == '.' && w[i + 1] == '.')
      {
        assert w[i] == v[i + 1] && w[i + 1] == v[i + 2];
      }
    }
  }

  lemma {:induction false} LooseRules(v: string)
    ensures TailGroupsAreRuns(v) <==> FollowsLooseRules(v)
    decreases |v|
  {
    if |v| > 0 {
      var w := v[1..];
      var rest := Split(w, '.');
      LooseRules(w);
      LooseRulesCons(v);
      var groups := Split(v, '.');
      if v[0] == '.' {
        assert groups == [""] + rest;
        assert rest[0] == "" <==> |w| == 0 || w[0] == '.';
        assert forall i :: 1 <= i < |groups| ==> groups[i] == rest[i - 1];
        if TailGroupsAreRuns(v) {
          forall i | 0 <= i < |rest|
            ensures IsDigitRun(rest[i])
          {
            assert rest[i] == groups[i + 1];
          }
        }
      } else if IsAsciiDigit(v[0]) {
        assert groups == [[v[0]] + rest[0]] + rest[1..];
        assert forall i :: 1 <= i < |groups| ==> groups[i] == rest[i];
        assert forall i :: 0 <= i < |rest[0]| ==> rest[0][i] == groups[0][i + 1];
      } else {
        assert groups[0][0] == v[0];
      }
    }
  }

  /** The pattern accepts exactly the strings that follow its documented
      rules. */
  lemma VersionRules(v: string)
    ensures IsVersionNumber(v) <==> FollowsVersionRules(v)
  {
    LooseRules(v);
    FirstGroupEmpty(v);
    VersionAsTailGroups(v);
    VersionRulesAsLoose(v);
  }

  lemma FirstGroupEmpty(v: string)
    ensures |Split(v, '.')[0]| == 0 <==> |v| == 0 || v[0] == '.'
  {
    if |v| > 0 {
      var rest := Split(v[1..], '.');
      assert Split(v, '.')[0] == if v[0] == '.' then "" else [v[0]] + rest[0];
    }
  }

  lemma VersionAsTailGroups(v: string)
    ensures IsVersionNumber(v) <==> TailGroupsAreRuns(v) && |Split(v, '.')[0]| > 0
  {
    var groups := Split(v, '.');
    if TailGroupsAreRuns(v) && |groups[0]| > 0 {
      assert IsDigitRun(groups[0]);
    }
  }

  lemma VersionRulesAsLoose(v: string)
    ensures FollowsVersionRules(v) <==> FollowsLooseRules(v) && |v| > 0 && v[0] != '.'
  {
  }

  /** Joining non-empty digit runs with single periods gives an accepted
      version, and splitting it on `"."` gives back exactly those runs. */
  lemma VersionFromGroups(groups: seq<string>)
    requires |groups| >= 1
    requires forall i :: 0 <= i < |groups| ==> IsDigitRun(groups[i])
    ensures IsVersionNumber(Join(groups, '.'))
    ensures FindVersionNumber(Join(groups, '.'))
    ensures JavaSplit(Join(groups, '.'), '.') == groups
  {
    forall i | 0 <= i < |groups|
      ensures '.' !in groups[i]
    {
      assert forall k :: 0 <= k < |groups[i]| ==> groups[i][k] != '.';
    }
    SplitJoin(groups, '.');
    var v := Join(groups, '.');
    if '.' !in v {
      SplitWithoutDelimiter(v, '.');
    }
    VersionRules(v);
    assert ChompLineTerminator(v) == v;
  }

  /** An accepted version is the period-join of its digit groups, and
      `String.split("\\.")` yields exactly those groups. */
  lemma VersionGroups(v: string)
    requires IsVersionNumber(v)
    ensures Join(Split(v, '.'), '.') == v
    ensures JavaSplit(v, '.') == Split(v, '.')
  {
    JoinSplit(v, '.');
    if '.' !in v {
      SplitWithoutDelimiter(v, '.');
    }
  }

  /** Inputs the library's version-number test expects to be accepted, and
      how `String.split("\\.")` breaks them up. */
  lemma VersionNumberAccepted()
    ensures FindVersionNumber("0") && JavaSplit("0", '.') == ["0"]
    ensures FindVersionNumber("010.98") && JavaSplit("010.98", '.') == ["010", "98"]
  {
    VersionFromGroups(["0"]);
    assert Join(["010", "98"], '.') == "010.98";
    VersionFromGroups(["010", "98"]);
  }

  lemma VersionNumberAcceptedFourGroups()
    ensures FindVersionNumber("0.1.2.3") && JavaSplit("0.1.2.3", '.') == ["0", "1", "2", "3"]
  {
    assert Join(["0", "1", "2", "3"], '.') == "0.1.2.3";
    VersionFromGroups(["0", "1", "2", "3"]);
  }

  lemma VersionNumberAcceptedFiveGroups()
    ensures FindVersionNumber("0.12.3344.2.1")
  {
    JoinFiveGroups();
    VersionFromGroups(["0", "12", "3344", "2", "1"]);
  }

  lemma VersionNumberSplitFiveGroups()
    ensures JavaSplit("0.12.3344.2.1", '.') == ["0", "12", "3344", "2", "1"]
  {
    JoinFiveGroups();
    VersionFromGroups(["0", "12", "3344", "2", "1"]);
  }

  lemma JoinFiveGroups()
    ensures Join(["0", "12", "3344", "2", "1"], '.') == "0.12.3344.2.1"
  {
    var groups := ["0", "12", "3344", "2", "1"];
    assert JoinWith(groups[4..], ".") == "1";
    assert Join(groups[3..], '.') == "2.1";
    assert Join(groups[2..], '.') == "3344.2.1";
    assert Join(groups[1..], '.') == "12.3344.2.1";
  }

  /** Inputs the library's version-number test expects to be rejected. */
  lemma VersionNumberRejected()
    ensures !FindVersionNumber("8.34.-1")
    ensures !FindVersionNumber("0 23.42")
    ensures !FindVersionNumber("1.2..3.4")
    ensures !FindVersionNumber(".2.58.6")
    ensures !FindVersionNumber("64#23.4")
  {
    assert ChompLineTerminator("8.34.-1") == "8.34.-1";
    assert ChompLineTerminator("0 23.42") == "0 23.42";
    assert ChompLineTerminator("1.2..3.4") == "1.2..3.4";
    assert ChompLineTerminator(".2.58.6") == ".2.58.6";
    assert ChompLineTerminator("64#23.4") == "64#23.4";
    assert !IsVersionChar("8.34.-1"[5]);
    assert !IsVersionChar("0 23.42"[1]);
    assert "1.2..3.4"[3] == '.' && "1.2..3.4"[4] == '.';
    assert !IsVersionChar("64#23.4"[2]);
  }

  // ---------------------------------------------------------------------------
  // UNIX_NAMING_CONVENTION

  predicate IsUnixNameChar(c: char) {
    IsAsciiAlphanumeric(c) || c == '.' || c == '_' || c == '-'
  }

  predicate AllAlphanumeric(s: string) {
    forall i :: 0 <= i < |s| ==> IsAsciiAlphanumeric(s[i])
  }

  predicate AllUnixNameChars(s: string) {
    forall i :: 0 <= i < |s| ==> IsUnixNameChar(s[i])
  }

  /** `[A-Za-z0-9]+[A-Za-z0-9._-]*` matched against all of `v`: a non-empty
      alphanumeric run, then any run of name characters. */
  predicate IsUnixName(v: string) {
    exists k :: 1 <= k <= |v| && AllAlphanumeric(v[..k]) && AllUnixNameChars(v[k..])
  }

  /** `UNIX_NAMING_CONVENTION.matcher(s).find()`. */
  function FindUnixName(s: string): (found: bool)
    ensures found <==>
      var v := ChompLineTerminator(s);
      |v| > 0 && IsAsciiAlphanumeric(v[0]) && AllUnixNameChars(v)
  {
    UnixNameRules(ChompLineTerminator(s));
    IsUnixName(ChompLineTerminator(s))
  }

  /** The two-part pattern collapses to: an alphanumeric first character and
      name characters throughout. */
  lemma UnixNameRules(v: string)
    ensures IsUnixName(v) <==> |v| > 0 && IsAsciiAlphanumeric(v[0]) && AllUnixNameChars(v)
  {
    if |v| > 0 && IsAsciiAlphanumeric(v[0]) && AllUnixNameChars(v) {
      assert AllAlphanumeric(v[..1]) && AllUnixNameChars(v[1..]);
    }
    if IsUnixName(v) {
      var k :| 1 <= k <= |v| && AllAlphanumeric(v[..k]) && AllUnixNameChars(v[k..]);
      assert v[0] == v[..k][0];
      forall i | 0 <= i < |v|
        ensures IsUnixNameChar(v[i])
      {
        if i < k {
          assert v[i] == v[..k][i];
        } else {
          assert v[i] == v[k..][i - k];
        }
      }
    }
  }

  /** An accepted name never begins with a hyphen, an underscore or a period. */
  lemma UnixNameStart(s: string)
    requires FindUnixName(s)
    ensures var v := ChompLineTerminator(s); v[0] != '-' && v[0] != '_' && v[0] != '.'
  {
  }

  /** The inputs of the library's naming-convention test. */
  lemma UnixNameExamples()
    ensures FindUnixName("abcd") && FindUnixName("ab_cd")
    ensures FindUnixName("ab-cd") && FindUnixName("abc.d.ef")
  {
  }

  /** The rejected inputs of the same test: a bad first character, or a
      character outside the name characters. */
  lemma UnixNameCounterExamples()
    ensures !FindUnixName("-abc") && !FindUnixName("_abc") && !FindUnixName(".-abc")
    ensures !FindUnixName("ab$c") && !FindUnixName(" abc") && !FindUnixName("a bc")
  {
    assert !IsUnixNameChar("ab$c"[2]);
    assert !IsUnixNameChar("a bc"[1]);
  }

  // ---------------------------------------------------------------------------
  // LINE_SEPARATORS

  /** Length of the match of `(\n|\r\n|\r)` at the start of `s`, the
      alternatives tried in order; 0 when none matches. */
  function SeparatorMatch(s: string): (n: nat)
    ensures n <= |s|
    ensures n > 0 <==> |s| > 0 && (s[0] == '\n' || s[0] == '\r')
    ensures n == 2 <==> WINDOWS_SEPARATOR <= s
    ensures n > 0 ==> IsLineSeparator(s[..n])
  {
    if UNIX_SEPARATOR <= s then |UNIX_SEPARATOR|
    else if WINDOWS_SEPARATOR <= s then |WINDOWS_SEPARATOR|
    else if MACINTOSH_SEPARATOR <= s then |MACINTOSH_SEPARATOR|
    else 0
  }

  /** Each of the three separators is matched whole: `\r\n` is one match,
      not a Macintosh separator followed by a Unix one. */
  lemma SeparatorsMatchWhole(sep: string, rest: string)
    requires IsLineSeparator(sep)
    requires sep == MACINTOSH_SEPARATOR ==> !(UNIX_SEPARATOR <= rest)
    ensures SeparatorMatch(sep + rest) == |sep|
  {
    assert (sep + rest)[..|sep|] == sep;
  }
}
