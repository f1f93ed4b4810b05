# jute commons, modelled in Dafny

This project models the pure logic inside the `jjute/commons` Java library,
which has two near-identical package trees: `io.yooksi.commons` and
`io.yooksi.jute.commons`. The library is mostly thin glue around Log4j 2, Bean
Validation and JGit. The model lifts out the decisions that glue makes and
proves what its documentation and tests promise about them:

- array reshaping (`ArrayUtils.expandArray` and `prepend`);
- the anchored regular expressions of `RegExPatterns`, written as recognisers;
- `quote`, `smartQuote`, `formatQuotient` and `normalizeEOL` of `StringUtils`;
- the backslash conversion of `UnixPath`;
- the de-duplicating `AggregateIterator` of `ClassLoaderUtil`;
- the stack scan of `ReflectionUtils.getCallerClass`;
- the appender lookups of `Log4jUtils`;
- the logger state kept by `LoggerLevels`, `AppenderType`, `AppenderData`,
  `LoggerControl` and `InitializationPackage`;
- the decision of `AdditivityFilter`;
- placeholder substitution and violation merging in `BeanValidator`;
- the argument checks of `Git.rewind`, its stash registry and
  `getLastCommitMessage`.

Each Java class becomes one module, and both package trees share one
definition. The module `JavaLang` holds the pieces of `java.lang` that the
code relies on:

- 32-bit `int` wrap-around;
- `String.equalsIgnoreCase`, `replace`, `split` and `join`;
- `Integer.valueOf` and `String.valueOf`.

Modelling choices:

- A Java array is a `seq` together with the element type's default value
  (`null`, `0` or `false`). Each primitive overload of `expandArray` and
  `prepend` is the generic function at its own default.
- A Log4j `Level` is its name and `intLevel`.
- A `LoggerConfig` is a record. Its parent chain is a finite sequence: the
  config first, then its parent, and so on.
- Mutable objects are states, and each operation maps a state to a new state.
- The stack trace, the commit log and what Log4j finds or creates are
  parameters.
- An exception the Java code throws is the `Err` case of a `Result`.

Where the code and its documentation disagree, the model follows the code.
The two bugs listed under Findings have, besides the member that follows the
code, a separately named corrected member (`...Intended`, or `FormatQuotient`
and `Substitute`). Other disagreements:

- `SIMPLE_VERSION_NUMBER` and `UNIX_NAMING_CONVENTION` are documented to match
  "the very first line only". They are compiled without `MULTILINE`, so they
  match the whole input, less at most one final line terminator.
- `StringUtils.normalizeEOL` (legacy tree) names
  `RegexPatterns.LINE_SEPARATOR`, which does not exist. The model uses
  `RegExPatterns.LINE_SEPARATORS`, the alternation of `\n`, `\r\n` and `\r`.
- `InitializationPackage.isDedicatedFileAppender` calls
  `Log4jUtils.getLogFilePath`, which does not exist. The model reads the file
  name of the appender's `FileManager`.
- The comment above the substitution loop of `processViolation` promises
  that each marked word is replaced by the attribute of that name. The loop
  does not do that when one placeholder's name is a prefix of another's (see
  Findings).

## Model

| member | source | states |
|---|---|---|
| JavaLang.Wrap32 | src/main/java/io/yooksi/commons/util/ReflectionUtils.java:153 | Java `int` addition: the result lies in the 32-bit range, differs from the true sum by a multiple of 2^32, and equals it when the sum is in range |
| JavaLang.EqualsIgnoreCaseIsEquivalence | src/main/java/io/yooksi/commons/logger/Log4jUtils.java:225 | the case-insensitive name test used by every lookup is reflexive, symmetric and transitive |
| JavaLang.ReplaceAbsent | src/main/java/io/yooksi/commons/validator/BeanValidator.java:232 | `String.replace` of a target that does not occur leaves the text unchanged and counts no occurrence |
| JavaLang.ReplaceBySelf | src/main/java/io/yooksi/commons/validator/BeanValidator.java:232 | replacing a target by itself gives back the text |
| JavaLang.ReplaceChar | src/main/java/io/yooksi/commons/bash/UnixPath.java:27 | replacing one character by another keeps the length and changes exactly the positions that held that character |
| JavaLang.Split | src/main/java/io/yooksi/commons/util/StringUtils.java:53 | splitting on a character gives at least one piece, and no piece contains the character |
| JavaLang.JoinSplit | src/main/java/io/yooksi/commons/util/StringUtils.java:53 | joining the pieces of a split with the same character gives back the text |
| JavaLang.SplitJoin | src/test/java/io/yooksi/jute/commons/RegExTests.java:49-53 | splitting a join of pieces free of the delimiter gives back exactly those pieces |
| JavaLang.SplitWithoutDelimiter | src/main/java/io/yooksi/commons/util/StringUtils.java:53 | a text without the delimiter splits into itself alone |
| JavaLang.DropTrailingEmpty | src/main/java/io/yooksi/commons/util/StringUtils.java:53 | what `String.split` keeps is a prefix of the pieces that does not end in an empty piece, and every piece dropped is empty |
| JavaLang.JoinThree | src/main/java/io/yooksi/jute/commons/logger/LoggerLevels.java:67 | `String.join` of three elements puts the delimiter between each neighbouring pair |
| JavaLang.NatToDecimal | src/main/java/io/yooksi/commons/util/StringUtils.java:51 | the decimal text of a number is non-empty, all digits, and has no leading zero |
| JavaLang.DecimalRoundTrip | src/main/java/io/yooksi/commons/util/StringUtils.java:51 | reading the decimal digits of a number back gives the number |
| JavaLang.IntToStringRoundTrip | src/main/java/io/yooksi/commons/util/StringUtils.java:51 | every integer, of any width, reads back from its `String.valueOf` text |
| JavaLang.ParseInt | src/main/java/io/yooksi/commons/util/StringUtils.java:54 | `Integer.valueOf` succeeds only on a text that starts with a digit or a sign, and only with a value in the `int` range |
| JavaLang.ParseIntRoundTrip | src/main/java/io/yooksi/commons/util/StringUtils.java:54 | `Integer.valueOf` reads back every `int` that `String.valueOf` writes |
| ArrayUtils.ExpandArray | src/main/java/io/yooksi/jute/commons/util/ArrayUtils.java:164-168 | succeeds exactly when `back` and `front` are non-negative and the total length fits an `int`. On success: the length is `\|a\| + back + front`, `a[i]` sits at `back + i`, and every other slot holds the default. `NegativeArraySizeException` exactly when the 32-bit length is negative, `IndexOutOfBoundsException` otherwise |
| ArrayUtils.ExpandArrayDecomposes | src/main/java/io/yooksi/commons/util/ArrayUtils.java:28-32 | a successful expansion is exactly `back` defaults, then the array itself, then `front` defaults: nothing is lost or reordered |
| ArrayUtils.ExpandArrayCopy | src/main/java/io/yooksi/jute/commons/util/ArrayUtils.java:166-167 | on arrays: the result is freshly allocated, holds what `ExpandArray` computes, and the argument is left unchanged |
| ArrayUtils.Prepend | src/main/java/io/yooksi/jute/commons/util/ArrayUtils.java:22-26 | succeeds exactly when the array is shorter than `Integer.MAX_VALUE`; the result is the element (`null` included) followed by the whole array |
| ArrayUtils.ExpandEmpty | src/test/java/io/yooksi/jute/commons/util/ArrayUtilsTests.java:64-65 | expanding an empty array gives exactly `back + front` defaults |
| ArrayUtils.PrependExamples | src/test/java/io/yooksi/jute/commons/util/ArrayUtilsTests.java:13-20 | `prepend(1, {2, 3})` is `{1, 2, 3}`, and `prepend(null, {true, false})` starts with `null` |
| ArrayUtils.ExpandExamples | src/test/java/io/yooksi/jute/commons/util/ArrayUtilsTests.java:38-63 | `expandArray({1, 2, 3}, 6, 11)` has length 20, with the values at 6..8 and null or 0 around them, for `Integer[]` and for `int[]` |
| RegExPatterns.ChompLineTerminator | src/main/java/io/yooksi/jute/commons/define/RegExPatterns.java:72 | the closing `$` matches before a final `\r\n` (two characters dropped), otherwise before one final line terminator (one dropped); a text not ending in a terminator is matched whole |
| RegExPatterns.ChompTerminator | src/main/java/io/yooksi/jute/commons/define/RegExPatterns.java:72 | the inverse view: a text not ending in a terminator, followed by nothing, `\r\n` or one terminator, chomps back to itself, and every text is its chomped part followed by such an ending |
| RegExPatterns.FindVersionNumber | src/main/java/io/yooksi/jute/commons/define/RegExPatterns.java:72 | `SIMPLE_VERSION_NUMBER` finds a match exactly when the input, less one final line terminator, follows the documented version rules |
| RegExPatterns.VersionRules | src/main/java/io/yooksi/jute/commons/define/RegExPatterns.java:58-67 | the pattern `\d+(?:\.\d+)*` accepts exactly the documented rules: only digits and periods, no leading or trailing period, no two periods in a row, not empty |
| RegExPatterns.VersionFromGroups | src/main/java/io/yooksi/commons/define/RegExPatterns.java:57 | any non-empty digit runs joined by single periods form an accepted version, and `split("\\.")` gives back those runs |
| RegExPatterns.VersionGroups | src/test/java/io/yooksi/jute/commons/RegExTests.java:43-45 | an accepted version is the period-join of its groups, and `split("\\.")` yields exactly those groups |
| RegExPatterns.VersionNumberAccepted | src/test/java/io/yooksi/jute/commons/RegExTests.java:31-32 | `"0"` and `"010.98"` are accepted and split into `["0"]` and `["010", "98"]` |
| RegExPatterns.VersionNumberAcceptedFourGroups | src/test/java/io/yooksi/jute/commons/RegExTests.java:34 | `"0.1.2.3"` is accepted and splits into its four groups |
| RegExPatterns.VersionNumberAcceptedFiveGroups | src/test/java/io/yooksi/jute/commons/RegExTests.java:35 | `"0.12.3344.2.1"` is accepted |
| RegExPatterns.VersionNumberSplitFiveGroups | src/test/java/io/yooksi/jute/commons/RegExTests.java:52 | `"0.12.3344.2.1"` splits into its five groups |
| RegExPatterns.VersionNumberRejected | src/test/java/io/yooksi/jute/commons/RegExTests.java:37-41 | a minus sign, a space, two periods in a row, a leading period or a `#` makes the version pattern find nothing |
| RegExPatterns.FindUnixName | src/main/java/io/yooksi/jute/commons/define/RegExPatterns.java:90 | `UNIX_NAMING_CONVENTION` finds a match exactly when the input, less one final line terminator, starts with an ASCII letter or digit and holds only `[A-Za-z0-9._-]` |
| RegExPatterns.UnixNameRules | src/main/java/io/yooksi/jute/commons/define/RegExPatterns.java:76-89 | the two-part pattern `[A-Za-z0-9]+[A-Za-z0-9._-]*` is the same as an alphanumeric first character followed by name characters |
| RegExPatterns.UnixNameStart | src/main/java/io/yooksi/commons/define/RegExPatterns.java:75 | an accepted name never begins with a hyphen, an underscore or a period |
| RegExPatterns.UnixNameExamples | src/test/java/io/yooksi/jute/commons/RegExTests.java:77-78 | `abcd`, `ab_cd`, `ab-cd` and `abc.d.ef` are accepted |
| RegExPatterns.UnixNameCounterExamples | src/test/java/io/yooksi/jute/commons/RegExTests.java:80-82 | `-abc`, `_abc`, `.-abc`, `ab$c`, ` abc` and `a bc` are rejected |
| RegExPatterns.SeparatorMatch | src/main/java/io/yooksi/jute/commons/define/RegExPatterns.java:52-54 | `LINE_SEPARATORS` matches at a position exactly when a `\n` or `\r` is there; the match is two characters exactly at a `\r\n` and is always one of the three separators |
| RegExPatterns.SeparatorsMatchWhole | src/main/java/io/yooksi/commons/define/RegExPatterns.java:37-39 | each of the Unix, Windows and Macintosh separators is matched whole, so `\r\n` is one match |
| StringUtils.Quote | src/main/java/io/yooksi/commons/util/StringUtils.java:25-28 | the text sits between two equal quotation marks, single or double as asked, and nothing else is added |
| StringUtils.SmartQuote | src/main/java/io/yooksi/commons/util/StringUtils.java:39-43 | strings are put in double quotes, numbers go through the written `formatQuotient` without quotes, and anything else (`null` included) goes through `String.valueOf` in single quotes; it throws only on a `Double` or `Float` |
| StringUtils.SmartQuoteIntended | src/main/java/io/yooksi/commons/util/StringUtils.java:39-43 | the same three cases with the corrected `formatQuotient`, so it never throws |
| StringUtils.SmartQuoteAgrees | src/main/java/io/yooksi/commons/util/StringUtils.java:39-54 | where the written `smartQuote` returns, the corrected one returns the same text; where it throws, the object is a `Double` or `Float` and the corrected one returns its text |
| StringUtils.SmartQuoteDistinguishes | src/main/java/io/yooksi/commons/util/StringUtils.java:30-38 | everything but a `Double` or `Float` is quoted without throwing; the first character tells strings, integral numbers and other objects apart; the quoted string reads back; an integral number reads back through `Integer.valueOf` when it fits; `null` becomes `'null'` |
| StringUtils.FormatQuotientAsWritten | src/main/java/io/yooksi/commons/util/StringUtils.java:49-57 | an integral number gives its decimal text; only a `Double`/`Float` text can throw, with `IndexOutOfBoundsException` or `NumberFormatException`; otherwise the result is the text or its whole part |
| StringUtils.FormatQuotient | src/main/java/io/yooksi/commons/util/StringUtils.java:45-48 | an integral number's text reads back as the number; a floating text comes back whole or as its part before the period |
| StringUtils.FormatQuotientAgrees | src/main/java/io/yooksi/commons/util/StringUtils.java:52-55 | the corrected form returns what the written form returns wherever that returns, and the unchanged text wherever that throws |
| StringUtils.FormatQuotientDropsZeroFraction | src/main/java/io/yooksi/commons/util/StringUtils.java:54 | `"1.0"` is shown as `"1"` |
| StringUtils.FormatQuotientKeepsFraction | src/main/java/io/yooksi/commons/util/StringUtils.java:54 | `"2.5"` keeps its fraction |
| StringUtils.FormatQuotientThrowsOnNaN | src/main/java/io/yooksi/commons/util/StringUtils.java:53-54 | the written form throws `IndexOutOfBoundsException` on `"NaN"`; the corrected form returns `"NaN"` |
| StringUtils.FormatQuotientThrowsOnLongFraction | src/main/java/io/yooksi/commons/util/StringUtils.java:54 | the written form throws `NumberFormatException` on a fraction of more than ten digits that does not start with `0`; the corrected form returns the text |
| StringUtils.LongNumeralOverflows | src/main/java/io/yooksi/commons/util/StringUtils.java:54 | `Integer.valueOf` rejects any numeral of more than ten digits that does not start with `0` |
| StringUtils.NormalizeEOLTerminators | src/main/java/io/yooksi/commons/util/StringUtils.java:17-19 | every `\n` and `\r` of the input is replaced, so the output holds such characters only where the platform separator does |
| StringUtils.NormalizeEOLAppend | src/main/java/io/yooksi/commons/util/StringUtils.java:18 | text that does not end in `\r` normalises independently of what follows it: no match crosses the boundary |
| StringUtils.NormalizeEOLEndings | src/main/java/io/yooksi/commons/define/LineSeparator.java:13-28 | text ending in any of the three separators normalises to the text's normal form followed by the platform separator, when the text before the separator does not end in `\r` (a `\r` followed by `\n` is one `\r\n` separator) |
| StringUtils.NormalizeEOLExample | src/test/java/io/yooksi/jute/commons/RegExTests.java:60-70 | `"Sample text"` followed by the Windows, Unix or Macintosh separator normalises identically |
| StringUtils.NormalizeEOLIdempotent | src/main/java/io/yooksi/commons/util/StringUtils.java:9-16 | with one of the three separators as the platform separator, normalising twice is normalising once |
| UnixPath.ToForwardSlashes | src/main/java/io/yooksi/commons/bash/UnixPath.java:27 | the length is kept, each backslash becomes a slash, and every other character is unchanged |
| UnixPath.Get | src/main/java/io/yooksi/commons/bash/UnixPath.java:26-41 | the stored path has no backslash and is as long as the path text |
| UnixPath.ConversionIdempotent | src/main/java/io/yooksi/commons/bash/UnixPath.java:33-35 | converting a converted path changes nothing |
| UnixPath.ConversionOnlyTouchesBackslashes | src/main/java/io/yooksi/commons/bash/UnixPath.java:52-54 | `toString` of a path without backslashes is the path; two paths convert alike exactly when they agree up to the choice of slash |
| UnixPath.ConvertsTo | src/main/java/io/yooksi/commons/bash/UnixPath.java:27 | the stored path is determined by the character-wise rule alone |
| UnixPath.ConversionExample | src/main/java/io/yooksi/commons/bash/UnixPath.java:39-41 | `C:\path\to\file` becomes `C:/path/to/file` |
| AggregateIterator.Fresh | src/main/java/io/yooksi/jute/commons/util/ClassLoaderUtil.java:77-80 | the reference de-duplication: exactly the elements not seen before, each once |
| AggregateIterator.AddEnumeration | src/main/java/io/yooksi/jute/commons/util/ClassLoaderUtil.java:88-99 | keeps the invariant. An empty enumeration changes nothing. Without a current enumeration, the new one becomes current and its first element is preloaded and marked seen. Otherwise it is queued, to be read right after the current one |
| AggregateIterator.HasNext | src/main/java/io/yooksi/jute/commons/util/ClassLoaderUtil.java:101-103 | true exactly when `next()` succeeds, and exactly when something is still to be yielded |
| AggregateIterator.Next | src/main/java/io/yooksi/jute/commons/util/ClassLoaderUtil.java:105-113 | returns the preloaded element and keeps the invariant; with nothing preloaded, `NoSuchElementException` |
| AggregateIterator.DetermineCurrent | src/main/java/io/yooksi/jute/commons/util/ClassLoaderUtil.java:115-124 | an exhausted current enumeration is replaced by the most recently queued one (or none) without changing what is pending; a non-exhausted one is kept |
| AggregateIterator.LoadNext | src/main/java/io/yooksi/jute/commons/util/ClassLoaderUtil.java:126-143 | loads the first pending element not seen before and marks it seen, or loads nothing when there is none; what stays to be loaded is the rest of the reference de-duplication |
| AggregateIterator.Remove | src/main/java/io/yooksi/jute/commons/util/ClassLoaderUtil.java:145-147 | always `UnsupportedOperationException` |
| AggregateIterator.NextYield | src/main/java/io/yooksi/jute/commons/util/ClassLoaderUtil.java:105-109 | one `next()` produces the first element still to come and leaves exactly the rest |
| AggregateIterator.YieldNoDuplicates | src/main/java/io/yooksi/jute/commons/util/ClassLoaderUtil.java:128-138 | what the iterator will still produce never repeats an element |
| AggregateIterator.Drain | src/main/java/io/yooksi/jute/commons/util/ClassLoaderUtil.java:101-113 | calling `next()` until `hasNext()` is false produces exactly the reference yield |
| AggregateIterator.Build | src/main/java/io/yooksi/jute/commons/util/ClassLoaderUtil.java:88 | adding enumerations one by one to a new iterator keeps the invariant |
| AggregateIterator.BuildUnstarted | src/main/java/io/yooksi/jute/commons/util/ClassLoaderUtil.java:90-96 | before iteration only the preloaded element is marked seen |
| AggregateIterator.AddToStream | src/main/java/io/yooksi/jute/commons/util/ClassLoaderUtil.java:89-96 | adding an enumeration adds exactly its elements to what the iterator will read |
| AggregateIterator.BuildContents | src/main/java/io/yooksi/jute/commons/util/ClassLoaderUtil.java:81-99 | an iterator built from enumerations holds the elements of every one of them and nothing else |
| AggregateIterator.AddedFirstNoDuplicates | src/main/java/io/yooksi/jute/commons/util/ClassLoaderUtil.java:78-79 | when every enumeration is added before iteration, no element is produced twice and every element of every enumeration is produced |
| AggregateIterator.ReaddAfterExhaustion | src/main/java/io/yooksi/jute/commons/util/ClassLoaderUtil.java:90-93 | once exhausted, the iterator no longer checks the seen set when an enumeration is added: re-adding `[1]` produces `1` again |
| AggregateIterator.QueueIsLastInFirstOut | src/main/java/io/yooksi/jute/commons/util/ClassLoaderUtil.java:118 | queued enumerations are read last-in first-out: `[a]`, `[b]`, `[c]` are read as `a, c, b` |
| ReflectionUtils.CallerClass | src/main/java/io/yooksi/commons/util/ReflectionUtils.java:117-139 | a negative index is `IllegalArgumentException`; the call succeeds exactly when the trace has more than `index` changes of class from frame 2 outwards; the result is the class of a frame where the class changes |
| ReflectionUtils.ChangesMembers | src/main/java/io/yooksi/commons/util/ReflectionUtils.java:159-161 | the change points listed are exactly the frames from 2 on whose class differs from the frame before |
| ReflectionUtils.ChangesIncreasing | src/main/java/io/yooksi/commons/util/ReflectionUtils.java:159 | the change points are listed innermost first, in strictly increasing order |
| ReflectionUtils.ChangeAt | src/main/java/io/yooksi/commons/util/ReflectionUtils.java:161 | every listed point is a change of class below the bound |
| ReflectionUtils.WrapDecrement | src/main/java/io/yooksi/commons/util/ReflectionUtils.java:153-163 | the 32-bit counter `index + 1`, counted down, tracks the true count even when `index` is `Integer.MAX_VALUE` |
| ReflectionUtils.GetCallerClass | src/main/java/io/yooksi/commons/util/ReflectionUtils.java:144-178 | the loop over the trace returns exactly what `CallerClass` describes, errors included |
| ReflectionUtils.FoundAt | src/main/java/io/yooksi/commons/util/ReflectionUtils.java:163-164 | the change reached after exactly `index` earlier changes is the class returned |
| ReflectionUtils.GetCallerClassDefault | src/main/java/io/yooksi/commons/util/ReflectionUtils.java:186-188 | `getCallerClass()` is `getCallerClass(1)` |
| ReflectionUtils.SameClassFrameSkipped | src/main/java/io/yooksi/commons/util/ReflectionUtils.java:161 | an extra frame of the current calling class changes no answer, so a call routed through another method of the same class finds the same caller |
| ReflectionUtils.ImmediateCaller | src/main/java/io/yooksi/commons/util/ReflectionUtils.java:122 | index 0 is the first class, outwards from frame 1, that differs from frame 1's class |
| ReflectionUtils.CallerExamples | src/test/java/io/yooksi/jute/commons/util/ReflectionUtilsTests.java:32-55 | on an illustrative trace shaped like the test's stack: index 0 is `Caller` and index 1 the test class, as the test asserts, and -1 is an illegal argument |
| Log4jModel.Appenders | src/main/java/io/yooksi/commons/logger/Log4jUtils.java:224 | the appenders a config lists are exactly those attached to it, one per attachment |
| Log4jModel.RemoveAppender | src/main/java/io/yooksi/commons/logger/LoggerControl.java:237 | detaches the appender of that name, keeps every other appender, and changes no other field |
| Log4jModel.AddAppender | src/main/java/io/yooksi/commons/logger/LoggerControl.java:238 | the appender is attached afterwards: appended at the given level when its name was absent, and nothing changes when the name was present |
| Log4jModel.ReattachAtLevel | src/main/java/io/yooksi/commons/logger/LoggerControl.java:237-238 | removing an appender and adding it back leaves it attached at the new level and the other appenders as they were |
| Log4jUtils.StandardLogFilePath | src/main/java/io/yooksi/commons/logger/Log4jUtils.java:30-32 | the path is `logs/`, then the logger name, then `.log` |
| Log4jUtils.StandardLogFilePathInjective | src/main/java/io/yooksi/commons/logger/Log4jUtils.java:31 | distinct loggers get distinct standard log files |
| Log4jUtils.Walk | src/main/java/io/yooksi/commons/logger/Log4jUtils.java:222-229 | the configs a lookup visits are a prefix of the chain: all but the last visited are additive, and the walk stops early only at a non-additive config |
| Log4jUtils.FindInChain | src/main/java/io/yooksi/commons/logger/Log4jUtils.java:222-229 | for one name: nothing exactly when no visited config has a match; otherwise a matching appender of the first visited config that has one |
| Log4jUtils.FindAlong | src/main/java/io/yooksi/commons/logger/Log4jUtils.java:221-233 | nothing is found exactly when no name has a match along the walk |
| Log4jUtils.FindAlongAt | src/main/java/io/yooksi/commons/logger/Log4jUtils.java:221-232 | the first name with a match along the walk decides, and the search returns that name's own result |
| Log4jUtils.EarlierNameWins | src/main/java/io/yooksi/commons/logger/Log4jUtils.java:230-231 | the walk restarts for every name, so a match for an earlier name beats any match for a later one, wherever along the walk it is |
| Log4jUtils.NonAdditiveStopsWalk | src/main/java/io/yooksi/commons/logger/Log4jUtils.java:228 | a non-additive config is searched alone: its parents are never read |
| Log4jUtils.AdditiveDefersToParent | src/main/java/io/yooksi/commons/logger/Log4jUtils.java:228 | an additive config with no match for any name hands the whole search to its parent |
| Log4jUtils.FindInConfiguration | src/main/java/io/yooksi/commons/logger/Log4jUtils.java:243-253 | nothing exactly when no entry matches any name; otherwise a matching entry of the earliest name that has any match |
| Log4jUtils.FindRefInChain | src/main/java/io/yooksi/commons/logger/Log4jUtils.java:266-273 | for one name: nothing exactly when no visited config has a matching reference; otherwise a matching reference paired with the first visited config that holds one |
| Log4jUtils.FindRefAlong | src/main/java/io/yooksi/commons/logger/Log4jUtils.java:265-277 | `(null, null)` exactly when no name has a reference along the walk |
| Log4jUtils.FindRefAlongAt | src/main/java/io/yooksi/commons/logger/Log4jUtils.java:261-278 | the first name with a reference along the walk decides the reference and the config returned |
| Log4jUtils.FirstLevel | src/main/java/io/yooksi/commons/logger/Log4jUtils.java:283-289 | the first level set along the visited configs, or none when none is set |
| Log4jUtils.GetApppenderLevel | src/main/java/io/yooksi/commons/logger/Log4jUtils.java:280-293 | the reference's own level when it has one; otherwise the first explicit level set along the walk; `null` exactly when neither exists, with `LoggerConfig.level` read as the explicit level |
| Log4jUtils.OwnLevelFirst | src/main/java/io/yooksi/commons/logger/Log4jUtils.java:285-286 | a config's own level wins over its parents' |
| Log4jUtils.GetAppenderProperty | src/main/java/io/yooksi/commons/logger/Log4jUtils.java:361-369 | the first property whose name equals the request ignoring case; `null` exactly when there is none |
| LoggerLevels.IndexIsPosition | src/main/java/io/yooksi/jute/commons/logger/LoggerLevels.java:23-29 | each type's field `i` is its own slot, so slots of distinct types never collide |
| LoggerLevels.ConstructorWarning | src/main/java/io/yooksi/jute/commons/logger/LoggerLevels.java:35-40 | warns about the console exactly when its level exceeds the logger's, else about the file exactly when its level does, else not at all |
| LoggerLevels.New | src/main/java/io/yooksi/jute/commons/logger/LoggerLevels.java:33-45 | the three levels are stored in their slots whatever warning is logged |
| LoggerLevels.SetLevel | src/main/java/io/yooksi/jute/commons/logger/LoggerLevels.java:50-55 | after a write the slot reads back the new level, and the other two slots are unchanged |
| LoggerLevels.SetLevelLaws | src/main/java/io/yooksi/commons/logger/LoggerLevels.java:32-43 | the last write to a slot wins, writes to different slots commute, and writing back a slot's level changes nothing |
| LoggerLevels.ToString | src/main/java/io/yooksi/jute/commons/logger/LoggerLevels.java:60-68 | `LOGGER=…`, `CONSOLE=…` and `FILE=…` with each slot's level name, in slot order, separated by `", "` |
| LoggerLevels.ToStringExample | src/main/java/io/yooksi/commons/logger/LoggerLevels.java:45-53 | levels `ALL`, `INFO`, `DEBUG` print as `LOGGER=ALL, CONSOLE=INFO, FILE=DEBUG` |
| AppenderType.PrimaryName | src/main/java/io/yooksi/jute/commons/logger/AppenderType.java:71-73 | the primary name is the first of the type's names, and it starts with `CL` |
| AppenderType.TypesAreDistinguishable | src/main/java/io/yooksi/jute/commons/logger/AppenderType.java:33-40 | `CONSOLE` and `FILE` have different slots and type names, and no name of one equals a name of the other, even ignoring case |
| AppenderType.GetLevel | src/main/java/io/yooksi/jute/commons/logger/LoggerLevels.java:47-49 | the `AppenderType` read is the read of the type's level slot |
| AppenderType.SetLevel | src/main/java/io/yooksi/jute/commons/logger/LoggerLevels.java:56-58 | the `AppenderType` write changes the type's slot and leaves the other type's slot and the logger's slot alone |
| AppenderData.New | src/main/java/io/yooksi/jute/commons/logger/AppenderData.java:65-72 | new data is `STARTED` and keeps its config, appender and type; a `null` level is recorded as `ALL` |
| AppenderData.SetLevel | src/main/java/io/yooksi/jute/commons/logger/AppenderData.java:83-85 | changes the level and nothing else |
| AppenderData.SetState | src/main/java/io/yooksi/jute/commons/logger/AppenderData.java:86-88 | changes the state and nothing else |
| AppenderData.FilteringIsOutsideRange | src/main/java/io/yooksi/jute/commons/logger/AppenderData.java:108-110 | an appender filters exactly the levels outside the range from `OFF` to its level; at `ALL` it filters no level of the `int` range |
| AppenderData.SettersAreIndependent | src/main/java/io/yooksi/commons/logger/AppenderData.java:31-36 | after `setLevel(l)` the data is at `l` and filters exactly what is above `l`; the two setters commute and `setState` never changes `isLevel` |
| AdditivityFilter.CreateFilter | src/main/java/io/yooksi/jute/commons/logger/AdditivityFilter.java:44-57 | each given attribute is kept; each `null` one takes its default: logger `""`, `OFF` to `ALL`, `DENY` on a match, `NEUTRAL` otherwise |
| AdditivityFilter.CreateFilterFor | src/main/java/io/yooksi/jute/commons/logger/AdditivityFilter.java:59-61 | the one-argument factory is the full factory with every other attribute at its default |
| AdditivityFilter.Decide | src/main/java/io/yooksi/jute/commons/logger/AdditivityFilter.java:81-84 | always `onMatch` or `onMismatch`; `onMatch` exactly for the configured logger when its level is set and in range; a logger without a level or with another name gets `onMismatch` |
| AdditivityFilter.FilterEvent | src/main/java/io/yooksi/jute/commons/logger/AdditivityFilter.java:86-171 | every `filter(Logger, Level, Marker, …)` overload decides as the logger decision does |
| AdditivityFilter.DefaultFilterDecision | src/main/java/io/yooksi/jute/commons/logger/AdditivityFilter.java:51-55 | with the defaults, the named logger is denied exactly when its level is set, and every other event is neutral |
| AdditivityFilter.EventArgumentsIgnored | src/main/java/io/yooksi/jute/commons/logger/AdditivityFilter.java:86-171 | level, marker, message and parameters never change the decision |
| LoggerControl.Create | src/main/java/io/yooksi/commons/logger/LoggerControl.java:119-121 | the logger slot is `ALL` and the console and file slots are the given levels; the found config gets the additivity and level `ALL`; no appender is registered |
| LoggerControl.RegisterAppender | src/main/java/io/yooksi/commons/logger/LoggerControl.java:156-166 | data of this control's config is stored under its type, replacing any earlier entry; any other data leaves the control unchanged |
| LoggerControl.GetAppenderData | src/main/java/io/yooksi/commons/logger/LoggerControl.java:176-178 | the registered data when the type is registered, `null` otherwise |
| LoggerControl.RegisterThenGet | src/main/java/io/yooksi/commons/logger/LoggerControl.java:160-164 | registered data reads back under its type, and registering under one type never changes what another type reads |
| LoggerControl.UpdateWithData | src/main/java/io/yooksi/commons/logger/LoggerControl.java:231-248 | the appender ends up attached at the new level, the other appenders are untouched, the data and the type's slot record the level, and the state, the other slots and the registry are unchanged |
| LoggerControl.UpdateAppender | src/main/java/io/yooksi/commons/logger/LoggerControl.java:193-206 | nothing changes when the slot's `intLevel` already equals the request or no data is registered. Otherwise the appender is reattached at the level, and the slot and the registered data record it. The other attached appenders, the other slots, the other registrations and the config's name, references, level and additivity are unchanged |
| LoggerControl.UpdateAppenderIdempotent | src/main/java/io/yooksi/commons/logger/LoggerControl.java:196 | asking for the slot's own level is a no-op, and the same request twice is the request once |
| LoggerControl.StartAppender | src/main/java/io/yooksi/commons/logger/LoggerControl.java:255-275 | an unregistered type only hands over `NoSuchElementException` and changes nothing. A registered appender is attached afterwards. If it was detached, it is appended at its recorded level and marked `STARTED`; otherwise nothing changes |
| LoggerControl.StopAppender | src/main/java/io/yooksi/commons/logger/LoggerControl.java:282-294 | an unregistered type only hands over `NoSuchElementException` and changes nothing. A registered appender is detached and marked `STOPPED`, and every other appender stays attached or detached as it was |
| LoggerControl.StopThenStart | src/main/java/io/yooksi/commons/logger/LoggerControl.java:263-288 | stopping then starting attaches the appender again at its recorded level, marks it `STARTED` and leaves the other appenders and the levels as they were |
| LoggerControl.StartIdempotent | src/main/java/io/yooksi/commons/logger/LoggerControl.java:261 | starting twice is starting once |
| InitializationPackage.Create | src/main/java/io/yooksi/commons/logger/InitializationPackage.java:94-96 | the builder's level is the control's slot for the type's level slot; layout and log file path are unset |
| InitializationPackage.ForFileAppender | src/main/java/io/yooksi/commons/logger/InitializationPackage.java:45-47 | sets the layout and the path and keeps everything else |
| InitializationPackage.Build | src/main/java/io/yooksi/commons/logger/InitializationPackage.java:51-66 | the package holds exactly what the builder holds, and its config is the control's |
| InitializationPackage.IsDedicatedFileAppender | src/main/java/io/yooksi/commons/logger/InitializationPackage.java:76-80 | false for a non-`FILE` package without reading the path. Otherwise: true exactly for a non-empty path that differs from the appender's file, `NullPointerException` exactly for a `null` path, `ClassCastException` for an appender without a file manager |
| InitializationPackage.CopyWithLayout | src/main/java/io/yooksi/commons/logger/InitializationPackage.java:86-88 | keeps control, type and path, takes the new layout, and reads the level from the control as it is now |
| InitializationPackage.CopyWithOwnLayout | src/main/java/io/yooksi/commons/logger/InitializationPackage.java:86-96 | copying with the package's own layout from an unchanged control gives back the package |
| InitializationPackage.UpdateWithPackage | src/main/java/io/yooksi/commons/logger/LoggerControl.java:218-220 | the data's appender is reattached at the package's level, and the data and the type's slot record that level |
| BeanValidator.NameRun | src/main/java/io/yooksi/commons/validator/BeanValidator.java:44-45 | the greedy group: the longest run of `[a-zA-Z0-9_-]` at the start |
| BeanValidator.KeyGroup | src/main/java/io/yooksi/commons/validator/BeanValidator.java:35-45 | a match starting at `$` captures a run of name characters that what follows cannot continue |
| BeanValidator.TokenizeSpells | src/main/java/io/yooksi/commons/validator/BeanValidator.java:226-227 | the matches and the text between them spell the message |
| BeanValidator.TokenizeWellFormed | src/main/java/io/yooksi/commons/validator/BeanValidator.java:227 | the matcher's reading never has the key in the text between matches and never stops a group before a name character |
| BeanValidator.TokenizeUnparse | src/main/java/io/yooksi/commons/validator/BeanValidator.java:227 | every well-formed reading is read back as itself, so the reading is a bijection |
| BeanValidator.TokenizeNoKey | src/main/java/io/yooksi/commons/validator/BeanValidator.java:227 | a message without `$` has no match |
| BeanValidator.Placeholders | src/main/java/io/yooksi/commons/validator/BeanValidator.java:228 | a message without `$` has no groups |
| BeanValidator.Lookup | src/main/java/io/yooksi/commons/validator/BeanValidator.java:229 | `value` stands for the invalid value; any other group stands for the attribute of that name, or `null` |
| BeanValidator.Replacement | src/main/java/io/yooksi/commons/validator/BeanValidator.java:229-231 | a missing attribute is written `'null'`; `smartQuote` throws only when the group's object is a `Double` or `Float` |
| BeanValidator.ReplacementIntended | src/main/java/io/yooksi/commons/validator/BeanValidator.java:229-231 | with the corrected `smartQuote`, a missing attribute is still written `'null'` |
| BeanValidator.ReplacementAgrees | src/main/java/io/yooksi/commons/validator/BeanValidator.java:229-231 | where the written replacement is computed, it equals the corrected one |
| BeanValidator.SubstituteAsWritten | src/main/java/io/yooksi/commons/validator/BeanValidator.java:226-233 | the loop as written leaves a message without `$` unchanged, and throws exactly when `smartQuote` throws for one of the message's groups |
| BeanValidator.Substitute | src/main/java/io/yooksi/commons/validator/BeanValidator.java:223-224 | the intended substitution leaves a message without `$` unchanged |
| BeanValidator.SubstituteRendersTokens | src/main/java/io/yooksi/commons/validator/BeanValidator.java:223-233 | the intended substitution replaces every match by its own group's text and keeps everything else |
| BeanValidator.SubstitutePieces | src/main/java/io/yooksi/commons/validator/BeanValidator.java:223-225 | a message built from text and placeholders is substituted placeholder by placeholder, each replacement where its placeholder stood |
| BeanValidator.SubstitutePlaceholderStep | src/main/java/io/yooksi/commons/validator/BeanValidator.java:228-232 | a leading placeholder becomes its own group's text and the rest is substituted on its own |
| BeanValidator.SubstituteTextStep | src/main/java/io/yooksi/commons/validator/BeanValidator.java:226-227 | a character other than `$` is copied |
| BeanValidator.SubstituteTextPrefix | src/main/java/io/yooksi/commons/validator/BeanValidator.java:226-227 | text without `$` is copied, whatever follows it |
| BeanValidator.SubstituteAgrees | src/main/java/io/yooksi/commons/validator/BeanValidator.java:223-233 | whenever the written loop returns, it returns the intended substitution, provided no group of the message is a proper prefix of another and no replacement text holds `$` |
| BeanValidator.ProcessViolation | src/main/java/io/yooksi/commons/validator/BeanValidator.java:205-242 | a non-library violation is logged as it is at `ERROR`. A library one is logged at its `level` attribute (`ERROR` when that names no level), with its placeholders replaced by the written loop; a message without `$` is never changed; it throws exactly when the violation is a library one and `smartQuote` throws for one of its groups |
| BeanValidator.ProcessViolationIntended | src/main/java/io/yooksi/commons/validator/BeanValidator.java:205-242 | the same levels, with the intended substitution and the corrected `smartQuote`; never throws |
| BeanValidator.ProcessViolationAgrees | src/main/java/io/yooksi/commons/validator/BeanValidator.java:205-242 | whenever the written `processViolation` logs, it logs what the intended one does, provided no group is a proper prefix of another and no replacement text holds `$` |
| BeanValidator.Merge | src/main/java/io/yooksi/commons/validator/BeanValidator.java:145-150 | all parent violations are kept. A child violation is added exactly when its invalid value is not among the parents' |
| BeanValidator.MergeValues | src/main/java/io/yooksi/commons/validator/BeanValidator.java:141-150 | no invalid value is lost and none is reported twice: the merged invalid values are those of both sides, and a value the parent reported comes only from the parent's violations |
| BeanValidator.MergeSame | src/main/java/io/yooksi/commons/validator/BeanValidator.java:153-155 | when parent and child report the same violations, each is processed once |
| BeanValidator.ExtendedNameTokens | src/main/java/io/yooksi/commons/validator/BeanValidator.java:226-228 | `"$g $gh"` is read as two placeholders, `g` and `gh`, around a space |
| BeanValidator.ExtendedNamePlaceholders | src/main/java/io/yooksi/commons/validator/BeanValidator.java:228 | the groups of `"$g $gh"` are `g` then `gh` |
| BeanValidator.ExtendedNameFirstReplace | src/main/java/io/yooksi/commons/validator/BeanValidator.java:232 | replacing `"$g"` in `"$g $gh"` rewrites both keys, leaving `h` behind the second replacement |
| BeanValidator.ExtendedNameAsWritten | src/main/java/io/yooksi/commons/validator/BeanValidator.java:226-233 | the written loop turns `"$g $gh"` into `g`'s text, a space, `g`'s text and `h` |
| BeanValidator.ExtendedNameIntended | src/main/java/io/yooksi/commons/validator/BeanValidator.java:223-224 | the intended substitution turns `"$g $gh"` into `g`'s text, a space and `gh`'s text |
| BeanValidator.ExtendedNameRewritten | src/main/java/io/yooksi/commons/validator/BeanValidator.java:232 | the written loop and the intended substitution differ on `"$g $gh"` whenever `g`'s text followed by `h` is not `gh`'s text |
| BeanValidator.MinMinimumExample | src/main/java/io/yooksi/commons/validator/BeanValidator.java:232 | `"$min $minimum"` with `min` = `"a"` and `minimum` = `"b"` comes out wrong as written |
| BeanValidator.BareKeyExample | src/main/java/io/yooksi/commons/validator/BeanValidator.java:232 | `"$ $value"` comes out wrong as written: the bare key takes the key of `$value` |
| Git.Rewind | src/main/java/io/yooksi/commons/git/Git.java:322-337 | negative steps are `IllegalArgumentException`; steps not below the commit count are `IndexOutOfBoundsException`; otherwise the reset targets the commit `steps` places behind the newest, in the given mode or `MIXED` |
| Git.LogAfterReset | src/main/java/io/yooksi/commons/git/Git.java:278-283 | after a reset on a linear history, the log starts at the target commit |
| Git.RewindZeroIsHead | src/main/java/io/yooksi/commons/git/Git.java:334 | rewinding 0 steps targets the newest commit, the current HEAD |
| Git.RewindComposes | src/main/java/io/yooksi/commons/git/Git.java:306-311 | on a linear history, rewinding `a` then `b` steps targets what rewinding `a + b` steps targets, and fails alike |
| Git.LastCommitMessage | src/main/java/io/yooksi/commons/git/Git.java:272-276 | the full message of the newest commit, or `""` for an empty log |
| Git.LastMessageAfterRewind | src/main/java/io/yooksi/commons/git/Git.java:274-275 | after a successful rewind, the last commit message is that of the commit the reset targeted |
| Git.RegisterStash | src/main/java/io/yooksi/commons/git/Git.java:159-163 | a `null` stash or branch is `NullPointerException` and records nothing; otherwise the stash maps to its branch, every other entry is kept, and the stash is returned |
| Git.UnregisterStash | src/main/java/io/yooksi/commons/git/Git.java:168-173 | removes that stash's entry and nothing else; warns exactly when there was none, and then the registry is unchanged |
| Git.RegisterThenUnregister | src/main/java/io/yooksi/commons/git/Git.java:159-173 | registering then unregistering restores the registry, less any earlier entry for the stash, without a warning; a second unregister warns |

## Left out

- I/O and side effects. Log output, `context.updateLoggers()`, the JGit
  commands (`log`, `reset`, `stashCreate`) and the stack trace
  (`Thread.getStackTrace`) are outside the model. Their inputs and results
  are parameters.
- Concurrency. The `synchronized` methods and maps are modelled as
  sequential state changes.
- Class resolution. `ClassUtils.getClass` in `getCallerClass` is left out,
  so the model returns class names. The `ClassNotFoundException` →
  `IllegalStateException` path is therefore not modelled.
- Floating point. `String.valueOf` of a `Double` or `Float` is an input
  text, `Floating(text)`, not computed from a value.
- `StringUtils.Number` has no case for a non-integral number that is neither
  a `Double` nor a `Float`, such as a `BigDecimal` `"1.50"`. `formatQuotient`
  returns such a number's text unchanged, which the model cannot express.
- `Level.toLevel` parsing. `BeanValidator.ProcessViolation` takes its result
  as the input `parsedLevel`.
- Annotation and reflection plumbing in `BeanValidator`: `validate`,
  `validateMethod`, `getConstructor`, `construct` and
  `AnnotationUtils.getAttributes`.
- Log4j appender creation and context plumbing:
  - `LoggerControl`'s public constructor, which reads a system property
    for the console level;
  - `withAppenders` and `getOrSetupAppender`;
  - appender filters.
  `LoggerControl.Create` takes the config Log4j finds or creates as a
  parameter.
- `AdditivityFilter.FilterEvent` covers only the `filter(Logger, Level,
  Marker, …)` overloads. The `filter(LogEvent)` override is commented out,
  so that overload is inherited from `AbstractFilter` and returns `NEUTRAL`
  whatever the logger. That is the overload Log4j calls for a filter on a
  `LoggerConfig`, an `AppenderRef` or an `Appender`, so there the decision
  does not apply.
- `HashMap` iteration order. `Log4jUtils.FindInConfiguration` takes the
  appender map as a list in that order, keyed by each appender's name.
- `Log4jModel.Appenders` lists a config's appenders in attachment order.
  `LoggerConfig.getAppenders()` returns a fresh `HashMap`, whose `values()`
  come in hash order, so "appended" in `Log4jModel.AddAppender` describes
  the model's list and not an order the program sees.
- `Log4jUtils.FindInChain` scans each config's appenders in the model's
  attachment order. When one config holds several matching appenders, the
  program returns whichever its `HashMap` yields first. The model returns
  the first attached.
- `JavaLang.EqualsIgnoreCase` folds ASCII letters only. Java's
  `String.equalsIgnoreCase` also folds other letters, for example `"É"` and
  `"é"`, so every case-insensitive lookup of `Log4jUtils` and
  `GetAppenderProperty` can miss a match Java finds on non-ASCII names.
- `Log4jUtils.GetApppenderLevel` reads `LoggerConfig.level` as the config's
  explicit level, which may be absent. In Log4j 2, `LoggerConfig.getLevel()`
  never returns `null`: it returns the explicit level, else the parent's
  `getLevel()`, and `ERROR` at the root. The Java method therefore returns
  the first config's effective level where the model walks on, and its
  `null` result does not occur. This inheritance is not modelled.
- Primitive array overloads. Each primitive overload of `expandArray` and
  `prepend` in both `ArrayUtils` classes is the generic function at the
  type's default value, so they are not written out one by one.
- `UnixPath.Get` does not model the normalisation `Paths.get` applies to a
  string. It takes the path's text after `Paths.get`.
- `Git.UnregisterStash` does not model `unregisterStash(null)`, which throws
  `NullPointerException` from `Hashtable`.
- `Git.Rewind` takes the commit list of `getAllCommits()` as given.
  `Git.LogAfterReset` and `Git.RewindComposes` assume a linear history listed
  newest first.
- `InitializationPackage.UpdateWithPackage` returns the updated data beside
  the control and leaves the control's registry alone. In Java, when the
  data object is the registered one, the registry sees the change through
  aliasing.
- `AggregateIterator.Next` models elements as non-null. The Java iterator
  uses `null` as "no lookahead", and an enumeration holding `null` would end
  iteration early.
- `AggregateIterator.AddEnumeration` assumes no enumeration object is added
  twice. The model treats enumerations as values, so it has no notion of
  the same Java object being queued twice and sharing its cursor.
- `Log4jModel.AddAppender` covers `LoggerConfig.addAppender`'s refusal of a
  name that is already attached. Every modelled caller adds only absent
  names.
- Identity. A `LoggerConfig`'s identity is its name (`isLoggerConfig`), and
  an appender's name is its key in the appender map.
- `RegExUtils.collectMatches` and the quote-inclusive split pattern are not
  part of this model.

## Findings

| source | as written | input that shows it | evidently intended | confidence | as-written member | corrected member |
|---|---|---|---|---|---|---|
| src/main/java/io/yooksi/commons/util/StringUtils.java:53-54 | `formatQuotient` splits the `Double`/`Float` text on periods and passes `segments[1]` to `Integer.valueOf` | `Double.NaN` (text `"NaN"`, no period, so `segments[1]` is out of bounds); `0.1 + 0.2` (text `"0.30000000000000004"`, a fraction too long for `int`) | drop a zero fraction and otherwise return the text unchanged, never throwing | not executed | StringUtils.FormatQuotientAsWritten (shown by StringUtils.FormatQuotientThrowsOnNaN and StringUtils.FormatQuotientThrowsOnLongFraction) | StringUtils.FormatQuotient, related by StringUtils.FormatQuotientAgrees; StringUtils.SmartQuoteIntended uses it |
| src/main/java/io/yooksi/commons/validator/BeanValidator.java:226-233 | each group `g` triggers `message.replace("$" + g, …)`, which also rewrites the start of any longer placeholder beginning with `$g` | `"$min $minimum"` with `min` = `"a"` and `minimum` = `"b"` logs the quoted `a` twice followed by `imum`, and the quoted `b` never appears; in `"$ $value"` the bare key's `'null'` replaces both keys, leaving `'null' 'null'value` | each marked word is replaced by its own attribute's value, as the comment at lines 223-224 says | not executed | BeanValidator.SubstituteAsWritten (shown by BeanValidator.ExtendedNameRewritten, BeanValidator.MinMinimumExample and BeanValidator.BareKeyExample) | BeanValidator.Substitute, proved by BeanValidator.SubstitutePieces and BeanValidator.ExtendedNameIntended, related by BeanValidator.SubstituteAgrees; BeanValidator.ProcessViolationIntended uses it |
