/** The lookups of `Log4jUtils`: the standard log file path, appender and
    appender-reference searches along a `LoggerConfig`'s parent chain, the
    level an appender reference resolves to, and property lookup.

    A parent chain is a sequence of configs in which each one is followed by
    its parent; the searches start at its first element. */
module Log4jUtils {

  import opened Wrappers
  import opened JavaLang
  import opened Log4jModel

  /** `getStandardLogFilePath(logger)`: `logs/<logger>.log`. */
  function StandardLogFilePath(logger: string): (path: string)
    ensures |path| == |logger| + 9
    ensures path[..5] == "logs/" && path[|path| - 4..] == ".log"
    ensures path[5..|path| - 4] == logger
  {
    "logs/" + logger + ".log"
  }

  /** Distinct loggers get distinct standard log files. */
  lemma StandardLogFilePathInjective(a: string, b: string)
    ensures StandardLogFilePath(a) == StandardLogFilePath(b) ==> a == b
  {
    if StandardLogFilePath(a) == StandardLogFilePath(b) {
      var pa, pb := StandardLogFilePath(a), StandardLogFilePath(b);
      assert a == pa[5..|pa| - 4] == pb[5..|pb| - 4] == b;
    }
  }

  /** The configs the lookup loops visit: the first config of the chain, then
      its parent while the config just visited is additive. */
  function Walk(chain: seq<LoggerConfig>): (visited: seq<LoggerConfig>)
    ensures |visited| <= |chain| && visited == chain[..|visited|]
    ensures |chain| > 0 ==> |visited| > 0
    ensures forall i :: 0 <= i < |visited| - 1 ==> visited[i].additive
    ensures |visited| < |chain| ==> !visited[|visited| - 1].additive
    decreases |chain|
  {
    if |chain| == 0 then []
    else if !chain[0].additive then [chain[0]]
    else [chain[0]] + Walk(chain[1..])
  }

  /** The first element of `xs` that satisfies `p`. */
  function FirstWhere<T(==)>(xs: seq<T>, p: T -> bool): (r: Option<T>)
    ensures r.None? <==> forall i :: 0 <= i < |xs| ==> !p(xs[i])
    ensures r.Some? ==> exists i :: 0 <= i < |xs| && xs[i] == r.value && p(xs[i])
                                    && forall j :: 0 <= j < i ==> !p(xs[j])
    decreases |xs|
  {
    if |xs| == 0 then None
    else if p(xs[0]) then Some(xs[0])
    else
      var r := FirstWhere(xs[1..], p);
      assert forall i :: 1 <= i < |xs| ==> xs[i] == xs[1..][i - 1];
      if r.Some? then
        var i :| 0 <= i < |xs[1..]| && xs[1..][i] == r.value && p(xs[1..][i])
                 && forall j :: 0 <= j < i ==> !p(xs[1..][j]);
        assert xs[i + 1] == r.value;
        r
      else r
  }

  // ---------------------------------------------------------------------------
  // findAppender

  /** The appender test of both `findAppender` searches: the name equals
      `name` ignoring case and the appender is an instance of `clazz`. */
  predicate Matches(a: Appender, name: string, clazz: string) {
    EqualsIgnoreCase(a.name, name) && clazz in a.classes
  }

  predicate HasMatch(c: LoggerConfig, name: string, clazz: string) {
    exists i :: 0 <= i < |c.attached| && Matches(c.attached[i].appender, name, clazz)
  }

  /** Some config of `visited` has a matching appender. */
  predicate MatchAlong(visited: seq<LoggerConfig>, name: string, clazz: string) {
    exists k :: 0 <= k < |visited| && HasMatch(visited[k], name, clazz)
  }

  /** The `while` loop for one name: the first matching appender of the first
      visited config that has one. */
  function FindInChain(visited: seq<LoggerConfig>, name: string, clazz: string): (r: Option<Appender>)
    ensures r.None? <==> !MatchAlong(visited, name, clazz)
    ensures r.Some? ==> Matches(r.value, name, clazz)
    ensures r.Some? ==> exists k :: 0 <= k < |visited| && r.value in Appenders(visited[k])
                                    && forall j :: 0 <= j < k ==> !HasMatch(visited[j], name, clazz)
    decreases |visited|
  {
    if |visited| == 0 then None
    else
      var here := FirstWhere(Appenders(visited[0]), a => Matches(a, name, clazz));
      if here.Some? then here
      else
        assert !HasMatch(visited[0], name, clazz);
        assert forall k :: 1 <= k < |visited| ==> visited[k] == visited[1..][k - 1];
        var r := FindInChain(visited[1..], name, clazz);
        if r.Some? then
          var k :| 0 <= k < |visited[1..]| && r.value in Appenders(visited[1..][k])
                   && forall j :: 0 <= j < k ==> !HasMatch(visited[1..][j], name, clazz);
          assert r.value in Appenders(visited[k + 1]);
          r
        else r
  }

  /** The `for` loop over the names, each searched along the same visited
      configs. */
  function FindAlong(names: seq<string>, visited: seq<LoggerConfig>, clazz: string): (r: Option<Appender>)
    ensures r.None? <==> forall i :: 0 <= i < |names| ==> !MatchAlong(visited, names[i], clazz)
    decreases |names|
  {
    if |names| == 0 then None
    else
      var found := FindInChain(visited, names[0], clazz);
      if found.Some? then found
      else
        assert forall i :: 1 <= i < |names| ==> names[i] == names[1..][i - 1];
        FindAlong(names[1..], visited, clazz)
  }

  /** The first name with a match along the walk decides: the search returns
      what that name's own search returns. */
  lemma {:induction false} FindAlongAt(names: seq<string>, visited: seq<LoggerConfig>, clazz: string, i: nat)
    requires i < |names| && MatchAlong(visited, names[i], clazz)
    requires forall j :: 0 <= j < i ==> !MatchAlong(visited, names[j], clazz)
    ensures FindAlong(names, visited, clazz) == FindInChain(visited, names[i], clazz)
    decreases i
  {
    if i > 0 {
      assert !MatchAlong(visited, names[0], clazz);
      assert names[1..][i - 1] == names[i];
      assert forall j :: 0 <= j < i - 1 ==> names[1..][j] == names[j + 1];
      FindAlongAt(names[1..], visited, clazz, i - 1);
    }
  }

  /** `findAppender(names, loggerConfig, clazz)`: the names are tried in
      order, each with a fresh walk from the given config. The overloads
      without a class search for `Appender`, the `findFileAppender` ones for
      `AbstractOutputStreamAppender`. */
  function FindAppender(names: seq<string>, chain: seq<LoggerConfig>, clazz: string): Option<Appender> {
    FindAlong(names, Walk(chain), clazz)
  }

  /** A non-additive config is searched alone: its parents are never read. */
  lemma NonAdditiveStopsWalk(names: seq<string>, chain: seq<LoggerConfig>, clazz: string)
    requires |chain| > 0 && !chain[0].additive
    ensures FindAppender(names, chain, clazz) == FindAppender(names, [chain[0]], clazz)
  {
    assert Walk(chain) == Walk([chain[0]]);
  }

  /** An additive config with no matching appender for any of the names
      hands the whole search to its parent. */
  lemma {:induction false} AdditiveDefersToParent(names: seq<string>, chain: seq<LoggerConfig>, clazz: string)
    requires |chain| > 1 && chain[0].additive
    requires forall i :: 0 <= i < |names| ==> !HasMatch(chain[0], names[i], clazz)
    ensures FindAppender(names, chain, clazz) == FindAppender(names, chain[1..], clazz)
    decreases |names|
  {
    if |names| > 0 {
      FindInChainSkipsFirst(chain, names[0], clazz);
      AdditiveDefersToParent(names[1..], chain, clazz);
    }
  }

  lemma FindInChainSkipsFirst(chain: seq<LoggerConfig>, name: string, clazz: string)
    requires |chain| > 1 && chain[0].additive && !HasMatch(chain[0], name, clazz)
    ensures FindInChain(Walk(chain), name, clazz) == FindInChain(Walk(chain[1..]), name, clazz)
  {
    assert Walk(chain)[1..] == Walk(chain[1..]);
  }

  /** An earlier name wins over a later one wherever along the walk their
      matches are. */
  lemma EarlierNameWins(names: seq<string>, chain: seq<LoggerConfig>, clazz: string, i: nat)
    requires i < |names| && MatchAlong(Walk(chain), names[i], clazz)
    requires forall j :: 0 <= j < i ==> !MatchAlong(Walk(chain), names[j], clazz)
    ensures FindAppender(names, chain, clazz).Some?
    ensures Matches(FindAppender(names, chain, clazz).value, names[i], clazz)
  {
    FindAlongAt(names, Walk(chain), clazz, i);
  }

  /** `findAppender(names, config, clazz)` over a `Configuration`'s appender
      map, listed in its iteration order: the first name with any match
      decides, and that name's first matching entry is returned. */
  function FindInConfiguration(names: seq<string>, appenders: seq<Appender>, clazz: string): (r: Option<Appender>)
    ensures r.None? <==> forall i, k :: 0 <= i < |names| && 0 <= k < |appenders| ==> !Matches(appenders[k], names[i], clazz)
    ensures r.Some? ==> r.value in appenders
    ensures r.Some? ==> exists i :: 0 <= i < |names| && Matches(r.value, names[i], clazz)
                                    && forall j, k :: 0 <= j < i && 0 <= k < |appenders| ==> !Matches(appenders[k], names[j], clazz)
    decreases |names|
  {
    if |names| == 0 then None
    else
      var found := FirstWhere(appenders, a => Matches(a, names[0], clazz));
      if found.Some? then found
      else
        assert forall i :: 1 <= i < |names| ==> names[i] == names[1..][i - 1];
        var r := FindInConfiguration(names[1..], appenders, clazz);
        if r.Some? then
          var i :| 0 <= i < |names[1..]| && Matches(r.value, names[1..][i], clazz)
                   && forall j, k :: 0 <= j < i && 0 <= k < |appenders| ==> !Matches(appenders[k], names[1..][j], clazz);
          assert Matches(r.value, names[i + 1], clazz);
          r
        else r
  }

  // ---------------------------------------------------------------------------
  // findAppenderRef and getApppenderLevel

  predicate RefMatches(r: AppenderRef, name: string) {
    EqualsIgnoreCase(r.ref, name)
  }

  predicate HasRef(c: LoggerConfig, name: string) {
    exists i :: 0 <= i < |c.refs| && RefMatches(c.refs[i], name)
  }

  /** Some config of `visited` has a matching reference. */
  predicate RefAlong(visited: seq<LoggerConfig>, name: string) {
    exists k :: 0 <= k < |visited| && HasRef(visited[k], name)
  }

  /** The `while` loop for one reference name: the matching reference of the
      first visited config that has one, paired with that config. */
  function FindRefInChain(visited: seq<LoggerConfig>, name: string): (r: Option<(AppenderRef, LoggerConfig)>)
    ensures r.None? <==> !RefAlong(visited, name)
    ensures r.Some? ==> RefMatches(r.value.0, name) && r.value.0 in r.value.1.refs
    ensures r.Some? ==> exists k :: 0 <= k < |visited| && visited[k] == r.value.1
                                    && forall j :: 0 <= j < k ==> !HasRef(visited[j], name)
    decreases |visited|
  {
    if |visited| == 0 then None
    else
      var here := FirstWhere(visited[0].refs, ref => RefMatches(ref, name));
      if here.Some? then Some((here.value, visited[0]))
      else
        assert !HasRef(visited[0], name);
        assert forall k :: 1 <= k < |visited| ==> visited[k] == visited[1..][k - 1];
        var r := FindRefInChain(visited[1..], name);
        if r.Some? then
          var k :| 0 <= k < |visited[1..]| && visited[1..][k] == r.value.1
                   && forall j :: 0 <= j < k ==> !HasRef(visited[1..][j], name);
          assert visited[k + 1] == r.value.1;
          r
        else r
  }

  /** The `for` loop over the reference names, each searched along the same
      visited configs. */
  function FindRefAlong(names: seq<string>, visited: seq<LoggerConfig>): (r: Option<(AppenderRef, LoggerConfig)>)
    ensures r.None? <==> forall i :: 0 <= i < |names| ==> !RefAlong(visited, names[i])
    decreases |names|
  {
    if |names| == 0 then None
    else
      var found := FindRefInChain(visited, names[0]);
      if found.Some? then found
      else
        assert forall i :: 1 <= i < |names| ==> names[i] == names[1..][i - 1];
        FindRefAlong(names[1..], visited)
  }

  /** The first reference name with a match along the walk decides: the
      search returns that name's reference and the config it is in. */
  lemma {:induction false} FindRefAlongAt(names: seq<string>, visited: seq<LoggerConfig>, i: nat)
    requires i < |names| && RefAlong(visited, names[i])
    requires forall j :: 0 <= j < i ==> !RefAlong(visited, names[j])
    ensures FindRefAlong(names, visited) == FindRefInChain(visited, names[i])
    decreases i
  {
    if i > 0 {
      assert !RefAlong(visited, names[0]);
      assert names[1..][i - 1] == names[i];
      assert forall j :: 0 <= j < i - 1 ==> names[1..][j] == names[j + 1];
      FindRefAlongAt(names[1..], visited, i - 1);
    }
  }

  /** `findAppenderRef(refs, loggerConfig)`: the reference and the config it
      was found in, or `(null, null)` as `None`. */
  function FindAppenderRef(names: seq<string>, chain: seq<LoggerConfig>): Option<(AppenderRef, LoggerConfig)> {
    FindRefAlong(names, Walk(chain))
  }

  /** The first level set along the visited configs. */
  function FirstLevel(visited: seq<LoggerConfig>): (r: Option<Level>)
    ensures r.None? <==> forall k :: 0 <= k < |visited| ==> visited[k].level.None?
    ensures r.Some? ==> exists k :: 0 <= k < |visited| && visited[k].level == r
                                    && forall j :: 0 <= j < k ==> visited[j].level.None?
    decreases |visited|
  {
    if |visited| == 0 then None
    else if visited[0].level.Some? then visited[0].level
    else
      assert forall k :: 1 <= k < |visited| ==> visited[k] == visited[1..][k - 1];
      var r := FirstLevel(visited[1..]);
      if r.Some? then
        var k :| 0 <= k < |visited[1..]| && visited[1..][k].level == r
                 && forall j :: 0 <= j < k ==> visited[1..][j].level.None?;
        assert visited[k + 1].level == r;
        r
      else r
  }

  /** `getApppenderLevel(ref, loggerConfig)`: the reference's own level when
      it has one, otherwise the first level set along the walk from the
      config, otherwise `null`. */
  function GetApppenderLevel(ref: AppenderRef, chain: seq<LoggerConfig>): (r: Option<Level>)
    ensures ref.level.Some? ==> r == ref.level
    ensures ref.level.None? && r.Some? ==> exists k :: 0 <= k < |Walk(chain)| && Walk(chain)[k].level == r
                                                        && forall j :: 0 <= j < k ==> Walk(chain)[j].level.None?
    ensures r.None? <==> ref.level.None? && forall k :: 0 <= k < |Walk(chain)| ==> Walk(chain)[k].level.None?
  {
    if ref.level.Some? then ref.level else FirstLevel(Walk(chain))
  }

  /** A config's own level, when set, is what an appender reference without
      a level resolves to there. */
  lemma OwnLevelFirst(ref: AppenderRef, chain: seq<LoggerConfig>)
    requires ref.level.None? && |chain| > 0 && chain[0].level.Some?
    ensures GetApppenderLevel(ref, chain) == chain[0].level
  {
  }

  // ---------------------------------------------------------------------------
  // getAppenderProperty

  /** `getAppenderProperty(appender, property)`: the first property whose name
      equals `property` ignoring case, or `null`. */
  function GetAppenderProperty(a: Appender, property: string): (r: Option<Property>)
    ensures r.None? <==> forall i :: 0 <= i < |a.properties| ==> !EqualsIgnoreCase(a.properties[i].name, property)
    ensures r.Some? ==> r.value in a.properties && EqualsIgnoreCase(r.value.name, property)
    ensures r.Some? ==> exists i :: 0 <= i < |a.properties| && a.properties[i] == r.value
                                    && forall j :: 0 <= j < i ==> !EqualsIgnoreCase(a.properties[j].name, property)
  {
    FirstWhere(a.properties, (p: Property) => EqualsIgnoreCase(p.name, property))
  }
}
