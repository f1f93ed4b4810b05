/** The parts of Log4j 2 that the logger helpers read and change, as plain
    records: levels, appenders, appender references and `LoggerConfig`s.
    These are the library's types, not the repository's; only the behaviour
    the repository relies on is written down. */
module Log4jModel {

  import opened Wrappers
  import opened JavaLang

  /** `org.apache.logging.log4j.Level`: its name and its `intLevel`. A smaller
      `intLevel` is a more severe level; `OFF` is the smallest and `ALL` the
      largest. */
  datatype Level = Level(name: string, intLevel: int)

  const OFF: Level := Level("OFF", 0)
  const FATAL: Level := Level("FATAL", 100)
  const ERROR: Level := Level("ERROR", 200)
  const WARN: Level := Level("WARN", 300)
  const INFO: Level := Level("INFO", 400)
  const DEBUG: Level := Level("DEBUG", 500)
  const TRACE: Level := Level("TRACE", 600)
  const ALL: Level := Level("ALL", INT_MAX)

  /** `Level.isInRange(minLevel, maxLevel)`: the `intLevel` lies between those
      of the two bounds, both included. */
  predicate IsInRange(l: Level, minLevel: Level, maxLevel: Level) {
    minLevel.intLevel <= l.intLevel <= maxLevel.intLevel
  }

  /** A configuration `Property`: a name and a value. */
  datatype Property = Property(name: string, value: string)

  /** An `Appender`: its name, the names of every class its runtime class is
      assignable to (so `clazz.isAssignableFrom(appender.getClass())` is
      membership), its properties, and the file name of its manager when
      that manager is a `FileManager`. */
  datatype Appender = Appender(name: string, classes: set<string>, properties: seq<Property>, fileName: Option<string>)

  /** The class of every appender. */
  const APPENDER_CLASS: string := "Appender"
  /** The class of appenders that write to a stream, file appenders among them. */
  const OUTPUT_STREAM_APPENDER_CLASS: string := "AbstractOutputStreamAppender"

  /** An `AppenderControl` of a `LoggerConfig`: the appender and the level it
      was attached with (`null` meaning no threshold of its own). */
  datatype Attached = Attached(appender: Appender, level: Option<Level>)

  /** An `AppenderRef`: the name of the appender it refers to and an optional
      level. */
  datatype AppenderRef = AppenderRef(ref: string, level: Option<Level>)

  /** A `LoggerConfig`: its name, its attached appenders in the order
      `getAppenders()` lists them, its appender references, its level (which
      may be unset) and its additivity flag. Its parent is not a field: a
      parent chain is a sequence in which each config is followed by its
      parent. */
  datatype LoggerConfig = LoggerConfig(
    name: string,
    attached: seq<Attached>,
    refs: seq<AppenderRef>,
    level: Option<Level>,
    additive: bool)

  /** `getAppenders().values()` */
  function Appenders(c: LoggerConfig): (r: seq<Appender>)
    ensures |r| == |c.attached|
    ensures forall i :: 0 <= i < |r| ==> r[i] == c.attached[i].appender
  {
    seq(|c.attached|, i requires 0 <= i < |c.attached| => c.attached[i].appender)
  }

  /** `getAppenders().containsKey(name)`: the map is keyed by the exact name. */
  predicate HasAppender(c: LoggerConfig, name: string) {
    exists i :: 0 <= i < |c.attached| && c.attached[i].appender.name == name
  }

  /** The attached appenders without the one called `name`. */
  function Without(xs: seq<Attached>, name: string): (r: seq<Attached>)
    ensures forall x :: x in r <==> x in xs && x.appender.name != name
    ensures |r| <= |xs|
    decreases |xs|
  {
    if |xs| == 0 then []
    else (if xs[0].appender.name == name then [] else [xs[0]]) + Without(xs[1..], name)
  }

  /** `LoggerConfig.removeAppender(name)`: detaches the appender of that name
      and leaves the others, in order, and every other field alone. */
  function RemoveAppender(c: LoggerConfig, name: string): (r: LoggerConfig)
    ensures !HasAppender(r, name)
    ensures forall n :: n != name ==> (HasAppender(r, n) <==> HasAppender(c, n))
    ensures r.name == c.name && r.refs == c.refs && r.level == c.level && r.additive == c.additive
  {
    var r := c.(attached := Without(c.attached, name));
    assert forall i :: 0 <= i < |c.attached| && c.attached[i].appender.name != name ==>
      c.attached[i] in r.attached;
    r
  }

  /** `LoggerConfig.addAppender(appender, level, filter)`: attaches the
      appender at the given level, unless an appender of that name is already
      attached, in which case nothing changes. The filter is not modelled. */
  function AddAppender(c: LoggerConfig, a: Appender, level: Option<Level>): (r: LoggerConfig)
    ensures HasAppender(r, a.name)
    ensures HasAppender(c, a.name) ==> r == c
    ensures !HasAppender(c, a.name) ==> r.attached == c.attached + [Attached(a, level)]
    ensures r.name == c.name && r.refs == c.refs && r.level == c.level && r.additive == c.additive
  {
    if HasAppender(c, a.name) then c
    else
      var r := c.(attached := c.attached + [Attached(a, level)]);
      assert r.attached[|c.attached|].appender.name == a.name;
      r
  }

  /** The level an appender of the given name is attached with, if it is
      among the attached appenders `xs`. */
  function AttachedLevel(xs: seq<Attached>, name: string): (r: Option<Option<Level>>)
    ensures r.Some? <==> exists i :: 0 <= i < |xs| && xs[i].appender.name == name
    ensures r.Some? ==> exists i :: 0 <= i < |xs| && xs[i].appender.name == name && xs[i].level == r.value
    decreases |xs|
  {
    if |xs| == 0 then None
    else if xs[0].appender.name == name then Some(xs[0].level)
    else
      assert forall i :: 1 <= i < |xs| ==> xs[i] == xs[1..][i - 1];
      AttachedLevel(xs[1..], name)
  }

  /** Removing an appender and attaching it again leaves it attached at the
      new level, and leaves the other appenders where they were. */
  lemma ReattachAtLevel(c: LoggerConfig, a: Appender, level: Option<Level>)
    ensures var r := AddAppender(RemoveAppender(c, a.name), a, level);
            && AttachedLevel(r.attached, a.name) == Some(level)
            && RemoveAppender(r, a.name) == RemoveAppender(c, a.name)
  {
    var removed := RemoveAppender(c, a.name);
    var r := AddAppender(removed, a, level);
    assert r.attached == removed.attached + [Attached(a, level)];
    AttachedLevelLast(removed.attached, a, level);
    WithoutAppended(removed.attached, Attached(a, level), a.name);
    WithoutAbsent(removed.attached, a.name);
  }

  lemma {:induction false} AttachedLevelLast(xs: seq<Attached>, a: Appender, level: Option<Level>)
    requires forall x :: x in xs ==> x.appender.name != a.name
    ensures AttachedLevel(xs + [Attached(a, level)], a.name) == Some(level)
    decreases |xs|
  {
    if |xs| > 0 {
      assert (xs + [Attached(a, level)])[1..] == xs[1..] + [Attached(a, level)];
      AttachedLevelLast(xs[1..], a, level);
    }
  }

  lemma {:induction false} WithoutAppended(xs: seq<Attached>, x: Attached, name: string)
    requires x.appender.name == name
    ensures Without(xs + [x], name) == Without(xs, name)
    decreases |xs|
  {
    if |xs| == 0 {
      assert Without([x], name) == [] + Without([], name);
    } else {
      assert (xs + [x])[1..] == xs[1..] + [x];
      WithoutAppended(xs[1..], x, name);
    }
  }

  lemma {:induction false} WithoutAbsent(xs: seq<Attached>, name: string)
    requires forall x :: x in xs ==> x.appender.name != name
    ensures Without(xs, name) == xs
    decreases |xs|
  {
    if |xs| > 0 {
      WithoutAbsent(xs[1..], name);
    }
  }
}
