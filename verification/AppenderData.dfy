/** `AppenderData`: what a `LoggerControl` records about one of its
    appenders: the `LoggerConfig` it belongs to, the appender, its type, the
    state it was last put in and its assigned level.

    A `LoggerConfig` is identified by its name, which is its key in the
    Log4j `Configuration`. */
module AppenderData {

  import opened Wrappers
  import opened Log4jModel
  import AT = AppenderType

  /** The two `LifeCycle.State` values the library assigns. */
  datatype State = STARTED | STOPPED

  datatype AppenderData = AppenderData(
    loggerConfig: string,
    appender: Appender,
    kind: AT.AppenderType,
    state: State,
    level: Level)

  /** The constructor: new data is `STARTED`, and a `null` level is recorded
      as `ALL`. */
  function New(loggerConfig: string, appender: Appender, kind: AT.AppenderType, level: Option<Level>): (d: AppenderData)
    ensures d.loggerConfig == loggerConfig && d.appender == appender && d.kind == kind
    ensures d.state == STARTED
    ensures level.Some? ==> d.level == level.value
    ensures level.None? ==> d.level == ALL
  {
    AppenderData(loggerConfig, appender, kind, STARTED, level.GetOr(ALL))
  }

  /** `setLevel(level)` changes the level and nothing else. */
  function SetLevel(d: AppenderData, l: Level): (r: AppenderData)
    ensures r.level == l
    ensures r.loggerConfig == d.loggerConfig && r.appender == d.appender && r.kind == d.kind && r.state == d.state
  {
    d.(level := l)
  }

  /** `setState(state)` changes the state and nothing else. */
  function SetState(d: AppenderData, s: State): (r: AppenderData)
    ensures r.state == s
    ensures r.loggerConfig == d.loggerConfig && r.appender == d.appender && r.kind == d.kind && r.level == d.level
  {
    d.(state := s)
  }

  /** `isFiltering(level)`: events of that level are more verbose than the
      recorded level, so the appender drops them. */
  predicate IsFiltering(d: AppenderData, l: Level) {
    l.intLevel > d.level.intLevel
  }

  /** `isLevel(level)` */
  predicate IsLevel(d: AppenderData, l: Level) {
    l == d.level
  }

  /** `isLoggerConfig(config)` */
  predicate IsLoggerConfig(d: AppenderData, c: LoggerConfig) {
    c.name == d.loggerConfig
  }

  /** An appender filters exactly the levels outside the range from `OFF` up
      to its recorded level; data made with no level (so `ALL`) filters no
      level of the `int` range. */
  lemma FilteringIsOutsideRange(d: AppenderData, l: Level)
    requires l.intLevel >= OFF.intLevel
    ensures IsFiltering(d, l) <==> !IsInRange(l, OFF, d.level)
    ensures d.level == ALL && l.intLevel <= ALL.intLevel ==> !IsFiltering(d, l)
  {
  }

  /** After `setLevel(l)` the data is at level `l` and filters exactly what
      is more verbose than `l`; `setState` does not touch either. */
  lemma SettersAreIndependent(d: AppenderData, l: Level, s: State, m: Level)
    ensures IsLevel(SetLevel(d, l), l)
    ensures IsFiltering(SetLevel(d, l), m) <==> m.intLevel > l.intLevel
    ensures SetState(SetLevel(d, l), s) == SetLevel(SetState(d, s), l)
    ensures IsLevel(SetState(d, s), m) <==> IsLevel(d, m)
  {
  }
}
