/** `AdditivityFilter`: a Log4j filter that decides on the logger alone,
    letting one logger suppress what an additive logger would otherwise
    print twice. */
module AdditivityFilter {

  import opened Wrappers
  import opened Log4jModel

  /** `Filter.Result` */
  datatype FilterResult = ACCEPT | NEUTRAL | DENY

  datatype Filter = Filter(
    logger: string,
    minLevel: Level,
    maxLevel: Level,
    onMatch: FilterResult,
    onMismatch: FilterResult)

  /** The part of a `Logger` the filter reads: its name and its level, which
      may be `null`. */
  datatype LoggerView = LoggerView(name: string, level: Option<Level>)

  /** `createFilter(logger, minLevel, maxLevel, onMatch, onMismatch)`: each
      `null` attribute takes its default: logger `""`, `OFF` to `ALL`,
      `DENY` on a match and `NEUTRAL` otherwise. */
  function CreateFilter(
    logger: Option<string>,
    minLevel: Option<Level>,
    maxLevel: Option<Level>,
    onMatch: Option<FilterResult>,
    onMismatch: Option<FilterResult>): (f: Filter)
    ensures logger.Some? ==> f.logger == logger.value
    ensures logger.None? ==> f.logger == ""
    ensures f.minLevel == (if minLevel.Some? then minLevel.value else OFF)
    ensures f.maxLevel == (if maxLevel.Some? then maxLevel.value else ALL)
    ensures f.onMatch == (if onMatch.Some? then onMatch.value else DENY)
    ensures f.onMismatch == (if onMismatch.Some? then onMismatch.value else NEUTRAL)
  {
    Filter(logger.GetOr(""), minLevel.GetOr(OFF), maxLevel.GetOr(ALL), onMatch.GetOr(DENY), onMismatch.GetOr(NEUTRAL))
  }

  /** `createFilter(logger)`: every other attribute at its default. */
  function CreateFilterFor(logger: string): (f: Filter)
    ensures f == Filter(logger, OFF, ALL, DENY, NEUTRAL)
  {
    CreateFilter(Some(logger), None, None, None, None)
  }

  /** The private `filter(Logger)`: `onMatch` for the configured logger when
      its level is set and within `[minLevel, maxLevel]`, `onMismatch` for
      every other logger. */
  function Decide(f: Filter, logger: LoggerView): (r: FilterResult)
    ensures r == f.onMatch || r == f.onMismatch
    ensures logger.level.None? ==> r == f.onMismatch
    ensures logger.name != f.logger ==> r == f.onMismatch
    ensures f.onMatch != f.onMismatch ==>
              (r == f.onMatch <==> logger.name == f.logger && logger.level.Some?
                                   && IsInRange(logger.level.value, f.minLevel, f.maxLevel))
  {
    if logger.name == f.logger && logger.level.Some? && IsInRange(logger.level.value, f.minLevel, f.maxLevel)
    then f.onMatch
    else f.onMismatch
  }

  /** The arguments of an event-time `filter` call beyond the logger:
      event level, marker, message and parameters, none of which the filter
      reads. */
  datatype EventArgs = EventArgs(level: Level, marker: Option<string>, message: string, params: seq<string>)

  /** Every public `filter(logger, level, marker, msg, ...)` overload. */
  function FilterEvent(f: Filter, logger: LoggerView, args: EventArgs): (r: FilterResult)
    ensures r == f.onMatch || r == f.onMismatch
    ensures f.onMatch != f.onMismatch ==>
              (r == f.onMatch <==> logger.name == f.logger && logger.level.Some?
                                   && IsInRange(logger.level.value, f.minLevel, f.maxLevel))
  {
    Decide(f, logger)
  }

  /** With the defaults, the filter denies every event of the named logger
      once its level is set to a level of the `int` range from `OFF`, and is
      neutral on everything else. */
  lemma DefaultFilterDecision(name: string, logger: LoggerView)
    requires logger.level.Some? ==> 0 <= logger.level.value.intLevel <= ALL.intLevel
    ensures Decide(CreateFilterFor(name), logger) == DENY <==> logger.name == name && logger.level.Some?
    ensures Decide(CreateFilterFor(name), logger) != DENY ==> Decide(CreateFilterFor(name), logger) == NEUTRAL
  {
  }

  /** The decision does not depend on the event: two calls for the same
      logger agree whatever their other arguments. */
  lemma EventArgumentsIgnored(f: Filter, logger: LoggerView, a: EventArgs, b: EventArgs)
    ensures FilterEvent(f, logger, a) == FilterEvent(f, logger, b)
  {
  }
}
