/** `LoggerLevels`: the three threshold levels a `LoggerControl` keeps, one
    for the `LoggerConfig` and one for each appender type, stored in an
    array indexed by `LoggerLevels.Type`. */
module LoggerLevels {

  import opened Wrappers
  import opened JavaLang
  import opened Log4jModel

  /** `LoggerLevels.Type`, in declaration order. */
  datatype Type = LOGGER | CONSOLE | FILE

  /** The array slot of each type: its field `i`. */
  function Index(t: Type): (i: nat)
    ensures i < 3
  {
    match t
    case LOGGER => 0
    case CONSOLE => 1
    case FILE => 2
  }

  /** `Type.name()` */
  function TypeName(t: Type): string {
    match t
    case LOGGER => "LOGGER"
    case CONSOLE => "CONSOLE"
    case FILE => "FILE"
  }

  /** `Type.values()` */
  const TYPES: seq<Type> := [LOGGER, CONSOLE, FILE]

  /** Every type sits at its own slot, so the slots of distinct types never
      collide. */
  lemma IndexIsPosition(t: Type)
    ensures TYPES[Index(t)] == t
  {
  }

  /** The `levels` array, once the constructor has filled it. */
  type Levels = s: seq<Level> | |s| == 3 witness [OFF, OFF, OFF]

  /** `getLevel(Type)` */
  function GetLevel(levels: Levels, t: Type): Level {
    levels[Index(t)]
  }

  /** `setLevel(Type, Level)`: the slot of `t` now holds `l`; the other two
      slots are unchanged. */
  function SetLevel(levels: Levels, t: Type, l: Level): (r: Levels)
    ensures GetLevel(r, t) == l
    ensures forall u :: u != t ==> GetLevel(r, u) == GetLevel(levels, u)
  {
    levels[Index(t) := l]
  }

  /** The warning the constructor logs, if any: console logs filtered by the
      logger level, or else file logs filtered by it. */
  function ConstructorWarning(logger: Level, console: Level, file: Level): (w: Option<Type>)
    ensures w == Some(CONSOLE) <==> console.intLevel > logger.intLevel
    ensures w == Some(FILE) <==> console.intLevel <= logger.intLevel < file.intLevel
    ensures w.None? <==> console.intLevel <= logger.intLevel && file.intLevel <= logger.intLevel
  {
    if console.intLevel > logger.intLevel then Some(CONSOLE)
    else if file.intLevel > logger.intLevel then Some(FILE)
    else None
  }

  /** `new LoggerLevels(logger, console, file)`: the stored levels and the
      warning that was logged. The levels are stored whatever the warning. */
  function New(logger: Level, console: Level, file: Level): (r: (Levels, Option<Type>))
    ensures GetLevel(r.0, LOGGER) == logger
    ensures GetLevel(r.0, CONSOLE) == console
    ensures GetLevel(r.0, FILE) == file
    ensures r.1 == ConstructorWarning(logger, console, file)
  {
    ([logger, console, file], ConstructorWarning(logger, console, file))
  }

  /** The slot-wise laws of the store: the last write to a slot wins, and
      writes to different slots commute. */
  lemma SetLevelLaws(levels: Levels, t: Type, u: Type, l: Level, m: Level)
    ensures SetLevel(SetLevel(levels, t, l), t, m) == SetLevel(levels, t, m)
    ensures t != u ==> SetLevel(SetLevel(levels, t, l), u, m) == SetLevel(SetLevel(levels, u, m), t, l)
    ensures SetLevel(levels, t, GetLevel(levels, t)) == levels
  {
  }

  /** One element of `toString()`: the type's name, `=`, and the name of
      its level. */
  function Entry(levels: Levels, t: Type): string {
    TypeName(t) + "=" + GetLevel(levels, t).name
  }

  /** `toString()`: `NAME=level` for each type in declaration order, joined
      by `", "`; a `Level` prints as its name. */
  function ToString(levels: Levels): (s: string)
    ensures s == Entry(levels, LOGGER) + ", " + Entry(levels, CONSOLE) + ", " + Entry(levels, FILE)
  {
    var elements := seq(3, i requires 0 <= i < 3 => Entry(levels, TYPES[i]));
    assert elements == [Entry(levels, LOGGER), Entry(levels, CONSOLE), Entry(levels, FILE)];
    JoinThree(Entry(levels, LOGGER), Entry(levels, CONSOLE), Entry(levels, FILE), ", ");
    JoinWith(elements, ", ")
  }

  /** Levels as `LoggerControl.create` stores them, `ALL` for the logger,
      with `INFO` for the console and `DEBUG` for the file. */
  lemma ToStringExample()
    ensures ToString(New(ALL, INFO, DEBUG).0) == "LOGGER=ALL" + ", " + "CONSOLE=INFO" + ", " + "FILE=DEBUG"
  {
    var levels := New(ALL, INFO, DEBUG).0;
    assert Entry(levels, LOGGER) == "LOGGER=ALL";
    assert Entry(levels, CONSOLE) == "CONSOLE=INFO";
    assert Entry(levels, FILE) == "FILE=DEBUG";
  }
}
