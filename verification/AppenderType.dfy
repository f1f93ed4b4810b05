/** `AppenderType`: the two kinds of appender a `LoggerControl` manages.
    The class has a private constructor and exactly two instances, so it is
    an enumeration here, and each getter is a function of it. */
module AppenderType {

  import opened JavaLang
  import opened Log4jModel
  import L = LoggerLevels

  datatype AppenderType = CONSOLE | FILE

  /** `getTypeClass()`: the class the appender is cast to. */
  function TypeClass(t: AppenderType): string {
    match t
    case CONSOLE => APPENDER_CLASS
    case FILE => OUTPUT_STREAM_APPENDER_CLASS
  }

  /** `getLevelType()`: the `LoggerLevels` slot of the type. */
  function LevelType(t: AppenderType): (slot: L.Type)
    ensures slot != L.LOGGER
  {
    match t
    case CONSOLE => L.CONSOLE
    case FILE => L.FILE
  }

  /** `toString()`: the type name given at construction. */
  function TypeName(t: AppenderType): string {
    match t
    case CONSOLE => "ConsoleAppender"
    case FILE => "FileAppender"
  }

  /** `getNames()`: the appender names the type is looked up by. */
  function Names(t: AppenderType): (names: seq<string>)
    ensures |names| == 2
  {
    match t
    case CONSOLE => ["CLConsole", "Console"]
    case FILE => ["CLFile", "File"]
  }

  /** `getPrimaryName()`: the first of the names, the one new appenders are
      created under. */
  function PrimaryName(t: AppenderType): (name: string)
    ensures name in Names(t) && name == Names(t)[0]
    ensures |name| > 0 && name[..2] == "CL"
  {
    Names(t)[0]
  }

  /** Each type has its own level slot, and no name of one type equals a name
      of the other, even ignoring case: a found appender name tells which
      type it belongs to. */
  lemma TypesAreDistinguishable()
    ensures LevelType(CONSOLE) != LevelType(FILE)
    ensures TypeName(CONSOLE) != TypeName(FILE)
    ensures forall i, j :: 0 <= i < 2 && 0 <= j < 2 ==> !EqualsIgnoreCase(Names(CONSOLE)[i], Names(FILE)[j])
  {
    assert ToLowerAscii('C') == 'c';
    assert ToLowerAscii('L') == 'l';
    assert ToLowerAscii('F') == 'f';
    assert !EqualsIgnoreCase("CLConsole", "CLFile") by {
      assert ToLowerAscii("CLConsole"[2]) != ToLowerAscii("CLFile"[2]);
    }
  }

  /** The `LoggerLevels` overloads that take an `AppenderType`:
      `getLevel(type)` reads the type's level slot. */
  function GetLevel(levels: L.Levels, t: AppenderType): (l: Level)
    ensures l == L.GetLevel(levels, LevelType(t))
  {
    levels[L.Index(LevelType(t))]
  }

  /** `setLevel(type, level)` writes the type's level slot and leaves the
      other type's slot and the logger's slot alone. */
  function SetLevel(levels: L.Levels, t: AppenderType, l: Level): (r: L.Levels)
    ensures GetLevel(r, t) == l
    ensures forall u :: u != t ==> GetLevel(r, u) == GetLevel(levels, u)
    ensures L.GetLevel(r, L.LOGGER) == L.GetLevel(levels, L.LOGGER)
  {
    levels[L.Index(LevelType(t)) := l]
  }
}
