/** `InitializationPackage` and its `Builder`: what is needed to find or set
    up one appender of a `LoggerControl`.

    The package refers to its control; here it records the control's name,
    and the operations that read the control take its current state as a
    parameter. */
module InitializationPackage {

  import opened Wrappers
  import opened Log4jModel
  import L = LoggerLevels
  import AT = AppenderType
  import opened AppenderData
  import opened LoggerControl

  /** An appender `Layout`, known only by its pattern. */
  datatype Layout = Layout(pattern: string)

  /** `InitializationPackage.Builder`: control, type and level are fixed when
      it is made; layout and log file path stay `null` unless
      `forFileAppender` sets them. */
  datatype Builder = Builder(
    control: string,
    loggerConfig: string,
    kind: AT.AppenderType,
    level: Level,
    layout: Option<Layout>,
    logFilePath: Option<string>)

  datatype Package = Package(
    control: string,
    loggerConfig: string,
    kind: AT.AppenderType,
    level: Level,
    layout: Option<Layout>,
    logFilePath: Option<string>)

  /** `create(control, type)`: a builder whose level is the control's level
      for the type's level slot. */
  function Create(control: Control, kind: AT.AppenderType): (b: Builder)
    ensures b.level == L.GetLevel(control.levels, AT.LevelType(kind))
    ensures b.control == control.name && b.kind == kind
    ensures b.loggerConfig == control.loggerConfig.name
    ensures b.layout.None? && b.logFilePath.None?
  {
    Builder(control.name, control.loggerConfig.name, kind, AT.GetLevel(control.levels, kind), None, None)
  }

  /** `forFileAppender(layout, logFilePath)` */
  function ForFileAppender(b: Builder, layout: Option<Layout>, logFilePath: Option<string>): (r: Builder)
    ensures r.layout == layout && r.logFilePath == logFilePath
    ensures r.control == b.control && r.loggerConfig == b.loggerConfig && r.kind == b.kind && r.level == b.level
  {
    b.(layout := layout, logFilePath := logFilePath)
  }

  /** `build()`: a package holding exactly what the builder holds; its
      `loggerConfig` is that of the control. */
  function Build(b: Builder): (p: Package)
    ensures p.control == b.control && p.loggerConfig == b.loggerConfig && p.kind == b.kind
    ensures p.level == b.level && p.layout == b.layout && p.logFilePath == b.logFilePath
  {
    Package(b.control, b.loggerConfig, b.kind, b.level, b.layout, b.logFilePath)
  }

  /** `isDedicatedFileAppender(data)`: the package is for a `FILE` appender
      and asks for a non-empty log file other than the one the data's
      appender writes to. The `&&` short-circuits: for a `CONSOLE` package
      nothing else is read. A `null` path throws `NullPointerException`;
      an appender that is not an `AbstractOutputStreamAppender`, or whose
      manager is not a `FileManager`, throws `ClassCastException`. */
  function IsDedicatedFileAppender(p: Package, data: AppenderData): (r: Result<bool>)
    ensures p.kind != AT.FILE ==> r == Ok(false)
    ensures r == Ok(true) <==>
              && p.kind == AT.FILE
              && p.logFilePath.Some? && |p.logFilePath.value| > 0
              && OUTPUT_STREAM_APPENDER_CLASS in data.appender.classes
              && data.appender.fileName.Some?
              && p.logFilePath.value != data.appender.fileName.value
    ensures r == Err(NullPointer) <==> p.kind == AT.FILE && p.logFilePath.None?
    ensures r.Err? ==> r.error == NullPointer || r.error == ClassCast
  {
    if p.kind != AT.FILE then Ok(false)
    else if p.logFilePath.None? then Err(NullPointer)
    else if |p.logFilePath.value| == 0 then Ok(false)
    else if OUTPUT_STREAM_APPENDER_CLASS !in data.appender.classes || data.appender.fileName.None? then Err(ClassCast)
    else Ok(p.logFilePath.value != data.appender.fileName.value)
  }

  /** `copyWithLayout(layout)`: a new package for the same control, type and
      log file path with the given layout. Its level is read again from the
      control, as it is now. */
  function CopyWithLayout(p: Package, current: Control, layout: Option<Layout>): (r: Package)
    requires current.name == p.control
    ensures r.control == p.control && r.kind == p.kind && r.logFilePath == p.logFilePath
    ensures r.layout == layout
    ensures r.level == L.GetLevel(current.levels, AT.LevelType(p.kind))
    ensures r.loggerConfig == current.loggerConfig.name
  {
    Build(ForFileAppender(Create(current, p.kind), layout, p.logFilePath))
  }

  /** Copying with the package's own layout from an unchanged control gives
      back the package. */
  lemma CopyWithOwnLayout(p: Package, current: Control)
    requires current.name == p.control && current.loggerConfig.name == p.loggerConfig
    requires p.level == L.GetLevel(current.levels, AT.LevelType(p.kind))
    ensures CopyWithLayout(p, current, p.layout) == p
  {
  }

  /** The static `LoggerControl.updateAppender(data, iPackage, filter)`:
      the package's control updates the data's appender to the package's
      type and level. */
  function UpdateWithPackage(current: Control, data: AppenderData, p: Package): (r: (Control, AppenderData))
    requires current.name == p.control
    ensures AttachedLevel(r.0.loggerConfig.attached, data.appender.name) == Some(Some(p.level))
    ensures r.1.level == p.level
    ensures AT.GetLevel(r.0.levels, p.kind) == p.level
  {
    UpdateWithData(current, data, p.kind, p.level)
  }
}
