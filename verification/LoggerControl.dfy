/** `LoggerControl`: one logger's `LoggerConfig`, its three threshold levels
    and the registry of the appenders it manages, as a state that each
    operation maps to a new state.

    The `LoggerConfig` the control works on is shared with Log4j; here it is
    a field of the state, and every change the control makes to it is
    visible in the new state. The calls to `LoggerContext.updateLoggers`
    that follow each change have no effect on this state. */
module LoggerControl {

  import opened Wrappers
  import opened Log4jModel
  import L = LoggerLevels
  import AT = AppenderType
  import opened AppenderData

  datatype Control = Control(
    name: string,
    levels: L.Levels,
    loggerConfig: LoggerConfig,
    dataMap: map<AT.AppenderType, AppenderData>)

  /** `create(name, consoleLevel, fileLevel, currentContext, additive)`.
      Which `LoggerConfig` Log4j finds or creates for `name` is decided by
      the context; it is the parameter `found`. The control sets its
      additivity and sets its level to the logger slot, `ALL`. */
  function Create(name: string, consoleLevel: Level, fileLevel: Level, additive: bool, found: LoggerConfig): (c: Control)
    ensures L.GetLevel(c.levels, L.LOGGER) == ALL
    ensures L.GetLevel(c.levels, L.CONSOLE) == consoleLevel
    ensures L.GetLevel(c.levels, L.FILE) == fileLevel
    ensures c.loggerConfig.additive == additive && c.loggerConfig.level == Some(ALL)
    ensures c.loggerConfig.name == found.name && c.loggerConfig.attached == found.attached
    ensures c.dataMap == map[]
  {
    var levels := L.New(ALL, consoleLevel, fileLevel).0;
    Control(name, levels, found.(additive := additive, level := Some(L.GetLevel(levels, L.LOGGER))), map[])
  }

  /** `registerAppender(type, data)`: data that belongs to this control's
      `LoggerConfig` is stored under its type, replacing what was there;
      any other data is ignored. */
  function RegisterAppender(c: Control, t: AT.AppenderType, data: AppenderData): (r: Control)
    ensures IsLoggerConfig(data, c.loggerConfig) ==> r.dataMap == c.dataMap[t := data]
    ensures !IsLoggerConfig(data, c.loggerConfig) ==> r == c
    ensures r.name == c.name && r.levels == c.levels && r.loggerConfig == c.loggerConfig
  {
    if IsLoggerConfig(data, c.loggerConfig) then c.(dataMap := c.dataMap[t := data]) else c
  }

  /** `getAppenderData(type)`: the registered data, or `null`. */
  function GetAppenderData(c: Control, t: AT.AppenderType): (r: Option<AppenderData>)
    ensures r.Some? <==> t in c.dataMap
    ensures r.Some? ==> r.value == c.dataMap[t]
  {
    if t in c.dataMap then Some(c.dataMap[t]) else None
  }

  /** Registering and then reading back: the data is found under its type
      exactly when it belongs to the control's `LoggerConfig`. */
  lemma RegisterThenGet(c: Control, t: AT.AppenderType, u: AT.AppenderType, data: AppenderData)
    ensures IsLoggerConfig(data, c.loggerConfig) ==> GetAppenderData(RegisterAppender(c, t, data), t) == Some(data)
    ensures u != t ==> GetAppenderData(RegisterAppender(c, t, data), u) == GetAppenderData(c, u)
  {
  }

  /** The private `updateAppender(data, type, level, filter)`: detaches the
      appender and attaches it again at `level`, then records `level` in the
      data and in the type's level slot. It returns the new state and the
      updated data. The filter is not modelled. */
  function UpdateWithData(c: Control, data: AppenderData, t: AT.AppenderType, level: Level): (r: (Control, AppenderData))
    ensures AttachedLevel(r.0.loggerConfig.attached, data.appender.name) == Some(Some(level))
    ensures RemoveAppender(r.0.loggerConfig, data.appender.name) == RemoveAppender(c.loggerConfig, data.appender.name)
    ensures r.1.level == level && r.1.state == data.state && r.1.appender == data.appender
    ensures AT.GetLevel(r.0.levels, t) == level
    ensures forall u :: u != t ==> AT.GetLevel(r.0.levels, u) == AT.GetLevel(c.levels, u)
    ensures L.GetLevel(r.0.levels, L.LOGGER) == L.GetLevel(c.levels, L.LOGGER)
    ensures r.0.dataMap == c.dataMap && r.0.name == c.name
  {
    var name := data.appender.name;
    ReattachAtLevel(c.loggerConfig, data.appender, Some(level));
    var config := AddAppender(RemoveAppender(c.loggerConfig, name), data.appender, Some(level));
    (c.(loggerConfig := config, levels := AT.SetLevel(c.levels, t, level)), SetLevel(data, level))
  }

  /** `updateAppender(type, level, filter)`. The request is compared with
      the level slot of the type, not with the data: when the `intLevel`s
      are equal, or when no data is registered for the type, it only logs a
      warning. Otherwise the registered data is updated in place. */
  function UpdateAppender(c: Control, t: AT.AppenderType, level: Level): (r: Control)
    ensures AT.GetLevel(c.levels, t).intLevel == level.intLevel ==> r == c
    ensures t !in c.dataMap ==> r == c
    ensures AT.GetLevel(c.levels, t).intLevel != level.intLevel && t in c.dataMap ==>
              && AttachedLevel(r.loggerConfig.attached, c.dataMap[t].appender.name) == Some(Some(level))
              && AT.GetLevel(r.levels, t) == level
              && t in r.dataMap && r.dataMap[t].level == level && r.dataMap[t].state == c.dataMap[t].state
              && (forall u :: u in c.dataMap && u != t ==> u in r.dataMap && r.dataMap[u] == c.dataMap[u])
              && r.dataMap == c.dataMap[t := SetLevel(c.dataMap[t], level)]
              && RemoveAppender(r.loggerConfig, c.dataMap[t].appender.name)
                 == RemoveAppender(c.loggerConfig, c.dataMap[t].appender.name)
              && (forall u :: u != t ==> AT.GetLevel(r.levels, u) == AT.GetLevel(c.levels, u))
              && L.GetLevel(r.levels, L.LOGGER) == L.GetLevel(c.levels, L.LOGGER)
    ensures r.name == c.name
    ensures r.loggerConfig.name == c.loggerConfig.name && r.loggerConfig.refs == c.loggerConfig.refs
    ensures r.loggerConfig.level == c.loggerConfig.level && r.loggerConfig.additive == c.loggerConfig.additive
  {
    var data := GetAppenderData(c, t);
    if AT.GetLevel(c.levels, t).intLevel != level.intLevel then
      if data.Some? then
        var (updated, newData) := UpdateWithData(c, data.value, t, level);
        updated.(dataMap := updated.dataMap[t := newData])
      else c
    else c
  }

  /** Asking for the level the type already has is a no-op, and so is the
      same request made twice. */
  lemma UpdateAppenderIdempotent(c: Control, t: AT.AppenderType, level: Level)
    ensures UpdateAppender(c, t, AT.GetLevel(c.levels, t)) == c
    ensures var once := UpdateAppender(c, t, level);
            UpdateAppender(once, t, level) == once
  {
  }

  /** `startAppender(type)`: a registered appender that is not attached to
      the `LoggerConfig` is attached again at its recorded level and marked
      `STARTED`; one that is attached is left alone (a warning is logged).
      For an unregistered type, a `NoSuchElementException` is handed to
      `LOGGER.throwing`, not thrown, and nothing changes. The second
      component is that handed-over exception. */
  function StartAppender(c: Control, t: AT.AppenderType): (r: (Control, Option<Exception>))
    ensures r.1 == Some(NoSuchElement) <==> t !in c.dataMap
    ensures r.1.Some? || HasAppender(c.loggerConfig, c.dataMap[t].appender.name) ==> r.0 == c
    ensures t in c.dataMap ==> HasAppender(r.0.loggerConfig, c.dataMap[t].appender.name)
    ensures t in c.dataMap && !HasAppender(c.loggerConfig, c.dataMap[t].appender.name) ==>
              && r.0.loggerConfig.attached == c.loggerConfig.attached + [Attached(c.dataMap[t].appender, Some(c.dataMap[t].level))]
              && r.0.dataMap == c.dataMap[t := SetState(c.dataMap[t], STARTED)]
    ensures r.0.levels == c.levels && r.0.name == c.name
  {
    if t in c.dataMap then
      var data := c.dataMap[t];
      if !HasAppender(c.loggerConfig, data.appender.name) then
        var config := AddAppender(c.loggerConfig, data.appender, Some(data.level));
        (c.(loggerConfig := config, dataMap := c.dataMap[t := SetState(data, STARTED)]), None)
      else (c, None)
    else (c, Some(NoSuchElement))
  }

  /** `stopAppender(type)`: a registered appender is detached from the
      `LoggerConfig` and marked `STOPPED`; the other attached appenders stay.
      For an unregistered type, as for `startAppender`, the exception is only
      handed to the logger. */
  function StopAppender(c: Control, t: AT.AppenderType): (r: (Control, Option<Exception>))
    ensures r.1 == Some(NoSuchElement) <==> t !in c.dataMap
    ensures r.1.Some? ==> r.0 == c
    ensures t in c.dataMap ==>
              && !HasAppender(r.0.loggerConfig, c.dataMap[t].appender.name)
              && (forall n :: n != c.dataMap[t].appender.name ==>
                    (HasAppender(r.0.loggerConfig, n) <==> HasAppender(c.loggerConfig, n)))
              && r.0.dataMap == c.dataMap[t := SetState(c.dataMap[t], STOPPED)]
    ensures r.0.levels == c.levels && r.0.name == c.name
  {
    if t in c.dataMap then
      var data := c.dataMap[t];
      (c.(loggerConfig := RemoveAppender(c.loggerConfig, data.appender.name),
          dataMap := c.dataMap[t := SetState(data, STOPPED)]), None)
    else (c, Some(NoSuchElement))
  }

  /** Stopping and then starting a registered appender attaches it again at
      the level it was recorded with, marks it `STARTED`, and leaves the
      other appenders of the `LoggerConfig` as they were. */
  lemma StopThenStart(c: Control, t: AT.AppenderType)
    requires t in c.dataMap
    ensures var r := StartAppender(StopAppender(c, t).0, t);
            var name := c.dataMap[t].appender.name;
            && r.1.None?
            && AttachedLevel(r.0.loggerConfig.attached, name) == Some(Some(c.dataMap[t].level))
            && RemoveAppender(r.0.loggerConfig, name) == RemoveAppender(c.loggerConfig, name)
            && r.0.dataMap == c.dataMap[t := SetState(c.dataMap[t], STARTED)]
            && r.0.levels == c.levels
  {
    var data := c.dataMap[t];
    var stopped := StopAppender(c, t).0;
    var stoppedData := SetState(data, STOPPED);
    assert stopped.loggerConfig == RemoveAppender(c.loggerConfig, data.appender.name);
    assert stopped.dataMap == c.dataMap[t := stoppedData];
    assert stopped.dataMap[t] == stoppedData;
    assert !HasAppender(stopped.loggerConfig, stoppedData.appender.name);
    var r := StartAppender(stopped, t);
    assert r.0.loggerConfig == AddAppender(stopped.loggerConfig, data.appender, Some(data.level));
    assert SetState(stoppedData, STARTED) == SetState(data, STARTED);
    assert r.0.dataMap == c.dataMap[t := SetState(data, STARTED)];
    ReattachAtLevel(c.loggerConfig, data.appender, Some(data.level));
  }

  /** Starting twice is starting once. */
  lemma StartIdempotent(c: Control, t: AT.AppenderType)
    ensures StartAppender(StartAppender(c, t).0, t) == StartAppender(c, t)
  {
  }
}
