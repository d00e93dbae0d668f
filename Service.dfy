/**
 * The Windows service: OnStart reads the two settings, logs them and
 * starts a one-shot timer; each time the timer elapses the handler runs
 * one monitoring cycle unless the service was stopped, and re-arms the
 * timer only when the cycle completes; OnStop sets the stop flag.
 */
module Service {
  import opened Wrappers
  import opened Bytes
  import opened Text
  import opened Domain
  import opened SocketConnections
  import opened Aggregation
  import opened Seqs

  /** A log4net call: the level and the message. */
  datatype LogEntry = Info(message: string) | Debug(message: string) | Error(message: string)

  // ------------------------------------------------------------ settings

  /** `int.Parse(ConfigurationManager.AppSettings[key])`; a missing key reads as null, which int.Parse rejects. */
  function ParseSetting(setting: Option<string>): Option<int32>
  {
    match setting
    case None => None
    case Some(text) => ParseInt(text)
  }

  /** A value of C#'s `int`, wrapped as unchecked 32-bit arithmetic wraps it. */
  function Wrap32(x: int): (r: int32)
    ensures (r - x) % TwoTo32 == 0
    ensures -TwoTo31 <= x < TwoTo31 ==> r == x
  {
    var m := x % TwoTo32;
    if m >= TwoTo31 then m - TwoTo32 else m
  }

  /** `monitorIntervalInSeconds * 1000` as the source evaluates it: unchecked, so it wraps. */
  function IntervalMsAsWritten(seconds: int32): int32
  {
    Wrap32(seconds * 1000)
  }

  /** `new Timer(interval)`: the interval is accepted only when positive. */
  function TimerAccepts(ms: int): Option<int>
  {
    if ms > 0 then Some(ms) else None
  }

  /** The largest second count whose millisecond value fits in an `int`. */
  const MaxIntervalSeconds: int := 2147483

  /** The interval in milliseconds, `None` unless the product is positive and fits in an `int`. */
  function IntervalMs(seconds: int32): Option<int>
  {
    var ms := seconds * 1000;
    if 0 < ms < TwoTo31 then Some(ms) else None
  }

  /** The corrected interval is exactly the second count in milliseconds, for counts from 1 to 2147483. */
  lemma IntervalMsSpec(seconds: int32)
    ensures IntervalMs(seconds).Some? <==> 1 <= seconds <= MaxIntervalSeconds
    ensures IntervalMs(seconds).Some? ==> IntervalMs(seconds).value == seconds * 1000
    ensures IntervalMs(seconds).Some? ==> TimerAccepts(IntervalMsAsWritten(seconds)) == IntervalMs(seconds)
  {
    if 1 <= seconds <= MaxIntervalSeconds {
      assert 0 < seconds * 1000 < TwoTo31;
    }
  }

  /**
   * As written, 4294968 seconds (about 50 days) wraps to a 704 ms interval
   * that the timer accepts, where the intended interval does not exist.
   */
  lemma IntervalWrapFinding()
    ensures IntervalMsAsWritten(4294968) == 704
    ensures TimerAccepts(IntervalMsAsWritten(4294968)) == Some(704)
    ensures IntervalMs(4294968) == None
    ensures 4294968 * 1000 != 704
  {
  }

  /** The configuration the Elapsed handler captures. */
  datatype Config = Config(minimumCount: int32, intervalSeconds: int32, intervalMs: int)

  function StartMessage(minimumCount: int32, intervalSeconds: int32): string
  {
    "Start MiniumConnectionCount=" + IntToString(minimumCount)
      + " MonitorIntervalInSeconds=" + IntToString(intervalSeconds)
  }

  /** What OnStart logs and, when it creates and starts the timer, the configuration. */
  datatype StartOutcome = StartOutcome(entries: seq<LogEntry>, config: Option<Config>)

  const StartError: string := "unexpected error"

  /**
   * OnStart: parse both settings, log them at Info level, create the timer.
   * Any exception is logged as "unexpected error" and raised again, so the
   * service does not start.
   */
  function Start(minSetting: Option<string>, intervalSetting: Option<string>): StartOutcome
  {
    var minimumCount := ParseSetting(minSetting);
    var intervalSeconds := ParseSetting(intervalSetting);
    if minimumCount.None? || intervalSeconds.None? then
      StartOutcome([Error(StartError)], None)
    else
      var info := Info(StartMessage(minimumCount.value, intervalSeconds.value));
      match IntervalMs(intervalSeconds.value)
      case None => StartOutcome([info, Error(StartError)], None)
      case Some(ms) => StartOutcome([info], Some(Config(minimumCount.value, intervalSeconds.value, ms)))
  }

  /**
   * The service starts exactly when both settings are integers and the
   * interval is from 1 to 2147483 seconds, and it then logs the settings
   * and nothing else.
   */
  lemma StartSucceedsIff(minSetting: Option<string>, intervalSetting: Option<string>)
    ensures var o := Start(minSetting, intervalSetting);
      var m, s := ParseSetting(minSetting), ParseSetting(intervalSetting);
      && (o.config.Some? <==> m.Some? && s.Some? && 1 <= s.value <= MaxIntervalSeconds)
      && (o.config.Some? ==>
            o.config.value == Config(m.value, s.value, s.value * 1000)
            && o.entries == [Info(StartMessage(m.value, s.value))])
  {
    var s := ParseSetting(intervalSetting);
    if s.Some? {
      IntervalMsSpec(s.value);
    }
  }

  /**
   * OnStart logs the settings first whenever both parse, and only the
   * "unexpected error" entry when one does not; a start that fails ends
   * with that entry.
   */
  lemma StartLog(minSetting: Option<string>, intervalSetting: Option<string>)
    ensures var o := Start(minSetting, intervalSetting);
      var m, s := ParseSetting(minSetting), ParseSetting(intervalSetting);
      && (o.config.None? ==> |o.entries| >= 1 && o.entries[|o.entries| - 1] == Error(StartError))
      && (m.Some? && s.Some? ==> o.entries[0] == Info(StartMessage(m.value, s.value)))
      && (!(m.Some? && s.Some?) ==> o.entries == [Error(StartError)])
  {
  }

  /**
   * Start and the code as written agree except on a wrapped interval: a
   * start that succeeds uses the interval the code's timer gets, and a
   * start the code accepts but Start refuses is one whose millisecond
   * count overflows an `int`.
   */
  lemma StartAgreesUnlessWrapped(minSetting: Option<string>, intervalSetting: Option<string>)
    ensures var o := Start(minSetting, intervalSetting);
      var m, s := ParseSetting(minSetting), ParseSetting(intervalSetting);
      && (o.config.Some? ==> TimerAccepts(IntervalMsAsWritten(s.value)) == Some(o.config.value.intervalMs))
      && (m.Some? && s.Some? && o.config.None? && TimerAccepts(IntervalMsAsWritten(s.value)).Some? ==>
            !(-TwoTo31 <= s.value * 1000 < TwoTo31))
  {
    var s := ParseSetting(intervalSetting);
    if s.Some? {
      IntervalMsSpec(s.value);
      if -TwoTo31 <= s.value * 1000 < TwoTo31 && TimerAccepts(IntervalMsAsWritten(s.value)).Some? {
        assert IntervalMsAsWritten(s.value) == s.value * 1000;
      }
    }
  }

  /** Writing a setting as an integer and parsing it back gives the setting. */
  lemma SettingRoundTrip(v: int32)
    ensures ParseSetting(Some(IntToString(v))) == Some(v)
  {
    IntToStringRoundTrip(v);
  }

  // ------------------------------------------------------------ one cycle

  const CycleError: string := "Timer error"

  /** What a cycle logs and whether it starts the timer again. */
  datatype CycleOutcome = CycleOutcome(entries: seq<LogEntry>, rearm: bool)

  /**
   * The body of the Elapsed handler once it found the service running:
   * aggregate the snapshot, log totals and detail, re-arm the timer; any
   * exception is logged as "Timer error" and the timer stays stopped.
   */
  function Cycle(minimumCount: int32, snapshot: Snapshot<TcpProcessRecord>): CycleOutcome
  {
    match snapshot
    case OutOfMemory => CycleOutcome([Error(CycleError)], false)
    case Snapshot(records, _) =>
      match Aggregate(records, minimumCount)
      case None => CycleOutcome([Error(CycleError)], false)
      case Some(report) => CycleOutcome([Info(report.totals), Debug(report.detail)], true)
  }

  /**
   * A cycle re-arms the timer exactly when the table could be read and no
   * kept group of connections without a process name has a busy port; it
   * then logs the totals and the detail, and otherwise one error.
   */
  lemma CycleSpec(minimumCount: int32, snapshot: Snapshot<TcpProcessRecord>)
    ensures var o := Cycle(minimumCount, snapshot);
      && (o.rearm <==>
            snapshot.Snapshot? &&
            var unnamed := Select(snapshot.records, NameOf, None);
            !(unnamed != [] && |unnamed| >= minimumCount && BusyPorts(unnamed, minimumCount) != []))
      && (o.rearm ==>
            var report := Aggregate(snapshot.records, minimumCount).value;
            o.entries == [Info(report.totals), Debug(report.detail)])
      && (!o.rearm ==> o.entries == [Error(CycleError)])
  {
    if snapshot.Snapshot? {
      AggregateFailsIff(snapshot.records, minimumCount);
    }
  }

  // ------------------------------------------------------------ the service

  class MonitoringService {
    /** `_stop`. */
    var stopped: bool
    /** The one-shot timer has been started and has not elapsed since. */
    var armed: bool
    /** What OnStart captured for the handler, once it created the timer. */
    var config: Option<Config>
    /** Every log entry written, in order. */
    var log: seq<LogEntry>

    ghost predicate Valid()
      reads this
    {
      armed ==> config.Some?
    }

    constructor ()
      ensures Valid()
      ensures !stopped && !armed && config.None? && log == []
    {
      stopped := false;
      armed := false;
      config := None;
      log := [];
    }

    /** OnStart, called once by the service host; `started` is false when it raises. */
    method OnStart(minSetting: Option<string>, intervalSetting: Option<string>) returns (started: bool)
      requires Valid() && config.None?
      modifies this
      ensures Valid()
      ensures var o := Start(minSetting, intervalSetting);
        && log == old(log) + o.entries
        && config == o.config
        && armed == (old(armed) || o.config.Some?)
        && started == o.config.Some?
      ensures stopped == old(stopped)
    {
      var o := Start(minSetting, intervalSetting);
      log := log + o.entries;
      config := o.config;
      if o.config.Some? {
        armed := true;
      }
      started := o.config.Some?;
    }

    /**
     * The Elapsed handler: the timer has fired, so it is no longer armed;
     * a stopped service does nothing more, a running one reads the table
     * and runs a cycle.
     */
    method Elapsed(q: TableQuery, procs: ProcessList, exited: set<int>)
      requires Valid() && armed
      modifies this
      ensures Valid()
      ensures stopped == old(stopped) && config == old(config)
      ensures old(stopped) ==> !armed && log == old(log)
      ensures !old(stopped) ==>
        var o := Cycle(config.value.minimumCount, TcpTable(q, procs, exited));
        log == old(log) + o.entries && armed == o.rearm
    {
      armed := false;
      if !stopped {
        var snapshot, _ := GetAllTcpConnections(q, procs, exited);
        var o := Cycle(config.value.minimumCount, snapshot);
        log := log + o.entries;
        armed := o.rearm;
      }
    }

    /** OnStop: only sets the flag; a timer already armed still fires once. */
    method OnStop()
      requires Valid()
      modifies this
      ensures Valid()
      ensures stopped && armed == old(armed) && config == old(config) && log == old(log)
    {
      stopped := true;
    }
  }

  /**
   * Once the service is stopped, the timer that is still armed fires one
   * last time, logs nothing and is not armed again.
   */
  method StopThenElapse(service: MonitoringService, q: TableQuery, procs: ProcessList, exited: set<int>)
    requires service.Valid() && service.armed
    modifies service
    ensures service.Valid() && service.stopped && !service.armed
    ensures service.log == old(service.log)
  {
    service.OnStop();
    service.Elapsed(q, procs, exited);
  }
}
