/**
 The event chain of an engine: state changes on speed, data and silence, kept in memory and
 in one file per day, with the status saved at every event and read back at a restart.
 */
module EngineEvents {
  import opened Wrappers

  datatype State = OFF | ON | RUNNING
  datatype Event = Event(ts: int, hours: int, previous: State, current: State)

  /** What save_status writes. */
  datatype Status = Status(savedAt: int, state: State, lastMessage: int, hours: int, start: Option<int>,
                           stop: Option<int>)

  /** The engine, its files by day, and the history of all its events. */
  datatype Engine = Engine(
    state: State, lastMessage: int, hours: int, start: Option<int>, stop: Option<int>,
    dayEvents: seq<Event>, files: map<int, seq<Event>>, saved: Option<Status>, log: seq<Event>)

  const DAY: int := 86400
  const SILENCE: int := 30

  function DayOf(t: int): int { t / DAY }

  function FileOf(files: map<int, seq<Event>>, day: int): seq<Event> {
    if day in files then files[day] else []
  }

  // ---- operations, at time t ----

  function New(t: int): Engine { Engine(OFF, t, 0, None, None, [], map[], None, []) }

  function Save(e: Engine, t: int): Engine {
    e.(saved := Some(Status(t, e.state, e.lastMessage, e.hours, e.start, e.stop)))
  }

  function AddEvent(e: Engine, to: State, t: int): Engine {
    var event := Event(t, e.hours, e.state, to);
    Save(e.(dayEvents := e.dayEvents + [event], log := e.log + [event], state := to,
            files := e.files[DayOf(t) := FileOf(e.files, DayOf(t)) + [event]]), t)
  }

  /** update_speed; a speed that is negative or not a number changes no state. */
  function UpdateSpeed(e: Engine, speed: Option<int>, t: int): Engine {
    if speed.Some? && speed.value > 0 then
      if e.state != RUNNING then AddEvent(e, RUNNING, t).(start := Some(t)) else e
    else if speed == Some(0) then
      if e.state == RUNNING then AddEvent(e.(stop := Some(t)), ON, t)
      else if e.state == OFF then AddEvent(e, ON, t)
      else e
    else e
  }

  function UpdateData(e: Engine, hours: int, t: int): Engine {
    (if e.state == OFF then AddEvent(e, ON, t) else e).(hours := hours)
  }

  function CheckOff(e: Engine, t: int): Engine {
    if e.state == OFF || t - e.lastMessage <= SILENCE then e
    else AddEvent(if e.state == RUNNING then e.(stop := Some(t)) else e, OFF, t)
  }

  /** A new process reads the status and the events of the day; without a status it starts anew. */
  function Restart(e: Engine, t: int): Engine {
    match e.saved
    case None => New(t)
    case Some(s) =>
      Engine(s.state, if DayOf(s.savedAt) == DayOf(t) then s.lastMessage else 0, s.hours, s.start, s.stop,
             FileOf(e.files, DayOf(t)), e.files, e.saved, e.log)
  }

  datatype Op =
    | Speed(speed: Option<int>)
    | Data(hours: int)
    | Check        // check_off_engines: the status is saved, then silence is looked for
    | Reboot

  function Do(e: Engine, op: Op, t: int): Engine {
    match op
    case Speed(speed) => UpdateSpeed(e.(lastMessage := t), speed, t)
    case Data(hours) => UpdateData(e.(lastMessage := t), hours, t)
    case Check => CheckOff(Save(e, t), t)
    case Reboot => Restart(e, t)
  }

  // ---- the chain ----

  /** Each event starts where the one before it ended, the first one at OFF, and none stays put. */
  predicate Chained(log: seq<Event>, state: State) {
    if log == [] then state == OFF
    else
      var last := log[|log| - 1];
      last.current == state && last.previous != state && Chained(log[..|log| - 1], last.previous)
  }

  function Entries(log: seq<Event>): nat {
    if log == [] then 0 else Entries(log[..|log| - 1]) + if log[|log| - 1].current == RUNNING then 1 else 0
  }

  function Exits(log: seq<Event>): nat {
    if log == [] then 0 else Exits(log[..|log| - 1]) + if log[|log| - 1].previous == RUNNING then 1 else 0
  }

  /** At no point of a chain has RUNNING been left more often than entered, or entered twice in a row. */
  lemma {:induction false} OneRunAtATime(log: seq<Event>, state: State)
    requires Chained(log, state)
    ensures Entries(log) == Exits(log) + if state == RUNNING then 1 else 0
    ensures forall k :: 0 <= k <= |log| ==> Exits(log[..k]) <= Entries(log[..k]) <= Exits(log[..k]) + 1
  {
    if log != [] {
      var rest := log[..|log| - 1];
      OneRunAtATime(rest, log[|log| - 1].previous);
      assert log[..|log|] == log;
      assert forall k :: 0 <= k < |log| ==> log[..k] == rest[..k];
    }
  }

  /** The events of one day. */
  function OfDay(log: seq<Event>, day: int): seq<Event> {
    if log == [] then []
    else OfDay(log[..|log| - 1], day) + if DayOf(log[|log| - 1].ts) == day then [log[|log| - 1]] else []
  }

  /** Events come in the order of time, none from the future. */
  predicate InTime(log: seq<Event>, now: int) {
    log == [] || (log[|log| - 1].ts <= now && InTime(log[..|log| - 1], log[|log| - 1].ts))
  }

  /** A run that ended has a stop time, and it is not before the start. */
  predicate TimesOk(state: State, start: Option<int>, stop: Option<int>, now: int) {
    && (start.Some? ==> start.value <= now)
    && (start.Some? && state != RUNNING ==> stop.Some? && start.value <= stop.value)
  }

  predicate SuffixOf(s: seq<Event>, log: seq<Event>) {
    |s| <= |log| && s == log[|log| - |s|..]
  }

  /** Every file holds the events of its day. */
  ghost predicate FilesHold(files: map<int, seq<Event>>, log: seq<Event>) {
    forall day :: FileOf(files, day) == OfDay(log, day)
  }

  /** The history, the files and what is in memory agree. */
  ghost predicate HistoryOk(state: State, dayEvents: seq<Event>, files: map<int, seq<Event>>, log: seq<Event>,
                            now: int) {
    Chained(log, state) && InTime(log, now) && FilesHold(files, log) && SuffixOf(dayEvents, log)
  }

  predicate StatusOk(saved: Option<Status>, state: State, log: seq<Event>, now: int) {
    && (log != [] ==> saved.Some?)
    && (saved.Some? ==> saved.value.state == state && TimesOk(state, saved.value.start, saved.value.stop, now))
  }

  ghost predicate Inv(e: Engine, now: int) {
    && HistoryOk(e.state, e.dayEvents, e.files, e.log, now)
    && TimesOk(e.state, e.start, e.stop, now)
    && StatusOk(e.saved, e.state, e.log, now)
  }

  lemma OfDayAppend(log: seq<Event>, x: Event, day: int)
    ensures OfDay(log + [x], day) == OfDay(log, day) + if DayOf(x.ts) == day then [x] else []
  {
    assert (log + [x])[..|log|] == log;
  }

  lemma FilesAppend(files: map<int, seq<Event>>, log: seq<Event>, x: Event)
    requires FilesHold(files, log)
    ensures FilesHold(files[DayOf(x.ts) := FileOf(files, DayOf(x.ts)) + [x]], log + [x])
  {
    var files' := files[DayOf(x.ts) := FileOf(files, DayOf(x.ts)) + [x]];
    forall day ensures FileOf(files', day) == OfDay(log + [x], day) {
      OfDayAppend(log, x, day);
      assert FileOf(files, day) == OfDay(log, day);
    }
  }

  lemma SuffixAppend(s: seq<Event>, log: seq<Event>, x: Event)
    requires SuffixOf(s, log)
    ensures SuffixOf(s + [x], log + [x])
  {
    assert s + [x] == (log + [x])[|log| - |s|..];
  }

  lemma HistoryAppend(state: State, dayEvents: seq<Event>, files: map<int, seq<Event>>, log: seq<Event>, now: int,
                      x: Event)
    requires HistoryOk(state, dayEvents, files, log, now)
    requires x.previous == state && x.current != state && now <= x.ts
    ensures HistoryOk(x.current, dayEvents + [x], files[DayOf(x.ts) := FileOf(files, DayOf(x.ts)) + [x]], log + [x],
                      x.ts)
  {
    FilesAppend(files, log, x);
    SuffixAppend(dayEvents, log, x);
    assert (log + [x])[..|log|] == log && (log + [x])[|log|] == x;
    Sooner(log, now, x.ts);
  }

  lemma Sooner(log: seq<Event>, now: int, later: int)
    requires InTime(log, now) && now <= later
    ensures InTime(log, later)
  {
  }

  lemma AddEventKeepsInv(e: Engine, to: State, t: int, now: int)
    requires HistoryOk(e.state, e.dayEvents, e.files, e.log, now)
    requires to != e.state && now <= t && TimesOk(to, e.start, e.stop, t)
    ensures Inv(AddEvent(e, to, t), t)
  {
    HistoryAppend(e.state, e.dayEvents, e.files, e.log, now, Event(t, e.hours, e.state, to));
  }

  lemma LaterKeepsInv(e: Engine, now: int, t: int)
    requires Inv(e, now) && now <= t
    ensures Inv(e, t)
  {
    Sooner(e.log, now, t);
  }

  /** Nothing happened before the day of the last event on a later day. */
  lemma {:induction false} DayIsSuffix(log: seq<Event>, now: int, t: int)
    requires InTime(log, now) && now <= t
    ensures SuffixOf(OfDay(log, DayOf(t)), log)
    decreases |log|
  {
    if log != [] {
      var last, rest := log[|log| - 1], log[..|log| - 1];
      if DayOf(last.ts) == DayOf(t) {
        DayIsSuffix(rest, last.ts, t);
        assert OfDay(log, DayOf(t)) == log[|log| - |OfDay(log, DayOf(t))|..];
      } else {
        EarlierDay(rest, last.ts, DayOf(t));
      }
    }
  }

  lemma {:induction false} EarlierDay(log: seq<Event>, now: int, day: int)
    requires InTime(log, now) && DayOf(now) < day
    ensures OfDay(log, day) == []
    decreases |log|
  {
    if log != [] {
      EarlierDay(log[..|log| - 1], log[|log| - 1].ts, day);
    }
  }

  lemma SpeedKeepsInv(e: Engine, speed: Option<int>, t: int)
    requires Inv(e, t)
    ensures Inv(UpdateSpeed(e, speed, t), t)
  {
    if speed.Some? && speed.value > 0 && e.state != RUNNING {
      AddEventKeepsInv(e, RUNNING, t, t);
      var e' := AddEvent(e, RUNNING, t);
      assert UpdateSpeed(e, speed, t) == e'.(start := Some(t));
    } else if speed == Some(0) && e.state == RUNNING {
      AddEventKeepsInv(e.(stop := Some(t)), ON, t, t);
    } else if speed == Some(0) && e.state == OFF {
      AddEventKeepsInv(e, ON, t, t);
    }
  }

  lemma DataKeepsInv(e: Engine, hours: int, t: int)
    requires Inv(e, t)
    ensures Inv(UpdateData(e, hours, t), t)
  {
    if e.state == OFF {
      AddEventKeepsInv(e, ON, t, t);
    }
  }

  lemma CheckKeepsInv(e: Engine, t: int)
    requires Inv(e, t)
    ensures Inv(CheckOff(Save(e, t), t), t)
  {
    var e0 := Save(e, t);
    assert Inv(e0, t);
    if e0.state != OFF && t - e0.lastMessage > SILENCE {
      AddEventKeepsInv(if e0.state == RUNNING then e0.(stop := Some(t)) else e0, OFF, t, t);
    }
  }

  lemma RebootKeepsInv(e: Engine, t: int)
    requires Inv(e, t)
    ensures Inv(Restart(e, t), t)
  {
    DayIsSuffix(e.log, t, t);
    assert FileOf(e.files, DayOf(t)) == OfDay(e.log, DayOf(t));
  }

  lemma StepKeepsInv(e: Engine, op: Op, now: int, t: int)
    requires Inv(e, now) && now <= t
    ensures Inv(Do(e, op, t), t)
  {
    LaterKeepsInv(e, now, t);
    match op
    case Speed(speed) => SpeedKeepsInv(e.(lastMessage := t), speed, t);
    case Data(hours) => DataKeepsInv(e.(lastMessage := t), hours, t);
    case Check => CheckKeepsInv(e, t);
    case Reboot => RebootKeepsInv(e, t);
  }

  // ---- every run under a monotone clock ----

  predicate Monotone(times: seq<int>, now: int) {
    times == [] || (now <= times[0] && Monotone(times[1..], times[0]))
  }

  function Run(e: Engine, ops: seq<Op>, times: seq<int>): Engine
    requires |ops| == |times|
    decreases |ops|
  {
    if ops == [] then e else Run(Do(e, ops[0], times[0]), ops[1..], times[1..])
  }

  lemma {:induction false} RunKeepsInv(e: Engine, ops: seq<Op>, times: seq<int>, now: int) returns (end: int)
    requires |ops| == |times| && Inv(e, now) && Monotone(times, now)
    ensures Inv(Run(e, ops, times), end) && now <= end
    decreases |ops|
  {
    if ops == [] {
      end := now;
    } else {
      StepKeepsInv(e, ops[0], now, times[0]);
      end := RunKeepsInv(Do(e, ops[0], times[0]), ops[1..], times[1..], times[0]);
    }
  }

  /**
   After any sequence of speeds, data, checks and restarts on a new engine: each event
   starts in the state the previous one ended in and changes it, the last one ended in the
   current state, entries into RUNNING exceed exits by one exactly while it runs, a run
   that ended has a stop time not before its start, the file of each day holds its events
   in order, and the events in memory are the last ones of the history.
   */
  lemma EventsFormAChain(ops: seq<Op>, times: seq<int>, t: int, day: int)
    requires |ops| == |times| && Monotone(times, t)
    ensures var e := Run(New(t), ops, times);
            && Chained(e.log, e.state)
            && Entries(e.log) == Exits(e.log) + (if e.state == RUNNING then 1 else 0)
            && (e.start.Some? && e.state != RUNNING ==> e.stop.Some? && e.start.value <= e.stop.value)
            && FileOf(e.files, day) == OfDay(e.log, day) && SuffixOf(e.dayEvents, e.log)
  {
    var end := RunKeepsInv(New(t), ops, times, t);
    OneRunAtATime(Run(New(t), ops, times).log, Run(New(t), ops, times).state);
  }

  /** The state an operation leads to. */
  function Leads(state: State, silent: bool, op: Op): State
    requires op != Reboot
  {
    match op
    case Speed(Some(speed)) => if speed > 0 then RUNNING else if speed == 0 then ON else state
    case Speed(None) => state
    case Data(_) => if state == OFF then ON else state
    case Check => if silent then OFF else state
  }

  /**
   What an operation does. A positive speed leads to RUNNING, speed 0 to ON, data turn the
   engine on, a check turns it off after more than 30 seconds of silence. A change of state
   is one event, in memory and in the file of its day, with the hours known before it;
   entering RUNNING sets the start time and leaving it the stop time. The status is saved by
   a check and by an event, which comes before the start time is set.
   */
  lemma OperationOutcome(e: Engine, op: Op, t: int)
    requires op != Reboot
    ensures var e' := Do(e, op, t);
            var state := Leads(e.state, t - e.lastMessage > 30, op);
            var events := if state == e.state then [] else [Event(t, e.hours, e.state, state)];
            && e'.state == state && e'.log == e.log + events && e'.dayEvents == e.dayEvents + events
            && (forall day :: FileOf(e'.files, day) == FileOf(e.files, day) + if day == t / 86400 then events else [])
            && e'.start == (if events != [] && state == RUNNING then Some(t) else e.start)
            && e'.stop == (if events != [] && e.state == RUNNING then Some(t) else e.stop)
            && e'.hours == (if op.Data? then op.hours else e.hours)
            && e'.lastMessage == (if op.Check? then e.lastMessage else t)
            && e'.saved == if events != [] || op.Check?
                           then Some(Status(t, state, e'.lastMessage, e.hours, e.start, e'.stop)) else e.saved
  {
    assert e.log + [] == e.log && e.dayEvents + [] == e.dayEvents;
    forall day ensures FileOf(e.files, day) + [] == FileOf(e.files, day) {
    }
  }

  /** Leaving RUNNING sets the stop time to the time of the event. */
  lemma ExitSetsStopTime(e: Engine, op: Op, t: int)
    requires e.state == RUNNING && Do(e, op, t).state != RUNNING && op != Reboot
    ensures Do(e, op, t).stop == Some(t) && Do(e, op, t).log == e.log + [Event(t, e.hours, RUNNING, Do(e, op, t).state)]
  {
  }

  // ---- a restart during a run ----

  /** One operation adds at most one event, and counts an entry exactly if that is one. */
  lemma StepEvents(e: Engine, op: Op, t: int)
    requires op != Reboot
    ensures var e' := Do(e, op, t);
            || (e'.log == e.log && e'.state == e.state)
            || (|e'.log| == |e.log| + 1 && Entries(e'.log) == Entries(e.log) + if e'.state == RUNNING then 1 else 0)
  {
    var e' := Do(e, op, t);
    if e'.log != e.log {
      assert e'.log[..|e.log|] == e.log;
    }
  }

  lemma {:induction false} RunEvents(e: Engine, ops: seq<Op>, times: seq<int>)
    requires |ops| == |times| && Reboot !in ops
    ensures |Run(e, ops, times).log| >= |e.log| && Entries(Run(e, ops, times).log) >= Entries(e.log)
    decreases |ops|
  {
    if ops != [] {
      assert ops[0] in ops;
      StepEvents(e, ops[0], times[0]);
      RunEvents(Do(e, ops[0], times[0]), ops[1..], times[1..]);
    }
  }

  /** What one operation without an entry into RUNNING does to the start time and its saved copy. */
  lemma StepKeepsStart(e: Engine, op: Op, t: int)
    requires op != Reboot && Entries(Do(e, op, t).log) == Entries(e.log)
    ensures Do(e, op, t).start == e.start
    ensures || (Do(e, op, t).saved == e.saved && op != Check && |Do(e, op, t).log| == |e.log|)
            || (Do(e, op, t).saved.Some? && Do(e, op, t).saved.value.start == e.start
                && (op == Check || |Do(e, op, t).log| > |e.log|))
  {
    StepEvents(e, op, t);
  }

  lemma {:induction false} StartUntilSaved(e: Engine, ops: seq<Op>, times: seq<int>)
    requires |ops| == |times| && Reboot !in ops && e.saved.Some?
    requires Entries(Run(e, ops, times).log) == Entries(e.log)
    ensures var e' := Run(e, ops, times);
            && e'.start == e.start && e'.saved.Some?
            && e'.saved.value.start == if Check in ops || |e'.log| > |e.log| then e.start else e.saved.value.start
    decreases |ops|
  {
    if ops != [] {
      var e1 := Do(e, ops[0], times[0]);
      assert ops[0] in ops && ops == [ops[0]] + ops[1..];
      StepEvents(e, ops[0], times[0]);
      RunEvents(e1, ops[1..], times[1..]);
      StepKeepsStart(e, ops[0], times[0]);
      StartUntilSaved(e1, ops[1..], times[1..]);
    }
  }

  /**
   The start time is set after the event has saved the status. A restart brings back the
   start time of the latest run if and only if the status was saved since that run began,
   by a check or by a later event; otherwise it brings back the start time from before
   the run, or none, also while the engine is running.
   */
  lemma RestartRemembersTheStart(e: Engine, speed: int, t: int, ops: seq<Op>, times: seq<int>, t': int)
    requires e.state != RUNNING && speed > 0
    requires |ops| == |times| && Reboot !in ops
    requires Entries(Run(Do(e, Speed(Some(speed)), t), ops, times).log) == Entries(Do(e, Speed(Some(speed)), t).log)
    ensures var running := Do(e, Speed(Some(speed)), t);
            var end := Run(running, ops, times);
            var saved := Check in ops || |end.log| > |running.log|;
            && running.state == RUNNING && end.start == Some(t)
            && Restart(end, t').start == (if saved then Some(t) else e.start)
            && (Restart(end, t').start == end.start <==> saved || e.start == Some(t))
  {
    var running := Do(e, Speed(Some(speed)), t);
    EntryUnfolds(e, speed, t, running);
    StartUntilSaved(running, ops, times);
    RestartReads(Run(running, ops, times), t');
  }

  lemma EntryUnfolds(e: Engine, speed: int, t: int, running: Engine)
    requires e.state != RUNNING && speed > 0 && running == Do(e, Speed(Some(speed)), t)
    ensures running.state == RUNNING && running.start == Some(t)
    ensures running.saved.Some? && running.saved.value.start == e.start
  {
  }

  /** A restart: the status of the last save, and the events of today's file. */
  lemma RestartReads(e: Engine, t: int)
    ensures var e' := Restart(e, t);
            match e.saved
            case None =>
              && e'.state == OFF && e'.start == None && e'.stop == None && e'.hours == 0 && e'.lastMessage == t
              && e'.dayEvents == []
            case Some(s) =>
              && e'.state == s.state && e'.start == s.start && e'.stop == s.stop && e'.hours == s.hours
              && e'.lastMessage == (if s.savedAt / 86400 == t / 86400 then s.lastMessage else 0)
              && e'.dayEvents == FileOf(e.files, t / 86400) && e'.files == e.files && e'.log == e.log
  {
  }
}
