/**
 The iKonvert command handshake: a command thread that arms an event and blocks on a
 semaphore, and the reader thread whose callbacks match the event and release it. Every
 access to a shared variable is a step of its own.
 */
module IKonvertHandshake {
  datatype Event = NoEvent | WaitMsg | WaitConn | WaitAckNak
  datatype IkState = Idle | Ready | Connected
  datatype Kind = NotConn | Status | Unknown | Ack | Nak | Nmea
  datatype CmdResult = NoResult | AckResult | NakResult

  /** Where the reader is in a callback. */
  datatype Reader =
    | Reading
    | AtNmea                 // process_nmea, before the test of _ikstate
    | AtStatus(kind: Kind)   // process_status, before _ikstate is set
    | AtTest(kind: Kind)     // before the test of _wait_event
    | AtResult(kind: Kind)   // process_acknak, before _cmd_result is set
    | AtClear                // before _wait_event is cleared
    | AtRelease              // before the semaphore is released

  /** Where a command thread is. */
  datatype Command =
    | Free
    | AtReset(wait: Event)   // send_loc_cmd, before _cmd_result is reset
    | AtArm(wait: Event)     // before _wait_event is set
    | Blocked(wait: Event)   // in acquire
    | AtResultCheck          // woken from an ACK wait, before _cmd_result is read

  datatype State = State(ik: IkState, event: Event, permits: nat, result: CmdResult, reader: Reader,
                         commands: seq<Command>)

  datatype Step =
    | Receive(kind: Kind)
    | ReaderStep
    | CallWaitStatus(i: nat)
    | CallSend(i: nat, waitAck: bool)
    | EndStop(i: nat)        // stop_communication goes back to IKIDLE
    | CommandStep(i: nat)

  // ---- the reader ----

  function Dispatch(kind: Kind): Reader {
    match kind
    case Ack => AtTest(kind)
    case Nak => AtTest(kind)
    case Nmea => AtNmea
    case _ => AtStatus(kind)
  }

  predicate Matches(kind: Kind, event: Event) {
    match kind
    case NotConn => event == WaitMsg
    case Ack => event == WaitAckNak
    case Nak => event == WaitAckNak
    case _ => event == WaitConn || event == WaitMsg
  }

  function AfterTest(kind: Kind, event: Event): Reader {
    if !Matches(kind, event) then Reading
    else if kind == Ack || kind == Nak then AtResult(kind)
    else AtClear
  }

  function ReaderDoes(s: State): State
    requires s.reader != Reading
  {
    match s.reader
    case AtNmea => s.(reader := if s.ik == Connected then Reading else AtStatus(Nmea))
    case AtStatus(kind) => s.(ik := if kind == NotConn then Ready else Connected, reader := AtTest(kind))
    case AtTest(kind) => s.(reader := AfterTest(kind, s.event))
    case AtResult(kind) => s.(result := if kind == Ack then AckResult else NakResult, reader := AtClear)
    case AtClear => s.(event := NoEvent, reader := AtRelease)
    case AtRelease => s.(permits := s.permits + 1, reader := Reading)
  }

  // ---- command threads ----

  function CommandDoes(s: State, i: nat): State
    requires i < |s.commands| && CommandCan(s.commands[i], s.permits)
  {
    match s.commands[i]
    case AtReset(wait) => s.(result := NoResult, commands := s.commands[i := AtArm(wait)])
    case AtArm(wait) => s.(event := wait, commands := s.commands[i := Blocked(wait)])
    case Blocked(wait) =>
      s.(permits := s.permits - 1, commands := s.commands[i := if wait == WaitAckNak then AtResultCheck else Free])
    case AtResultCheck => s.(commands := s.commands[i := Free])
  }

  predicate CommandCan(c: Command, permits: nat) {
    c != Free && (c.Blocked? ==> permits > 0)
  }

  predicate Enabled(s: State, step: Step) {
    match step
    case Receive(_) => s.reader == Reading
    case ReaderStep => s.reader != Reading
    case CallWaitStatus(i) => i < |s.commands| && s.commands[i] == Free
    case CallSend(i, _) => i < |s.commands| && s.commands[i] == Free
    case EndStop(i) => i < |s.commands| && s.commands[i] == Free
    case CommandStep(i) => i < |s.commands| && CommandCan(s.commands[i], s.permits)
  }

  function Do(s: State, step: Step): State
    requires Enabled(s, step)
  {
    match step
    case Receive(kind) => s.(reader := Dispatch(kind))
    case ReaderStep => ReaderDoes(s)
    case CallWaitStatus(i) => s.(commands := s.commands[i := AtArm(WaitMsg)])
    case CallSend(i, waitAck) => s.(commands := s.commands[i := AtReset(if waitAck then WaitAckNak else WaitMsg)])
    case EndStop(i) => s.(ik := Idle)
    case CommandStep(i) => CommandDoes(s, i)
  }

  // ---- one command thread ----

  /** Permits, an armed event, and a release under way. */
  function Tokens(s: State): nat {
    s.permits + (if s.event != NoEvent then 1 else 0) + (if s.reader == AtRelease then 1 else 0)
  }

  predicate Inv(s: State) {
    && |s.commands| == 1
    && var c := s.commands[0];
       && Tokens(s) == (if c.Blocked? then 1 else 0)
       && (c.Blocked? || c.AtArm? || c.AtReset? ==> c.wait == WaitMsg || c.wait == WaitAckNak)
       && (c.Blocked? && s.event != NoEvent ==> s.event == c.wait)
       && (s.reader.AtResult? ==> s.event == WaitAckNak && (s.reader.kind == Ack || s.reader.kind == Nak))
       && (s.reader.AtClear? ==> s.event != NoEvent && (s.event == WaitAckNak ==> s.result != NoResult))
       && (c.Blocked? && c.wait == WaitAckNak && s.event == NoEvent ==> s.result != NoResult)
       && (c.AtResultCheck? ==> s.result != NoResult)
  }

  lemma StepKeepsInv(s: State, step: Step)
    requires Inv(s) && Enabled(s, step)
    ensures Inv(Do(s, step))
  {
  }

  ghost predicate EnabledRun(s: State, steps: seq<Step>)
    decreases |steps|
  {
    steps == [] || (Enabled(s, steps[0]) && EnabledRun(Do(s, steps[0]), steps[1..]))
  }

  function Run(s: State, steps: seq<Step>): State
    requires EnabledRun(s, steps)
    decreases |steps|
  {
    if steps == [] then s else Run(Do(s, steps[0]), steps[1..])
  }

  const START := State(Idle, NoEvent, 0, NoResult, Reading, [Free])

  lemma {:induction false} RunKeepsInv(s: State, steps: seq<Step>)
    requires Inv(s) && EnabledRun(s, steps)
    ensures Inv(Run(s, steps))
    decreases |steps|
  {
    if steps != [] {
      StepKeepsInv(s, steps[0]);
      RunKeepsInv(Do(s, steps[0]), steps[1..]);
    }
  }

  /**
   Over every interleaving of one command thread with the reader: there is never more than
   one of a permit, an armed event and a release under way; a blocked thread has exactly
   one of them, and any other none, so that no permit is left for a later wait; a thread
   woken from an ACK wait finds a result.
   */
  lemma HandshakeIsSafe(steps: seq<Step>)
    requires EnabledRun(START, steps)
    ensures var s := Run(START, steps);
            && |s.commands| == 1 && Tokens(s) <= 1
            && (Tokens(s) == 1 <==> s.commands[0].Blocked?)
            && (s.commands[0] == AtResultCheck ==> s.result != NoResult)
  {
    RunKeepsInv(START, steps);
  }

  /** Steps of the reader with one message, nobody else moving. */
  function Callback(s: State): State
    requires s.reader != Reading
    decreases match s.reader
              case AtNmea => 6 case AtStatus(_) => 5 case AtTest(_) => 4
              case AtResult(_) => 3 case AtClear => 2 case AtRelease => 1
  {
    var s' := ReaderDoes(s);
    if s'.reader == Reading then s' else Callback(s')
  }

  /** What is left of a callback once the event has matched. */
  lemma CallbackEnds(s: State)
    ensures s.reader == AtClear ==> Callback(s) == s.(event := NoEvent, permits := s.permits + 1, reader := Reading)
    ensures s.reader.AtResult? ==>
              Callback(s) == s.(result := if s.reader.kind == Ack then AckResult else NakResult,
                                event := NoEvent, permits := s.permits + 1, reader := Reading)
    decreases s.reader.AtResult?
  {
    if s.reader.AtResult? {
      CallbackEnds(s.(result := if s.reader.kind == Ack then AckResult else NakResult, reader := AtClear));
    } else if s.reader == AtClear {
      assert Callback(s.(event := NoEvent, reader := AtRelease))
          == s.(event := NoEvent, permits := s.permits + 1, reader := Reading);
    }
  }

  /** A callback that comes to the test of the event releases the semaphore or leaves. */
  lemma CallbackFromTest(s: State, kind: Kind)
    requires s.reader == AtTest(kind)
    ensures var s' := Callback(s);
            s'.reader == Reading && s'.ik == s.ik && s'.permits == s.permits + if Matches(kind, s.event) then 1 else 0
  {
    CallbackEnds(s.(reader := AfterTest(kind, s.event)));
  }

  /**
   A blocked thread is woken by a message if and only if it matches its event; an NMEA
   message counts as a status only while the state is not connected.
   */
  lemma MatchingMessageWakes(s: State, kind: Kind)
    requires Inv(s) && s.commands[0].Blocked? && s.permits == 0 && s.reader == Reading
    ensures var s' := Callback(s.(reader := Dispatch(kind)));
            && s'.reader == Reading && s.event == s.commands[0].wait
            && (s'.permits == 1 <==> Matches(kind, s.event) && (kind == Nmea ==> s.ik != Connected))
  {
    var s1 := s.(reader := Dispatch(kind));
    var s2 := s1.(reader := AtStatus(kind));
    var s3 := s2.(ik := if kind == NotConn then Ready else Connected, reader := AtTest(kind));
    assert Callback(s2) == Callback(s3);
    CallbackFromTest(s3, kind);
    CallbackFromTest(s.(reader := AtTest(kind)), kind);
  }

  /** Whether a message of this kind answers the event, in the coupler state in which it arrives. */
  predicate Answers(kind: Kind, event: Event, ik: IkState) {
    match kind
    case NotConn => event == WaitMsg
    case Status => event == WaitConn || event == WaitMsg
    case Unknown => event == WaitConn || event == WaitMsg
    case Nmea => ik != Connected && (event == WaitConn || event == WaitMsg)
    case Ack => event == WaitAckNak
    case Nak => event == WaitAckNak
  }

  /**
   What the callback of a message leaves, nobody else moving. The state is READY after
   NOT_CONN and CONNECTED after every other status and after data; an ACK or NAK leaves it
   alone. If the message answers the armed event the event is cleared and the semaphore
   released, and an ACK or NAK leaves its result; otherwise nothing else changes.
   */
  lemma CallbackOutcome(s: State, kind: Kind)
    requires s.reader == Reading
    ensures var s' := Callback(s.(reader := Dispatch(kind)));
            && s'.reader == Reading && s'.commands == s.commands
            && s'.ik == (match kind
                         case NotConn => Ready
                         case Ack => s.ik
                         case Nak => s.ik
                         case _ => Connected)
            && (if Answers(kind, s.event, s.ik) then s'.event == NoEvent && s'.permits == s.permits + 1
                else s'.event == s.event && s'.permits == s.permits)
            && s'.result == (if Answers(kind, s.event, s.ik) && kind == Ack then AckResult
                             else if Answers(kind, s.event, s.ik) && kind == Nak then NakResult else s.result)
  {
    var s1 := s.(reader := Dispatch(kind));
    CallbackUnfolds(s1);
    if kind == Ack || kind == Nak {
      TestOutcome(s1, kind);
    } else if !(kind == Nmea && s.ik == Connected) {
      var s2 := s.(reader := AtStatus(kind));
      CallbackUnfolds(s2);
      TestOutcome(ReaderDoes(s2), kind);
    }
  }

  /** From the test of the event on. */
  lemma TestOutcome(s: State, kind: Kind)
    requires s.reader == AtTest(kind)
    ensures var s' := Callback(s);
            var answered := match kind
                            case NotConn => s.event == WaitMsg
                            case Ack => s.event == WaitAckNak
                            case Nak => s.event == WaitAckNak
                            case _ => s.event == WaitConn || s.event == WaitMsg;
            s' == s.(reader := Reading, event := if answered then NoEvent else s.event,
                     permits := if answered then s.permits + 1 else s.permits,
                     result := if answered && kind == Ack then AckResult
                               else if answered && kind == Nak then NakResult else s.result)
  {
    CallbackUnfolds(s);
    CallbackEnds(s.(reader := AfterTest(kind, s.event)));
  }

  /**
   What a command thread waits for: wait_status and a command without wait for a message,
   a command that wants an answer for an ACK or NAK, of which none is left from before.
   */
  lemma CommandWaitsFor(s: State, waitAck: bool)
    requires Inv(s) && s.commands[0] == Free
    ensures var s1 := Do(s, CallWaitStatus(0));
            && Enabled(s1, CommandStep(0))
            && Do(s1, CommandStep(0)) == s.(event := WaitMsg, commands := [Blocked(WaitMsg)])
    ensures var event := if waitAck then WaitAckNak else WaitMsg;
            var s1 := Do(s, CallSend(0, waitAck));
            && Enabled(s1, CommandStep(0)) && Enabled(Do(s1, CommandStep(0)), CommandStep(0))
            && Do(Do(s1, CommandStep(0)), CommandStep(0))
               == s.(event := event, result := NoResult, commands := [Blocked(event)])
  {
  }

  // ---- a message that comes too early ----

  /** Before the event is armed, a callback has nobody to wake. */
  lemma CallbackBeforeArming(s: State, kind: Kind)
    requires Inv(s) && s.commands[0].AtArm? && s.reader == Reading
    ensures var s' := Callback(s.(reader := Dispatch(kind)));
            s'.reader == Reading && s'.event == NoEvent && s'.permits == 0 && s'.commands == s.commands
  {
    var s2 := s.(reader := AtStatus(kind));
    var s3 := s2.(ik := if kind == NotConn then Ready else Connected, reader := AtTest(kind));
    assert Callback(s2) == Callback(s3) == s3.(reader := Reading);
    assert Callback(s.(reader := AtTest(kind))) == s;
  }

  /** Blocked on an armed event, and no callback under way that matches it. */
  predicate Waiting(s: State, wait: Event) {
    && s.commands == [Blocked(wait)] && s.event == wait && wait != NoEvent && s.permits == 0
    && (match s.reader
        case Reading => true
        case AtNmea => !Matches(Nmea, wait)
        case AtStatus(kind) => !Matches(kind, wait)
        case AtTest(kind) => !Matches(kind, wait)
        case _ => false)
  }

  lemma {:induction false} WaitsOn(s: State, wait: Event, steps: seq<Step>)
    requires Waiting(s, wait) && EnabledRun(s, steps)
    requires forall x :: x in steps && x.Receive? ==> !Matches(x.kind, wait)
    ensures Waiting(Run(s, steps), wait)
    decreases |steps|
  {
    if steps != [] {
      assert steps[0] in steps;
      WaitsOn(Do(s, steps[0]), wait, steps[1..]);
    }
  }

  /**
   A message that arrives after the command was written but before the event is armed is
   lost, also when it is the answer: the thread then blocks, and through every run it
   stays blocked until another message of the kind it waits for arrives.
   */
  lemma EarlyMessageIsLost(s: State, kind: Kind, steps: seq<Step>)
    requires Inv(s) && s.commands[0].AtArm? && s.reader == Reading
    requires var s1 := Callback(s.(reader := Dispatch(kind)));
             |s1.commands| == 1 && CommandCan(s1.commands[0], s1.permits) && EnabledRun(CommandDoes(s1, 0), steps)
    requires forall x :: x in steps && x.Receive? ==> !Matches(x.kind, s.commands[0].wait)
    ensures var s' := Run(CommandDoes(Callback(s.(reader := Dispatch(kind))), 0), steps);
            s'.commands == [Blocked(s.commands[0].wait)] && s'.permits == 0
  {
    CallbackBeforeArming(s, kind);
    var s2 := CommandDoes(Callback(s.(reader := Dispatch(kind))), 0);
    assert s2.commands == [Blocked(s.commands[0].wait)];
    WaitsOn(s2, s.commands[0].wait, steps);
  }

  /** The start with n command threads. */
  function StartWith(n: nat): State { START.(commands := seq(n, _ => Free)) }

  /** A blocked thread has something that will wake it, or an event armed for it. */
  predicate NobodyStuck(s: State) {
    (exists c :: c in s.commands && c.Blocked?) ==> Tokens(s) > 0
  }

  /**
   With more than one command thread the handshake breaks: two arm the event, one release
   wakes one of them, and the other is blocked with nothing left to wake it.
   */
  lemma TwoCommandsLoseAWakeup(n: nat) returns (steps: seq<Step>)
    requires n >= 2
    ensures EnabledRun(StartWith(n), steps)
    ensures var s := Run(StartWith(n), steps);
            |s.commands| == n && s.commands[1].Blocked? && Tokens(s) == 0
  {
    var s0 := StartWith(n);
    var s1 := Do(s0, CallWaitStatus(0));
    var s2 := Do(s1, CallWaitStatus(1));
    var s3 := Do(s2, CommandStep(0));
    var s4 := Do(s3, CommandStep(1));
    var s5 := Do(s4, Receive(Status));
    var s6 := Do(Do(Do(Do(s5, ReaderStep), ReaderStep), ReaderStep), ReaderStep);
    var s7 := Do(s6, CommandStep(0));
    var r: seq<Step> := [CommandStep(0)];
    RunStep(s6, CommandStep(0), []);
    RunStep(Do(Do(Do(s5, ReaderStep), ReaderStep), ReaderStep), ReaderStep, [CommandStep(0)] + []);
    RunStep(Do(Do(s5, ReaderStep), ReaderStep), ReaderStep, [ReaderStep] + ([CommandStep(0)] + []));
    RunStep(Do(s5, ReaderStep), ReaderStep, [ReaderStep] + ([ReaderStep] + ([CommandStep(0)] + [])));
    var rest := [ReaderStep] + ([ReaderStep] + ([ReaderStep] + ([CommandStep(0)] + [])));
    RunStep(s5, ReaderStep, rest);
    var rest5 := [ReaderStep] + rest;
    RunStep(s4, Receive(Status), rest5);
    var rest4 := [Receive(Status)] + rest5;
    RunStep(s3, CommandStep(1), rest4);
    var rest3 := [CommandStep(1)] + rest4;
    RunStep(s2, CommandStep(0), rest3);
    var rest2 := [CommandStep(0)] + rest3;
    RunStep(s1, CallWaitStatus(1), rest2);
    RunStep(s0, CallWaitStatus(0), [CallWaitStatus(1)] + rest2);
    steps := [CallWaitStatus(0)] + ([CallWaitStatus(1)] + rest2);
  }

  lemma {:induction false} NoCommands(s: State, steps: seq<Step>)
    requires s.commands == [] && EnabledRun(s, steps)
    ensures Run(s, steps).commands == []
    decreases |steps|
  {
    if steps != [] {
      NoCommands(Do(s, steps[0]), steps[1..]);
    }
  }

  /** In every run nobody is stuck, if and only if there is at most one command thread. */
  lemma SafeIffAlone(n: nat)
    ensures (forall steps :: EnabledRun(StartWith(n), steps) ==> NobodyStuck(Run(StartWith(n), steps))) <==> n <= 1
  {
    if n >= 2 {
      var steps := TwoCommandsLoseAWakeup(n);
      var s := Run(StartWith(n), steps);
      assert s.commands[1] in s.commands;
    } else {
      forall steps | EnabledRun(StartWith(n), steps) ensures NobodyStuck(Run(StartWith(n), steps)) {
        if n == 1 {
          assert StartWith(1) == START;
          HandshakeIsSafe(steps);
        } else {
          NoCommands(StartWith(0), steps);
        }
      }
    }
  }

  lemma RunStep(s: State, step: Step, rest: seq<Step>)
    requires Enabled(s, step) && EnabledRun(Do(s, step), rest)
    ensures EnabledRun(s, [step] + rest) && Run(s, [step] + rest) == Run(Do(s, step), rest)
  {
    assert ([step] + rest)[1..] == rest;
  }

  // ---- the coupler object ----

  class Coupler {
    var ikstate: IkState
    var waitEvent: Event
    var permits: nat
    var cmdResult: CmdResult

    constructor ()
      ensures Now(Reading, [Free]) == START
    {
      ikstate, waitEvent, permits, cmdResult := Idle, NoEvent, 0, NoResult;
    }

    ghost function Now(reader: Reader, commands: seq<Command>): State
      reads this
    {
      State(ikstate, waitEvent, permits, cmdResult, reader, commands)
    }

    /** process_status without interruption */
    method ProcessStatus(kind: Kind, ghost commands: seq<Command>)
      requires kind != Ack && kind != Nak
      modifies this
      ensures Now(Reading, commands) == Callback(old(Now(AtStatus(kind), commands)))
      ensures ikstate == (if kind == NotConn then Ready else Connected) && cmdResult == old(cmdResult)
      ensures var answered := old(waitEvent) == WaitMsg || (kind != NotConn && old(waitEvent) == WaitConn);
              if answered then waitEvent == NoEvent && permits == old(permits) + 1
              else waitEvent == old(waitEvent) && permits == old(permits)
    {
      CallbackUnfolds(Now(AtStatus(kind), commands));
      if kind == NotConn {
        ikstate := Ready;
        CallbackUnfolds(Now(AtTest(kind), commands));
        CallbackEnds(Now(AtClear, commands));
        if waitEvent == WaitMsg {
          waitEvent := NoEvent;
          permits := permits + 1;
        }
      } else {
        if ikstate != Connected {
          ikstate := Connected;
        }
        CallbackUnfolds(Now(AtTest(kind), commands));
        CallbackEnds(Now(AtClear, commands));
        if waitEvent == WaitConn || waitEvent == WaitMsg {
          waitEvent := NoEvent;
          permits := permits + 1;
        }
      }
    }

    /** process_acknak without interruption */
    method ProcessAcknak(kind: Kind, ghost commands: seq<Command>)
      requires kind == Ack || kind == Nak
      modifies this
      ensures Now(Reading, commands) == Callback(old(Now(AtTest(kind), commands)))
      ensures ikstate == old(ikstate)
      ensures if old(waitEvent) == WaitAckNak
              then waitEvent == NoEvent && permits == old(permits) + 1
                   && cmdResult == if kind == Ack then AckResult else NakResult
              else waitEvent == old(waitEvent) && permits == old(permits) && cmdResult == old(cmdResult)
    {
      CallbackUnfolds(Now(AtTest(kind), commands));
      CallbackEnds(Now(AtResult(kind), commands));
      if waitEvent == WaitAckNak {
        cmdResult := if kind == Ack then AckResult else NakResult;
        waitEvent := NoEvent;
        permits := permits + 1;
      }
    }
  }

  lemma CallbackUnfolds(s: State)
    requires s.reader != Reading
    ensures Callback(s) == if ReaderDoes(s).reader == Reading then ReaderDoes(s) else Callback(ReaderDoes(s))
  {
  }
}
