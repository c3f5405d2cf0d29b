/**
 The writer thread of the CAN interface: a bounded queue other threads put frames into,
 and a loop that paces, bursts and retries.
 */
module SocketCanWriter {
  import opened WriterLog

  const BURST_PAUSE: nat := 2000 // microseconds
  const WRITE_BUFFER_SIZE: nat := 40

  datatype BusResult = Sends | Fails | Closed

  /** One call of bus.send: the frames put before the fetch for it, the time it takes, its result. */
  datatype Write = Write(arrivals: seq<Frame>, delay: nat, result: BusResult)

  /**
   What the other threads, the clock and the bus do during one turn of the loop. The
   writes of a burst beyond the listed ones are like the last one.
   */
  datatype Turn = Turn(arrivals: seq<Frame>, later: seq<Frame>, delay: nat, first: Write, more: seq<Write>) {
    function Nth(i: nat): Write {
      if i == 0 || more == [] then first else if i <= |more| then more[i - 1] else more[|more| - 1]
    }
  }

  datatype Outcome = Running | TooManyErrors | BusClosed

  /** The state between two turns; `starved` records a burst that found the queue empty. */
  datatype State = State(h: History, held: seq<Frame>, nberr: nat, outcome: Outcome, starved: bool)

  // ---- what the loop computes ----

  /** Queue.put by other threads: a full queue turns frames away. */
  function Accept(h: History, frames: seq<Frame>, size: nat): History
    decreases |frames|
  {
    if frames == [] then h
    else
      var h' := if |h.queue| < size then h.(queue := h.queue + [frames[0]], accepted := h.accepted + [frames[0]])
          else h;
      Accept(h', frames[1..], size)
  }

  function Later(h: History, delay: nat): History { h.(now := h.now + delay) }

  /** The inner loop, with the n-th write of the turn next and `left` frames to go. */
  function Burst(h: History, frame: Frame, first: bool, left: nat, nberr: nat, turn: Turn, n: nat, size: nat): State
    requires left > 0
    decreases left
  {
    var w := turn.Nth(n);
    var h1 := Attempted(h, Attempt(frame, w.result == Sends, h.now + w.delay, first));
    match w.result
    case Closed => State(h1, [frame], nberr, BusClosed, false)
    case Fails => State(h1, [frame], nberr + 1, if nberr + 1 > MAX_ERRORS then TooManyErrors else Running, false)
    case Sends =>
      if left == 1 then State(h1, [], 0, Running, false)
      else
        var h2 := Accept(Later(h1, BURST_PAUSE), turn.Nth(n + 1).arrivals, size);
        if h2.queue == [] then State(h2, [], 0, Running, true)
        else Burst(h2.(queue := h2.queue[1..]), h2.queue[0], false, left - 1, 0, turn, n + 1, size)
  }

  /** The inner loop, one write at a time. */
  lemma BurstUnfolds(h: History, frame: Frame, first: bool, left: nat, nberr: nat, turn: Turn, n: nat, size: nat,
                     x: Attempt)
    requires left > 0 && x == Attempt(frame, turn.Nth(n).result == Sends, h.now + turn.Nth(n).delay, first)
    ensures Burst(h, frame, first, left, nberr, turn, n, size) ==
            if turn.Nth(n).result == Closed then State(Attempted(h, x), [frame], nberr, BusClosed, false)
            else if !x.ok then State(Attempted(h, x), [frame], nberr + 1,
                                     if nberr + 1 > MAX_ERRORS then TooManyErrors else Running, false)
            else if left == 1 then State(Attempted(h, x), [], 0, Running, false)
            else
              var h2 := Accept(Later(Attempted(h, x), BURST_PAUSE), turn.Nth(n + 1).arrivals, size);
              if h2.queue == [] then State(h2, [], 0, Running, true)
              else Burst(h2.(queue := h2.queue[1..]), h2.queue[0], false, left - 1, 0, turn, n + 1, size)
  {
  }

  /** last_write_time: of the last attempt, or the start of the thread. */
  function LastWrite(log: seq<Attempt>, start: int): int { if log == [] then start else log[|log| - 1].at }

  /** The sleep before a frame that opens no burst. */
  function Wait(pace: int, minInterval: nat): nat
  {
    if pace >= minInterval then 0 else minInterval - pace
  }

  function OneTurn(s: State, turn: Turn, start: int, size: nat, minInterval: nat): State {
    var h := Accept(Later(s.h, turn.delay), turn.arrivals, size);
    if s.held == [] && h.queue == [] then s.(h := h)
    else
      var (hand, rest) := Next(h, s.held);
      var h1 := Accept(h.(queue := rest), turn.later, size);
      if |h1.queue| > size - 2 then Burst(h1, hand[0], true, 5, s.nberr, turn, 0, size)
      else Burst(Later(h1, Wait(h1.now - LastWrite(h1.log, start), minInterval)), hand[0], false, 1, s.nberr, turn, 0,
                 size)
  }

  function RunTurns(s: State, turns: seq<Turn>, start: int, size: nat, minInterval: nat): State
    decreases |turns|
  {
    if turns == [] || s.outcome != Running then s
    else RunTurns(OneTurn(s, turns[0], start, size, minInterval), turns[1..], start, size, minInterval)
  }

  // ---- the thread ----

  class Writer {
    const queueSize: nat
    const minInterval: nat
    var queue: seq<Frame>
    var totalMsg: nat
    var now: int
    ghost var accepted: seq<Frame>
    ghost var log: seq<Attempt>

    constructor (queueSize: nat, minInterval: nat)
      ensures this.queueSize == queueSize && this.minInterval == minInterval
      ensures Now() == History([], [], [], now) && totalMsg == 0
    {
      this.queueSize, this.minInterval := queueSize, minInterval;
      queue, totalMsg, now, accepted, log := [], 0, 0, [], [];
    }

    ghost function Now(): History
      reads this
    {
      History(accepted, log, queue, now)
    }

    method Arrive(frames: seq<Frame>)
      modifies this`queue, this`accepted
      ensures Now() == Accept(old(Now()), frames, queueSize)
      ensures |old(queue)| <= queueSize ==>
                var taken := frames[..Min(|frames|, queueSize - |old(queue)|)];
                && queue == old(queue) + taken && accepted == old(accepted) + taken
                && log == old(log) && now == old(now) && totalMsg == old(totalMsg)
    {
      if |queue| <= queueSize {
        var taken := AcceptTakes(Now(), frames, queueSize);
      }
      for i := 0 to |frames|
        invariant log == old(log) && now == old(now) && totalMsg == old(totalMsg)
        invariant Accept(old(Now()), frames, queueSize) == Accept(Now(), frames[i..], queueSize)
      {
        assert frames[i..][1..] == frames[i + 1..];
        if |queue| < queueSize {
          queue, accepted := queue + [frames[i]], accepted + [frames[i]];
        }
      }
    }

    /** One call of bus.send, and what the history says of it. */
    method Send(frame: Frame, ghost first: bool, w: Write)
      modifies this`totalMsg, this`now, this`log
      ensures totalMsg == old(totalMsg) + 1
      ensures Now() == Attempted(old(Now()), Attempt(frame, w.result == Sends, old(now) + w.delay, first))
    {
      totalMsg, now := totalMsg + 1, now + w.delay;
      log := log + [Attempt(frame, w.result == Sends, now, first)];
    }

    /** The pause inside a burst, and a fetch that does not wait. */
    method FetchInBurst(msg: Frame, arrivals: seq<Frame>) returns (found: bool, next: Frame)
      modifies this`queue, this`now, this`accepted
      ensures var h := Accept(Later(old(Now()), BURST_PAUSE), arrivals, queueSize);
              && (found <==> h.queue != [])
              && if found then next == h.queue[0] && Now() == h.(queue := h.queue[1..]) else Now() == h
    {
      now := now + BURST_PAUSE;
      Arrive(arrivals);
      if queue == [] {
        return false, msg;
      }
      found, next, queue := true, queue[0], queue[1..];
    }

    /** The inner loop. */
    method SendBurst(frame: Frame, burst: nat, nberr0: nat, turn: Turn)
      returns (held: seq<Frame>, nberr: nat, lastWriteTime: int, outcome: Outcome, ghost starved: bool)
      requires burst > 0
      modifies this`queue, this`totalMsg, this`now, this`accepted, this`log
      ensures State(Now(), held, nberr, outcome, starved)
           == Burst(old(Now()), frame, burst == 5, burst, nberr0, turn, 0, queueSize)
      ensures totalMsg - old(totalMsg) == |log| - |old(log)| && log != [] && lastWriteTime == LastWrite(log, 0)
    {
      var msg, left, n := frame, burst, 0;
      ghost var first := burst == 5;
      held, nberr, lastWriteTime, outcome, starved := [], nberr0, now, Running, false;
      while left > 0
        invariant n >= 0 && left >= 0 && (left > 0 ==> held == [])
        invariant outcome == Running && totalMsg - old(totalMsg) == |log| - |old(log)|
        invariant left < burst ==> log != [] && lastWriteTime == LastWrite(log, 0)
        invariant Burst(old(Now()), frame, burst == 5, burst, nberr0, turn, 0, queueSize)
               == if left > 0 then Burst(Now(), msg, first, left, nberr, turn, n, queueSize)
                  else State(Now(), held, nberr, Running, starved)
        decreases left
      {
        var w := turn.Nth(n);
        ghost var h := Now();
        ghost var x := Attempt(msg, w.result == Sends, now + w.delay, first);
        ghost var s := Burst(h, msg, first, left, nberr, turn, n, queueSize);
        BurstUnfolds(h, msg, first, left, nberr, turn, n, queueSize, x);
        Send(msg, first, w);
        lastWriteTime := now;
        assert Now() == Attempted(h, x);
        if w.result == Closed {
          assert s == State(Now(), [msg], nberr, BusClosed, false);
          return [msg], nberr, lastWriteTime, BusClosed, false;
        } else if w.result == Sends {
          nberr := 0;
        } else {
          nberr, held, left := nberr + 1, [msg], 1;
          if nberr > MAX_ERRORS {
            assert s == State(Now(), held, nberr, TooManyErrors, false);
            return held, nberr, lastWriteTime, TooManyErrors, false;
          }
        }
        left, n, first := left - 1, n + 1, false;
        if left > 0 {
          var found;
          found, msg := FetchInBurst(msg, turn.Nth(n).arrivals);
          if !found {
            starved := true;
            break;
          }
        }
      }
    }

    /** The loop of the thread; a frame it still held for retry when it ends comes back with it. */
    method NRun(turns: seq<Turn>) returns (held: seq<Frame>, outcome: Outcome, ghost starved: bool)
      requires log == []
      modifies this`queue, this`totalMsg, this`now, this`accepted, this`log
      ensures var s := RunTurns(State(old(Now()), [], 0, Running, false), turns, old(now), queueSize, minInterval);
              Now() == s.h && held == s.held && outcome == s.outcome && starved == s.starved
      ensures totalMsg - old(totalMsg) == |log| - |old(log)|
    {
      ghost var start := now;
      var lastWriteTime, nberr := now, 0;
      held, outcome, starved := [], Running, false;
      ghost var s0 := State(Now(), [], 0, Running, false);
      for i := 0 to |turns|
        invariant outcome == Running && totalMsg - old(totalMsg) == |log| - |old(log)|
        invariant lastWriteTime == LastWrite(log, start)
        invariant RunTurns(s0, turns, start, queueSize, minInterval)
               == RunTurns(State(Now(), held, nberr, Running, starved), turns[i..], start, queueSize, minInterval)
      {
        assert turns[i..][1..] == turns[i + 1..];
        held, nberr, lastWriteTime, outcome, starved := Turned(held, nberr, lastWriteTime, starved, turns[i], start);
        if outcome != Running {
          return;
        }
      }
    }

    /** One turn of the loop. */
    method Turned(held0: seq<Frame>, nberr0: nat, lastWriteTime0: int, ghost starved0: bool, turn: Turn,
                  ghost start: int)
      returns (held: seq<Frame>, nberr: nat, lastWriteTime: int, outcome: Outcome, ghost starved: bool)
      requires lastWriteTime0 == LastWrite(log, start)
      modifies this`queue, this`totalMsg, this`now, this`accepted, this`log
      ensures State(Now(), held, nberr, outcome, starved)
           == OneTurn(State(old(Now()), held0, nberr0, Running, starved0), turn, start, queueSize, minInterval)
      ensures totalMsg - old(totalMsg) == |log| - |old(log)| && lastWriteTime == LastWrite(log, start)
    {
      now := now + turn.delay;
      Arrive(turn.arrivals);
      if held0 == [] && queue == [] {
        return held0, nberr0, lastWriteTime0, Running, starved0;
      }
      var hand := Fetch(held0);
      Arrive(turn.later);
      var burst := if |queue| > queueSize - 2 then 5 else 1;
      if burst == 1 {
        now := now + Wait(now - lastWriteTime0, minInterval);
      }
      held, nberr, lastWriteTime, outcome, starved := SendBurst(hand, burst, nberr0, turn);
    }

    method Fetch(held: seq<Frame>) returns (frame: Frame)
      requires held != [] || queue != []
      modifies this`queue
      ensures var (hand, rest) := Next(old(Now()), held); frame == hand[0] && Now() == old(Now()).(queue := rest)
    {
      if held != [] {
        frame := held[0];
      } else {
        frame, queue := queue[0], queue[1..];
      }
    }
  }

  // ---- what every run keeps ----

  function Min(a: nat, b: nat): nat { if a < b then a else b }

  /** Frames are accepted as long as there is room, in order and into the queue; the others are not. */
  lemma {:induction false} AcceptTakes(h: History, frames: seq<Frame>, size: nat) returns (taken: seq<Frame>)
    requires |h.queue| <= size
    ensures taken == frames[..Min(|frames|, size - |h.queue|)]
    ensures Accept(h, frames, size) == History(h.accepted + taken, h.log, h.queue + taken, h.now)
    ensures |h.queue| + |taken| <= size
    decreases |frames|
  {
    if frames == [] {
      taken := [];
      assert h.accepted + [] == h.accepted && h.queue + [] == h.queue;
    } else if |h.queue| < size {
      var more := AcceptTakes(h.(queue := h.queue + [frames[0]], accepted := h.accepted + [frames[0]]), frames[1..],
                              size);
      taken := [frames[0]] + more;
      assert h.accepted + [frames[0]] + more == h.accepted + taken && h.queue + [frames[0]] + more == h.queue + taken;
    } else {
      taken := AcceptTakes(h, frames[1..], size);
      assert taken == [];
    }
  }

  /** What a turn leaves: everything in order, or the thread has ended and nothing is lost. */
  ghost predicate Good(s: State, pause: nat, size: nat) {
    && !s.starved && |s.held| <= 1
    && Conserved(s.h.accepted, s.h.log, s.held, s.h.queue) && RetriesSame(s.h.log)
    && (s.outcome == Running ==> Between(s.h, s.held, pause, size) && s.nberr == Trailing(s.h.log))
    && (s.outcome == TooManyErrors ==> Trailing(s.h.log) == MAX_ERRORS + 1)
  }

  lemma FailureIsGood(h: History, x: Attempt, left: nat, outcome: Outcome, pause: nat, size: nat)
    requires InHand(h, x.frame, x.first, left, pause, size) && !x.ok && x.at >= h.now
    requires outcome == BusClosed || outcome == if Trailing(h.log) + 1 > MAX_ERRORS then TooManyErrors else Running
    ensures Good(State(Attempted(h, x), [x.frame], if outcome == BusClosed then Trailing(h.log)
                       else Trailing(h.log) + 1, outcome, false), pause, size)
  {
    SendFails(h, x, left, pause, size);
  }

  lemma LastOfBurstIsGood(h: History, x: Attempt, pause: nat, size: nat)
    requires InHand(h, x.frame, x.first, 1, pause, size) && x.ok && x.at >= h.now
    ensures Good(State(Attempted(h, x), [], 0, Running, false), pause, size)
  {
    SendSucceeds(h, x, 1, pause, size);
    BurstEnds(Attempted(h, x), pause, size);
  }

  lemma NextOfBurst(h: History, x: Attempt, left: nat, arrivals: seq<Frame>, pause: nat, size: nat)
      returns (h': History, frame: Frame)
    requires InHand(h, x.frame, x.first, left, pause, size) && x.ok && x.at >= h.now && left > 1 && pause <= BURST_PAUSE
    ensures var h2 := Accept(Later(Attempted(h, x), BURST_PAUSE), arrivals, size);
            h2.queue != [] && frame == h2.queue[0] && h' == h2.(queue := h2.queue[1..])
    ensures InHand(h', frame, false, left - 1, pause, size) && Trailing(h'.log) == 0
  {
    var h1 := Attempted(h, x);
    SendSucceeds(h, x, left, pause, size);
    var taken := AcceptTakes(Later(h1, BURST_PAUSE), arrivals, size);
    FetchesInBurst(h1, taken, left - 1, pause, BURST_PAUSE, size);
    var h2 := Accept(Later(h1, BURST_PAUSE), arrivals, size);
    h', frame := h2.(queue := h2.queue[1..]), h2.queue[0];
  }

  lemma {:induction false} BurstIsGood(h: History, frame: Frame, first: bool, left: nat, nberr: nat, turn: Turn,
                                       n: nat, pause: nat, size: nat, s: State)
    requires InHand(h, frame, first, left, pause, size) && nberr == Trailing(h.log) && pause <= BURST_PAUSE
    requires s == Burst(h, frame, first, left, nberr, turn, n, size)
    ensures Good(s, pause, size)
    decreases left
  {
    var x := Attempt(frame, turn.Nth(n).result == Sends, h.now + turn.Nth(n).delay, first);
    BurstUnfolds(h, frame, first, left, nberr, turn, n, size, x);
    if !x.ok {
      FailureIsGood(h, x, left, s.outcome, pause, size);
      assert s == State(Attempted(h, x), [x.frame],
                        if s.outcome == BusClosed then Trailing(h.log) else Trailing(h.log) + 1, s.outcome, false);
    } else if left == 1 {
      LastOfBurstIsGood(h, x, pause, size);
      assert s == State(Attempted(h, x), [], 0, Running, false);
    } else {
      var h', next := NextOfBurst(h, x, left, turn.Nth(n + 1).arrivals, pause, size);
      assert s == Burst(h', next, false, left - 1, 0, turn, n + 1, size);
      BurstIsGood(h', next, false, left - 1, 0, turn, n + 1, pause, size, s);
    }
  }

  function Pause(minInterval: nat): nat { if minInterval < BURST_PAUSE then minInterval else BURST_PAUSE }

  /** A turn that has a frame: what goes into the burst, and how many frames it is to send. */
  lemma TurnUnfolds(s: State, turn: Turn, start: int, size: nat, minInterval: nat)
    returns (h: History, h1: History, burst: nat, wait: nat)
    requires var q := Accept(Later(s.h, turn.delay), turn.arrivals, size).queue; s.held != [] || q != []
    ensures h == Accept(Later(s.h, turn.delay), turn.arrivals, size)
    ensures var (hand, rest) := Next(h, s.held);
            && h1 == Accept(h.(queue := rest), turn.later, size)
            && burst == (if |h1.queue| > size - 2 then 5 else 1)
            && wait == (if burst == 5 then 0 else Wait(h1.now - LastWrite(h1.log, start), minInterval))
            && OneTurn(s, turn, start, size, minInterval)
               == Burst(Later(h1, wait), hand[0], burst == 5, burst, s.nberr, turn, 0, size)
  {
    h := Accept(Later(s.h, turn.delay), turn.arrivals, size);
    var (hand, rest) := Next(h, s.held);
    h1 := Accept(h.(queue := rest), turn.later, size);
    burst := if |h1.queue| > size - 2 then 5 else 1;
    wait := if burst == 5 then 0 else Wait(h1.now - LastWrite(h1.log, start), minInterval);
  }

  lemma ArrivalsAreGood(s: State, turn: Turn, pause: nat, size: nat, h: History)
    requires Good(s, pause, size) && s.outcome == Running && h == Accept(Later(s.h, turn.delay), turn.arrivals, size)
    ensures Between(h, s.held, pause, size) && h.log == s.h.log && Good(s.(h := h), pause, size)
  {
    var arrived := AcceptTakes(Later(s.h, turn.delay), turn.arrivals, size);
    StaysBetween(s.h, s.held, arrived, turn.delay, pause, size);
  }

  lemma HandIsGood(h: History, held: seq<Frame>, later: seq<Frame>, h1: History, burst: nat, wait: nat, pause: nat,
                   size: nat)
    requires Between(h, held, pause, size) && (held != [] || h.queue != []) && size >= WRITE_BUFFER_SIZE
    requires h1 == Accept(h.(queue := Next(h, held).1), later, size)
    requires burst == if |h1.queue| > size - 2 then 5 else 1
    requires burst == 1 && h.log != [] ==> h.now + wait - h.log[|h.log| - 1].at >= pause
    ensures InHand(Later(h1, wait), Next(h, held).0[0], burst == 5, burst, pause, size) && h1.log == h.log
  {
    var taken := AcceptTakes(h.(queue := Next(h, held).1), later, size);
    TakesInHand(h, held, taken, burst, wait, pause, size);
  }

  lemma TurnIsGood(s: State, turn: Turn, start: int, size: nat, minInterval: nat)
    requires Good(s, Pause(minInterval), size) && s.outcome == Running && size >= WRITE_BUFFER_SIZE
    ensures Good(OneTurn(s, turn, start, size, minInterval), Pause(minInterval), size)
  {
    var pause, arrived := Pause(minInterval), Accept(Later(s.h, turn.delay), turn.arrivals, size);
    ArrivalsAreGood(s, turn, pause, size, arrived);
    if s.held != [] || arrived.queue != [] {
      var h, h1, burst, wait := TurnUnfolds(s, turn, start, size, minInterval);
      assert h1.log == h.log && h1.now == h.now by {
        var taken := AcceptTakes(h.(queue := Next(h, s.held).1), turn.later, size);
      }
      HandIsGood(h, s.held, turn.later, h1, burst, wait, pause, size);
      BurstIsGood(Later(h1, wait), Next(h, s.held).0[0], burst == 5, burst, s.nberr, turn, 0, pause, size,
                  OneTurn(s, turn, start, size, minInterval));
    }
  }

  lemma {:induction false} RunIsGood(s: State, turns: seq<Turn>, start: int, size: nat, minInterval: nat)
    requires Good(s, Pause(minInterval), size) && size >= WRITE_BUFFER_SIZE
    ensures Good(RunTurns(s, turns, start, size, minInterval), Pause(minInterval), size)
    decreases |turns|
  {
    if turns != [] && s.outcome == Running {
      TurnIsGood(s, turns[0], start, size, minInterval);
      RunIsGood(OneTurn(s, turns[0], start, size, minInterval), turns[1..], start, size, minInterval);
    }
  }

  /**
   Conservation: whatever the other threads and the bus do, the frames accepted are those
   sent, then the one held for retry, then the queue; a failed frame is the next one
   attempted; the thread goes on with at most 20 consecutive errors and gives up at the
   21st; a burst never finds the queue empty.
   */
  lemma WriterConserves(turns: seq<Turn>, start: int, minInterval: nat)
    ensures var s := RunTurns(State(History([], [], [], start), [], 0, Running, false), turns, start,
                              WRITE_BUFFER_SIZE, minInterval);
            && s.h.accepted == Sent(s.h.log) + (s.held + s.h.queue) && |s.held| <= 1
            && !s.starved && RetriesSame(s.h.log)
            && (s.outcome == Running ==> Trailing(s.h.log) <= 20 && (s.held != [] <==> Trailing(s.h.log) > 0))
            && (s.outcome == TooManyErrors ==> Trailing(s.h.log) == 21)
  {
    RunIsGood(State(History([], [], [], start), [], 0, Running, false), turns, start, WRITE_BUFFER_SIZE, minInterval);
  }

  /**
   Pacing: in an error-free run any n + 1 consecutive writes take at least 4 n / 5 times
   the shorter of the minimum interval and the pause inside a burst.
   */
  lemma WriterPaces(turns: seq<Turn>, start: int, minInterval: nat, a: nat, n: nat)
    requires var s := RunTurns(State(History([], [], [], start), [], 0, Running, false), turns, start,
                               WRITE_BUFFER_SIZE, minInterval);
             s.outcome == Running && AllOk(s.h.log) && a + n < |s.h.log|
    ensures var log := RunTurns(State(History([], [], [], start), [], 0, Running, false), turns, start,
                                WRITE_BUFFER_SIZE, minInterval).h.log;
            log[a + n].at - log[a].at >= 4 * n / 5 * if minInterval < 2000 then minInterval else 2000
  {
    var s0 := State(History([], [], [], start), [], 0, Running, false);
    RunIsGood(s0, turns, start, WRITE_BUFFER_SIZE, minInterval);
    var log := RunTurns(s0, turns, start, WRITE_BUFFER_SIZE, minInterval).h.log;
    AllBurstsDone(log);
    WritesArePaced(log, Pause(minInterval), a, n);
  }
}
