/**
 Progress of the writer thread: what a turn attempts and when, and that every frame that
 was accepted is sent while the bus takes what it is given.
 */
module WriterProgress {
  import opened WriterLog
  import opened SocketCanWriter

  /** The bus takes every frame of this turn. */
  predicate Healthy(turn: Turn) {
    turn.first.result == Sends && forall w :: w in turn.more ==> w.result == Sends
  }

  lemma HealthyWrites(turn: Turn, n: nat)
    requires Healthy(turn)
    ensures turn.Nth(n).result == Sends
  {
  }

  /** Nothing is taken back: what was accepted and attempted stays. */
  predicate Continues(h: History, h': History) { h.accepted <= h'.accepted && h.log <= h'.log }

  lemma BurstAttempts(h: History, frame: Frame, first: bool, left: nat, nberr: nat, turn: Turn, n: nat, size: nat)
    requires left > 0 && |h.queue| <= size
    ensures var s := Burst(h, frame, first, left, nberr, turn, n, size);
            && Continues(h, s.h) && |s.h.log| > |h.log|
            && s.h.log[|h.log|] == Attempt(frame, turn.Nth(n).result == Sends, h.now + turn.Nth(n).delay, first)
            && (left == 1 ==> |s.h.log| == |h.log| + 1)
            && (Healthy(turn) ==> s.outcome == Running && s.held == [] && |Sent(s.h.log)| > |Sent(h.log)|)
    decreases left
  {
    var x := Attempt(frame, turn.Nth(n).result == Sends, h.now + turn.Nth(n).delay, first);
    BurstUnfolds(h, frame, first, left, nberr, turn, n, size, x);
    SentAppend(h.log, x);
    if Healthy(turn) {
      HealthyWrites(turn, n);
    }
    if x.ok && left > 1 {
      var h1 := Later(Attempted(h, x), BURST_PAUSE);
      var taken := AcceptTakes(h1, turn.Nth(n + 1).arrivals, size);
      var h2 := Accept(h1, turn.Nth(n + 1).arrivals, size);
      if h2.queue != [] {
        BurstAttempts(h2.(queue := h2.queue[1..]), h2.queue[0], false, left - 1, 0, turn, n + 1, size);
      }
    }
  }

  /**
   A turn that has a frame attempts one at least: the one held, or else the first of the
   queue and what arrives. If the bus takes all of them, the thread goes on with none held.
   */
  lemma TurnAttempts(s: State, turn: Turn, start: int, size: nat, minInterval: nat)
    requires s.outcome == Running && |s.held| <= 1 && |s.h.queue| <= size && size > 0
    ensures var s', waiting := OneTurn(s, turn, start, size, minInterval), s.held + s.h.queue + turn.arrivals;
            && Continues(s.h, s'.h) && |s'.h.queue| <= size
            && (waiting == [] ==> s'.h.log == s.h.log && s'.held == [])
            && (waiting != [] ==> |s'.h.log| > |s.h.log| && s'.h.log[|s.h.log|].frame == waiting[0])
            && (Healthy(turn) ==> s'.outcome == Running)
            && (Healthy(turn) && waiting != [] ==> s'.held == [] && |Sent(s'.h.log)| > |Sent(s.h.log)|)
  {
    var h0 := Later(s.h, turn.delay);
    var taken := AcceptTakes(h0, turn.arrivals, size);
    var arrived := Accept(h0, turn.arrivals, size);
    if s.held != [] || arrived.queue != [] {
      var h, h1, burst, wait := TurnUnfolds(s, turn, start, size, minInterval);
      var (hand, rest) := Next(h, s.held);
      var later := AcceptTakes(h.(queue := rest), turn.later, size);
      BurstAttempts(Later(h1, wait), hand[0], burst == 5, burst, s.nberr, turn, 0, size);
      BurstKeepsRoom(Later(h1, wait), hand[0], burst == 5, burst, s.nberr, turn, 0, size);
    }
  }

  lemma BurstKeepsRoom(h: History, frame: Frame, first: bool, left: nat, nberr: nat, turn: Turn, n: nat, size: nat)
    requires left > 0 && |h.queue| <= size
    ensures |Burst(h, frame, first, left, nberr, turn, n, size).h.queue| <= size
    decreases left
  {
    var x := Attempt(frame, turn.Nth(n).result == Sends, h.now + turn.Nth(n).delay, first);
    BurstUnfolds(h, frame, first, left, nberr, turn, n, size, x);
    if x.ok && left > 1 {
      var h1 := Later(Attempted(h, x), BURST_PAUSE);
      var taken := AcceptTakes(h1, turn.Nth(n + 1).arrivals, size);
      var h2 := Accept(h1, turn.Nth(n + 1).arrivals, size);
      if h2.queue != [] {
        BurstKeepsRoom(h2.(queue := h2.queue[1..]), h2.queue[0], false, left - 1, 0, turn, n + 1, size);
      }
    }
  }

  /**
   A turn in which the queue does not fill up: everything that arrives is accepted, and one
   frame is attempted, not before the minimum interval since the last attempt, and not later
   than it has to be.
   */
  lemma UnhurriedTurn(s: State, turn: Turn, start: int, size: nat, minInterval: nat)
    requires s.outcome == Running && |s.held| <= 1 && s.held + s.h.queue + turn.arrivals != []
    requires |s.h.queue| + |turn.arrivals| + |turn.later| <= size - 2
    ensures var s', ready := OneTurn(s, turn, start, size, minInterval), s.h.now + turn.delay;
            var since := ready - if s.h.log == [] then start else s.h.log[|s.h.log| - 1].at;
            var wait := if since >= minInterval then 0 else minInterval - since;
            && s'.h.accepted == s.h.accepted + turn.arrivals + turn.later
            && s'.h.queue == (s.held + s.h.queue + turn.arrivals)[1..] + turn.later
            && s'.h.log == s.h.log + [Attempt((s.held + s.h.queue + turn.arrivals)[0], turn.first.result == Sends,
                                              ready + wait + turn.first.delay, false)]
            && |s'.held| <= 1
  {
    var h0 := Later(s.h, turn.delay);
    var taken := AcceptTakes(h0, turn.arrivals, size);
    assert turn.arrivals[..|turn.arrivals|] == turn.arrivals && turn.later[..|turn.later|] == turn.later;
    var h, h1, burst, wait := TurnUnfolds(s, turn, start, size, minInterval);
    var (hand, rest) := Next(h, s.held);
    var later := AcceptTakes(h.(queue := rest), turn.later, size);
    var x := Attempt(hand[0], turn.Nth(0).result == Sends, h1.now + wait + turn.Nth(0).delay, false);
    BurstUnfolds(Later(h1, wait), hand[0], false, 1, s.nberr, turn, 0, size, x);
  }

  /** All frames other threads put during a run. */
  function Offered(s: State, turns: seq<Turn>, start: int, size: nat, minInterval: nat): seq<Frame>
    decreases |turns|
  {
    if turns == [] || s.outcome != Running then []
    else
      turns[0].arrivals + (if s.held + s.h.queue + turns[0].arrivals == [] then [] else turns[0].later)
      + Offered(OneTurn(s, turns[0], start, size, minInterval), turns[1..], start, size, minInterval)
  }

  lemma IdleTurn(s: State, turn: Turn, start: int, size: nat, minInterval: nat)
    requires s.held + s.h.queue + turn.arrivals == []
    ensures OneTurn(s, turn, start, size, minInterval) == s.(h := Later(s.h, turn.delay))
  {
    assert s.held == [] && s.h.queue == [] && turn.arrivals == [];
  }

  /**
   In every run that offers no more frames than there is room for without a burst, whatever the
   bus does with them, all are accepted, in the order in which they were offered.
   */
  lemma {:induction false} NothingIsTurnedAway(s: State, turns: seq<Turn>, start: int, size: nat, minInterval: nat)
    requires |s.held| <= 1 && |s.h.queue| + |Offered(s, turns, start, size, minInterval)| <= size - 2
    ensures RunTurns(s, turns, start, size, minInterval).h.accepted
         == s.h.accepted + Offered(s, turns, start, size, minInterval)
    decreases |turns|
  {
    if turns == [] || s.outcome != Running {
      assert s.h.accepted + [] == s.h.accepted;
    } else {
      var s1 := OneTurn(s, turns[0], start, size, minInterval);
      if s.held + s.h.queue + turns[0].arrivals == [] {
        IdleTurn(s, turns[0], start, size, minInterval);
      } else {
        UnhurriedTurn(s, turns[0], start, size, minInterval);
      }
      NothingIsTurnedAway(s1, turns[1..], start, size, minInterval);
    }
  }

  /** A burst that finds frames enough, and a bus that takes them. */
  lemma BurstCount(h: History, frame: Frame, first: bool, left: nat, nberr: nat, turn: Turn, n: nat, size: nat)
    requires left > 0 && left - 1 <= |h.queue| <= size && Healthy(turn)
    ensures |Burst(h, frame, first, left, nberr, turn, n, size).h.log| == |h.log| + left
    decreases left
  {
    var x := Attempt(frame, turn.Nth(n).result == Sends, h.now + turn.Nth(n).delay, first);
    BurstUnfolds(h, frame, first, left, nberr, turn, n, size, x);
    HealthyWrites(turn, n);
    if left > 1 {
      var h1 := Later(Attempted(h, x), BURST_PAUSE);
      var taken := AcceptTakes(h1, turn.Nth(n + 1).arrivals, size);
      var h2 := Accept(h1, turn.Nth(n + 1).arrivals, size);
      BurstCount(h2.(queue := h2.queue[1..]), h2.queue[0], false, left - 1, 0, turn, n + 1, size);
    }
  }

  /** With a full queue five frames go out in one turn, the first without any wait. */
  lemma HurriedTurn(s: State, turn: Turn, start: int, size: nat, minInterval: nat)
    requires s.outcome == Running && |s.held| <= 1 && |s.h.queue| == size >= 5 && Healthy(turn)
    ensures var s' := OneTurn(s, turn, start, size, minInterval);
            |s'.h.log| == |s.h.log| + 5 && s'.h.log[|s.h.log|].at == s.h.now + turn.delay + turn.first.delay
  {
    var h0 := Later(s.h, turn.delay);
    var taken := AcceptTakes(h0, turn.arrivals, size);
    var h, h1, burst, wait := TurnUnfolds(s, turn, start, size, minInterval);
    var (hand, rest) := Next(h, s.held);
    var later := AcceptTakes(h.(queue := rest), turn.later, size);
    BurstCount(Later(h1, wait), hand[0], true, 5, s.nberr, turn, 0, size);
    BurstAttempts(Later(h1, wait), hand[0], true, 5, s.nberr, turn, 0, size);
  }

  lemma {:induction false} RunTurnsConcat(s: State, a: seq<Turn>, b: seq<Turn>, start: int, size: nat, minInterval: nat)
    ensures RunTurns(s, a + b, start, size, minInterval)
         == RunTurns(RunTurns(s, a, start, size, minInterval), b, start, size, minInterval)
    decreases |a|
  {
    if a == [] {
      assert a + b == b;
    } else if s.outcome == Running {
      assert (a + b)[1..] == a[1..] + b && (a + b)[0] == a[0];
      RunTurnsConcat(OneTurn(s, a[0], start, size, minInterval), a[1..], b, start, size, minInterval);
    }
  }

  /** What was accepted at some point is sent when there were as many turns as frames missing. */
  lemma {:induction false} AcceptedIsSent(s: State, turns: seq<Turn>, target: seq<Frame>, start: int, minInterval: nat)
    requires Good(s, Pause(minInterval), WRITE_BUFFER_SIZE) && s.outcome == Running
    requires (forall t :: t in turns ==> Healthy(t)) && target <= s.h.accepted
    requires |turns| >= |target| - |Sent(s.h.log)|
    ensures var s' := RunTurns(s, turns, start, WRITE_BUFFER_SIZE, minInterval);
            s'.outcome == Running && target <= Sent(s'.h.log)
    decreases |turns|
  {
    if turns == [] {
      SentFirst(s, target);
    } else {
      assert turns[0] in turns && forall t :: t in turns[1..] ==> t in turns;
      var s1 := OneTurn(s, turns[0], start, WRITE_BUFFER_SIZE, minInterval);
      TurnIsGood(s, turns[0], start, WRITE_BUFFER_SIZE, minInterval);
      TurnAttempts(s, turns[0], start, WRITE_BUFFER_SIZE, minInterval);
      SentGrows(s.h.log, s1.h.log);
      AcceptedIsSent(s1, turns[1..], target, start, minInterval);
    }
  }

  lemma SentFirst(s: State, target: seq<Frame>)
    requires Conserved(s.h.accepted, s.h.log, s.held, s.h.queue) && target <= s.h.accepted
    requires |target| <= |Sent(s.h.log)|
    ensures target <= Sent(s.h.log)
  {
  }

  lemma {:induction false} SentGrows(log: seq<Attempt>, log': seq<Attempt>)
    requires log <= log'
    ensures |Sent(log)| <= |Sent(log')|
    decreases |log'|
  {
    if |log'| > |log| {
      SentGrows(log, log'[..|log'| - 1]);
    } else {
      assert log == log';
    }
  }

  /**
   Progress: after any run in which the thread did not end, every frame accepted so far is
   sent within as many turns as frames wait, if the bus takes what it is given; whatever
   arrives meanwhile does not overtake them.
   */
  lemma EveryFrameIsSent(before: seq<Turn>, after: seq<Turn>, start: int, minInterval: nat)
    requires forall t :: t in after ==> Healthy(t)
    ensures var s0 := State(History([], [], [], start), [], 0, Running, false);
            var s := RunTurns(s0, before, start, WRITE_BUFFER_SIZE, minInterval);
            var s' := RunTurns(s0, before + after, start, WRITE_BUFFER_SIZE, minInterval);
            s.outcome == Running && |after| >= |s.held| + |s.h.queue| ==>
              s'.outcome == Running && s.h.accepted <= Sent(s'.h.log)
  {
    var s0 := State(History([], [], [], start), [], 0, Running, false);
    var s := RunTurns(s0, before, start, WRITE_BUFFER_SIZE, minInterval);
    RunIsGood(s0, before, start, WRITE_BUFFER_SIZE, minInterval);
    RunTurnsConcat(s0, before, after, start, WRITE_BUFFER_SIZE, minInterval);
    if s.outcome == Running && |after| >= |s.held| + |s.h.queue| {
      AcceptedIsSent(s, after, s.h.accepted, start, minInterval);
    }
  }
}
