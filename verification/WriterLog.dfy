/** The history of a paced, retrying writer: what was attempted, when, and with what result. */
module WriterLog {
  type Frame = nat

  /**
   One call of bus.send: when it was over, whether it succeeded, and whether it was the
   first of a burst, which is sent without waiting.
   */
  datatype Attempt = Attempt(frame: Frame, ok: bool, at: int, first: bool)

  function Sent(log: seq<Attempt>): seq<Frame> {
    if log == [] then []
    else Sent(log[..|log| - 1]) + if log[|log| - 1].ok then [log[|log| - 1].frame] else []
  }

  /** Consecutive errors at the end. */
  function Trailing(log: seq<Attempt>): nat {
    if log == [] || log[|log| - 1].ok then 0 else Trailing(log[..|log| - 1]) + 1
  }

  lemma SentAppend(log: seq<Attempt>, x: Attempt)
    ensures Sent(log + [x]) == Sent(log) + (if x.ok then [x.frame] else [])
    ensures Trailing(log + [x]) == if x.ok then 0 else Trailing(log) + 1
  {
    assert (log + [x])[..|log|] == log;
  }

  /** Nothing lost, nothing duplicated, nothing overtaken. */
  predicate Conserved(accepted: seq<Frame>, log: seq<Attempt>, held: seq<Frame>, queue: seq<Frame>) {
    accepted == Sent(log) + (held + queue)
  }

  /** A failed frame is the next one that is attempted. */
  ghost predicate RetriesSame(log: seq<Attempt>) {
    forall i, j :: 0 <= i < j < |log| && j == i + 1 && !log[i].ok ==> log[j].frame == log[i].frame
  }

  /** At no point were there more than `limit` consecutive errors. */
  predicate ErrorsBounded(log: seq<Attempt>, limit: nat) {
    Trailing(log) <= limit && (log == [] || ErrorsBounded(log[..|log| - 1], limit))
  }

  lemma ErrorsAppend(log: seq<Attempt>, x: Attempt, limit: nat)
    requires ErrorsBounded(log, limit)
    ensures ErrorsBounded(log + [x], limit) <==> Trailing(log + [x]) <= limit
  {
    assert (log + [x])[..|log|] == log;
  }

  // ---- pacing ----

  /** Only the first frame of a burst follows the write before it without a pause. */
  ghost predicate Spaced(log: seq<Attempt>, pause: nat) {
    forall i, j :: 0 <= i < j < |log| && j == i + 1 ==> log[j].at - log[i].at >= if log[j].first then 0 else pause
  }

  predicate AllOk(log: seq<Attempt>) { forall x :: x in log ==> x.ok }

  /** A burst runs 5 frames. */
  predicate BurstsOfFive(log: seq<Attempt>) {
    && (forall i :: 0 <= i < |log| && log[i].first ==> i + 5 <= |log|)
    && (forall i, j :: 0 <= i < j < |log| && log[i].first && j < i + 5 ==> !log[j].first)
  }

  /**
   In an error-free run any k consecutive writes take at least 4 pauses in 5.
   */
  lemma {:induction false} WritesArePaced(log: seq<Attempt>, pause: nat, a: nat, n: nat)
    requires Spaced(log, pause) && BurstsOfFive(log) && a + n < |log|
    ensures log[a + n].at - log[a].at >= 4 * n / 5 * pause
    decreases n
  {
    if n > 0 {
      if !log[a + 1].first {
        WritesArePaced(log, pause, a + 1, n - 1);
        Pauses(4 * n / 5, 4 * (n - 1) / 5, 1, pause);
      } else if n <= 5 {
        AfterFirst(log, pause, a + 1, n - 1);
        assert log[a + 1].at - log[a].at >= 0;
        Pauses(4 * n / 5, n - 1, 0, pause);
      } else {
        AfterFirst(log, pause, a + 1, 4);
        assert log[a + 1].at - log[a].at >= 0;
        WritesArePaced(log, pause, a + 5, n - 5);
        Pauses(4 * n / 5, 4 * (n - 5) / 5, 4, pause);
      }
    }
  }

  lemma {:induction false} AfterFirst(log: seq<Attempt>, pause: nat, i: nat, n: nat)
    requires Spaced(log, pause) && BurstsOfFive(log) && i + n < |log| && n <= 4 && log[i].first
    ensures log[i + n].at - log[i].at >= n * pause
    decreases n
  {
    if n > 0 {
      AfterFirst(log, pause, i, n - 1);
      assert !log[i + n].first;
      Pauses(n, n - 1, 1, pause);
    }
  }

  lemma Pauses(x: nat, y: nat, z: nat, pause: nat)
    requires x <= y + z
    ensures x * pause <= y * pause + z * pause
  {
    assert (y + z) * pause == y * pause + z * pause;
    assert (y + z - x) * pause >= 0;
    assert (y + z) * pause == x * pause + (y + z - x) * pause;
  }

  // ---- one more attempt ----

  /** Bursts run 5 frames, but for `left` frames the last one still has to send. */
  predicate BurstsSoFar(log: seq<Attempt>, left: nat) {
    AllOk(log) ==>
      (forall i :: 0 <= i < |log| && log[i].first ==> i + 5 <= |log| + left)
      && (forall i, j :: 0 <= i < j < |log| && log[i].first && j < i + 5 ==> !log[j].first)
  }

  lemma AllBurstsDone(log: seq<Attempt>)
    requires BurstsSoFar(log, 0) && AllOk(log)
    ensures BurstsOfFive(log)
  {
  }

  lemma BurstsAppend(log: seq<Attempt>, x: Attempt, left: nat)
    requires if x.first then left == 5 && BurstsSoFar(log, 0) else left > 0 && BurstsSoFar(log, left)
    ensures BurstsSoFar(log + [x], left - 1)
  {
    var log' := log + [x];
    if AllOk(log') {
      assert forall y :: y in log ==> y in log';
      assert AllOk(log);
    }
  }

  /** The frame in hand is the one that failed last, if that is what happened last. */
  predicate Follows(log: seq<Attempt>, frame: Frame) {
    log != [] && !log[|log| - 1].ok ==> frame == log[|log| - 1].frame
  }

  predicate Waited(log: seq<Attempt>, at: int, first: bool, pause: nat) {
    log != [] ==> at - log[|log| - 1].at >= if first then 0 else pause
  }

  /** What every attempt keeps of the history. */
  ghost predicate Orderly(log: seq<Attempt>, pause: nat, left: nat) {
    RetriesSame(log) && Spaced(log, pause) && BurstsSoFar(log, left)
  }

  lemma OrderlyAppend(log: seq<Attempt>, x: Attempt, pause: nat, left: nat)
    requires Orderly(log, pause, if x.first then 0 else left) && Follows(log, x.frame)
             && Waited(log, x.at, x.first, pause)
    requires left > 0 && (x.first ==> left == 5)
    ensures Orderly(log + [x], pause, left - 1)
  {
    BurstsAppend(log, x, left);
  }

  lemma NothingLeft(log: seq<Attempt>, pause: nat, left: nat)
    requires Orderly(log, pause, 0)
    ensures Orderly(log, pause, left)
  {
  }

  lemma AfterAnError(log: seq<Attempt>, pause: nat, left: nat)
    requires Orderly(log, pause, left) && Trailing(log) > 0
    ensures Orderly(log, pause, 0)
  {
    assert log[|log| - 1] in log;
  }

  // ---- the writer between two attempts ----

  /** What was accepted, what was attempted, what waits, and the time. */
  datatype History = History(accepted: seq<Frame>, log: seq<Attempt>, queue: seq<Frame>, now: int)

  const MAX_ERRORS: nat := 20

  /** No burst is running; a frame is held if and only if the last attempt failed. */
  ghost predicate Between(h: History, held: seq<Frame>, pause: nat, size: nat) {
    && |held| <= 1 && |h.queue| <= size
    && Conserved(h.accepted, h.log, held, h.queue)
    && Orderly(h.log, pause, 0) && ErrorsBounded(h.log, MAX_ERRORS)
    && (held != [] <==> Trailing(h.log) > 0) && (held != [] ==> Follows(h.log, held[0]))
    && (h.log != [] ==> h.log[|h.log| - 1].at <= h.now)
  }

  /** A frame is in hand, the first of a burst or not, and with it `left` are to be sent. */
  ghost predicate InHand(h: History, frame: Frame, first: bool, left: nat, pause: nat, size: nat) {
    && |h.queue| <= size && 0 < left <= |h.queue| + 1 && (first ==> left == 5)
    && Conserved(h.accepted, h.log, [frame], h.queue)
    && Orderly(h.log, pause, if first then 0 else left) && ErrorsBounded(h.log, MAX_ERRORS)
    && Follows(h.log, frame) && Waited(h.log, h.now, first, pause)
  }

  /** A frame was sent, and `left` more are to be sent. */
  ghost predicate JustSent(h: History, left: nat, pause: nat, size: nat) {
    && left <= |h.queue| <= size
    && Conserved(h.accepted, h.log, [], h.queue)
    && Orderly(h.log, pause, left) && ErrorsBounded(h.log, MAX_ERRORS)
    && h.log != [] && h.log[|h.log| - 1].ok && h.log[|h.log| - 1].at == h.now
  }

  function Attempted(h: History, x: Attempt): History { h.(log := h.log + [x], now := x.at) }

  /** Frames that arrive go behind what is in hand and in the queue. */
  lemma Regroup(sent: seq<Frame>, held: seq<Frame>, queue: seq<Frame>, hand: seq<Frame>, queue': seq<Frame>,
                taken: seq<Frame>)
    requires held + (queue + taken) == hand + queue'
    ensures sent + (held + queue) + taken == sent + (hand + queue')
  {
    assert sent + (held + queue) + taken == sent + (held + (queue + taken));
  }

  lemma SentMoves(sent: seq<Frame>, frame: Frame, queue: seq<Frame>)
    ensures sent + ([frame] + queue) == sent + [frame] + ([] + queue)
  {
  }

  lemma SendSucceeds(h: History, x: Attempt, left: nat, pause: nat, size: nat)
    requires InHand(h, x.frame, x.first, left, pause, size) && x.ok && x.at >= h.now
    ensures JustSent(Attempted(h, x), left - 1, pause, size)
  {
    SentMoves(Sent(h.log), x.frame, h.queue);
    SentAppend(h.log, x);
    OrderlyAppend(h.log, x, pause, left);
    ErrorsAppend(h.log, x, MAX_ERRORS);
  }

  lemma SendFails(h: History, x: Attempt, left: nat, pause: nat, size: nat)
    requires InHand(h, x.frame, x.first, left, pause, size) && !x.ok && x.at >= h.now
    ensures Trailing(Attempted(h, x).log) == Trailing(h.log) + 1 <= MAX_ERRORS + 1
    ensures Conserved(h.accepted, Attempted(h, x).log, [x.frame], h.queue) && RetriesSame(Attempted(h, x).log)
    ensures Trailing(h.log) < MAX_ERRORS ==> Between(Attempted(h, x), [x.frame], pause, size)
  {
    SentAppend(h.log, x);
    OrderlyAppend(h.log, x, pause, left);
    ErrorsAppend(h.log, x, MAX_ERRORS);
    AfterAnError(h.log + [x], pause, left - 1);
  }

  /** After the pause of a burst the queue has a frame, whatever arrived in between. */
  lemma FetchesInBurst(h: History, taken: seq<Frame>, left: nat, pause: nat, wait: nat, size: nat)
    requires JustSent(h, left, pause, size) && left > 0 && |h.queue| + |taken| <= size && wait >= pause
    ensures var q := h.queue + taken;
            q != [] && InHand(History(h.accepted + taken, h.log, q[1..], h.now + wait), q[0], false, left, pause, size)
  {
    var q := h.queue + taken;
    Regroup(Sent(h.log), [], h.queue, [q[0]], q[1..], taken);
  }

  lemma BurstEnds(h: History, pause: nat, size: nat)
    requires JustSent(h, 0, pause, size)
    ensures Between(h, [], pause, size)
  {
  }

  /** Frames put by other threads, and time, change nothing. */
  lemma StaysBetween(h: History, held: seq<Frame>, taken: seq<Frame>, delay: nat, pause: nat, size: nat)
    requires Between(h, held, pause, size) && |h.queue| + |taken| <= size
    ensures Between(History(h.accepted + taken, h.log, h.queue + taken, h.now + delay), held, pause, size)
  {
    Regroup(Sent(h.log), held, h.queue, held, h.queue + taken, taken);
  }

  /** The frame that was held, or the next one of the queue, goes in hand. */
  function Next(h: History, held: seq<Frame>): (seq<Frame>, seq<Frame>)
    requires held != [] || h.queue != []
  {
    if held != [] then (held, h.queue) else ([h.queue[0]], h.queue[1..])
  }

  lemma TakesInHand(h: History, held: seq<Frame>, taken: seq<Frame>, burst: nat, wait: nat, pause: nat, size: nat)
    requires Between(h, held, pause, size) && (held != [] || h.queue != [])
    requires |Next(h, held).1| + |taken| <= size
    requires burst == (if |Next(h, held).1 + taken| > size - 2 then 5 else 1) && size >= 40
    requires burst == 1 && h.log != [] ==> h.now + wait - h.log[|h.log| - 1].at >= pause
    ensures var (hand, queue) := Next(h, held);
            InHand(History(h.accepted + taken, h.log, queue + taken, h.now + wait), hand[0], burst == 5, burst, pause,
                   size)
  {
    var (hand, queue) := Next(h, held);
    Regroup(Sent(h.log), held, h.queue, hand, queue + taken, taken);
    NothingLeft(h.log, pause, burst);
  }
}
