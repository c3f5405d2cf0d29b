/**
 The tick index of a replayed log: one entry per interval of time, built in one pass, and
 the moves and reads that use it.
 */
module TickIndex {
  import opened Wrappers

  /** A line decoded, one that does not parse, or one without the record prefix. */
  datatype Line = Record(ts: int, message: nat) | Unparsable | WrongPrefix
  datatype Entry = Entry(ts: int, message: nat)

  // ---- what the index is ----

  function Decoded(lines: seq<Line>): seq<Entry> {
    if lines == [] then []
    else (if lines[0].Record? then [Entry(lines[0].ts, lines[0].message)] else []) + Decoded(lines[1..])
  }

  /** How many of the lines are records. */
  function RecordCount(lines: seq<Line>): nat {
    if lines == [] then 0 else RecordCount(lines[..|lines| - 1]) + if lines[|lines| - 1].Record? then 1 else 0
  }

  /** The decoded log has every record once, in order, and nothing else. */
  lemma {:induction false} DecodedIs(lines: seq<Line>)
    ensures |Decoded(lines)| == RecordCount(lines)
    ensures forall i :: 0 <= i < |lines| && lines[i].Record? ==>
              var k := RecordCount(lines[..i]);
              k < |Decoded(lines)| && Decoded(lines)[k] == Entry(lines[i].ts, lines[i].message)
    decreases |lines|
  {
    if lines != [] {
      var front, last := lines[..|lines| - 1], lines[|lines| - 1];
      DecodedIs(front);
      DecodedLast(front, last);
      assert lines == front + [last];
      forall i | 0 <= i < |lines| && lines[i].Record?
        ensures var k := RecordCount(lines[..i]);
                k < |Decoded(lines)| && Decoded(lines)[k] == Entry(lines[i].ts, lines[i].message)
      {
        if i < |front| {
          assert lines[..i] == front[..i] && lines[i] == front[i];
        } else {
          assert lines[..i] == front;
        }
      }
    }
  }

  lemma {:induction false} DecodedLast(front: seq<Line>, last: Line)
    ensures Decoded(front + [last]) == Decoded(front) + if last.Record? then [Entry(last.ts, last.message)] else []
  {
    if front == [] {
      assert [last][1..] == [] && front + [last] == [last];
    } else {
      assert (front + [last])[1..] == front[1..] + [last] && (front + [last])[0] == front[0];
      DecodedLast(front[1..], last);
    }
  }

  /** Line n is the first that is not Unparsable. */
  predicate FirstToParse(lines: seq<Line>, n: int) {
    0 <= n < |lines| && lines[n] != Unparsable && forall i :: 0 <= i < n ==> lines[i] == Unparsable
  }

  function Before(ticks: seq<nat>, k: nat): nat
    requires k <= |ticks|
  {
    if k == 0 then 0 else ticks[k - 1]
  }

  /** The date of tick k. */
  function Date(t0: int, interval: nat, k: nat): int { t0 + (k + 1) * interval }

  /** Nothing in between reaches the date. */
  predicate NoneAt(records: seq<Entry>, from: nat, to: nat, date: int)
    requires to <= |records|
  {
    forall j :: from <= j < to ==> records[j].ts < date
  }

  /** The first record behind `before` that is at or after the date of tick k. */
  predicate IsTick(records: seq<Entry>, interval: nat, k: nat, before: nat, tick: nat) {
    && before < tick < |records|
    && records[tick].ts >= Date(records[0].ts, interval, k)
    && NoneAt(records, before + 1, tick, Date(records[0].ts, interval, k))
  }

  /** Each entry is the tick behind the entry before it, or behind the first record. */
  predicate AreTicks(records: seq<Entry>, interval: nat, ticks: seq<nat>) {
    ticks == [] ||
    var n := |ticks| - 1;
    AreTicks(records, interval, ticks[..n]) && IsTick(records, interval, n, Before(ticks, n), ticks[n])
  }

  /** There are as many entries as there can be. */
  predicate IsTickIndex(records: seq<Entry>, interval: nat, ticks: seq<nat>) {
    && records != []
    && AreTicks(records, interval, ticks)
    && NoneAt(records, Before(ticks, |ticks|) + 1, |records|, Date(records[0].ts, interval, |ticks|))
  }

  lemma {:induction false} TickAt(records: seq<Entry>, interval: nat, ticks: seq<nat>, k: nat)
    requires AreTicks(records, interval, ticks) && k < |ticks|
    ensures IsTick(records, interval, k, Before(ticks, k), ticks[k])
    decreases |ticks|
  {
    var n := |ticks| - 1;
    if k < n {
      TickAt(records, interval, ticks[..n], k);
      assert Before(ticks[..n], k) == Before(ticks, k);
    }
  }

  lemma {:induction false} TicksIncrease(records: seq<Entry>, interval: nat, ticks: seq<nat>, i: nat, j: nat)
    requires IsTickIndex(records, interval, ticks) && i < j < |ticks|
    ensures ticks[i] < ticks[j]
    decreases j
  {
    TickAt(records, interval, ticks, j);
    if i < j - 1 {
      TicksIncrease(records, interval, ticks, i, j - 1);
    }
  }

  // ---- against a linear scan ----

  predicate Ordered(records: seq<Entry>) {
    forall i, j :: 0 <= i < j < |records| ==> records[i].ts <= records[j].ts
  }

  /** The first record at or after a date; their number if there is none. */
  function FirstAt(records: seq<Entry>, date: int): (n: nat)
    ensures n <= |records|
  {
    if records == [] || records[0].ts >= date then 0 else 1 + FirstAt(records[1..], date)
  }

  lemma {:induction false} FirstAtIsFirst(records: seq<Entry>, date: int)
    ensures forall j :: 0 <= j < FirstAt(records, date) ==> records[j].ts < date
    ensures FirstAt(records, date) < |records| ==> records[FirstAt(records, date)].ts >= date
  {
    if records != [] && records[0].ts < date {
      FirstAtIsFirst(records[1..], date);
      forall j | 0 <= j < FirstAt(records, date) ensures records[j].ts < date {
        if j > 0 {
          assert records[1..][j - 1].ts < date;
        }
      }
    }
  }

  function Max(a: nat, b: nat): nat { if a < b then b else a }

  /**
   In a log ordered by time, entry k is the first record at or after t0 + (k + 1) intervals,
   or the record behind entry k - 1 if that one is later.
   */
  lemma EntryIsMaximum(records: seq<Entry>, interval: nat, ticks: seq<nat>, k: nat)
    requires IsTickIndex(records, interval, ticks) && Ordered(records) && k < |ticks|
    ensures ticks[k] == Max(FirstAt(records, Date(records[0].ts, interval, k)), Before(ticks, k) + 1)
  {
    var date, before, first := Date(records[0].ts, interval, k), Before(ticks, k),
        FirstAt(records, Date(records[0].ts, interval, k));
    TickAt(records, interval, ticks, k);
    FirstAtIsFirst(records, date);
    assert first <= ticks[k];
    if first < ticks[k] && before + 1 < ticks[k] {
      FirstIsInBetween(records, date, first, before, ticks[k]);
    }
  }

  /** What is at the date before the entry is the record the previous entry took, or an earlier one. */
  lemma FirstIsInBetween(records: seq<Entry>, date: int, first: nat, before: nat, tick: nat)
    requires Ordered(records) && first < tick <= |records| && before + 1 < tick && records[first].ts >= date
    ensures !NoneAt(records, before + 1, tick, date)
  {
    assert records[first].ts <= records[tick - 1].ts;
  }

  /** Two indexes of the same log are the same. */
  lemma {:induction false} IndexIsUnique(records: seq<Entry>, interval: nat, a: seq<nat>, b: seq<nat>, k: nat)
    requires IsTickIndex(records, interval, a) && IsTickIndex(records, interval, b) && k <= |a|
    ensures k <= |b| && a[..k] == b[..k]
    decreases k
  {
    if k > 0 {
      IndexIsUnique(records, interval, a, b, k - 1);
      assert Before(a, k - 1) == Before(b, k - 1) by {
        if k > 1 {
          assert a[k - 2] == a[..k - 1][k - 2] && b[k - 2] == b[..k - 1][k - 2];
        }
      }
      TickAt(records, interval, a, k - 1);
      assert records[a[k - 1]].ts >= Date(records[0].ts, interval, k - 1);
      assert |b| >= k;
      TickAt(records, interval, b, k - 1);
      OneTick(records, interval, k - 1, Before(a, k - 1), a[k - 1], b[k - 1]);
      assert a[..k] == a[..k - 1] + [a[k - 1]] && b[..k] == b[..k - 1] + [b[k - 1]];
    }
  }

  lemma OneTick(records: seq<Entry>, interval: nat, k: nat, before: nat, x: nat, y: nat)
    requires IsTick(records, interval, k, before, x) && IsTick(records, interval, k, before, y)
    ensures x == y
  {
  }

  // ---- moving ----

  /** Python's round of n / d: to the nearest integer, ties to the even one. */
  function Round(n: int, d: nat): int
    requires d > 0
  {
    var q, r := n / d, n % d;
    if 2 * r < d || (2 * r == d && q % 2 == 0) then q else q + 1
  }

  lemma RoundIsNearest(n: int, d: nat)
    requires d > 0
    ensures 2 * (Round(n, d) * d - n) <= d && 2 * (n - Round(n, d) * d) <= d
    ensures 2 * (Round(n, d) * d - n) == d || 2 * (n - Round(n, d) * d) == d ==> Round(n, d) % 2 == 0
  {
    var q, r := n / d, n % d;
    assert n == q * d + r;
    assert (q + 1) * d == q * d + d;
  }

  /** The tick move_to_date goes to. */
  function TickOf(target: int, start: int, interval: nat): int
    requires interval > 0
  {
    Round(target - start, interval)
  }

  /**
   A move never lands before its target: tick k stands for the date k + 1 intervals after
   the start, so the record is at least half an interval late; and unless records are
   missing there, the one before it is less than one and a half intervals late.
   */
  lemma MovesLandLate(records: seq<Entry>, interval: nat, ticks: seq<nat>, target: int)
    requires interval > 0 && IsTickIndex(records, interval, ticks)
    requires 0 <= TickOf(target, records[0].ts, interval) < |ticks|
    ensures var k := TickOf(target, records[0].ts, interval);
            && 0 < ticks[k] < |records| && 2 * (records[ticks[k]].ts - target) >= interval
            && (Before(ticks, k) + 1 < ticks[k] ==> 2 * (records[ticks[k] - 1].ts - target) < 3 * interval)
  {
    var k := TickOf(target, records[0].ts, interval);
    RoundIsNearest(target - records[0].ts, interval);
    TickAt(records, interval, ticks, k);
    assert Date(records[0].ts, interval, k) == records[0].ts + k * interval + interval;
    if Before(ticks, k) + 1 < ticks[k] {
      assert records[ticks[k] - 1].ts < Date(records[0].ts, interval, k);
    }
  }

  // ---- reading ----

  /** The read position; `first` says that the record at it is still to be returned. */
  datatype Position = Position(index: nat, first: bool)

  function Read(records: seq<Entry>, p: Position): (Position, Option<Entry>) {
    if p.first then (Position(p.index, false), if p.index < |records| then Some(records[p.index]) else None)
    else (Position(p.index + 1, false), if p.index + 1 < |records| then Some(records[p.index + 1]) else None)
  }

  /** n reads in a row; None is the end of the file. */
  function Reads(records: seq<Entry>, p: Position, n: nat): seq<Option<Entry>>
    decreases n
  {
    if n == 0 then [] else [Read(records, p).1] + Reads(records, Read(records, p).0, n - 1)
  }

  /**
   After a move or a restart, successive reads return the record landed on and then every
   following one, once each, and then the end of the file, however often they are asked.
   */
  lemma {:induction false} ReadsFollow(records: seq<Entry>, p: Position, n: nat)
    ensures |Reads(records, p, n)| == n
    ensures forall i :: 0 <= i < n ==>
              var at := if p.first then p.index + i else p.index + 1 + i;
              Reads(records, p, n)[i] == if at < |records| then Some(records[at]) else None
    decreases n
  {
    if n > 0 {
      var next := Read(records, p).0;
      ReadsFollow(records, next, n - 1);
      forall i | 0 <= i < n
        ensures var at := if p.first then p.index + i else p.index + 1 + i;
                Reads(records, p, n)[i] == if at < |records| then Some(records[at]) else None
      {
        if i > 0 {
          assert Reads(records, p, n)[i] == Reads(records, next, n - 1)[i - 1];
        }
      }
    }
  }

  // ---- the log file ----

  datatype LoadError = NoRecord | BadPrefix

  class RawLogFile {
    const tickInterval: nat
    var records: seq<Entry>
    var tickIndex: seq<nat>
    var index: nat
    var firstRecord: bool
    var previousRecord: Option<Entry>

    constructor (tickInterval: nat)
      ensures this.tickInterval == tickInterval && records == [] && tickIndex == []
    {
      this.tickInterval := tickInterval;
      records, tickIndex, index, firstRecord, previousRecord := [], [], 0, false, None;
    }

    ghost predicate Loaded()
      reads this
    {
      IsTickIndex(records, tickInterval, tickIndex)
    }

    ghost predicate Positioned()
      reads this
    {
      firstRecord ==> index < |records| && previousRecord == Some(records[index])
    }

    ghost function Now(): Position
      reads this
    {
      Position(index, firstRecord)
    }

    /** The lines behind the header: up to the first record, then one pass with the index. */
    method LoadFile(lines: seq<Line>) returns (error: Option<LoadError>)
      requires records == [] && tickIndex == []
      modifies this
      ensures error.None? ==> Loaded() && Positioned() && Now() == Position(0, false) && records == Decoded(lines)
      ensures error.None? <==> exists n :: FirstToParse(lines, n) && lines[n].Record?
      ensures error == Some(BadPrefix) <==> exists n :: FirstToParse(lines, n) && lines[n] == WrongPrefix
      ensures error == Some(NoRecord) <==> forall line :: line in lines ==> line == Unparsable
    {
      var n := 0;
      while n < |lines| && lines[n] == Unparsable
        invariant records == [] && tickIndex == []
        invariant 0 <= n <= |lines| && Decoded(lines[..n]) == [] && Decoded(lines) == Decoded(lines[n..])
        invariant forall i :: 0 <= i < n ==> lines[i] == Unparsable
      {
        DecodedSplit(lines, n);
        n := n + 1;
      }
      if n == |lines| {
        return Some(NoRecord);
      }
      assert FirstToParse(lines, n) && lines[n] in lines;
      if lines[n] == WrongPrefix {
        return Some(BadPrefix);
      }
      IndexRecords(lines, n);
      index, firstRecord, previousRecord := 0, false, None;
      return None;
    }

    method IndexRecords(lines: seq<Line>, n: nat)
      requires n < |lines| && lines[n].Record? && records == [] && tickIndex == []
      modifies this`records, this`tickIndex
      ensures Loaded() && records == Decoded(lines[n..])
    {
      var t0 := lines[n].ts;
      records := [Entry(t0, lines[n].message)];
      var nbTick, nextTickDate := 0, t0 + tickInterval;
      DecodedStep(lines, n, []);
      DateIs(t0, tickInterval, 0);
      for i := n + 1 to |lines|
        invariant Loaded() && records[0].ts == t0
        invariant nbTick == |tickIndex| && nextTickDate == Date(t0, tickInterval, nbTick)
        invariant Decoded(lines[n..]) == records + Decoded(lines[i..])
      {
        DecodedStep(lines, i, records);
        if lines[i].Record? {
          var tick := AddRecord(Entry(lines[i].ts, lines[i].message), nextTickDate);
          if tick {
            nbTick := nbTick + 1;
            nextTickDate := t0 + tickInterval * (nbTick + 1);
            DateIs(t0, tickInterval, nbTick);
          }
        }
      }
    }

    method AddRecord(record: Entry, nextTickDate: int) returns (tick: bool)
      requires Loaded() && nextTickDate == Date(records[0].ts, tickInterval, |tickIndex|)
      modifies this`records, this`tickIndex
      ensures Loaded() && records == old(records) + [record] && (tick <==> record.ts >= nextTickDate)
      ensures |tickIndex| == |old(tickIndex)| + if tick then 1 else 0
    {
      tick := record.ts >= nextTickDate;
      if tick {
        TickAdded(records, record, tickInterval, tickIndex);
        tickIndex := tickIndex + [|records|];
      } else {
        NoTickAdded(records, record, tickInterval, tickIndex);
      }
      records := records + [record];
    }

    /** prepare_read; restart is PrepareRead(0). */
    method PrepareRead(first: nat)
      requires first < |records|
      modifies this`index, this`firstRecord, this`previousRecord
      ensures Positioned() && Now() == Position(first, true)
    {
      index := first;
      SetReferences();
    }

    method SetReferences()
      requires index < |records|
      modifies this`firstRecord, this`previousRecord
      ensures Positioned() && Now() == Position(old(index), true)
    {
      previousRecord, firstRecord := Some(records[index]), true;
    }

    /** move_to_date; false where it raises and leaves the position alone. */
    method MoveToDate(target: int) returns (moved: bool)
      requires Loaded() && Positioned() && tickInterval > 0
      modifies this`index, this`firstRecord, this`previousRecord
      ensures Positioned()
      ensures moved <==> 0 <= TickOf(target, records[0].ts, tickInterval) < |tickIndex|
      ensures Now() == if moved then Position(tickIndex[TickOf(target, records[0].ts, tickInterval)], true)
              else old(Now())
    {
      var tick := TickOf(target, records[0].ts, tickInterval);
      if tick < 0 || tick > |tickIndex| - 1 {
        return false;
      }
      TickAt(records, tickInterval, tickIndex, tick);
      index := tickIndex[tick];
      SetReferences();
      return true;
    }

    method ReadMessage() returns (record: Option<Entry>)
      requires Positioned()
      modifies this`index, this`firstRecord
      ensures Positioned() && (Now(), record) == Read(records, old(Now()))
    {
      if firstRecord {
        firstRecord := false;
        return previousRecord;
      }
      index := index + 1;
      record := if index < |records| then Some(records[index]) else None;
    }
  }

  /** The line at i, behind what was decoded before it. */
  lemma DecodedStep(lines: seq<Line>, i: nat, done: seq<Entry>)
    requires i < |lines|
    ensures done + Decoded(lines[i..])
         == (if lines[i].Record? then done + [Entry(lines[i].ts, lines[i].message)] else done) + Decoded(lines[i + 1..])
  {
    assert lines[i..][1..] == lines[i + 1..];
    var more := Decoded(lines[i + 1..]);
    if lines[i].Record? {
      assert done + ([Entry(lines[i].ts, lines[i].message)] + more)
          == done + [Entry(lines[i].ts, lines[i].message)] + more;
    } else {
      assert [] + more == more;
    }
  }

  lemma DateIs(t0: int, interval: nat, k: nat)
    ensures Date(t0, interval, k) == t0 + interval * (k + 1)
  {
  }

  lemma {:induction false} DecodedSplit(lines: seq<Line>, n: nat)
    requires n < |lines| && lines[n] == Unparsable && Decoded(lines[..n]) == []
    ensures Decoded(lines[n..]) == Decoded(lines[n + 1..]) && Decoded(lines[..n + 1]) == []
  {
    assert lines[n..][1..] == lines[n + 1..];
    assert lines[..n + 1] == lines[..n] + [Unparsable];
    NothingMore(lines[..n]);
  }

  lemma {:induction false} NothingMore(lines: seq<Line>)
    requires Decoded(lines) == []
    ensures Decoded(lines + [Unparsable]) == []
  {
    if lines == [] {
      assert [Unparsable][1..] == [];
    } else {
      assert (lines + [Unparsable])[1..] == lines[1..] + [Unparsable];
      NothingMore(lines[1..]);
    }
  }

  lemma {:induction false} OneMoreRecord(records: seq<Entry>, x: Entry, interval: nat, ticks: seq<nat>)
    requires records != [] && AreTicks(records, interval, ticks)
    ensures AreTicks(records + [x], interval, ticks)
    decreases |ticks|
  {
    if ticks != [] {
      var n := |ticks| - 1;
      OneMoreRecord(records, x, interval, ticks[..n]);
      var date := Date(records[0].ts, interval, n);
      assert NoneAt(records, Before(ticks, n) + 1, ticks[n], date);
    }
  }

  lemma TickAdded(records: seq<Entry>, x: Entry, interval: nat, ticks: seq<nat>)
    requires IsTickIndex(records, interval, ticks) && x.ts >= Date(records[0].ts, interval, |ticks|)
    ensures IsTickIndex(records + [x], interval, ticks + [|records|])
  {
    var r, t := records + [x], ticks + [|records|];
    OneMoreRecord(records, x, interval, ticks);
    LastInside(records, interval, ticks);
    assert t[..|ticks|] == ticks && Before(t, |ticks|) == Before(ticks, |ticks|);
  }

  lemma NoTickAdded(records: seq<Entry>, x: Entry, interval: nat, ticks: seq<nat>)
    requires IsTickIndex(records, interval, ticks) && x.ts < Date(records[0].ts, interval, |ticks|)
    ensures IsTickIndex(records + [x], interval, ticks)
  {
    OneMoreRecord(records, x, interval, ticks);
  }

  lemma LastInside(records: seq<Entry>, interval: nat, ticks: seq<nat>)
    requires records != [] && AreTicks(records, interval, ticks)
    ensures Before(ticks, |ticks|) < |records|
  {
  }
}
