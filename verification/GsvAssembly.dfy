/**
 Assembly of GSV groups: satellites in view arrive in n numbered sentences, and PGN 129540
 is generated when all of them have been seen.
 */
module GsvAssembly {
  import opened Wrappers

  /** What is kept of a satellite: its last position and signal, and when it was first seen. */
  datatype Sat = Sat(data: nat, ts: nat)
  datatype InView = InView(svn: nat, data: nat)

  /** A sentence: number of sentences, number of this one, satellites in view, up to four of them. */
  datatype Gsv = Gsv(total: nat, number: int, inView: nat, sats: seq<InView>, ts: nat)

  datatype Group = Group(inProgress: bool, recv: seq<bool>, nbSatellites: nat, satellites: map<nat, Sat>)

  datatype Outcome = Nothing | Generated | Raised

  // ---- one sentence ----

  function Allow(n: nat): seq<bool> { seq(n, _ => false) }

  /** A list index of Python: negative ones count from the end. */
  function Index(k: int, n: nat): Option<nat> {
    if 0 <= k < n then Some(k)
    else if k < 0 <= n + k then Some(n + k)
    else None
  }

  function Noted(satellites: map<nat, Sat>, s: InView, ts: nat): map<nat, Sat> {
    satellites[s.svn := Sat(s.data, if s.svn in satellites then satellites[s.svn].ts else ts)]
  }

  /** At most four satellites of a sentence are read. */
  function NotedAll(satellites: map<nat, Sat>, sats: seq<InView>, ts: nat, room: nat): map<nat, Sat>
    decreases room
  {
    if sats == [] || room == 0 then satellites else NotedAll(Noted(satellites, sats[0], ts), sats[1..], ts, room - 1)
  }

  predicate Complete(recv: seq<bool>) { false !in recv }

  function Process(g: Group, m: Gsv): (Group, Outcome) {
    if !g.inProgress && m.number != 1 then (g, Nothing)
    else
      var g := if g.inProgress then g else Group(true, Allow(m.total), m.inView, g.satellites);
      match Index(m.number - 1, |g.recv|)
      case None => (g, Raised)
      case Some(i) =>
        var g := g.(recv := g.recv[i := true], satellites := NotedAll(g.satellites, m.sats, m.ts, 4));
        if Complete(g.recv) then (g.(inProgress := false), Generated) else (g, Nothing)
  }

  function Run(g: Group, ms: seq<Gsv>): (Group, seq<Outcome>)
    decreases |ms|
  {
    if ms == [] then (g, [])
    else
      var (g1, o) := Process(g, ms[0]);
      var (g2, os) := Run(g1, ms[1..]);
      (g2, [o] + os)
  }

  // ---- nothing is generated too early ----

  /** The sentence numbers received since the group was started. */
  function Seen(g: Group, seen: set<int>, m: Gsv): set<int> {
    if g.inProgress then seen + {m.number} else if m.number == 1 then {1} else seen
  }

  function RunSeen(g: Group, seen: set<int>, ms: seq<Gsv>): set<int>
    decreases |ms|
  {
    if ms == [] then seen else RunSeen(Process(g, ms[0]).0, Seen(g, seen, ms[0]), ms[1..])
  }

  /** The group was started by sentence 1, and its flags are set for numbers that were seen. */
  ghost predicate Started(g: Group, seen: set<int>) {
    g.inProgress ==> 1 in seen && forall i :: 0 <= i < |g.recv| ==> (g.recv[i] ==> i + 1 in seen)
  }

  ghost predicate AllSeen(n: nat, seen: set<int>) { forall j :: 1 <= j <= n ==> j in seen }

  /**
   Python counts indexes below 0 from the end: in a group of n the numbers from 2 - n to 0
   mark another sentence than their own. Number 1 - n marks the first one again, and what
   is below raises.
   */
  predicate Harmless(number: int, n: nat) { number >= 1 || number <= 1 - n }

  lemma ProcessKeepsStarted(g: Group, seen: set<int>, m: Gsv)
    requires Started(g, seen) && (g.inProgress ==> Harmless(m.number, |g.recv|))
    ensures Started(Process(g, m).0, Seen(g, seen, m))
    ensures Process(g, m).1 == Generated ==> AllSeen(|Process(g, m).0.recv|, Seen(g, seen, m))
  {
    var (g', o) := Process(g, m);
    if o == Generated {
      forall k | 1 <= k <= |g'.recv| ensures k in Seen(g, seen, m) {
        assert g'.recv[k - 1] in g'.recv;
      }
    }
  }

  /** Every sentence has a number that is harmless in the group it arrives in. */
  predicate HarmlessRun(g: Group, ms: seq<Gsv>)
    decreases |ms|
  {
    ms == [] || ((g.inProgress ==> Harmless(ms[0].number, |g.recv|)) && HarmlessRun(Process(g, ms[0]).0, ms[1..]))
  }

  /**
   PGN 129540 is generated only when every sentence number of the started group has been
   received since it was started, provided that all numbers are harmless.
   */
  lemma {:induction false} GeneratedWhenAllSeen(g: Group, seen: set<int>, ms: seq<Gsv>, m: Gsv)
    requires Started(g, seen) && HarmlessRun(g, ms + [m]) && Process(Run(g, ms).0, m).1 == Generated
    ensures AllSeen(|Process(Run(g, ms).0, m).0.recv|, RunSeen(g, seen, ms + [m]))
    decreases |ms|
  {
    if ms == [] {
      assert ms + [m] == [m] && [m][1..] == [];
      ProcessKeepsStarted(g, seen, m);
      assert RunSeen(g, seen, [m]) == Seen(g, seen, m);
    } else {
      assert (ms + [m])[1..] == ms[1..] + [m] && (ms + [m])[0] == ms[0];
      ProcessKeepsStarted(g, seen, ms[0]);
      GeneratedWhenAllSeen(Process(g, ms[0]).0, Seen(g, seen, ms[0]), ms[1..], m);
    }
  }

  /** A sentence numbered k never completes a group of n of which another one is missing. */
  ghost predicate NeverEarly(n: nat, k: int) {
    forall g: Group, seen: set<int>, m: Gsv ::
      Started(g, seen) && g.inProgress && |g.recv| == n && m.number == k && Process(g, m).1 == Generated
      ==> AllSeen(n, Seen(g, seen, m))
  }

  // ---- the numbers that complete a group early ----

  /** The number of the i-th sentence when one is left out. */
  function Nth(i: nat, skip: int): int { if i + 1 < skip then i + 1 else i + 2 }

  /** The j-th up to the last sentence of a group of n, in order and without number skip. */
  predicate AllBut(ms: seq<Gsv>, j: nat, n: nat, skip: int) {
    |ms| + j == n - 1 && forall i :: 0 <= i < |ms| ==> ms[i].number == Nth(j + i, skip) && ms[i].total == n
  }

  predicate FlagsBut(recv: seq<bool>, below: int, skip: int) {
    forall i :: 0 <= i < |recv| ==> (recv[i] <==> i + 1 < below && i + 1 != skip)
  }

  lemma {:induction false} RunWithout(g: Group, seen: set<int>, ms: seq<Gsv>, j: nat, n: nat, skip: int)
    requires g.inProgress && |g.recv| == n && 2 <= skip <= n && j <= n - 1 && AllBut(ms, j, n, skip)
    requires FlagsBut(g.recv, Nth(j, skip), skip) && skip !in seen
    ensures var g' := Run(g, ms).0; g'.inProgress && |g'.recv| == n && FlagsBut(g'.recv, n + 1, skip)
    ensures skip !in RunSeen(g, seen, ms)
    decreases |ms|
  {
    if ms != [] {
      assert ms[0].number == Nth(j, skip);
      var (g1, o) := Process(g, ms[0]);
      assert !g1.recv[skip - 1] && g1.recv[skip - 1] in g1.recv;
      assert FlagsBut(g1.recv, Nth(j + 1, skip), skip);
      forall i | 0 <= i < |ms[1..]| ensures ms[1..][i].number == Nth(j + 1 + i, skip) && ms[1..][i].total == n {
        assert ms[1..][i] == ms[i + 1];
      }
      RunWithout(g1, Seen(g, seen, ms[0]), ms[1..], j + 1, n, skip);
    }
  }

  lemma {:induction false} RunOneMore(g: Group, seen: set<int>, ms: seq<Gsv>, m: Gsv)
    ensures var g' := Run(g, ms).0;
            && Run(g, ms + [m]) == (Process(g', m).0, Run(g, ms).1 + [Process(g', m).1])
            && RunSeen(g, seen, ms + [m]) == Seen(g', RunSeen(g, seen, ms), m)
    decreases |ms|
  {
    if ms == [] {
      assert ms + [m] == [m] && [m][1..] == [] && [Process(g, m).1] + [] == [] + [Process(g, m).1];
    } else {
      var g1, o := Process(g, ms[0]).0, Process(g, ms[0]).1;
      assert (ms + [m])[1..] == ms[1..] + [m] && (ms + [m])[0] == ms[0];
      RunOneMore(g1, Seen(g, seen, ms[0]), ms[1..], m);
      var os, last := Run(g1, ms[1..]).1, Process(Run(g, ms).0, m).1;
      assert [o] + (os + [last]) == [o] + os + [last];
    }
  }

  /**
   In a group of n every number k from 2 - n to 0 counts as n + k: after all sentences but
   n + k, it completes the group, and that sentence has not been received.
   */
  lemma CountsAsAnother(g: Group, ms: seq<Gsv>, m: Gsv, n: nat)
    requires !g.inProgress && !Harmless(m.number, n) && AllBut(ms, 0, n, n + m.number)
    ensures |Run(g, ms + [m]).1| == n && Run(g, ms + [m]).1[n - 1] == Generated
    ensures n + m.number !in RunSeen(g, {}, ms + [m]) && 1 <= n + m.number <= n
  {
    var skip := n + m.number;
    assert ms[0].number == Nth(0, skip) == 1 && ms[0].total == n;
    var g0 := Group(true, Allow(n), ms[0].inView, g.satellites);
    assert Process(g0, ms[0]) == Process(g, ms[0]) && Seen(g0, {}, ms[0]) == Seen(g, {}, ms[0]);
    assert Run(g0, ms) == Run(g, ms) && RunSeen(g0, {}, ms) == RunSeen(g, {}, ms);
    RunWithout(g0, {}, ms, 0, n, skip);
    RunOneMore(g, {}, ms, m);
    RunLength(g, ms);
    var g' := Run(g, ms).0;
    assert Index(m.number - 1, n) == Some(skip - 1);
    assert Complete(g'.recv[skip - 1 := true]);
  }

  lemma {:induction false} RunLength(g: Group, ms: seq<Gsv>)
    ensures |Run(g, ms).1| == |ms|
    decreases |ms|
  {
    if ms != [] {
      RunLength(Process(g, ms[0]).0, ms[1..]);
    }
  }

  /** 1 to n without skip. */
  function NumbersBut(n: nat, skip: int): (r: set<int>)
    ensures forall i :: i in r <==> 1 <= i <= n && i != skip
  {
    if n == 0 then {} else NumbersBut(n - 1, skip) + if n == skip then {} else {n}
  }

  /** Exactly the harmless numbers never complete a group early. */
  lemma EarlyNumbers(n: nat, k: int)
    ensures NeverEarly(n, k) <==> Harmless(k, n)
  {
    if Harmless(k, n) {
      forall g: Group, seen: set<int>, m: Gsv |
        Started(g, seen) && g.inProgress && |g.recv| == n && m.number == k && Process(g, m).1 == Generated
        ensures AllSeen(n, Seen(g, seen, m))
      {
        ProcessKeepsStarted(g, seen, m);
      }
    } else {
      var g := Group(true, seq(n, i => i != n + k - 1), 0, map[]);
      var seen := NumbersBut(n, n + k);
      var m := Gsv(n, k, 0, [], 0);
      assert Started(g, seen);
      assert Complete(g.recv[n + k - 1 := true]);
      assert Process(g, m).1 == Generated && n + k !in Seen(g, seen, m);
    }
  }

  // ---- every loss is forgotten ----

  /** The k-th up to the last sentence of a group of n, in order. */
  predicate InOrder(ms: seq<Gsv>, k: nat, n: nat) {
    |ms| + k == n + 1 && forall i :: 0 <= i < |ms| ==> ms[i].number == k + i && ms[i].total == n
  }

  /** Outside a group, later sentences are ignored. */
  lemma {:induction false} IgnoresTheRest(g: Group, ms: seq<Gsv>, k: nat, n: nat)
    requires !g.inProgress && k >= 2 && InOrder(ms, k, n)
    ensures Run(g, ms).0 == g
    decreases |ms|
  {
    if ms != [] {
      assert ms[0].number == k;
      IgnoresTheRest(g, ms[1..], k + 1, n);
    }
  }

  /** Everything below k has been seen: the rest of a long enough group completes it. */
  lemma {:induction false} CompletesOnTheWay(g: Group, ms: seq<Gsv>, k: nat, n: nat)
    requires g.inProgress && 1 <= k <= |g.recv| <= n && InOrder(ms, k, n)
    requires forall i :: 0 <= i < k - 1 ==> g.recv[i]
    ensures !Run(g, ms).0.inProgress
    decreases |ms|
  {
    assert ms[0].number == k;
    var (g1, o) := Process(g, ms[0]);
    assert k == |g.recv| ==> forall i :: 0 <= i < |g1.recv| ==> g1.recv[i];
    if o == Generated {
      IgnoresTheRest(g1, ms[1..], k + 1, n);
    } else {
      CompletesOnTheWay(g1, ms[1..], k + 1, n);
    }
  }

  /**
   Self-stabilisation: from any state, except a group that was started with 0 sentences,
   one full group in order, at least as long as the pending one, ends with no group in
   progress.
   */
  lemma OneFullGroupResynchronises(g: Group, ms: seq<Gsv>, n: nat)
    requires g.inProgress ==> 1 <= |g.recv| <= n
    requires n >= 1 && InOrder(ms, 1, n)
    ensures !Run(g, ms).0.inProgress
  {
    if g.inProgress {
      CompletesOnTheWay(g, ms, 1, n);
    } else {
      FullGroupIsGenerated(g, ms, n);
    }
  }

  /** A group that is announced with 0 sentences is never left: every sentence raises. */
  lemma {:induction false} EmptyGroupIsForever(g: Group, ms: seq<Gsv>)
    requires g.inProgress && g.recv == []
    ensures Run(g, ms).0 == g && forall o :: o in Run(g, ms).1 ==> o == Raised
    decreases |ms|
  {
    if ms != [] {
      EmptyGroupIsForever(g, ms[1..]);
    }
  }

  lemma AnnouncedEmpty(g: Group, m: Gsv)
    requires !g.inProgress && m.total == 0 && m.number == 1
    ensures Process(g, m).1 == Raised && Process(g, m).0.inProgress && Process(g, m).0.recv == []
  {
  }

  // ---- a group that arrives whole ----

  function AllNoted(satellites: map<nat, Sat>, ms: seq<Gsv>): map<nat, Sat>
    decreases |ms|
  {
    if ms == [] then satellites else AllNoted(NotedAll(satellites, ms[0].sats, ms[0].ts, 4), ms[1..])
  }

  predicate FirstSeen(recv: seq<bool>, k: nat) {
    forall i :: 0 <= i < |recv| ==> (recv[i] <==> i < k)
  }

  lemma {:induction false} RestIsGenerated(g: Group, ms: seq<Gsv>, k: nat, n: nat)
    requires g.inProgress && |g.recv| == n && 1 <= k <= n && FirstSeen(g.recv, k - 1) && InOrder(ms, k, n)
    ensures var (g', os) := Run(g, ms);
            && !g'.inProgress && g'.nbSatellites == g.nbSatellites && g'.satellites == AllNoted(g.satellites, ms)
            && |os| == |ms| && forall i :: 0 <= i < |os| ==> os[i] == if i == |os| - 1 then Generated else Nothing
    decreases |ms|
  {
    assert ms[0].number == k;
    var (g1, o) := Process(g, ms[0]);
    assert FirstSeen(g1.recv, k);
    if k == n {
      assert Complete(g1.recv) && ms[1..] == [];
    } else {
      assert g1.recv[k] in g1.recv;
      RestIsGenerated(g1, ms[1..], k + 1, n);
    }
  }

  /**
   Outside a group, a full group in order is generated once, at its last sentence, with
   the satellites of all its sentences and the count of its first.
   */
  lemma FullGroupIsGenerated(g: Group, ms: seq<Gsv>, n: nat)
    requires !g.inProgress && n >= 1 && InOrder(ms, 1, n)
    ensures var (g', os) := Run(g, ms);
            && !g'.inProgress && g'.nbSatellites == ms[0].inView && g'.satellites == AllNoted(g.satellites, ms)
            && |os| == n && forall i :: 0 <= i < n ==> os[i] == if i == n - 1 then Generated else Nothing
  {
    assert ms[0].number == 1 && ms[0].total == n;
    var g0 := Group(true, Allow(n), ms[0].inView, g.satellites);
    assert Process(g0, ms[0]) == Process(g, ms[0]);
    assert Run(g0, ms) == Run(g, ms);
    RestIsGenerated(g0, ms, 1, n);
  }

  // ---- a group in any order ----

  function Numbers(ms: seq<Gsv>): set<int> { set m | m in ms :: m.number }

  ghost predicate InOneGroup(ms: seq<Gsv>, n: nat) { forall m :: m in ms ==> 1 <= m.number <= n }

  /** The flags of the pending group are those of the numbers seen. */
  ghost predicate Flags(g: Group, n: nat, seen: set<int>) {
    g.inProgress && |g.recv| == n && forall i :: 0 <= i < n ==> (g.recv[i] <==> i + 1 in seen)
  }

  lemma OneOfGroup(g: Group, n: nat, seen: set<int>, m: Gsv)
    requires Flags(g, n, seen) && 1 <= m.number <= n
    ensures var (g', o) := Process(g, m);
            if AllSeen(n, seen + {m.number}) then o == Generated && !g'.inProgress
            else o == Nothing && Flags(g', n, seen + {m.number})
  {
    var g' := Process(g, m).0;
    assert forall i :: 0 <= i < n ==> (g'.recv[i] <==> i + 1 in seen + {m.number});
    if AllSeen(n, seen + {m.number}) {
      assert Complete(g'.recv);
    } else {
      var j :| 1 <= j <= n && j !in seen + {m.number};
      assert g'.recv[j - 1] == false;
    }
  }

  /** All numbers have been seen behind the last sentence, and not before it. */
  ghost predicate LastOneCompletes(n: nat, seen: set<int>, ms: seq<Gsv>) {
    && ms != [] && AllSeen(n, seen + Numbers(ms))
    && !AllSeen(n, seen + Numbers(ms[..|ms| - 1]))
  }

  lemma {:induction false} RestInAnyOrder(g: Group, n: nat, seen: set<int>, ms: seq<Gsv>)
    requires Flags(g, n, seen) && InOneGroup(ms, n) && LastOneCompletes(n, seen, ms)
    ensures var (g', os) := Run(g, ms);
            && !g'.inProgress && |os| == |ms|
            && forall i :: 0 <= i < |ms| ==> os[i] == if i == |ms| - 1 then Generated else Nothing
    decreases |ms|
  {
    var m, rest, seen' := ms[0], ms[1..], seen + {ms[0].number};
    OneOfGroup(g, n, seen, m);
    if rest == [] {
      assert seen + Numbers(ms) == seen';
    } else {
      assert seen' + Numbers(rest) == seen + Numbers(ms);
      assert seen' + Numbers(rest[..|rest| - 1]) == seen + Numbers(ms[..|ms| - 1]);
      assert !AllSeen(n, seen') by {
        assert seen' <= seen + Numbers(ms[..|ms| - 1]);
      }
      RestInAnyOrder(Process(g, m).0, n, seen', rest);
    }
  }

  /**
   Outside a group, sentences of one group that begin with the first and continue in any
   order, repeated or not: it is generated exactly with the one that makes them complete.
   */
  lemma AnyOrderIsGenerated(g: Group, n: nat, ms: seq<Gsv>)
    requires !g.inProgress && ms != [] && ms[0].number == 1 && ms[0].total == n
    requires InOneGroup(ms, n) && LastOneCompletes(n, {}, ms)
    ensures var (g', os) := Run(g, ms);
            && !g'.inProgress && |os| == |ms|
            && forall i :: 0 <= i < |ms| ==> os[i] == if i == |ms| - 1 then Generated else Nothing
  {
    var g0 := Group(true, Allow(n), ms[0].inView, g.satellites);
    assert Process(g0, ms[0]) == Process(g, ms[0]);
    assert Run(g0, ms) == Run(g, ms);
    RestInAnyOrder(g0, n, {}, ms);
  }

  // ---- what is left of a satellite ----

  /** A satellite in a sentence, and when the sentence was read. */
  datatype Mention = Mention(svn: nat, data: nat, ts: nat)

  /** The sentence is read: it belongs to the group, and its number marks one of its entries. */
  predicate IsRead(g: Group, m: Gsv) {
    var n := if g.inProgress then |g.recv| else m.total;
    (g.inProgress || m.number == 1) && 1 - n <= m.number <= n
  }

  /** The first four satellites of a sentence. */
  function Mentioned(m: Gsv): (r: seq<Mention>) {
    seq(if |m.sats| < 4 then |m.sats| else 4,
        i requires 0 <= i < |m.sats| => Mention(m.sats[i].svn, m.sats[i].data, m.ts))
  }

  function Mentions(g: Group, ms: seq<Gsv>): seq<Mention>
    decreases |ms|
  {
    if ms == [] then []
    else (if IsRead(g, ms[0]) then Mentioned(ms[0]) else []) + Mentions(Process(g, ms[0]).0, ms[1..])
  }

  predicate LastOf(mentions: seq<Mention>, i: nat, svn: nat) {
    i < |mentions| && mentions[i].svn == svn && forall k :: i < k < |mentions| ==> mentions[k].svn != svn
  }

  predicate FirstOf(mentions: seq<Mention>, i: nat, svn: nat) {
    i < |mentions| && mentions[i].svn == svn && forall k :: 0 <= k < i ==> mentions[k].svn != svn
  }

  /**
   What mentions make of a satellite: its data are those of the last mention, its time is
   that of the first one unless it was known before; one that is not mentioned stays.
   */
  ghost predicate Leaves(before: map<nat, Sat>, mentions: seq<Mention>, after: map<nat, Sat>, svn: nat) {
    && ((forall k :: 0 <= k < |mentions| ==> mentions[k].svn != svn) ==>
         (svn in after <==> svn in before) && (svn in before ==> after[svn] == before[svn]))
    && (forall i: nat :: LastOf(mentions, i, svn) ==> svn in after && after[svn].data == mentions[i].data)
    && (forall i: nat :: FirstOf(mentions, i, svn) ==>
         svn in after && after[svn].ts == if svn in before then before[svn].ts else mentions[i].ts)
  }

  function NotedInTurn(satellites: map<nat, Sat>, mentions: seq<Mention>): map<nat, Sat>
    decreases |mentions|
  {
    if mentions == [] then satellites
    else NotedInTurn(OneNoted(satellites, mentions[0]), mentions[1..])
  }

  function OneNoted(satellites: map<nat, Sat>, x: Mention): map<nat, Sat> {
    Noted(satellites, InView(x.svn, x.data), x.ts)
  }

  lemma {:induction false} NotMentioned(before: map<nat, Sat>, mentions: seq<Mention>, svn: nat)
    requires forall k :: 0 <= k < |mentions| ==> mentions[k].svn != svn
    ensures var after := NotedInTurn(before, mentions);
            (svn in after <==> svn in before) && (svn in before ==> after[svn] == before[svn])
    decreases |mentions|
  {
    if mentions != [] {
      var x, rest := mentions[0], mentions[1..];
      NotMentioned(OneNoted(before, x), rest, svn);
    }
  }

  lemma {:induction false} LastMention(before: map<nat, Sat>, mentions: seq<Mention>, i: nat, svn: nat)
    requires LastOf(mentions, i, svn)
    ensures var after := NotedInTurn(before, mentions); svn in after && after[svn].data == mentions[i].data
    decreases |mentions|
  {
    var x, rest := mentions[0], mentions[1..];
    if i == 0 {
      forall k | 0 <= k < |rest| ensures rest[k].svn != svn {
        assert rest[k] == mentions[k + 1];
      }
      NotMentioned(OneNoted(before, x), rest, svn);
    } else {
      forall k | i - 1 < k < |rest| ensures rest[k].svn != svn {
        assert rest[k] == mentions[k + 1];
      }
      LastMention(OneNoted(before, x), rest, i - 1, svn);
    }
  }

  lemma {:induction false} FirstMention(before: map<nat, Sat>, mentions: seq<Mention>, i: nat, svn: nat)
    requires FirstOf(mentions, i, svn)
    ensures var after := NotedInTurn(before, mentions);
            svn in after && after[svn].ts == if svn in before then before[svn].ts else mentions[i].ts
    decreases |mentions|
  {
    var x, rest := mentions[0], mentions[1..];
    if i == 0 {
      KeepsItsTime(OneNoted(before, x), rest, svn);
    } else {
      forall k | 0 <= k < i - 1 ensures rest[k].svn != svn {
        assert rest[k] == mentions[k + 1];
      }
      FirstMention(OneNoted(before, x), rest, i - 1, svn);
    }
  }

  lemma MentionsLeave(before: map<nat, Sat>, mentions: seq<Mention>, svn: nat)
    ensures Leaves(before, mentions, NotedInTurn(before, mentions), svn)
  {
    var after := NotedInTurn(before, mentions);
    if forall k :: 0 <= k < |mentions| ==> mentions[k].svn != svn {
      NotMentioned(before, mentions, svn);
    }
    forall i: nat | LastOf(mentions, i, svn) ensures svn in after && after[svn].data == mentions[i].data {
      LastMention(before, mentions, i, svn);
    }
    forall i: nat | FirstOf(mentions, i, svn)
      ensures svn in after && after[svn].ts == if svn in before then before[svn].ts else mentions[i].ts
    {
      FirstMention(before, mentions, i, svn);
    }
  }

  lemma {:induction false} KeepsItsTime(before: map<nat, Sat>, mentions: seq<Mention>, svn: nat)
    requires svn in before
    ensures svn in NotedInTurn(before, mentions) && NotedInTurn(before, mentions)[svn].ts == before[svn].ts
    decreases |mentions|
  {
    if mentions != [] {
      KeepsItsTime(OneNoted(before, mentions[0]), mentions[1..], svn);
    }
  }

  lemma {:induction false} NotedConcat(satellites: map<nat, Sat>, a: seq<Mention>, b: seq<Mention>)
    ensures NotedInTurn(satellites, a + b) == NotedInTurn(NotedInTurn(satellites, a), b)
    decreases |a|
  {
    if a == [] {
      assert a + b == b;
    } else {
      assert (a + b)[1..] == a[1..] + b && (a + b)[0] == a[0];
      NotedConcat(OneNoted(satellites, a[0]), a[1..], b);
    }
  }

  /** The satellites a sentence has from the i-th on, as far as there is room. */
  lemma {:induction false} NotedFrom(satellites: map<nat, Sat>, m: Gsv, i: nat)
    requires i <= |Mentioned(m)|
    ensures NotedAll(satellites, m.sats[i..], m.ts, 4 - i) == NotedInTurn(satellites, Mentioned(m)[i..])
    decreases 4 - i
  {
    if i < |Mentioned(m)| {
      var s := m.sats[i];
      assert m.sats[i..][1..] == m.sats[i + 1..] && Mentioned(m)[i..][1..] == Mentioned(m)[i + 1..];
      NotedFrom(Noted(satellites, s, m.ts), m, i + 1);
    }
  }

  lemma {:induction false} RunNotes(g: Group, ms: seq<Gsv>)
    ensures Run(g, ms).0.satellites == NotedInTurn(g.satellites, Mentions(g, ms))
    decreases |ms|
  {
    if ms != [] {
      var m := ms[0];
      assert m.sats[0..] == m.sats && Mentioned(m)[0..] == Mentioned(m);
      NotedFrom(g.satellites, m, 0);
      var first := if IsRead(g, m) then Mentioned(m) else [];
      assert Process(g, m).0.satellites == NotedInTurn(g.satellites, first);
      RunNotes(Process(g, m).0, ms[1..]);
      NotedConcat(g.satellites, first, Mentions(Process(g, m).0, ms[1..]));
    }
  }

  /**
   Over any run of sentences: of every satellite among the first four of a sentence that is
   read the data are those of the last such mention, and its time is the old one if it was
   known, and that of the first mention if not; every other satellite is as it was.
   */
  lemma SatellitesAreUpToDate(g: Group, ms: seq<Gsv>, svn: nat)
    ensures Leaves(g.satellites, Mentions(g, ms), Run(g, ms).0.satellites, svn)
  {
    RunNotes(g, ms);
    MentionsLeave(g.satellites, Mentions(g, ms), svn);
  }

  /** All sentences of a group that arrives whole are read. */
  lemma {:induction false} WholeGroupIsRead(g: Group, ms: seq<Gsv>, k: nat, n: nat)
    requires g.inProgress && |g.recv| == n && 1 <= k <= n && FirstSeen(g.recv, k - 1) && InOrder(ms, k, n)
    ensures Mentions(g, ms) == AllMentioned(ms)
    decreases |ms|
  {
    assert ms[0].number == k;
    var (g1, o) := Process(g, ms[0]);
    assert FirstSeen(g1.recv, k);
    if k == n {
      assert ms[1..] == [];
    } else {
      assert !g1.recv[k] && g1.recv[k] in g1.recv;
      WholeGroupIsRead(g1, ms[1..], k + 1, n);
    }
  }

  function AllMentioned(ms: seq<Gsv>): seq<Mention>
    decreases |ms|
  {
    if ms == [] then [] else Mentioned(ms[0]) + AllMentioned(ms[1..])
  }

  /** So a group that arrives whole is generated with the latest data of all its satellites. */
  lemma FullGroupIsUpToDate(g: Group, ms: seq<Gsv>, n: nat, svn: nat)
    requires !g.inProgress && n >= 1 && InOrder(ms, 1, n)
    ensures Leaves(g.satellites, AllMentioned(ms), Run(g, ms).0.satellites, svn)
  {
    assert ms[0].number == 1 && ms[0].total == n;
    var g0 := Group(true, Allow(n), ms[0].inView, g.satellites);
    assert Process(g0, ms[0]) == Process(g, ms[0]);
    assert Run(g0, ms) == Run(g, ms) && Mentions(g0, ms) == Mentions(g, ms);
    WholeGroupIsRead(g0, ms, 1, n);
    SatellitesAreUpToDate(g, ms, svn);
  }

  // ---- the sequence number ----

  /** adjust_sequence */
  function Adjusted(sequence: nat, utc: int, time: int): (nat, int) {
    if time == utc then (sequence, utc) else (if sequence == 253 then 0 else sequence + 1, time)
  }

  function AdjustedAll(sequence: nat, utc: int, times: seq<int>): (nat, int)
    decreases |times|
  {
    if times == [] then (sequence, utc)
    else var (s, u) := Adjusted(sequence, utc, times[0]); AdjustedAll(s, u, times[1..])
  }

  function Changes(utc: int, times: seq<int>): nat
    decreases |times|
  {
    if times == [] then 0 else (if times[0] == utc then 0 else 1) + Changes(times[0], times[1..])
  }

  /** The sequence number counts the changes of the time, modulo 254. */
  lemma {:induction false} SequenceCountsChanges(sequence: nat, utc: int, times: seq<int>)
    requires sequence <= 253
    ensures AdjustedAll(sequence, utc, times).0 == (sequence + Changes(utc, times)) % 254
    decreases |times|
  {
    if times != [] {
      var (s, u) := Adjusted(sequence, utc, times[0]);
      SequenceCountsChanges(s, u, times[1..]);
      if sequence == 253 && times[0] != utc {
        var c := Changes(u, times[1..]);
        assert (254 + c) % 254 == c % 254;
      }
    }
  }

  // ---- the objects ----

  class Constellation {
    var gsvInProgress: bool
    var gsvSeqRecv: seq<bool>
    var nbSatellites: nat
    var satellites: map<nat, Sat>

    constructor ()
      ensures Now() == Group(false, [], 0, map[])
    {
      gsvInProgress, gsvSeqRecv, nbSatellites, satellites := false, [], 0, map[];
    }

    ghost function Now(): Group
      reads this
    {
      Group(gsvInProgress, gsvSeqRecv, nbSatellites, satellites)
    }

    method ProcessGSV(m: Gsv) returns (outcome: Outcome)
      modifies this
      ensures (Now(), outcome) == Process(old(Now()), m)
    {
      if !gsvInProgress {
        if m.number != 1 {
          return Nothing;
        }
        nbSatellites, gsvSeqRecv, gsvInProgress := m.inView, Allow(m.total), true;
      }
      var index := Index(m.number - 1, |gsvSeqRecv|);
      if index.None? {
        return Raised;
      }
      gsvSeqRecv := gsvSeqRecv[index.value := true];
      ReadSatellites(m);
      if false in gsvSeqRecv {
        return Nothing;
      }
      gsvInProgress := false;
      return Generated;
    }

    /** The satellites of a sentence, four at most. */
    method ReadSatellites(m: Gsv)
      modifies this`satellites
      ensures satellites == NotedAll(old(satellites), m.sats, m.ts, 4)
      ensures forall svn :: Leaves(old(satellites), Mentioned(m), satellites, svn)
    {
      forall svn ensures Leaves(satellites, Mentioned(m), NotedAll(satellites, m.sats, m.ts, 4), svn) {
        assert m.sats[0..] == m.sats && Mentioned(m)[0..] == Mentioned(m);
        NotedFrom(satellites, m, 0);
        MentionsLeave(satellites, Mentioned(m), svn);
      }
      var n := 0;
      while n < 4 && n < |m.sats|
        invariant 0 <= n <= 4 && n <= |m.sats|
        invariant NotedAll(old(satellites), m.sats, m.ts, 4) == NotedAll(satellites, m.sats[n..], m.ts, 4 - n)
      {
        assert m.sats[n..][1..] == m.sats[n + 1..];
        satellites := Noted(satellites, m.sats[n], m.ts);
        n := n + 1;
      }
      assert NotedAll(satellites, m.sats[n..], m.ts, 4 - n) == satellites;
    }
  }

  class GNSSDataManager {
    var sequence: nat
    var utcTime: int

    method AdjustSequence(currentTime: int)
      modifies this
      ensures (sequence, utcTime) == Adjusted(old(sequence), old(utcTime), currentTime)
    {
      if currentTime != utcTime {
        sequence := if sequence == 253 then 0 else sequence + 1;
        utcTime := currentTime;
      }
    }
  }
}
