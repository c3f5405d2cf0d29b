/**
 Claims, counter-claims and moves come to an end: a bound on the number of deliveries
 that can follow any state of the network.
 */
module ClaimTermination {
  import opened CanAddresses
  import opened AddressClaim
  import opened ClaimNetwork

  function Power(b: nat, e: nat): nat {
    if e == 0 then 1 else b * Power(b, e - 1)
  }

  lemma {:induction false} PowerGrows(b: nat, d: nat, e: nat)
    requires b > 0 && d <= e
    ensures 0 < Power(b, d) <= Power(b, e)
  {
    if d < e {
      PowerGrows(b, d, e - 1);
      assert Power(b, e - 1) <= b * Power(b, e - 1);
    } else if d > 0 {
      PowerGrows(b, d - 1, d - 1);
    }
  }

  function NamesOf(nodes: seq<App>): seq<nat> { seq(|nodes|, i requires 0 <= i < |nodes| => nodes[i].name) }

  /** How many of the NAMEs are lower. */
  function Rank(names: seq<nat>, name: nat): nat {
    if names == [] then 0 else (if names[0] < name then 1 else 0) + Rank(names[1..], name)
  }

  lemma {:induction false} RankIncreases(names: seq<nat>, x: nat, y: nat)
    requires x <= y
    ensures Rank(names, x) <= Rank(names, y) <= |names|
    ensures x < y && x in names ==> Rank(names, x) < Rank(names, y)
    ensures x in names ==> Rank(names, x) < |names|
  {
    if names != [] {
      RankIncreases(names[1..], x, y);
    }
  }

  /** A claim can cause counter-claims of lower NAMEs only. */
  function Weight(names: seq<nat>, p: Packet): nat { Power(|names|, Rank(names, p.claim.name)) }

  function FlightWeight(names: seq<nat>, flight: seq<Packet>): nat {
    if flight == [] then 0 else Weight(names, flight[0]) + FlightWeight(names, flight[1..])
  }

  /** The moves a node has left: one for each address of its pool, and stopping. */
  function MovesLeft(a: App): nat
    requires a.Valid()
  {
    |a.pool| - a.next + if a.stopped then 0 else 1
  }

  predicate AllValid(nodes: seq<App>) { forall i :: 0 <= i < |nodes| ==> nodes[i].Valid() }

  function AllMovesLeft(nodes: seq<App>): nat
    requires AllValid(nodes)
  {
    if nodes == [] then 0 else MovesLeft(nodes[0]) + AllMovesLeft(nodes[1..])
  }

  /** Moves outweigh any number of claims one move can start. */
  function Measure(net: Net): nat
    requires AllValid(net.nodes)
  {
    var names := NamesOf(net.nodes);
    AllMovesLeft(net.nodes) * Power(|names|, |names|) + FlightWeight(names, net.flight)
  }

  // ---- sums ----

  lemma {:induction false} FlightWeightConcat(names: seq<nat>, s: seq<Packet>, t: seq<Packet>)
    ensures FlightWeight(names, s + t) == FlightWeight(names, s) + FlightWeight(names, t)
    decreases |s|
  {
    if s == [] {
      assert s + t == t;
    } else {
      assert (s + t)[1..] == s[1..] + t;
      FlightWeightConcat(names, s[1..], t);
    }
  }

  lemma FlightWeightWithout(names: seq<nat>, flight: seq<Packet>, k: nat)
    requires k < |flight|
    ensures FlightWeight(names, flight) == FlightWeight(names, flight[..k] + flight[k + 1..]) + Weight(names, flight[k])
  {
    var a, b := flight[..k], flight[k + 1..];
    assert flight == a + ([flight[k]] + b);
    assert ([flight[k]] + b)[1..] == b;
    FlightWeightConcat(names, a, [flight[k]] + b);
    FlightWeightConcat(names, a, b);
  }

  lemma {:induction false} ToAllWeight(names: seq<nat>, n: nat, i: nat, claim: Claim)
    ensures FlightWeight(names, ToAll(n, i, claim))
         == (if i < n then n - 1 else n) * Power(|names|, Rank(names, claim.name))
  {
    var w := Power(|names|, Rank(names, claim.name));
    if n > 0 {
      ToAllWeight(names, n - 1, i, claim);
      var more := if n - 1 == i then [] else [Packet(i, n - 1, claim)];
      FlightWeightConcat(names, ToAll(n - 1, i, claim), more);
      if n - 1 != i {
        assert more[1..] == [] && FlightWeight(names, more) == w;
        Distribute(if i < n - 1 then n - 2 else n - 1, w);
      }
    }
  }

  lemma Distribute(k: nat, w: nat)
    ensures k * w + w == (k + 1) * w
  {
  }

  lemma {:induction false} MovesLeftUpdated(nodes: seq<App>, i: nat, a: App)
    requires i < |nodes| && AllValid(nodes) && a.Valid()
    ensures AllValid(nodes[i := a])
    ensures AllMovesLeft(nodes[i := a]) == AllMovesLeft(nodes) - MovesLeft(nodes[i]) + MovesLeft(a)
    ensures AllMovesLeft(nodes) >= MovesLeft(nodes[i])
  {
    if i > 0 {
      assert nodes[i := a][1..] == nodes[1..][i - 1 := a];
      MovesLeftUpdated(nodes[1..], i - 1, a);
    } else {
      assert nodes[i := a][1..] == nodes[1..];
    }
  }

  // ---- one delivery ----

  lemma RankPowers(names: seq<nat>, name: nat)
    requires name in names
    ensures var n, r := |names|, Rank(names, name);
            n > 0 && r < n && 0 <= (n - 1) * Power(n, r) < Power(n, r + 1) <= Power(n, n)
  {
    var n, r := |names|, Rank(names, name);
    RankIncreases(names, name, name);
    PowerGrows(n, r, r);
    PowerGrows(n, r + 1, n);
    BelowMultiple(n, Power(n, r));
  }

  /** What a broadcast of node i puts in flight weighs less than one move. */
  lemma OneBroadcast(names: seq<nat>, i: nat, claims: seq<Claim>, name: nat)
    requires i < |names| && names[i] == name && |claims| <= 1 && forall c :: c in claims ==> c.name == name
    ensures var w := FlightWeight(names, Broadcast(|names|, i, claims));
            w < Power(|names|, Rank(names, name) + 1) <= Power(|names|, |names|)
  {
    RankPowers(names, name);
    if claims != [] {
      assert claims[0] in claims && claims[1..] == [];
      assert Broadcast(|names|, i, claims) == ToAll(|names|, i, claims[0]) + [];
      assert ToAll(|names|, i, claims[0]) + [] == ToAll(|names|, i, claims[0]);
      ToAllWeight(names, |names|, i, claims[0]);
    }
  }

  lemma BelowMultiple(n: nat, w: nat)
    requires n > 0 && w > 0
    ensures 0 <= (n - 1) * w < n * w
  {
  }

  /** The node either makes one of its last moves, or answers only a higher NAME. */
  lemma DeliveryOutcome(a: App, c: Claim, known: set<nat>)
    requires SoundNode(a) && c.name != a.name
    ensures var (a', sent) := Dispatch(a, c, known);
            && |sent| <= 1 && (forall c' :: c' in sent ==> c'.name == a.name)
            && (MovesLeft(a') < MovesLeft(a) || (MovesLeft(a') == MovesLeft(a) && (sent != [] ==> a.name < c.name)))
  {
    assert NULL_ADDRESS !in a.pool;
    ClaimOutcome(a, c, known);
    NewAddressIsFirstFree(a.pool, a.next, known);
  }

  lemma {:induction false} TimesMonotone(x: nat, y: nat, b: nat)
    requires x <= y
    ensures x * b <= y * b
  {
    if x < y {
      TimesMonotone(x, y - 1, b);
      Distribute(y - 1, b);
    }
  }

  lemma Decreases(moves: nat, moves': nat, b: nat, flight: nat, w: nat, sent: nat)
    requires 0 < w <= flight
    requires (moves' < moves && sent < b) || (moves' == moves && sent < w)
    ensures 0 <= moves' * b + (flight - w + sent) < moves * b + flight
  {
    if moves' < moves {
      Distribute(moves', b);
      TimesMonotone(moves' + 1, moves, b);
    }
  }

  /** What the answer weighs against the claim it answers, and against a move. */
  lemma AnswerWeight(names: seq<nat>, i: nat, a: App, p: Packet, known: set<nat>)
    requires SoundNode(a) && p.claim.name != a.name
    requires i < |names| && names[i] == a.name && p.claim.name in names
    ensures var (a', sent) := Dispatch(a, p.claim, known);
            var w := FlightWeight(names, Broadcast(|names|, i, sent));
            && 0 < Weight(names, p) && w < Power(|names|, |names|)
            && (MovesLeft(a') < MovesLeft(a) || (MovesLeft(a') == MovesLeft(a) && w < Weight(names, p)))
  {
    var (a', sent) := Dispatch(a, p.claim, known);
    var r := Rank(names, p.claim.name);
    DeliveryOutcome(a, p.claim, known);
    OneBroadcast(names, i, sent, a.name);
    PowerGrows(|names|, r, r);
    if a.name < p.claim.name {
      RankIncreases(names, a.name, p.claim.name);
      PowerGrows(|names|, Rank(names, a.name) + 1, r);
    }
  }

  lemma DeliveryDecreases(net: Net, k: nat, known: set<nat>)
    requires Inv(net) && Enabled(net, Receives(k, known))
    ensures AllValid(net.nodes) && AllValid(Do(net, Receives(k, known)).nodes)
    ensures Measure(Do(net, Receives(k, known))) < Measure(net)
  {
    var p, names, net' := net.flight[k], NamesOf(net.nodes), Do(net, Receives(k, known));
    var i, a := p.to, net.nodes[p.to];
    assert p in net.flight && SoundPacket(net.nodes, p) && SoundNode(a);
    assert names[i] == a.name && names[p.from] == p.claim.name;
    var (a', sent) := Dispatch(a, p.claim, known);
    AnswerWeight(names, i, a, p, known);
    MovesLeftUpdated(net.nodes, i, a');
    assert NamesOf(net'.nodes) == names;
    FlightWeightWithout(names, net.flight, k);
    FlightWeightConcat(names, Without(net, k).flight, Broadcast(|names|, i, sent));
    Decreases(AllMovesLeft(net.nodes), AllMovesLeft(net'.nodes), Power(|names|, |names|),
              FlightWeight(names, net.flight), Weight(names, p), FlightWeight(names, Broadcast(|names|, i, sent)));
  }

  /**
   Address-claim termination: from any state no more deliveries can follow, in any order
   and with any knowledge of the network, than its measure says; when none is left to
   make, nothing is in flight and online addresses are distinct.
   */
  lemma {:induction false} DeliveriesEnd(net: Net, steps: seq<Step>)
    requires Inv(net) && EnabledRun(net, steps) && forall s :: s in steps ==> s.Receives?
    ensures AllValid(net.nodes) && |steps| <= Measure(net)
    ensures var net' := Run(net, steps);
            (forall k, known :: !Enabled(net', Receives(k, known))) ==>
              net'.flight == [] && forall i, j :: 0 <= i < j < |net'.nodes| ==> !SameAddress(net', i, j)
    decreases |steps|
  {
    if steps == [] {
      if net.flight != [] {
        assert net.flight[0] in net.flight && SoundPacket(net.nodes, net.flight[0])
            && SoundNode(net.nodes[net.flight[0].to]);
        assert Enabled(net, Receives(0, {}));
      } else {
        forall i, j | 0 <= i < j < |net.nodes| ensures !SameAddress(net, i, j) {
          assert Covered(net, i, j);
        }
      }
    } else {
      assert steps[0] in steps;
      DeliveryDecreases(net, steps[0].k, steps[0].known);
      StepKeepsInv(net, steps[0]);
      DeliveriesEnd(Do(net, steps[0]), steps[1..]);
    }
  }
}
