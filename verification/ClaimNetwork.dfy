/**
 Address claim on a network: any number of controllers with one application each, and
 the claims that are on their way from one to another, delivered in any order.
 */
module ClaimNetwork {
  import opened CanAddresses
  import opened AddressClaim

  datatype Packet = Packet(from: nat, to: nat, claim: Claim)
  datatype Net = Net(nodes: seq<App>, flight: seq<Packet>)

  /**
   What can happen next. `known` is what the controller knows of the network at that
   moment; nothing is assumed of it.
   */
  datatype Step =
    | SendsClaim(i: nat)                     // bus ready, or poll_devices
    | TimerFires(i: nat)
    | AnswersIsoRequest(i: nat)
    | Commands(name: nat, address: nat)      // a commanded address, which every node receives
    | Receives(k: nat, known: set<nat>)      // the k-th packet in flight arrives

  predicate Enabled(net: Net, step: Step) {
    match step
    case SendsClaim(i) => i < |net.nodes| && !net.nodes[i].stopped
    case TimerFires(i) => i < |net.nodes| && net.nodes[i].running > 0
    case AnswersIsoRequest(i) => i < |net.nodes| && !net.nodes[i].stopped
    case Commands(_, _) => true
    case Receives(k, _) =>
      k < |net.flight| && net.flight[k].to < |net.nodes| && net.nodes[net.flight[k].to].Valid()
  }

  /** One claim on its way from node i to every other one. */
  function ToAll(n: nat, i: nat, claim: Claim): seq<Packet> {
    if n == 0 then []
    else ToAll(n - 1, i, claim) + if n - 1 == i then [] else [Packet(i, n - 1, claim)]
  }

  function Broadcast(n: nat, i: nat, claims: seq<Claim>): seq<Packet> {
    if claims == [] then [] else ToAll(n, i, claims[0]) + Broadcast(n, i, claims[1..])
  }

  /** Node i becomes what the event made of it, and what it sent is in flight. */
  function Updated(net: Net, i: nat, r: (App, seq<Claim>)): Net
    requires i < |net.nodes|
  {
    Net(net.nodes[i := r.0], net.flight + Broadcast(|net.nodes|, i, r.1))
  }

  function Without(net: Net, k: nat): Net
    requires k < |net.flight|
  {
    net.(flight := net.flight[..k] + net.flight[k + 1..])
  }

  /** The first n nodes receive the commanded address, one after the other. */
  function CommandFirst(net: Net, n: nat, name: nat, address: nat): (r: Net)
    requires n <= |net.nodes|
    ensures |r.nodes| == |net.nodes|
  {
    if n == 0 then net
    else
      var before := CommandFirst(net, n - 1, name, address);
      var a := before.nodes[n - 1];
      Updated(before, n - 1, if a.stopped then (a, []) else Commanded(a, name, address))
  }

  function Do(net: Net, step: Step): Net
    requires Enabled(net, step)
  {
    match step
    case SendsClaim(i) => Updated(net, i, SendClaim(net.nodes[i]))
    case TimerFires(i) => Updated(net, i, (ClaimDelay(net.nodes[i]), []))
    case AnswersIsoRequest(i) => Updated(net, i, (net.nodes[i], Respond(net.nodes[i])))
    case Commands(name, address) => CommandFirst(net, |net.nodes|, name, address)
    case Receives(k, known) =>
      var p := net.flight[k];
      Updated(Without(net, k), p.to, Dispatch(net.nodes[p.to], p.claim, known))
  }

  // ---- the invariant ----

  /** Node i's claim of its address is on its way to node j. */
  predicate Announced(net: Net, i: nat, j: nat)
    requires i < |net.nodes|
  {
    Packet(i, j, Respond(net.nodes[i])[0]) in net.flight
  }

  predicate SameAddress(net: Net, i: nat, j: nat)
    requires i < |net.nodes| && j < |net.nodes|
  {
    net.nodes[i].Online() && net.nodes[j].Online() && net.nodes[i].address == net.nodes[j].address
  }

  predicate Covered(net: Net, i: nat, j: nat)
    requires i < |net.nodes| && j < |net.nodes|
  {
    SameAddress(net, i, j) ==> Announced(net, i, j) || Announced(net, j, i)
  }

  /** Distinct NAMEs, and every address in use or in a pool is an ordinary one. */
  ghost predicate Sound(nodes: seq<App>) {
    && (forall i, j :: 0 <= i < j < |nodes| ==> nodes[i].name != nodes[j].name)
    && (forall i :: 0 <= i < |nodes| ==> SoundNode(nodes[i]))
  }

  ghost predicate SoundNode(a: App) {
    a.Valid() && a.address < NULL_ADDRESS && forall x :: x in a.pool ==> x < NULL_ADDRESS
  }

  ghost predicate SoundPacket(nodes: seq<App>, p: Packet) {
    p.from < |nodes| && p.to < |nodes| && p.from != p.to && p.claim.name == nodes[p.from].name
  }

  ghost predicate Inv(net: Net) {
    && Sound(net.nodes)
    && (forall p :: p in net.flight ==> SoundPacket(net.nodes, p))
    && (forall i, j :: 0 <= i < |net.nodes| && 0 <= j < |net.nodes| && i != j ==> Covered(net, i, j))
  }

  // ---- broadcasting ----

  lemma {:induction false} ToAllReaches(n: nat, i: nat, claim: Claim)
    ensures forall j :: 0 <= j < n && j != i ==> Packet(i, j, claim) in ToAll(n, i, claim)
    ensures forall p :: p in ToAll(n, i, claim) ==> p.from == i && p.to < n && p.to != i && p.claim == claim
  {
    if n > 0 {
      ToAllReaches(n - 1, i, claim);
    }
  }

  lemma {:induction false} BroadcastReaches(n: nat, i: nat, claims: seq<Claim>)
    ensures forall j, c :: 0 <= j < n && j != i && c in claims ==> Packet(i, j, c) in Broadcast(n, i, claims)
    ensures forall p :: p in Broadcast(n, i, claims) ==> p.from == i && p.to < n && p.to != i && p.claim in claims
    decreases |claims|
  {
    if claims != [] {
      ToAllReaches(n, i, claims[0]);
      BroadcastReaches(n, i, claims[1..]);
    }
  }

  // ---- one step ----

  /** What a step leaves of node i: its NAME, sound addresses, and claims in its own name. */
  ghost predicate Proper(a: App, r: (App, seq<Claim>)) {
    SoundNode(r.0) && r.0.name == a.name && forall c :: c in r.1 ==> c.name == a.name
  }

  /** Node i announces where it is, or is no more than it was. */
  predicate AnnouncesOrStays(a: App, r: (App, seq<Claim>)) {
    Respond(r.0)[0] in r.1 || !r.0.Online() || (r.0.address == a.address && a.Online())
  }

  lemma UpdateKeepsSound(net: Net, i: nat, r: (App, seq<Claim>))
    requires i < |net.nodes| && Sound(net.nodes) && Proper(net.nodes[i], r)
    requires forall p :: p in net.flight ==> SoundPacket(net.nodes, p)
    ensures Sound(Updated(net, i, r).nodes)
    ensures forall p :: p in Updated(net, i, r).flight ==> SoundPacket(Updated(net, i, r).nodes, p)
  {
    BroadcastReaches(|net.nodes|, i, r.1);
  }

  lemma UpdateKeepsCovered(net: Net, i: nat, r: (App, seq<Claim>), x: nat, y: nat)
    requires i < |net.nodes| && x < |net.nodes| && y < |net.nodes| && x != y
    requires r.0.name == net.nodes[i].name
    requires x == i || y == i ==> AnnouncesOrStays(net.nodes[i], r)
    requires ((x == i || y == i) && (Respond(r.0)[0] in r.1 || !r.0.Online())) || Covered(net, x, y)
    ensures Covered(Updated(net, i, r), x, y)
  {
    BroadcastReaches(|net.nodes|, i, r.1);
    var net' := Updated(net, i, r);
    assert forall p :: p in net.flight ==> p in net'.flight;
    if x == i && Respond(r.0)[0] in r.1 {
      assert Announced(net', i, y);
    } else if y == i && Respond(r.0)[0] in r.1 {
      assert Announced(net', i, x);
    }
  }

  lemma UpdateKeepsInv(net: Net, i: nat, r: (App, seq<Claim>))
    requires Inv(net) && i < |net.nodes|
    requires Proper(net.nodes[i], r) && AnnouncesOrStays(net.nodes[i], r)
    ensures Inv(Updated(net, i, r))
  {
    UpdateKeepsSound(net, i, r);
    forall x, y | 0 <= x < |net.nodes| && 0 <= y < |net.nodes| && x != y ensures Covered(Updated(net, i, r), x, y) {
      UpdateKeepsCovered(net, i, r, x, y);
    }
  }

  /** A packet that is taken out can only uncover a pair it concerns. */
  lemma WithoutKeepsCovered(net: Net, k: nat, x: nat, y: nat)
    requires Inv(net) && k < |net.flight| && x < |net.nodes| && y < |net.nodes| && x != y
    ensures Covered(Without(net, k), x, y)
         || (var p := net.flight[k];
             {p.from, p.to} == {x, y} && SameAddress(net, x, y) && p.claim == Respond(net.nodes[p.from])[0])
  {
    var p := net.flight[k];
    assert Covered(net, x, y);
    assert forall q :: q in net.flight && q != p ==> q in Without(net, k).flight;
  }

  /** Receiving a claim: the node that is told answers, moves on, or stops. */
  lemma ReceiveKeepsInv(net: Net, k: nat, known: set<nat>)
    requires Inv(net) && Enabled(net, Receives(k, known))
    ensures Inv(Do(net, Receives(k, known)))
  {
    var p := net.flight[k];
    var (i, rest) := (p.to, Without(net, k));
    var a := net.nodes[i];
    var r := Dispatch(a, p.claim, known);
    assert p in net.flight && SoundPacket(net.nodes, p);
    assert p.claim.name != a.name;
    assert NULL_ADDRESS !in a.pool;
    ClaimOutcome(a, p.claim, known);
    DispatchIsProper(a, p.claim, known);
    assert forall q :: q in rest.flight ==> q in net.flight;
    UpdateKeepsSound(rest, i, r);
    forall x, y | 0 <= x < |net.nodes| && 0 <= y < |net.nodes| && x != y ensures Covered(Updated(rest, i, r), x, y) {
      ReceiveKeepsCovered(net, k, known, x, y);
    }
  }

  lemma DispatchIsProper(a: App, c: Claim, known: set<nat>)
    requires SoundNode(a) && c.name != a.name
    ensures Proper(a, Dispatch(a, c, known))
    ensures AnnouncesOrStays(a, Dispatch(a, c, known)) || (!a.Online() && !Conflict(a, c))
  {
    assert NULL_ADDRESS !in a.pool;
    ClaimOutcome(a, c, known);
    assert forall x :: x in a.pool[a.next..] ==> x in a.pool;
  }

  lemma ReceiveKeepsCovered(net: Net, k: nat, known: set<nat>, x: nat, y: nat)
    requires Inv(net) && Enabled(net, Receives(k, known)) && x < |net.nodes| && y < |net.nodes| && x != y
    ensures Covered(Do(net, Receives(k, known)), x, y)
  {
    var p := net.flight[k];
    var i, rest := p.to, Without(net, k);
    var a := net.nodes[i];
    var r := Dispatch(a, p.claim, known);
    assert p in net.flight && SoundPacket(net.nodes, p);
    assert SoundNode(a) && p.claim.name != a.name && NULL_ADDRESS !in a.pool;
    ClaimOutcome(a, p.claim, known);
    DispatchIsProper(a, p.claim, known);
    WithoutKeepsCovered(net, k, x, y);
    UpdateKeepsCovered(rest, i, r, x, y);
  }

  // ---- a command ----

  lemma NothingUpdated(net: Net, i: nat)
    requires i < |net.nodes|
    ensures Updated(net, i, (net.nodes[i], [])) == net
  {
    assert net.nodes[i := net.nodes[i]] == net.nodes && net.flight + [] == net.flight;
  }

  /** Who takes part in a command: the node with its NAME, if it is on the bus. */
  lemma {:induction false} CommandedNode(net: Net, n: nat, name: nat, address: nat) returns (i: nat)
    requires n <= |net.nodes| && Sound(net.nodes)
    ensures i < n ==> net.nodes[i].name == name && !net.nodes[i].stopped
                      && CommandFirst(net, n, name, address) == Updated(net, i, Commanded(net.nodes[i], name, address))
    ensures i >= n ==> CommandFirst(net, n, name, address) == net
                       && forall j :: 0 <= j < n ==> net.nodes[j].name != name || net.nodes[j].stopped
  {
    if n == 0 {
      return 0;
    }
    i := CommandedNode(net, n - 1, name, address);
    var before, a := CommandFirst(net, n - 1, name, address), net.nodes[n - 1];
    assert before.nodes[n - 1] == a;
    CommandOutcome(a, name, address);
    if i < n - 1 {
      assert net.nodes[i].name != a.name;
      NothingUpdated(before, n - 1);
    } else if a.name == name && !a.stopped {
      i := n - 1;
    } else {
      NothingUpdated(net, n - 1);
      i := n;
    }
  }

  /**
   A command reaches every node, and only the one with its NAME takes the address, and
   sends: its claim of that address, to all the others, unless it is stopping.
   */
  lemma OnlyTheNamedNodeObeys(net: Net, name: nat, address: nat, i: nat)
    requires Inv(net) && i < |net.nodes|
    ensures var a, net' := net.nodes[i], Do(net, Commands(name, address));
            && (a.name != name || a.stopped ==> net'.nodes[i] == a)
            && (a.name == name && !a.stopped ==> net'.nodes[i].address == address)
            && (forall p :: p in net.flight ==> p in net'.flight)
            && (forall p :: p in net'.flight && p !in net.flight ==>
                 p.from < |net.nodes| && net.nodes[p.from].name == name && p.claim == Claim(address, name, 255))
            && (a.name == name && !a.stopped && a.mode != StopInProgress ==>
                 forall j :: 0 <= j < |net.nodes| && j != i ==> Packet(i, j, Claim(address, name, 255)) in net'.flight)
  {
    var j := CommandedNode(net, |net.nodes|, name, address);
    if j < |net.nodes| {
      CommandOutcome(net.nodes[j], name, address);
      BroadcastReaches(|net.nodes|, j, Commanded(net.nodes[j], name, address).1);
      assert j != i ==> net.nodes[i].name != name;
    }
  }

  /** The claim of a node, sent by itself or asked for, is on its way to every other node, and nothing else changes. */
  lemma ClaimsGoToEverybody(net: Net, step: Step, i: nat)
    requires Enabled(net, step) && (step == SendsClaim(i) || step == AnswersIsoRequest(i))
    requires step.SendsClaim? ==> net.nodes[i].mode != StopInProgress
    ensures var a, net' := net.nodes[i], Do(net, step);
            && |net'.nodes| == |net.nodes| && net.flight <= net'.flight
            && (forall j :: 0 <= j < |net.nodes| && j != i ==>
                 net'.nodes[j] == net.nodes[j] && Packet(i, j, Claim(a.address, a.name, 255)) in net'.flight)
            && (forall p :: p in net'.flight[|net.flight|..] ==>
                 p.from == i && p.to != i && p.claim == Claim(a.address, a.name, 255))
            && net'.nodes[i] == if step.AnswersIsoRequest? then a
                                else a.(mode := Claiming, running := a.running + 1, latest := true)
  {
    var claims := if step.SendsClaim? then SendClaim(net.nodes[i]).1 else Respond(net.nodes[i]);
    BroadcastReaches(|net.nodes|, i, claims);
    assert Do(net, step).flight[|net.flight|..] == Broadcast(|net.nodes|, i, claims);
  }

  lemma StepKeepsInv(net: Net, step: Step)
    requires Inv(net) && Enabled(net, step)
    requires step.Commands? ==> step.address < NULL_ADDRESS
    ensures Inv(Do(net, step))
  {
    match step
    case SendsClaim(i) => UpdateKeepsInv(net, i, SendClaim(net.nodes[i]));
    case TimerFires(i) => UpdateKeepsInv(net, i, (ClaimDelay(net.nodes[i]), []));
    case AnswersIsoRequest(i) => UpdateKeepsInv(net, i, (net.nodes[i], Respond(net.nodes[i])));
    case Commands(name, address) =>
      var i := CommandedNode(net, |net.nodes|, name, address);
      if i < |net.nodes| {
        UpdateKeepsInv(net, i, Commanded(net.nodes[i], name, address));
      }
    case Receives(k, known) => ReceiveKeepsInv(net, k, known);
  }

  // ---- runs ----

  ghost predicate EnabledRun(net: Net, steps: seq<Step>)
    decreases |steps|
  {
    steps == [] || (Enabled(net, steps[0]) && EnabledRun(Do(net, steps[0]), steps[1..]))
  }

  function Run(net: Net, steps: seq<Step>): Net
    requires EnabledRun(net, steps)
    decreases |steps|
  {
    if steps == [] then net else Run(Do(net, steps[0]), steps[1..])
  }

  /** Nobody is commanded to 254 or 255. */
  predicate OrdinaryCommands(steps: seq<Step>) {
    forall s :: s in steps && s.Commands? ==> s.address < NULL_ADDRESS
  }

  lemma {:induction false} RunKeepsInv(net: Net, steps: seq<Step>)
    requires Inv(net) && EnabledRun(net, steps) && OrdinaryCommands(steps)
    ensures Inv(Run(net, steps))
    decreases |steps|
  {
    if steps != [] {
      assert steps[0] in steps;
      StepKeepsInv(net, steps[0]);
      RunKeepsInv(Do(net, steps[0]), steps[1..]);
    }
  }

  /** Applications that have not sent anything yet. */
  ghost predicate Initial(net: Net) {
    Sound(net.nodes) && net.flight == [] && forall i :: 0 <= i < |net.nodes| ==> net.nodes[i].mode == WaitForBus
  }

  /**
   Address-claim safety: for any number of applications with distinct NAMEs and any order
   of events and deliveries, two online ones that share an address have a claim of that
   address in flight between them. With nothing in flight, online addresses are distinct.
   */
  lemma AddressesAreDisputedOrDistinct(net: Net, steps: seq<Step>, i: nat, j: nat)
    requires Initial(net) && EnabledRun(net, steps) && OrdinaryCommands(steps)
    requires i < |Run(net, steps).nodes| && j < |Run(net, steps).nodes| && i != j
    ensures var net' := Run(net, steps);
            && (SameAddress(net', i, j) ==> Announced(net', i, j) || Announced(net', j, i))
            && (net'.flight == [] ==> !SameAddress(net', i, j))
  {
    RunKeepsInv(net, steps);
    assert Covered(Run(net, steps), i, j);
  }

  /** A step moves or stops a node only by a command, or by the claim of a node with a lower NAME. */
  lemma OnlyLowerNamesMove(net: Net, step: Step, i: nat)
    requires Inv(net) && Enabled(net, step) && i < |net.nodes|
    requires var a, a' := net.nodes[i], Do(net, step).nodes[i];
             a'.address != a.address || a'.stopped != a.stopped
    ensures step == Commands(net.nodes[i].name, Do(net, step).nodes[i].address)
         || (step.Receives? && net.flight[step.k].to == i && net.flight[step.k].from < |net.nodes|
             && net.nodes[net.flight[step.k].from].name < net.nodes[i].name)
  {
    if step.Receives? {
      var p := net.flight[step.k];
      assert p in net.flight && SoundPacket(net.nodes, p) && SoundNode(net.nodes[p.to]);
      ClaimOutcome(net.nodes[p.to], p.claim, step.known);
    } else if step.Commands? {
      var j := CommandedNode(net, |net.nodes|, step.name, step.address);
    }
  }

  predicate NotCommanded(steps: seq<Step>, name: nat) {
    forall s :: s in steps && s.Commands? ==> s.name != name
  }

  /** The node with the lowest NAME keeps its address through every run. */
  lemma {:induction false} LowestNameNeverMoves(net: Net, steps: seq<Step>, i: nat)
    requires Inv(net) && EnabledRun(net, steps) && OrdinaryCommands(steps)
    requires i < |net.nodes| && NotCommanded(steps, net.nodes[i].name)
    requires forall j :: 0 <= j < |net.nodes| && j != i ==> net.nodes[i].name < net.nodes[j].name
    ensures i < |Run(net, steps).nodes|
    ensures Run(net, steps).nodes[i].address == net.nodes[i].address
            && Run(net, steps).nodes[i].stopped == net.nodes[i].stopped
    decreases |steps|
  {
    if steps != [] {
      var net1 := Do(net, steps[0]);
      assert steps[0] in steps;
      StepKeepsInv(net, steps[0]);
      SameNames(net, steps[0]);
      if net1.nodes[i].address != net.nodes[i].address || net1.nodes[i].stopped != net.nodes[i].stopped {
        OnlyLowerNamesMove(net, steps[0], i);
        assert false;
      }
      LowestNameNeverMoves(net1, steps[1..], i);
    }
  }

  lemma SameNames(net: Net, step: Step)
    requires Enabled(net, step)
    ensures |Do(net, step).nodes| == |net.nodes|
    ensures forall j :: 0 <= j < |net.nodes| ==> Do(net, step).nodes[j].name == net.nodes[j].name
  {
    if step.Commands? {
      CommandKeepsNames(net, |net.nodes|, step.name, step.address);
    }
  }

  lemma {:induction false} CommandKeepsNames(net: Net, n: nat, name: nat, address: nat)
    requires n <= |net.nodes|
    ensures forall j :: 0 <= j < |net.nodes| ==> CommandFirst(net, n, name, address).nodes[j].name == net.nodes[j].name
  {
    if n > 0 {
      CommandKeepsNames(net, n - 1, name, address);
    }
  }

  lemma RunStep(net: Net, step: Step, rest: seq<Step>, next: Net)
    requires Enabled(net, step) && Do(net, step) == next && EnabledRun(next, rest)
    ensures EnabledRun(net, [step] + rest) && Run(net, [step] + rest) == Run(next, rest)
  {
    assert ([step] + rest)[1..] == rest;
  }

  /** Two nodes at 254 or 255 do not see each other's claims. */
  lemma UnseenClaims(x: App, y: App, p: Packet, q: Packet)
    requires x.Valid() && y.Valid() && p.to == 1 && q.to == 0
    requires p.claim.sa >= NULL_ADDRESS && q.claim.sa >= NULL_ADDRESS && p.claim.da == BROADCAST == q.claim.da
    ensures var r, net := Receives(0, {}), Net([x, y], [p, q]);
            EnabledRun(net, [r] + ([r] + [])) && Run(net, [r] + ([r] + [])) == Net([x, y], [])
  {
    var r := Receives(0, {});
    assert Do(Net([x, y], [q]), r) == Net([x, y], []);
    RunStep(Net([x, y], [q]), r, [], Net([x, y], []));
    assert Do(Net([x, y], [p, q]), r) == Net([x, y], [q]);
    RunStep(Net([x, y], [p, q]), r, [r] + [], Net([x, y], [q]));
  }

  /**
   The restriction to ordinary commands is needed: a commanded address is not checked, and
   claims from 254 and 255 are dropped unseen, so two applications commanded to the same
   one of these share it for good, with nothing in flight.
   */
  lemma CommandedNullAddressIsShared(x: App, y: App, address: nat) returns (steps: seq<Step>)
    requires address == NULL_ADDRESS || address == BROADCAST
    requires Initial(Net([x, y], [])) && !x.stopped && !y.stopped
    ensures EnabledRun(Net([x, y], []), steps)
    ensures var net' := Run(Net([x, y], []), steps);
            net'.flight == [] && |net'.nodes| == 2 && SameAddress(net', 0, 1) && net'.nodes[0].address == address
  {
    var net0 := Net([x, y], []);
    var r := Receives(0, {});
    assert SoundNode(net0.nodes[0]) && SoundNode(net0.nodes[1]);
    assert x.mode == net0.nodes[0].mode && y.mode == net0.nodes[1].mode;
    var x', y' := SendClaim(x.(address := address)).0, SendClaim(y.(address := address)).0;
    var p, q := Packet(0, 1, Respond(x')[0]), Packet(1, 0, Respond(y')[0]);
    var net1 := Net([x', y], [p]);
    TwoNodes(0, Respond(x'));
    TwoNodes(1, Respond(y'));
    var rest := [r] + ([r] + []);
    UnseenClaims(x', y', p, q);
    CommandTwo(x', y, [p], y.name, address, 1, Net([x', y'], [p, q]));
    CommandTwo(x, y, [], x.name, address, 0, net1);
    RunStep(net1, Commands(y.name, address), rest, Net([x', y'], [p, q]));
    RunStep(net0, Commands(x.name, address), [Commands(y.name, address)] + rest, net1);
    steps := [Commands(x.name, address)] + ([Commands(y.name, address)] + rest);
  }

  /** A command on a network of two, for one of them. */
  lemma CommandTwo(x: App, y: App, flight: seq<Packet>, name: nat, address: nat, i: nat, next: Net)
    requires x.name != y.name && !x.stopped && !y.stopped && i < 2 && name == [x, y][i].name
    requires next == Updated(Net([x, y], flight), i, Commanded([x, y][i], name, address))
    ensures Do(Net([x, y], flight), Commands(name, address)) == next
  {
    var net := Net([x, y], flight);
    CommandOutcome(x, name, address);
    CommandOutcome(y, name, address);
    assert CommandFirst(net, 0, name, address) == net;
    if i == 0 {
      assert CommandFirst(net, 1, name, address) == next;
      NothingUpdated(next, 1);
    } else {
      NothingUpdated(net, 0);
      assert CommandFirst(net, 1, name, address) == net;
    }
    assert Do(net, Commands(name, address)) == CommandFirst(net, 2, name, address);
  }

  lemma TwoNodes(i: nat, claims: seq<Claim>)
    requires i < 2 && |claims| == 1
    ensures Broadcast(2, i, claims) == [Packet(i, 1 - i, claims[0])]
  {
    assert claims[1..] == [];
    assert ToAll(1, i, claims[0]) == if i == 0 then [] else [Packet(i, 0, claims[0])];
  }
}
