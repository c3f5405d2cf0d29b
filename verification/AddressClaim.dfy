/**
 Address claim of one controller application, section 4 of SAE J1939-81: the address
 pool, and what each event does to the application and what it sends.
 */
module AddressClaim {
  import opened CanAddresses

  // ---- the pool ----

  /** Addresses first .. first + 2 * maxApplications. */
  function AddressPool(first: nat, maxApplications: nat): (pool: seq<nat>)
    ensures |pool| == 2 * maxApplications + 1
  {
    seq(2 * maxApplications + 1, i requires i >= 0 => first + i)
  }

  predicate Increasing(s: seq<nat>) {
    forall i, j :: 0 <= i < j < |s| ==> s[i] < s[j]
  }

  /** get_new_address: the address, or 254, and the new value of _ap_index. */
  function NewAddress(pool: seq<nat>, next: nat, known: set<nat>): (r: (nat, nat))
    requires next <= |pool|
    ensures next <= r.1 <= |pool|
    decreases |pool| - next
  {
    if next == |pool| then (NULL_ADDRESS, next)
    else if pool[next] !in known then (pool[next], next + 1)
    else NewAddress(pool, next + 1, known)
  }

  /**
   The address handed out is the first one from the index on that nobody on the network
   uses, and the index moves behind it; only a pool without one gives 254.
   */
  lemma {:induction false} NewAddressIsFirstFree(pool: seq<nat>, next: nat, known: set<nat>)
    requires next <= |pool|
    ensures var (address, next') := NewAddress(pool, next, known);
            if exists i :: next <= i < |pool| && pool[i] !in known
            then next < next' && address == pool[next' - 1] && address !in known
                 && forall i :: next <= i < next' - 1 ==> pool[i] in known
            else address == NULL_ADDRESS && next' == |pool|
    decreases |pool| - next
  {
    if next < |pool| && pool[next] in known {
      NewAddressIsFirstFree(pool, next + 1, known);
    }
  }

  lemma NewAddressFromPool(pool: seq<nat>, next: nat, known: set<nat>)
    requires next <= |pool| && forall a :: a in pool ==> a < 256
    ensures var address := NewAddress(pool, next, known).0;
            address < 256 && (address != NULL_ADDRESS ==> address in pool && address !in known)
  {
    NewAddressIsFirstFree(pool, next, known);
    if exists i :: next <= i < |pool| && pool[i] !in known {
      assert NewAddress(pool, next, known).0 in pool;
    }
  }

  /** The addresses a pool hands out over a run of requests, each with the network as it is then. */
  function HandedOut(pool: seq<nat>, next: nat, networks: seq<set<nat>>): seq<nat>
    requires next <= |pool|
    decreases |networks|
  {
    if networks == [] then []
    else
      var (address, next') := NewAddress(pool, next, networks[0]);
      (if address == NULL_ADDRESS then [] else [address]) + HandedOut(pool, next', networks[1..])
  }

  lemma IncreasingCons(x: nat, s: seq<nat>)
    requires Increasing(s) && forall y :: y in s ==> x < y
    ensures Increasing([x] + s)
  {
    var r := [x] + s;
    forall i, j | 0 <= i < j < |r| ensures r[i] < r[j] {
      assert r[j] == s[j - 1] && s[j - 1] in s;
    }
  }

  /** An address of the pool from an index on. */
  ghost predicate PooledFrom(pool: seq<nat>, next: nat, a: nat) {
    exists i :: next <= i < |pool| && pool[i] == a
  }

  lemma LaterInPool(pool: seq<nat>, next: nat, next': nat, a: nat)
    requires next < next' <= |pool| && Increasing(pool) && PooledFrom(pool, next', a)
    ensures PooledFrom(pool, next, a) && pool[next' - 1] < a
  {
  }

  /** One request: the address handed out comes before all later ones. */
  lemma HandedOutNext(pool: seq<nat>, next: nat, known: set<nat>, rest: seq<nat>)
    requires next <= |pool| && Increasing(pool)
    requires var next' := NewAddress(pool, next, known).1;
             Increasing(rest) && |rest| <= |pool| - next' && forall a :: a in rest ==> PooledFrom(pool, next', a)
    ensures var address := NewAddress(pool, next, known).0;
            var addresses := (if address == NULL_ADDRESS then [] else [address]) + rest;
            Increasing(addresses) && |addresses| <= |pool| - next
                && forall a :: a in addresses ==> PooledFrom(pool, next, a)
  {
    var (address, next') := NewAddress(pool, next, known);
    NewAddressIsFirstFree(pool, next, known);
    forall a | a in rest && next < next' ensures PooledFrom(pool, next, a) && pool[next' - 1] < a {
      LaterInPool(pool, next, next', a);
    }
    if address == NULL_ADDRESS {
      assert [] + rest == rest;
    } else {
      assert address == pool[next' - 1];
      IncreasingCons(address, rest);
    }
  }

  lemma {:induction false} HandedOutFrom(pool: seq<nat>, next: nat, networks: seq<set<nat>>)
    requires next <= |pool| && Increasing(pool)
    ensures var addresses := HandedOut(pool, next, networks);
            && Increasing(addresses) && |addresses| <= |pool| - next
            && forall a :: a in addresses ==> PooledFrom(pool, next, a)
    decreases |networks|
  {
    if networks != [] {
      var next' := NewAddress(pool, next, networks[0]).1;
      HandedOutFrom(pool, next', networks[1..]);
      HandedOutNext(pool, next, networks[0], HandedOut(pool, next', networks[1..]));
    }
  }

  /**
   Addresses are handed out in strictly increasing order, never twice, and at most
   2 * max_applications + 1 times.
   */
  lemma PoolNeverRepeats(first: nat, maxApplications: nat, networks: seq<set<nat>>)
    ensures Increasing(HandedOut(AddressPool(first, maxApplications), 0, networks))
    ensures |HandedOut(AddressPool(first, maxApplications), 0, networks)| <= 2 * maxApplications + 1
    ensures forall a :: a in HandedOut(AddressPool(first, maxApplications), 0, networks) ==>
              first <= a <= first + 2 * maxApplications
  {
    HandedOutFrom(AddressPool(first, maxApplications), 0, networks);
  }

  /** With nobody else on the network every address of the range is handed out, in order. */
  lemma {:induction false} HandedOutAlone(pool: seq<nat>, next: nat, networks: seq<set<nat>>)
    requires next <= |pool| && NULL_ADDRESS !in pool && forall known :: known in networks ==> known == {}
    ensures HandedOut(pool, next, networks)
         == if |networks| <= |pool| - next then pool[next..next + |networks|] else pool[next..]
    decreases |networks|
  {
    if networks != [] {
      assert networks[0] in networks && networks[0] == {};
      forall known | known in networks[1..] ensures known == {} {
        assert known in networks;
      }
      AloneNext(pool, next);
      if next < |pool| {
        var n, rest := |networks| - 1, networks[1..];
        HandedOutAlone(pool, next + 1, rest);
        if n <= |pool| - (next + 1) {
          assert [pool[next]] + pool[next + 1..next + 1 + n] == pool[next..next + |networks|];
        } else {
          assert [pool[next]] + pool[next + 1..] == pool[next..];
        }
      } else {
        HandedOutAlone(pool, next, networks[1..]);
      }
    }
  }

  lemma AloneNext(pool: seq<nat>, next: nat)
    requires next <= |pool| && NULL_ADDRESS !in pool
    ensures NewAddress(pool, next, {}) == if next < |pool| then (pool[next], next + 1) else (NULL_ADDRESS, next)
  {
    NewAddressIsFirstFree(pool, next, {});
  }

  lemma WholePoolIsHandedOut(first: nat, maxApplications: nat, networks: seq<set<nat>>)
    requires first + 2 * maxApplications < NULL_ADDRESS && |networks| == 2 * maxApplications + 1
    requires forall known :: known in networks ==> known == {}
    ensures var addresses := HandedOut(AddressPool(first, maxApplications), 0, networks);
            |addresses| == 2 * maxApplications + 1 && forall i :: 0 <= i < |addresses| ==> addresses[i] == first + i
  {
    HandedOutAlone(AddressPool(first, maxApplications), 0, networks);
  }

  // ---- the application ----

  datatype Mode = WaitForBus | Claiming | Active | StopInProgress

  /**
   `running` counts claim timers that will still fire; `latest` says that _claim_timer
   refers to one of them, which can therefore be cancelled; `stopped` that its controller
   has left the bus.
   */
  datatype App = App(address: nat, name: nat, mode: Mode, stopped: bool, running: nat, latest: bool, pool: seq<nat>,
                     next: nat) {
    predicate Valid() {
      && next <= |pool| && (latest ==> running > 0)
      && (running > 0 ==> mode != WaitForBus) && (mode == StopInProgress ==> stopped)
    }

    predicate Online() { !stopped && (mode == Claiming || mode == Active) }
  }

  /** An address claim, or with source 254 a cannot-claim message. */
  datatype Claim = Claim(sa: nat, name: nat, da: nat)

  /** respond_address_claim */
  function Respond(a: App): seq<Claim> { [Claim(a.address, a.name, BROADCAST)] }

  /** send_address_claim */
  function SendClaim(a: App): (App, seq<Claim>) {
    if a.mode == StopInProgress then (a, [])
    else (a.(mode := Claiming, running := a.running + 1, latest := true), Respond(a))
  }

  /** address_claim_delay, with whichever timer fires */
  function ClaimDelay(a: App): App
    requires a.running > 0
  {
    a.(mode := Active, running := a.running - 1, latest := false)
  }

  function ChangeAddress(a: App, address: nat): (App, seq<Claim>) {
    SendClaim(a.(address := address))
  }

  function CancelTimer(a: App): App
    requires a.Valid()
  {
    if a.latest then a.(running := a.running - 1, latest := false) else a
  }

  /** The controller stops, and with it the application. */
  function Stop(a: App): App { a.(mode := StopInProgress, stopped := true) }

  /** address_claim_receipt, with the addresses the controller knows on the network */
  function ClaimReceipt(a: App, c: Claim, known: set<nat>): (r: (App, seq<Claim>))
    requires a.Valid()
    ensures r.0.Valid() && r.0.name == a.name && r.0.pool == a.pool && a.next <= r.0.next
  {
    var a := CancelTimer(a);
    if a.address != c.sa then (a, [])
    else if c.name < a.name then
      var (address, next) := NewAddress(a.pool, a.next, known);
      var a := a.(next := next);
      if address == NULL_ADDRESS then (Stop(a), [Claim(NULL_ADDRESS, a.name, c.sa)])
      else ChangeAddress(a, address)
    else if c.name == a.name then (Stop(a), [])
    else (a, Respond(a))
  }

  /** commanded_address_request */
  function Commanded(a: App, name: nat, address: nat): (App, seq<Claim>) {
    if name != a.name then (a, []) else ChangeAddress(a, address)
  }

  /**
   A command for another NAME changes nothing and sends nothing. One for the application's
   own NAME makes it take the address and, unless it is stopping, claim it from everybody
   and start a timer.
   */
  lemma CommandOutcome(a: App, name: nat, address: nat)
    ensures var (a', sent) := Commanded(a, name, address);
            && (name != a.name ==> a' == a && sent == [])
            && (name == a.name ==> a'.address == address && a'.name == a.name && a'.stopped == a.stopped)
            && (name == a.name && a.mode == StopInProgress ==> sent == [] && a'.mode == a.mode)
            && (name == a.name && a.mode != StopInProgress ==>
                 && sent == [Claim(address, name, 255)] && a'.mode == Claiming
                 && a'.running == a.running + 1 && a'.latest && ClaimDelay(a').mode == Active)
  {
  }

  /**
   What the controller of a single application does with a claim: the interface drops
   foreign destinations, broadcasts from 254 up are dropped, and a broadcast reaches the
   application only if it is the device registered at the source address.
   */
  function Dispatch(a: App, c: Claim, known: set<nat>): (r: (App, seq<Claim>))
    requires a.Valid()
    ensures r.0.Valid() && r.0.name == a.name && r.0.pool == a.pool && a.next <= r.0.next
  {
    if a.stopped then (a, [])
    else if c.da != BROADCAST then if c.da == a.address then ClaimReceipt(a, c, known) else (a, [])
    else if c.sa >= 254 || c.sa != a.address then (a, [])
    else ClaimReceipt(a, c, known)
  }

  // ---- what a claim can do to an application ----

  /** A claim that gets through to the application, conflict or not. */
  predicate Reaches(a: App, c: Claim) {
    !a.stopped && if c.da == BROADCAST then c.sa < NULL_ADDRESS && c.sa == a.address else c.da == a.address
  }

  /** A claim that reaches the application and names its own address. */
  predicate Conflict(a: App, c: Claim) { Reaches(a, c) && c.sa == a.address }

  /**
   A lower NAME takes the address: the application moves on to an address nobody uses and
   claims it, or stops when its pool has none left. To a higher NAME it answers with its
   own claim and keeps the address. Nothing else moves it.
   */
  lemma ClaimOutcome(a: App, c: Claim, known: set<nat>)
    requires a.Valid() && NULL_ADDRESS !in a.pool
    ensures var (a', sent) := Dispatch(a, c, known);
            if !Conflict(a, c) then a'.address == a.address && a'.mode == a.mode && a'.stopped == a.stopped
                && sent == []
            else if a.name < c.name then a'.address == a.address && a'.mode == a.mode && !a'.stopped
                && sent == Respond(a)
            else if c.name < a.name && exists i :: a.next <= i < |a.pool| && a.pool[i] !in known
            then a'.address in a.pool[a.next..] && a'.address !in known && a'.mode == Claiming && !a'.stopped
                && sent == Respond(a')
                 && a.next < a'.next
            else a'.address == a.address && a'.stopped && |sent| <= 1
                 && forall c' :: c' in sent ==> c' == Claim(NULL_ADDRESS, a.name, c.sa)
  {
    NewAddressIsFirstFree(a.pool, a.next, known);
    var (address, next) := NewAddress(a.pool, a.next, known);
    if exists i :: a.next <= i < |a.pool| && a.pool[i] !in known {
      assert a.pool[a.next..][next - 1 - a.next] == address;
    }
  }

  // ---- the claim timer ----

  /** Events after which a claimed application would be expected to become active. */
  datatype Event = ReceiveClaim(c: Claim, known: set<nat>) | IsoRequest

  function OnEvent(a: App, e: Event): (r: App)
    requires a.Valid()
    ensures r.Valid()
  {
    match e
    case ReceiveClaim(c, known) => Dispatch(a, c, known).0
    case IsoRequest => a
  }

  function OnEvents(a: App, events: seq<Event>): (r: App)
    requires a.Valid()
    ensures r.Valid()
    decreases |events|
  {
    if events == [] then a
    else OnEvents(OnEvent(a, events[0]), events[1..])
  }

  /** No claim for the address comes from this application's own NAME or a lower one. */
  predicate Undefeated(a: App, events: seq<Event>) {
    forall e :: e in events && e.ReceiveClaim? && Conflict(a, e.c) ==> a.name < e.c.name
  }

  predicate Undisturbed(a: App, events: seq<Event>) {
    forall e :: e in events && e.ReceiveClaim? ==> !Reaches(a, e.c)
  }

  /**
   Claiming an address sends the claim to everybody and starts a timer; the timer that
   fires makes the application active and leaves nothing that could be cancelled. While
   stopping nothing is claimed.
   */
  lemma ClaimStartsTheTimer(a: App)
    ensures var (a', sent) := SendClaim(a);
            if a.mode == StopInProgress then a' == a && sent == []
            else && sent == [Claim(a.address, a.name, 255)]
                 && a' == a.(mode := Claiming, running := a'.running, latest := true)
                 && a'.running == a.running + 1
                 && ClaimDelay(a') == a'.(mode := Active, running := a.running, latest := false)
  {
  }

  /**
   When an application that claimed its address can become active: it keeps the address
   whatever comes that does not defeat it, but its timer is still there to make it active
   if and only if no claim reached it, not even one it won or one that was none of its
   business.
   */
  lemma {:induction false} ActiveIfUndisturbed(a: App, events: seq<Event>)
    requires a.Valid() && a.mode == Claiming && a.running == 1 && a.latest
    requires Undefeated(a, events)
    ensures var a' := OnEvents(a, events);
            && a'.mode == Claiming && a'.address == a.address && a'.stopped == a.stopped && a'.running <= 1
            && (a'.running == 1 <==> Undisturbed(a, events))
            && (a'.running == 1 ==> ClaimDelay(a').mode == Active)
    decreases |events|
  {
    if events != [] {
      var e, rest := events[0], events[1..];
      assert e in events && events == [e] + rest;
      if e.ReceiveClaim? && Reaches(a, e.c) {
        StaysWithoutTimer(OnEvent(a, e), rest);
      } else {
        ActiveIfUndisturbed(a, rest);
      }
    }
  }

  lemma {:induction false} StaysWithoutTimer(a: App, events: seq<Event>)
    requires a.Valid() && a.running == 0 && Undefeated(a, events)
    ensures var a' := OnEvents(a, events);
            a'.mode == a.mode && a'.running == 0 && a'.address == a.address && a'.stopped == a.stopped
    decreases |events|
  {
    if events != [] {
      assert events[0] in events && forall e :: e in events[1..] ==> e in events;
      StaysWithoutTimer(OnEvent(a, events[0]), events[1..]);
    }
  }

  /**
   Keeping the address cancels the claim timer and does not start it again: after any
   conflict with a higher NAME, and whatever follows that does not make it move, an
   application without an older timer has none that could make it active.
   */
  lemma KeepingLosesTheTimer(a: App, c: Claim, known: set<nat>, events: seq<Event>)
    requires a.Valid() && a.mode == Claiming && a.running == 1 && a.latest
    requires Conflict(a, c) && a.name < c.name && Undefeated(a, events)
    ensures var a' := OnEvents(Dispatch(a, c, known).0, events);
            a'.mode == Claiming && a'.running == 0 && a'.address == a.address
  {
    var e := ReceiveClaim(c, known);
    var all := [e] + events;
    assert e in all && all[1..] == events;
    ActiveIfUndisturbed(a, all);
  }

  /**
   The cannot-claim message of a rival cancels the timer of the application it lost to,
   although it names no address of that application.
   */
  lemma CannotClaimCancelsTheWinner(winner: App, loser: App, known: set<nat>, events: seq<Event>)
    requires winner.Valid() && winner.mode == Claiming && !winner.stopped && winner.running == 1 && winner.latest
    requires loser.Valid() && loser.mode == Claiming && !loser.stopped && loser.address == winner.address < NULL_ADDRESS
    requires winner.name < loser.name && forall i :: loser.next <= i < |loser.pool| ==> loser.pool[i] in known
    requires Undefeated(winner, events)
    ensures var (loser', sent) := Dispatch(loser, Respond(winner)[0], known);
            && |sent| == 1
            && var winner' := OnEvents(Dispatch(winner, sent[0], known).0, events);
               winner'.mode == Claiming && winner'.running == 0 && winner'.address == winner.address
  {
    NewAddressIsFirstFree(loser.pool, loser.next, known);
    var sent := Dispatch(loser, Respond(winner)[0], known).1;
    var e := ReceiveClaim(sent[0], known);
    var all := [e] + events;
    assert sent[0] == Claim(NULL_ADDRESS, loser.name, winner.address);
    assert e in all && all[1..] == events;
    ActiveIfUndisturbed(winner, all);
  }
}
