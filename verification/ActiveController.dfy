/**
 The active controller and its applications as objects: the address pool, the claim
 handling of an application, and the tables that follow its address one message later.
 */
module ActiveController {
  import opened Wrappers
  import opened CanAddresses
  import opened AddressClaim
  import opened AddressTables

  class ApplicationPool {
    const addressPool: seq<nat>
    var apIndex: nat

    ghost predicate Valid()
      reads this
    {
      apIndex <= |addressPool|
    }

    constructor (first: nat, maxApplications: nat)
      ensures Valid() && addressPool == AddressPool(first, maxApplications) && apIndex == 0
    {
      addressPool, apIndex := AddressPool(first, maxApplications), 0;
    }

    method GetNewAddress(known: set<nat>) returns (address: nat)
      requires Valid()
      modifies this`apIndex
      ensures Valid() && (address, apIndex) == NewAddress(addressPool, old(apIndex), known)
    {
      while apIndex < |addressPool|
        invariant Valid() && old(apIndex) <= apIndex
        invariant NewAddress(addressPool, old(apIndex), known) == NewAddress(addressPool, apIndex, known)
      {
        address := addressPool[apIndex];
        apIndex := apIndex + 1;
        if address !in known {
          return;
        }
      }
      address := NULL_ADDRESS;
    }
  }

  class Controller {
    const pool: ApplicationPool
    var applications: seq<Application>
    var devices: map<nat, Device<Application>>
    var appIndex: map<nat, Application>
    var filters: seq<nat>
    var addressChangeRequest: Option<(Application, nat)>
    var sent: seq<Claim>
    var stopped: bool

    constructor (pool: ApplicationPool)
      ensures this.pool == pool && applications == [] && Now() == Locals(Tables(map[], map[], [BROADCAST]), map[], None)
      ensures sent == [] && !stopped
    {
      this.pool := pool;
      applications, devices, appIndex, filters := [], map[], map[], [BROADCAST];
      addressChangeRequest, sent, stopped := None, [], false;
    }

    ghost function View(): Tables<Application>
      reads this
    {
      Tables(devices, appIndex, filters)
    }

    ghost function Addresses(): map<Application, nat>
      reads this, applications
    {
      map app | app in applications :: app.address
    }

    ghost function Now(): Locals<Application>
      reads this, applications
    {
      Locals(View(), Addresses(), addressChangeRequest)
    }

    ghost predicate Valid()
      reads this, pool
    {
      pool.Valid() && forall a :: a in pool.addressPool ==> a < 256
    }

    method AddApplication(app: Application)
      requires app !in applications
      modifies this`applications, this`devices, this`appIndex, this`filters
      ensures applications == old(applications) + [app] && Now() == old(Now()).Add(app, app.address)
    {
      applications := applications + [app];
      AddApplicationIndex(app);
      assert Addresses() == old(Addresses())[app := app.address];
    }

    method AddApplicationIndex(app: Application)
      modifies this`devices, this`appIndex, this`filters
      ensures View() == AddIndex(old(View()), app, app.address)
    {
      devices := devices[app.address := Local(app)];
      appIndex := appIndex[app.address := app];
      filters := filters + [app.address % 256];
    }

    method RemoveApplicationIndex(oldAddress: nat)
      requires oldAddress in devices && oldAddress in appIndex
      modifies this`devices, this`appIndex, this`filters
      ensures View() == RemoveIndex(old(View()), oldAddress)
    {
      devices := devices - {oldAddress};
      if oldAddress in filters {
        filters := RemoveFirst(filters, oldAddress);
      }
      appIndex := appIndex - {oldAddress};
    }

    /** apply_change_application_address */
    method ApplyChange()
      requires addressChangeRequest.Some? && addressChangeRequest.value.1 in devices
               && addressChangeRequest.value.1 in appIndex
      modifies this`devices, this`appIndex, this`filters, this`addressChangeRequest
      ensures addressChangeRequest == None
      ensures var (app, from) := old(addressChangeRequest.value); View() == Swap(old(View()), app, from, app.address)
    {
      var (app, from) := addressChangeRequest.value;
      RemoveApplicationIndex(from);
      AddApplicationIndex(app);
      addressChangeRequest := None;
    }

    /** What process_msg does behind the applications: a change that waited is applied. */
    method ApplyPending()
      requires Now().CanApply()
      modifies this`devices, this`appIndex, this`filters, this`addressChangeRequest
      ensures Now() == old(Now()).Apply()
    {
      if addressChangeRequest.Some? {
        ApplyChange();
      }
    }

    /** check_device: whoever sends from an unknown address becomes a proxy. */
    method CheckDevice(address: nat)
      modifies this`devices
      ensures devices == if address in old(devices) then old(devices) else old(devices)[address := Proxy]
    {
      if address !in devices {
        devices := devices[address := Proxy];
      }
    }

    method Stop()
      modifies this`stopped, applications`mode
      ensures stopped && forall app :: app in applications ==> app.mode == StopInProgress
    {
      for i := 0 to |applications|
        invariant forall k :: 0 <= k < i ==> applications[k].mode == StopInProgress
      {
        applications[i].mode := StopInProgress;
      }
      stopped := true;
    }

    /** receive_msg of a local application, for a claim */
    method DeliverClaim(c: Claim, app: Application) returns (raised: bool)
      requires Valid() && app in applications && app.controller == this && app.Now().Valid()
      modifies this`addressChangeRequest, this`sent, this`stopped, pool`apIndex
      modifies applications`mode, app`address, app`running, app`latest
      ensures Valid() && (Now(), raised) == Changed(old(Now()), app, if old(app.Moves(c)) then Some(app.address)
                                                    else None)
      ensures old(app.Moves(c)) ==> app.address !in devices && app.address < 256
      ensures !old(app.Moves(c)) ==> app.address == old(app.address)
      ensures !raised ==> var (after, claims) := ClaimReceipt(old(app.Now()), c, old(devices.Keys));
                          app.Now() == after && sent == old(sent) + claims
      ensures raised ==> sent == old(sent)
    {
      NewAddressFromPool(pool.addressPool, pool.apIndex, devices.Keys);
      ghost var was := Now();
      ghost var moves := app.Moves(c);
      raised := app.AddressClaimReceipt(c);
      assert Addresses() == was.addresses[app := app.address];
      assert !moves ==> was.addresses[app := app.address] == was.addresses;
    }

    /**
     process_msg for a claim that is addressed to a local application: a change of
     address it causes stays pending.
     */
    method ProcessAddressedClaim(c: Claim, app: Application) returns (raised: bool)
      requires c.da != BROADCAST && c.da in appIndex && appIndex[c.da] == app
      requires Valid() && app in applications && app.controller == this && app.Now().Valid()
      modifies this`addressChangeRequest, this`sent, this`stopped, pool`apIndex
      modifies applications`mode, app`address, app`running, app`latest
      ensures Valid() && (Now(), raised) == Changed(old(Now()), app, if old(app.Moves(c)) then Some(app.address)
                                                    else None)
      ensures old(app.Moves(c)) ==> app.address !in devices && app.address < 256
      ensures !old(app.Moves(c)) ==> app.address == old(app.address)
      ensures !raised ==> var (after, claims) := ClaimReceipt(old(app.Now()), c, old(devices.Keys));
                          app.Now() == after && sent == old(sent) + claims
    {
      raised := DeliverClaim(c, app);
    }

    /**
     process_msg for a broadcast claim from the address a local application is registered
     at: behind the application a pending change is applied, unless the application raised.
     */
    method ProcessBroadcastClaim(c: Claim, app: Application) returns (raised: bool)
      requires c.da == BROADCAST && c.sa < NULL_ADDRESS && c.sa in devices && devices[c.sa] == Local(app)
      requires Valid() && app in applications && app.controller == this && app.Now().Valid()
      requires Now().CanApply() && c.sa in appIndex
      modifies this`devices, this`appIndex, this`filters, this`addressChangeRequest, this`sent, this`stopped,
               pool`apIndex
      modifies applications`mode, app`address, app`running, app`latest
      ensures Valid() && raised == Changed(old(Now()), app, if old(app.Moves(c)) then Some(app.address) else None).1
      ensures var changed := Changed(old(Now()), app, if old(app.Moves(c)) then Some(app.address) else None).0;
              if raised then Now() == changed else changed.CanApply() && Now() == changed.Apply()
      ensures old(app.Moves(c)) ==> app.address !in old(devices) && app.address < 256
      ensures !old(app.Moves(c)) ==> app.address == old(app.address)
      ensures !raised ==> var (after, claims) := ClaimReceipt(old(app.Now()), c, old(devices.Keys));
                          app.Now() == after && sent == old(sent) + claims
    {
      raised := DeliverClaim(c, app);
      if !raised {
        ApplyPending();
      }
    }
  }

  class Application {
    const controller: Controller
    const name: nat
    var address: nat
    var mode: Mode
    var running: nat
    var latest: bool

    constructor (controller: Controller, address: nat, name: nat)
      ensures this.controller == controller && this.name == name && this.address == address
      ensures mode == WaitForBus && running == 0 && !latest
    {
      this.controller, this.name, this.address := controller, name, address;
      mode, running, latest := WaitForBus, 0, false;
    }

    ghost function Now(): App
      reads this, controller, controller.pool
    {
      App(address, name, mode, controller.stopped, running, latest, controller.pool.addressPool,
          controller.pool.apIndex)
    }

    method RespondAddressClaim()
      modifies controller`sent
      ensures controller.sent == old(controller.sent) + Respond(Now())
    {
      controller.sent := controller.sent + [Claim(address, name, BROADCAST)];
    }

    method SendAddressClaim()
      modifies this`mode, this`running, this`latest, controller`sent
      ensures (Now(), controller.sent) == (SendClaim(old(Now())).0, old(controller.sent) + SendClaim(old(Now())).1)
    {
      if mode == StopInProgress {
        assert controller.sent + [] == controller.sent;
        return;
      }
      RespondAddressClaim();
      mode := Claiming;
      running, latest := running + 1, true;
    }

    /**
     change_address. With another change still pending the assertion of the controller
     fails, after the address is already the new one.
     */
    method ChangeAddress(address: nat) returns (raised: bool)
      modifies this`address, this`mode, this`running, this`latest, controller`sent, controller`addressChangeRequest
      ensures raised <==> old(controller.addressChangeRequest.Some?)
      ensures raised ==> Now() == old(Now()).(address := address) && controller.sent == old(controller.sent)
                         && controller.addressChangeRequest == old(controller.addressChangeRequest)
      ensures !raised ==>
        && (Now(), controller.sent)
           == (AddressClaim.ChangeAddress(old(Now()), address).0,
               old(controller.sent) + AddressClaim.ChangeAddress(old(Now()), address).1)
        && controller.addressChangeRequest == Some((this, old(this.address)))
    {
      var oldAddress := this.address;
      this.address := address;
      if controller.addressChangeRequest.Some? {
        return true;
      }
      controller.addressChangeRequest := Some((this, oldAddress));
      SendAddressClaim();
      return false;
    }

    /** address_claim_delay: the timer that fires makes the application active. */
    method AddressClaimDelay()
      requires running > 0
      modifies this`mode, this`running, this`latest
      ensures Now() == ClaimDelay(old(Now()))
    {
      mode := Active;
      running, latest := running - 1, false;
    }

    method CommandedAddressRequest(requested: nat, address: nat) returns (raised: bool)
      modifies this`address, this`mode, this`running, this`latest, controller`sent, controller`addressChangeRequest
      ensures raised <==> requested == name && old(controller.addressChangeRequest.Some?)
      ensures requested != name ==> Now() == old(Now()) && controller.sent == old(controller.sent)
      ensures requested == name ==> this.address == address
      ensures raised ==> Now() == old(Now()).(address := address) && controller.sent == old(controller.sent)
      ensures !raised ==>
        && Now() == Commanded(old(Now()), requested, address).0
        && controller.sent == old(controller.sent) + Commanded(old(Now()), requested, address).1
      ensures controller.addressChangeRequest
           == if requested == name && !raised then Some((this, old(this.address)))
               else old(controller.addressChangeRequest)
    {
      if requested != name {
        return false;
      }
      raised := ChangeAddress(address);
    }

    /** Whether a claim makes the application move, and not just answer or stop. */
    ghost predicate Moves(c: Claim)
      reads this, controller, controller.pool
      requires controller.pool.Valid()
    {
      address == c.sa && c.name < name
      && NewAddress(controller.pool.addressPool, controller.pool.apIndex, controller.devices.Keys).0 != NULL_ADDRESS
    }

    method AddressClaimReceipt(c: Claim) returns (raised: bool)
      requires this in controller.applications && controller.pool.Valid() && Now().Valid()
      modifies this`address, this`running, this`latest, controller.applications`mode
      modifies controller`sent, controller`addressChangeRequest, controller`stopped, controller.pool`apIndex
      ensures raised <==> old(Moves(c) && controller.addressChangeRequest.Some?)
      ensures !raised ==> Now() == ClaimReceipt(old(Now()), c, old(controller.devices.Keys)).0
      ensures !raised ==> controller.sent == old(controller.sent) + ClaimReceipt(old(Now()), c,
            old(controller.devices.Keys)).1
      ensures raised ==> controller.sent == old(controller.sent)
                         && Now() == (var a := CancelTimer(old(Now()));
                                      var (address, next) := NewAddress(a.pool, a.next, old(controller.devices.Keys));
                                      a.(address := address, next := next))
      ensures controller.addressChangeRequest
           == if old(Moves(c)) && !raised then Some((this, old(address))) else old(controller.addressChangeRequest)
      ensures controller.stopped && !old(controller.stopped) ==>
                forall app :: app in controller.applications ==> app.mode == StopInProgress
      ensures controller.pool.Valid() && (!controller.stopped ==>
                forall app :: app in controller.applications && app != this ==> app.mode == old(app.mode))
    {
      if latest {
        running, latest := running - 1, false;
      }
      raised := false;
      if address == c.sa {
        if c.name < name {
          var next := controller.pool.GetNewAddress(controller.devices.Keys);
          if next == NULL_ADDRESS {
            controller.sent := controller.sent + [Claim(next, name, c.sa)];
            controller.Stop();
            return;
          }
          raised := ChangeAddress(next);
        } else if c.name == name {
          controller.Stop();
        } else {
          RespondAddressClaim();
        }
      }
    }
  }

  // ---- a second change ----

  /**
   Two claims, each addressed to a local application and from a lower NAME, with nothing
   broadcast in between: both applications move, the second one raises, and behind the
   next broadcast message it is still registered where it was.
   */
  lemma TwoAddressedClaims<T>(s: Locals<T>, a: T, b: T, x: App, y: App, known: set<nat>, rival: nat, rival': nat)
    requires Settled(s) && s.pending.None? && a != b && a in s.addresses && b in s.addresses
    requires s.addresses[a] == x.address && s.addresses[b] == y.address && known == s.tables.devices.Keys
    requires x.Valid() && y.Valid() && !x.stopped && !y.stopped && x.mode != StopInProgress && y.mode != StopInProgress
    requires rival < x.name && rival' < y.name && x.address < NULL_ADDRESS && y.address < NULL_ADDRESS
    requires Increasing(x.pool) && (forall p :: p in x.pool ==> p < NULL_ADDRESS)
    requires var next := NewAddress(x.pool, x.next, known).1;
             y.pool == x.pool && y.next == next && NewAddress(y.pool, next, known).0 != NULL_ADDRESS
    ensures var x' := Dispatch(x, Claim(x.address, rival, x.address), known).0;
            var y' := Dispatch(y, Claim(y.address, rival', y.address), known).0;
            var (s1, r1) := Changed(s, a, Some(x'.address));
            var (s2, r2) := Changed(s1, b, Some(y'.address));
            && x'.address != x.address && y'.address != y.address && !r1 && r2
            && s2.CanApply() && !s2.Apply().Consistent()
            && y.address in s2.Apply().tables.index && s2.Apply().tables.index[y.address] == b
            && y'.address !in s2.Apply().tables.index
  {
    var (to, next) := NewAddress(x.pool, x.next, known);
    var (to', next') := NewAddress(y.pool, next, known);
    NewAddressIsFirstFree(y.pool, next, known);
    assert next < next' && to' == y.pool[next' - 1] && to' !in known;
    NewAddressIsFirstFree(x.pool, x.next, known);
    assert x.pool[next' - 1] !in known;
    assert to == x.pool[next - 1] && to !in known && to < to';
    assert to' in x.pool;
    assert s.Registered() == s.addresses;
    assert Unused(s, to) && Unused(s, to');
    ChangeKeepsSettled(s, a, to);
    SecondChangeIsLost(s.Move(a, to), b, to');
  }
}
