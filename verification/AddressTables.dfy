/**
 The tables an active controller keeps per local address: the device register, the
 application index and the destination filter of the CAN interface.
 */
module AddressTables {
  import opened Wrappers
  import opened CanAddresses

  /** A device on the network: somebody else's, or a local application. */
  datatype Device<T> = Proxy | Local(app: T)

  datatype Tables<T> = Tables(devices: map<nat, Device<T>>, index: map<nat, T>, filters: seq<nat>)

  /** list.remove: the first occurrence goes. */
  function RemoveFirst(s: seq<nat>, x: nat): (r: seq<nat>)
    requires x in s
    ensures multiset(r) == multiset(s) - multiset{x}
  {
    if s[0] == x then
      assert s == [x] + s[1..];
      s[1..]
    else
      assert s == [s[0]] + s[1..];
      [s[0]] + RemoveFirst(s[1..], x)
  }

  /** add_application_index */
  function AddIndex<T>(t: Tables<T>, app: T, address: nat): Tables<T> {
    Tables(t.devices[address := Local(app)], t.index[address := app], t.filters + [address % 256])
  }

  /** remove_application_index */
  function RemoveIndex<T>(t: Tables<T>, address: nat): Tables<T>
    requires address in t.devices && address in t.index
  {
    Tables(t.devices - {address}, t.index - {address}, if address in t.filters then RemoveFirst(t.filters, address)
           else t.filters)
  }

  /** apply_change_application_address */
  function Swap<T>(t: Tables<T>, app: T, from: nat, to: nat): Tables<T>
    requires from in t.devices && from in t.index
  {
    AddIndex(RemoveIndex(t, from), app, to)
  }

  /** The three tables speak of the same addresses and applications; 255 is filtered in besides. */
  ghost predicate InStep<T>(t: Tables<T>) {
    && (forall a :: a in t.index <==> a in t.devices && t.devices[a].Local?)
    && (forall a :: a in t.index ==> t.devices[a].app == t.index[a] && a < 256)
    && multiset(t.filters) == multiset{BROADCAST} + multiset(t.index.Keys)
  }

  lemma FilteredAddresses<T>(t: Tables<T>)
    requires InStep(t)
    ensures forall a :: a != BROADCAST ==> (a in t.filters <==> a in t.index) && multiset(t.filters)[a] <= 1
  {
    assert forall a :: a in t.filters <==> a in multiset(t.filters);
  }

  lemma OneMoreKey(keys: set<nat>, a: nat)
    requires a !in keys
    ensures multiset(keys + {a}) == multiset(keys) + multiset{a}
  {
  }

  lemma AddKeepsInStep<T>(t: Tables<T>, app: T, address: nat)
    requires InStep(t) && address !in t.index && address < 256
    ensures InStep(AddIndex(t, app, address))
  {
    var t' := AddIndex(t, app, address);
    assert t'.index.Keys == t.index.Keys + {address};
    assert t'.filters == t.filters + [address];
    assert multiset(t'.filters) == multiset(t.filters) + multiset{address};
    OneMoreKey(t.index.Keys, address);
  }

  lemma RemoveKeepsInStep<T>(t: Tables<T>, address: nat)
    requires InStep(t) && address in t.index
    ensures InStep(RemoveIndex(t, address))
  {
    assert address in multiset(t.filters);
    assert RemoveIndex(t, address).index.Keys == t.index.Keys - {address};
  }

  /**
   A swap keeps the tables in step and every other local application reachable at its
   address, if and only if no other local application owns the new address.
   */
  lemma SwapKeepsEveryApplication<T>(t: Tables<T>, app: T, from: nat, to: nat)
    requires InStep(t) && from in t.index && t.index[from] == app && to < 256
    requires forall a, b :: a in t.index && b in t.index && t.index[a] == t.index[b] ==> a == b
    ensures (InStep(Swap(t, app, from, to))
             && forall a :: a in t.index && a != from ==>
                  a in Swap(t, app, from, to).index && Swap(t, app, from, to).index[a] == t.index[a])
       <==> to == from || to !in t.index
    ensures to == from || to !in t.index ==> Swap(t, app, from, to).index == (t.index - {from})[to := app]
    ensures Swap(t, app, from, to).devices == (t.devices - {from})[to := Local(app)]
  {
    RemoveKeepsInStep(t, from);
    var t1 := RemoveIndex(t, from);
    if to !in t1.index {
      AddKeepsInStep(t1, app, to);
    } else {
      assert t.index[to] != app;
      assert Swap(t, app, from, to).index[to] == app;
    }
  }

  /** Every application is in the index where it is registered, and nothing else is. */
  ghost predicate Registers<T>(index: map<nat, T>, registered: map<T, nat>) {
    && (forall x :: x in registered ==> registered[x] in index && index[registered[x]] == x)
    && (forall a :: a in index ==> index[a] in registered && registered[index[a]] == a)
  }

  lemma SwapRegisters<T>(index: map<nat, T>, registered: map<T, nat>, app: T, from: nat, to: nat)
    requires Registers(index, registered) && from in index && index[from] == app && (to == from || to !in index)
    ensures Registers((index - {from})[to := app], registered[app := to])
  {
  }

  lemma AddRegisters<T>(index: map<nat, T>, registered: map<T, nat>, app: T, address: nat)
    requires Registers(index, registered) && address !in index && app !in registered
    ensures Registers(index[address := app], registered[app := address])
  {
  }

  // ---- applications, their addresses, and a change that waits for the end of a dispatch ----

  datatype Locals<T> = Locals(tables: Tables<T>, addresses: map<T, nat>, pending: Option<(T, nat)>) {
    /** Where each application is registered: at its address, or still at the old one. */
    function Registered(): map<T, nat> {
      match pending
      case None => addresses
      case Some((app, from)) => addresses[app := from]
    }

    /** The tables are in step and hold every application where it is registered, nothing else. */
    ghost predicate Consistent() {
      && InStep(tables) && Registers(tables.index, Registered())
      && (pending.Some? ==> pending.value.0 in addresses)
      && (forall x :: x in addresses ==> addresses[x] < 256)
    }

    /** add_application */
    function Add(app: T, address: nat): Locals<T> {
      Locals(AddIndex(tables, app, address), addresses[app := address], pending)
    }

    /** change_application_address, after the application took the new address */
    function Move(app: T, to: nat): Locals<T>
      requires app in addresses
    {
      Locals(tables, addresses[app := to], Some((app, addresses[app])))
    }

    /** Without this apply_change_application_address would raise. */
    predicate CanApply() {
      pending.Some? ==>
        pending.value.0 in addresses && pending.value.1 in tables.devices && pending.value.1 in tables.index
    }

    /** apply_change_application_address, when a change is pending */
    function Apply(): Locals<T>
      requires CanApply()
    {
      match pending
      case None => this
      case Some((app, from)) => Locals(Swap(tables, app, from, addresses[app]), addresses, None)
    }

    /** The new address of the pending change belongs to no other application. */
    predicate Vacant() {
      pending.Some? && pending.value.0 in addresses ==>
        addresses[pending.value.0] == pending.value.1 || addresses[pending.value.0] !in tables.index
    }
  }

  /** A change of address keeps everything consistent while it is pending. */
  lemma MoveKeepsConsistent<T>(s: Locals<T>, app: T, to: nat)
    requires s.Consistent() && s.pending.None? && app in s.addresses && to < 256
    ensures s.Move(app, to).Consistent()
  {
    assert s.Move(app, to).Registered() == s.addresses;
  }

  /**
   Applying a pending change brings every table to the current addresses, if and only if
   the new address belongs to no other local application.
   */
  lemma ApplyKeepsConsistent<T>(s: Locals<T>)
    requires s.Consistent()
    ensures s.CanApply()
    ensures s.Apply().Consistent() <==> s.Vacant()
    ensures s.Vacant() ==> s.Apply().pending == None && Registers(s.Apply().tables.index, s.addresses)
  {
    if s.pending.Some? {
      var (app, from) := s.pending.value;
      var to := s.addresses[app];
      assert s.Registered()[app] == from && s.tables.index[from] == app;
      SwapKeepsEveryApplication(s.tables, app, from, to);
      if s.Vacant() {
        SwapRegisters(s.tables.index, s.Registered(), app, from, to);
        assert s.Registered()[app := to] == s.addresses;
      } else {
        var other := s.tables.index[to];
        assert other != app && s.Registered()[other] == to && s.addresses[other] == to;
        assert s.Apply().tables.index[to] == app;
      }
    }
  }

  /**
   change_address, for an application that takes a new address or none: the tables wait,
   and with another change pending it raises, the address being the new one already.
   */
  function Changed<T>(s: Locals<T>, app: T, to: Option<nat>): (Locals<T>, bool)
    requires app in s.addresses
  {
    match to
    case None => (s, false)
    case Some(to) =>
      if s.pending.Some? then (s.(addresses := s.addresses[app := to]), true) else (s.Move(app, to), false)
  }

  // ---- every run of the controller ----

  /** What changes the tables: see the methods of the controller of the same kind. */
  datatype Event<T> =
    | Added(app: T, address: nat)
    | Collected(silent: set<nat>)          // device_gc: only proxies disappear
    | Told(app: T, to: Option<nat>)        // a claim addressed to an application; nothing is applied
    | Called(sender: nat, change: Option<(T, nat)>)  // a broadcast ISO message, behind which a change is applied

  function Silenced<T>(t: Tables<T>, silent: set<nat>): Tables<T> {
    t.(devices := map a | a in t.devices && (t.devices[a].Local? || a !in silent) :: t.devices[a])
  }

  /** check_device; a broadcast from 254 or 255 is not looked at. */
  function Heed<T>(t: Tables<T>, address: nat): Tables<T> {
    if address in t.devices || address >= NULL_ADDRESS then t else t.(devices := t.devices[address := Proxy])
  }

  /** An address that no application has, and none is registered at. */
  ghost predicate Unused<T>(s: Locals<T>, address: nat) {
    address < 256 && address !in s.tables.index && forall x :: x in s.addresses ==> s.addresses[x] != address
  }

  ghost predicate Settled<T>(s: Locals<T>) { s.Consistent() && s.Vacant() }

  /** Addresses are given to one application at a time, and one change is made at a time. */
  ghost predicate Possible<T>(s: Locals<T>, e: Event<T>) {
    match e
    case Added(app, address) => app !in s.addresses && Unused(s, address)
    case Collected(_) => true
    case Told(app, to) => app in s.addresses && (to.Some? ==> s.pending.None? && Unused(s, to.value))
    case Called(_, None) => true
    case Called(_, Some((app, to))) => app in s.addresses && s.pending.None? && Unused(s, to)
  }

  lemma ChangeKeepsSettled<T>(s: Locals<T>, app: T, to: nat)
    requires Settled(s) && app in s.addresses && s.pending.None? && Unused(s, to)
    ensures Settled(s.Move(app, to)) && Changed(s, app, Some(to)) == (s.Move(app, to), false)
  {
    MoveKeepsConsistent(s, app, to);
  }

  lemma AddKeepsSettled<T>(s: Locals<T>, app: T, address: nat)
    requires Settled(s) && app !in s.addresses && Unused(s, address)
    ensures Settled(s.Add(app, address))
  {
    var s' := s.Add(app, address);
    AddKeepsInStep(s.tables, app, address);
    AddRegisters(s.tables.index, s.Registered(), app, address);
    if s.pending.Some? {
      assert s'.Registered() == s.Registered()[app := address];
    }
  }

  lemma ApplySettles<T>(s: Locals<T>)
    requires Settled(s)
    ensures s.CanApply() && Settled(s.Apply()) && s.Apply().pending.None? && s.Apply().addresses == s.addresses
  {
    ApplyKeepsConsistent(s);
  }

  ghost function After<T>(s: Locals<T>, e: Event<T>): (r: Locals<T>)
    requires Settled(s) && Possible(s, e)
    ensures Settled(r) && (e.Called? ==> r.pending.None?)
  {
    match e
    case Added(app, address) => AddKeepsSettled(s, app, address); s.Add(app, address)
    case Collected(silent) => s.(tables := Silenced(s.tables, silent))
    case Told(app, to) =>
      if to.Some? then ChangeKeepsSettled(s, app, to.value); Changed(s, app, to).0 else s
    case Called(sender, change) =>
      var s1 := s.(tables := Heed(s.tables, sender));
      if change.Some? then
        ChangeKeepsSettled(s1, change.value.0, change.value.1);
        var s2 := Changed(s1, change.value.0, Some(change.value.1)).0;
        ApplySettles(s2); s2.Apply()
      else ApplySettles(s1); s1.Apply()
  }

  ghost predicate PossibleRun<T>(s: Locals<T>, events: seq<Event<T>>)
    requires Settled(s)
    decreases |events|
  {
    events == [] || (Possible(s, events[0]) && PossibleRun(After(s, events[0]), events[1..]))
  }

  ghost function AfterAll<T>(s: Locals<T>, events: seq<Event<T>>): (r: Locals<T>)
    requires Settled(s) && PossibleRun(s, events)
    ensures Settled(r) && (events != [] && events[|events| - 1].Called? ==> r.pending.None?)
    decreases |events|
  {
    if events == [] then s else AfterAll(After(s, events[0]), events[1..])
  }

  ghost function NoLocals<T>(): (s: Locals<T>)
    ensures Settled(s) && s.pending.None?
  {
    Locals(Tables(map[], map[], [BROADCAST]), map[], None)
  }

  /** The index, the local devices and the filter without 255 hold exactly these addresses, each once. */
  ghost predicate Follow<T>(t: Tables<T>, registered: map<T, nat>) {
    && (forall a :: a in t.index <==> exists app :: app in registered && registered[app] == a)
    && (forall a :: a in t.index <==> a in t.devices && t.devices[a].Local?)
    && (forall a :: a != BROADCAST ==> (a in t.filters <==> a in t.index) && multiset(t.filters)[a] <= 1)
    && (forall app :: app in registered ==> t.index[registered[app]] == app)
  }

  /**
   After any run in which no change is made while another one is pending, the tables
   follow the addresses of the local applications, but for one that moved since the last
   broadcast ISO message and is still registered where it was. Behind a broadcast ISO
   message there is no exception.
   */
  lemma TablesFollowAddresses<T>(events: seq<Event<T>>)
    requires PossibleRun(NoLocals<T>(), events)
    ensures var s := AfterAll(NoLocals<T>(), events);
            && Follow(s.tables, s.Registered())
            && (forall app :: app in s.addresses && s.Registered()[app] != s.addresses[app] ==>
                 s.pending == Some((app, s.Registered()[app])))
            && (events != [] && events[|events| - 1].Called? ==> Follow(s.tables, s.addresses))
  {
    var s := AfterAll(NoLocals<T>(), events);
    RegisteredFollow(s.tables, s.Registered());
  }

  lemma RegisteredFollow<T>(t: Tables<T>, registered: map<T, nat>)
    requires InStep(t) && Registers(t.index, registered)
    ensures Follow(t, registered)
  {
    FilteredAddresses(t);
    forall a | a in t.index ensures exists app :: app in registered && registered[app] == a {
      assert t.index[a] in registered && registered[t.index[a]] == a;
    }
  }

  /**
   A second change of address while one is pending raises, with the address set. When the
   pending change is applied, the tables follow the addresses again if and only if the
   second change was of the same application; of another one, the application stays
   registered where it no longer is, and is not registered where it is.
   */
  lemma SecondChangeIsLost<T>(s: Locals<T>, app: T, to: nat)
    requires Settled(s) && s.pending.Some? && app in s.addresses && Unused(s, to)
    ensures var (s', raised) := Changed(s, app, Some(to));
            && raised && s'.CanApply()
            && (s'.Apply().Consistent() <==> app == s.pending.value.0)
            && (app != s.pending.value.0 ==>
                 && s.addresses[app] in s'.Apply().tables.index && s'.Apply().tables.index[s.addresses[app]] == app
                 && s'.Apply().addresses[app] == to && to !in s'.Apply().tables.index)
  {
    var (first, from) := s.pending.value;
    var s' := Changed(s, app, Some(to)).0;
    ApplyKeepsConsistent(s);
    if app == first {
      assert s'.Registered() == s.Registered();
      ApplyKeepsConsistent(s');
    } else {
      assert s.Registered()[app] == s.addresses[app] && s.Registered()[first] == from;
      assert s'.addresses[first] == s.addresses[first];
      assert s'.Apply().tables == s.Apply().tables;
      SwapKeepsEveryApplication(s.tables, first, from, s.addresses[first]);
    }
  }
}
