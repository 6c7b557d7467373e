/** What the engine touches on the interface: exactly the addresses with the configured prefix length. */
module EngineFrame {
  import opened IPv4
  import opened Text
  import opened Model
  import opened Normalize
  import opened Render
  import opened DesiredStore
  import opened Apply
  import opened IPAttach
  import opened ExternalIPs
  import opened Engine
  import opened EngineExact
  import opened EngineRuns

  /** The interfaces differ at most in managed addresses. */
  ghost predicate SameOthers(bits: nat, x: set<Prefix>, y: set<Prefix>) {
    forall p: Prefix :: p.bits != bits ==> (p in x <==> p in y)
  }

  ghost predicate AllSame(bits: nat, nic: set<Prefix>, nics: seq<set<Prefix>>) {
    forall i :: 0 <= i < |nics| ==> SameOthers(bits, nic, nics[i])
  }

  lemma SameStep(mode: Mode, nic: set<Prefix>, op: Operation, last: set<Prefix>, nics: seq<set<Prefix>>)
    requires !mode.Noop?
    requires var c := Perform(mode, nic, op).nic; SameOthers(mode.bits, c, last) && AllSame(mode.bits, c, nics)
    ensures SameOthers(mode.bits, nic, last) && AllSame(mode.bits, nic, [Perform(mode, nic, op).nic] + nics)
  {}

  lemma {:induction false} AttachSame(mode: Mode, nic: set<Prefix>, todo: seq<Addr>, attached: seq<Addr>, f: Addr -> CallFaults)
    requires !mode.Noop?
    ensures var r := Attach(mode, nic, todo, attached, f); SameOthers(mode.bits, nic, r.nic) && AllSame(mode.bits, nic, r.nics)
    decreases |todo|
  {
    if todo != [] {
      var op := EnsurePresent(todo[0], f(todo[0]));
      var c := Perform(mode, nic, op);
      if c.failed {
        SameStep(mode, nic, op, c.nic, []);
      } else {
        var more := if c.changed then attached + [todo[0]] else attached;
        var r := Attach(mode, c.nic, todo[1..], more, f);
        AttachSame(mode, c.nic, todo[1..], more, f);
        SameStep(mode, nic, op, r.nic, r.nics);
      }
    }
  }

  lemma {:induction false} RollbackSame(mode: Mode, nic: set<Prefix>, attached: seq<Addr>, f: Addr -> CallFaults)
    requires !mode.Noop?
    ensures var r := Rollback(mode, nic, attached, f); SameOthers(mode.bits, nic, r.nic) && AllSame(mode.bits, nic, r.nics)
    decreases |attached|
  {
    if attached != [] {
      var n := |attached| - 1;
      var op := EnsureAbsent(attached[n], f(attached[n]));
      var c := Perform(mode, nic, op);
      var r := Rollback(mode, c.nic, attached[..n], f);
      RollbackSame(mode, c.nic, attached[..n], f);
      SameStep(mode, nic, op, r.nic, r.nics);
    }
  }

  lemma {:induction false} DetachSame(mode: Mode, nic: set<Prefix>, todo: seq<Addr>, changed: bool, f: Addr -> CallFaults)
    requires !mode.Noop?
    ensures var r := Detach(mode, nic, todo, changed, f); SameOthers(mode.bits, nic, r.nic) && AllSame(mode.bits, nic, r.nics)
    decreases |todo|
  {
    if todo != [] {
      var op := EnsureAbsent(todo[0], f(todo[0]));
      var c := Perform(mode, nic, op);
      if c.failed {
        SameStep(mode, nic, op, c.nic, []);
      } else {
        var r := Detach(mode, c.nic, todo[1..], changed || c.changed, f);
        DetachSame(mode, c.nic, todo[1..], changed || c.changed, f);
        SameStep(mode, nic, op, r.nic, r.nics);
      }
    }
  }

  ghost predicate WorldsSame(bits: nat, nic: set<Prefix>, worlds: seq<World>) {
    forall i :: 0 <= i < |worlds| ==> SameOthers(bits, nic, worlds[i].nic)
  }

  lemma WorldsConcat(bits: nat, nic: set<Prefix>, x: seq<World>, y: seq<World>)
    requires WorldsSame(bits, nic, x) && WorldsSame(bits, nic, y)
    ensures WorldsSame(bits, nic, x + y)
  {}

  /** The worlds of a further phase that starts at `mid`. */
  lemma WorldsAfter(bits: nat, nic: set<Prefix>, mid: set<Prefix>, v: World, nics: seq<set<Prefix>>)
    requires SameOthers(bits, nic, mid) && AllSame(bits, mid, nics)
    ensures WorldsSame(bits, nic, AtNics(v, nics))
  {}

  lemma ExecuteSame(mode: Mode, w: World, p: Plan, desired: seq<Addr>, current: seq<Addr>, s: Schedule)
    requires !mode.Noop?
    ensures var t := Execute(mode, w, p, desired, current, s);
            SameOthers(mode.bits, w.nic, t.world.nic) && WorldsSame(mode.bits, w.nic, t.visited)
  {
    var todo := Difference(desired, current);
    var a := Attach(mode, w.nic, todo, [], s.attach);
    var start := AtNics(w, a.nics);
    AttachSame(mode, w.nic, todo, [], s.attach);
    WorldsAfter(mode.bits, w.nic, w.nic, w, a.nics);
    RollbackSame(mode, a.nic, a.attached, s.rollback);
    var rb := Rollback(mode, a.nic, a.attached, s.rollback);
    if a.failed.Some? {
      WorldsAfter(mode.bits, w.nic, a.nic, w, rb.nics);
      WorldsConcat(mode.bits, w.nic, start, AtNics(w, rb.nics));
    } else {
      var ap := ApplyRendering(w.disk, p.text, s.apply);
      var applied := World(w.store, ap.disk, a.nic);
      if ap.error.Some? {
        WorldsAfter(mode.bits, w.nic, a.nic, applied, rb.nics);
        WorldsConcat(mode.bits, w.nic, start, [applied]);
        WorldsConcat(mode.bits, w.nic, start + [applied], AtNics(applied, rb.nics));
      } else {
        var committed := applied.(store := p.store);
        var stale, changed := Difference(current, desired), ap.changed || |a.attached| > 0;
        var d := Detach(mode, a.nic, stale, changed, s.detach);
        DetachSame(mode, a.nic, stale, changed, s.detach);
        WorldsAfter(mode.bits, w.nic, a.nic, committed, d.nics);
        WorldsConcat(mode.bits, w.nic, start, [applied, committed]);
        WorldsConcat(mode.bits, w.nic, start + [applied, committed], AtNics(committed, d.nics));
      }
    }
  }

  lemma OperationSame(mode: Mode, w: World, op: Op)
    requires !mode.Noop?
    ensures var t := Transact(mode, w, op);
            SameOthers(mode.bits, w.nic, t.world.nic) && WorldsSame(mode.bits, w.nic, t.visited)
  {
    TransactIs(mode, w, op);
    if NextStore(w, op).Some? {
      var p := PlanFor(NextStore(w, op).value);
      if p.desired.Ok? { ExecuteSame(mode, w, p, p.desired.value, ListedAddrs(mode, w.nic), op.sched); }
    }
  }

  /** In every run, at every step and whatever fails, an address with another prefix length is neither
      added nor removed. */
  lemma {:induction false} OtherPrefixesNeverTouched(mode: Mode, w: World, ops: seq<Op>)
    requires !mode.Noop?
    ensures forall v :: v in History(mode, w, ops) ==> SameOthers(mode.bits, w.nic, v.nic)
    decreases |ops|
  {
    if ops != [] {
      var t := Transact(mode, w, ops[0]);
      OperationSame(mode, w, ops[0]);
      OtherPrefixesNeverTouched(mode, t.world, ops[1..]);
      forall v | v in History(mode, w, ops) ensures SameOthers(mode.bits, w.nic, v.nic) {
        if v in History(mode, t.world, ops[1..]) { assert SameOthers(mode.bits, t.world.nic, v.nic); }
      }
    }
  }

  /** Whoever attached it, an address with the managed prefix length survives a successful operation
      exactly when a stored Service asks for it. "Detaches only what it attached" therefore fails for
      every such address that no stored Service asks for. */
  lemma ManagedPrefixKeptIff(mode: Mode, w: World, op: Op, a: Addr)
    requires !mode.Noop? && StoreOk(w.store) && Prefix(a, mode.bits) in w.nic
    requires Transact(mode, w, op).error.None? && (op.DeleteOp? ==> op.ref in w.store)
    ensures var v := Transact(mode, w, op).world;
            Prefix(a, mode.bits) in v.nic <==> a in DesiredSet(Listed(v.store))
  {
    SuccessHeals(mode, w, op);
    ManagedMember(mode.bits, Transact(mode, w, op).world.nic, a);
  }

  lemma OneStored(m: Services, r: ServiceRef, a: Addr)
    requires m.Keys == {r} && Parse(m[r].externalIP) == Some(a)
    ensures DesiredSet(Listed(m)) == {a}
  {
    ListedMembers(m);
    assert Normalized(m[r]) in Listed(m);
    forall s | s in Listed(m) ensures s.externalIP == m[r].externalIP {
      var q :| q in m && s == Normalized(m[q]);
      assert q == r;
    }
  }

  /** A restarted engine has an empty store but finds the addresses of its former self attached: the first
      Service ensured successfully detaches the managed addresses of all others. */
  lemma RestartForgetsOthers(mode: Mode, w: World, service: Service, s: Schedule)
    requires !mode.Noop? && w.store == map[]
    requires Transact(mode, w, EnsureOp(service, s)).error.None?
    ensures Parse(service.externalIP).Some?
    ensures Managed(mode.bits, Transact(mode, w, EnsureOp(service, s)).world.nic) == {Parse(service.externalIP).value}
  {
    var op := EnsureOp(service, s);
    EmptyStore();
    SuccessHeals(mode, w, op);
    assert ValidService(Normalized(service));
    OneStored(Upserted(w.store, service), service.Ref(), Parse(service.externalIP).value);
  }

  // ---------------------------------------------------------------- the reported change

  /** Ensure and Delete report a change exactly when they succeed and one of their calls reported one. */
  lemma OperationChangedIff(mode: Mode, w: World, op: Op)
    requires !mode.Noop? && StoreOk(w.store)
    ensures var t := Transact(mode, w, op);
            t.changed <==> t.error.None? && NextStore(w, op).Some? && Changes(mode, w, PlanOf(w, op), op.sched)
  {
    TransactIs(mode, w, op);
    if NextStore(w, op).Some? { ChangedIff(mode, w, PlanOf(w, op), op.sched); }
  }

  lemma ManagedDecides(mode: Mode, x: set<Prefix>, y: set<Prefix>)
    requires !mode.Noop? && SameOthers(mode.bits, x, y)
    ensures x == y <==> Managed(mode.bits, x) == Managed(mode.bits, y)
  {
    if Managed(mode.bits, x) == Managed(mode.bits, y) {
      forall p ensures p in x <==> p in y {
        if p.bits == mode.bits {
          assert p == Prefix(p.addr, mode.bits);
          ManagedMember(mode.bits, x, p.addr);
          ManagedMember(mode.bits, y, p.addr);
        }
      }
    }
  }

  /** When no add or delete reports an error, a successful operation reports a change exactly when the file or
      the interface is not what it was. */
  lemma ChangedMeansDifferent(mode: Mode, w: World, op: Op)
    requires !mode.Noop? && StoreOk(w.store) && Transact(mode, w, op).error.None?
    requires forall a :: !op.sched.attach(a).op && !op.sched.detach(a).op
    ensures var t := Transact(mode, w, op);
            t.changed <==> t.world.disk.active != w.disk.active || t.world.nic != w.nic
  {
    OperationChangedIff(mode, w, op);
    TransactIs(mode, w, op);
    if NextStore(w, op).Some? {
      var p, v := PlanOf(w, op), Transact(mode, w, op).world;
      SuccessHeals(mode, w, op);
      OperationSame(mode, w, op);
      ManagedDecides(mode, w.nic, v.nic);
      forall a ensures a in Managed(mode.bits, w.nic) <==> Prefix(a, mode.bits) in w.nic { ManagedMember(mode.bits, w.nic, a); }
      SameAsWanted(mode, w, p, op.sched, Managed(mode.bits, v.nic));
    }
  }

  /** With truthful calls there is something to change exactly when the file or the managed set is not as wanted. */
  lemma SameAsWanted(mode: Mode, w: World, p: Plan, s: Schedule, wanted: set<Addr>)
    requires !mode.Noop? && p.desired.Ok? && p.text.Ok? && forall a :: a in p.desired.value <==> a in wanted
    requires forall a :: !s.attach(a).op && !s.detach(a).op
    ensures Changes(mode, w, p, s) <==> w.disk.active != Some(p.text.value) || Managed(mode.bits, w.nic) != wanted
  {
    forall a ensures a in Managed(mode.bits, w.nic) <==> Prefix(a, mode.bits) in w.nic { ManagedMember(mode.bits, w.nic, a); }
    if Managed(mode.bits, w.nic) != wanted {
      var a :| (a in wanted) != (a in Managed(mode.bits, w.nic));
    }
  }

  // ---------------------------------------------------------------- intermediate worlds

  /** At most one call lies between the two worlds: the store, the file or one address changes. */
  ghost predicate OneCallApart(x: World, y: World) {
    || (x.store == y.store && x.disk == y.disk && exists p :: x.nic - {p} == y.nic - {p})
    || (x.nic == y.nic && (x.store == y.store || x.disk == y.disk))
  }

  ghost predicate Chain(w: World, worlds: seq<World>)
    decreases |worlds|
  {
    worlds == [] || (OneCallApart(w, worlds[0]) && Chain(worlds[0], worlds[1..]))
  }

  ghost function End(w: World, worlds: seq<World>): World {
    if worlds == [] then w else worlds[|worlds| - 1]
  }

  lemma {:induction false} ChainConcat(w: World, x: seq<World>, y: seq<World>)
    requires Chain(w, x) && Chain(End(w, x), y)
    ensures Chain(w, x + y) && End(w, x + y) == End(End(w, x), y)
    decreases |x|
  {
    if x == [] {
      assert x + y == y;
    } else {
      ChainConcat(x[0], x[1..], y);
      assert (x + y)[1..] == x[1..] + y;
    }
  }

  ghost predicate NicChain(nic: set<Prefix>, nics: seq<set<Prefix>>)
    decreases |nics|
  {
    nics == [] || ((exists p :: nic - {p} == nics[0] - {p}) && NicChain(nics[0], nics[1..]))
  }

  ghost function NicEnd(nic: set<Prefix>, nics: seq<set<Prefix>>): set<Prefix> {
    if nics == [] then nic else nics[|nics| - 1]
  }

  lemma {:induction false} AtNicsChain(w: World, nics: seq<set<Prefix>>)
    requires NicChain(w.nic, nics)
    ensures Chain(w, AtNics(w, nics)) && End(w, AtNics(w, nics)) == w.(nic := NicEnd(w.nic, nics))
    decreases |nics|
  {
    if nics != [] {
      var v := w.(nic := nics[0]);
      AtNicsChain(v, nics[1..]);
      assert AtNics(w, nics)[1..] == AtNics(v, nics[1..]);
      assert OneCallApart(w, v);
    }
  }

  lemma CallChain(mode: Mode, nic: set<Prefix>, op: Operation, nics: seq<set<Prefix>>)
    requires !mode.Noop? && NicChain(Perform(mode, nic, op).nic, nics)
    ensures NicChain(nic, [Perform(mode, nic, op).nic] + nics)
  {
    var c := Perform(mode, nic, op).nic;
    PerformMeansIt(mode, nic, op);
    var p := Prefix(op.addr, mode.bits);
    assert nic - {p} == c - {p};
    assert ([c] + nics)[1..] == nics;
  }

  lemma {:induction false} AttachChain(mode: Mode, nic: set<Prefix>, todo: seq<Addr>, attached: seq<Addr>, f: Addr -> CallFaults)
    requires !mode.Noop?
    ensures var r := Attach(mode, nic, todo, attached, f); NicChain(nic, r.nics) && NicEnd(nic, r.nics) == r.nic
    decreases |todo|
  {
    if todo != [] {
      var op := EnsurePresent(todo[0], f(todo[0]));
      var c := Perform(mode, nic, op);
      if c.failed {
        CallChain(mode, nic, op, []);
        assert [c.nic] + [] == [c.nic];
      } else {
        var more := if c.changed then attached + [todo[0]] else attached;
        AttachChain(mode, c.nic, todo[1..], more, f);
        CallChain(mode, nic, op, Attach(mode, c.nic, todo[1..], more, f).nics);
      }
    }
  }

  lemma {:induction false} RollbackChain(mode: Mode, nic: set<Prefix>, attached: seq<Addr>, f: Addr -> CallFaults)
    requires !mode.Noop?
    ensures var r := Rollback(mode, nic, attached, f); NicChain(nic, r.nics) && NicEnd(nic, r.nics) == r.nic
    decreases |attached|
  {
    if attached != [] {
      var n := |attached| - 1;
      var op := EnsureAbsent(attached[n], f(attached[n]));
      var c := Perform(mode, nic, op);
      RollbackChain(mode, c.nic, attached[..n], f);
      CallChain(mode, nic, op, Rollback(mode, c.nic, attached[..n], f).nics);
    }
  }

  lemma {:induction false} DetachChain(mode: Mode, nic: set<Prefix>, todo: seq<Addr>, changed: bool, f: Addr -> CallFaults)
    requires !mode.Noop?
    ensures var r := Detach(mode, nic, todo, changed, f); NicChain(nic, r.nics) && NicEnd(nic, r.nics) == r.nic
    decreases |todo|
  {
    if todo != [] {
      var op := EnsureAbsent(todo[0], f(todo[0]));
      var c := Perform(mode, nic, op);
      if c.failed {
        CallChain(mode, nic, op, []);
        assert [c.nic] + [] == [c.nic];
      } else {
        DetachChain(mode, c.nic, todo[1..], changed || c.changed, f);
        CallChain(mode, nic, op, Detach(mode, c.nic, todo[1..], changed || c.changed, f).nics);
      }
    }
  }

  lemma ChainOne(w: World, v: World)
    requires OneCallApart(w, v)
    ensures Chain(w, [v]) && End(w, [v]) == v
  {}

  lemma ExecuteChain(mode: Mode, w: World, p: Plan, desired: seq<Addr>, current: seq<Addr>, s: Schedule)
    requires !mode.Noop?
    ensures var t := Execute(mode, w, p, desired, current, s); Chain(w, t.visited) && End(w, t.visited) == t.world
  {
    var todo := Difference(desired, current);
    var a := Attach(mode, w.nic, todo, [], s.attach);
    var start, here := AtNics(w, a.nics), w.(nic := a.nic);
    AttachChain(mode, w.nic, todo, [], s.attach);
    AtNicsChain(w, a.nics);
    RollbackChain(mode, a.nic, a.attached, s.rollback);
    var rb := Rollback(mode, a.nic, a.attached, s.rollback);
    if a.failed.Some? {
      AtNicsChain(here, rb.nics);
      assert AtNics(here, rb.nics) == AtNics(w, rb.nics);
      ChainConcat(w, start, AtNics(w, rb.nics));
    } else {
      var ap := ApplyRendering(w.disk, p.text, s.apply);
      var applied := World(w.store, ap.disk, a.nic);
      ChainOne(here, applied);
      ChainConcat(w, start, [applied]);
      if ap.error.Some? {
        AtNicsChain(applied, rb.nics);
        ChainConcat(w, start + [applied], AtNics(applied, rb.nics));
      } else {
        var committed := applied.(store := p.store);
        var stale, changed := Difference(current, desired), ap.changed || |a.attached| > 0;
        DetachChain(mode, a.nic, stale, changed, s.detach);
        AtNicsChain(committed, Detach(mode, a.nic, stale, changed, s.detach).nics);
        ChainOne(applied, committed);
        ChainConcat(w, start + [applied], [committed]);
        assert start + [applied] + [committed] == start + [applied, committed];
        ChainConcat(w, start + [applied, committed], AtNics(committed, Detach(mode, a.nic, stale, changed, s.detach).nics));
      }
    }
  }

  /** The worlds recorded for an operation leave nothing out: from the start to the end each is one external call
      away from the one before. */
  lemma NoWorldSkipped(mode: Mode, w: World, op: Op)
    requires !mode.Noop?
    ensures var t := Transact(mode, w, op); Chain(w, t.visited) && End(w, t.visited) == t.world
  {
    TransactIs(mode, w, op);
    if NextStore(w, op).Some? {
      var p := PlanFor(NextStore(w, op).value);
      if p.desired.Ok? { ExecuteChain(mode, w, p, p.desired.value, ListedAddrs(mode, w.nic), op.sched); }
    }
  }

  // ---------------------------------------------------------------- the effect of a success

  /** A Service is refused exactly when it is invalid, and then nothing changes. */
  lemma RefusedIff(mode: Mode, w: World, service: Service, s: Schedule)
    ensures var t := Transact(mode, w, EnsureOp(service, s));
            && (!ValidService(service) ==> t == Transaction(w, false, Some(InvalidService), []))
            && (t.error == Some(InvalidService) ==> !ValidService(service))
  {
    ValidNormalized(service);
    if ValidService(service) { NeverInvalid(mode, w, PlanFor(Upserted(w.store, service)), s); }
  }

  lemma NeverInvalid(mode: Mode, w: World, p: Plan, s: Schedule)
    ensures Reconcile(mode, w, p, s).error != Some(InvalidService)
  {}

  /** A successful Ensure stores the Service, normalised, under its namespace and name and touches no other entry;
      a successful Delete removes exactly the given entry. */
  lemma StoreAfterSuccess(mode: Mode, w: World, op: Op)
    requires !mode.Noop? && StoreOk(w.store) && Transact(mode, w, op).error.None?
    ensures var m := Transact(mode, w, op).world.store;
            var ref := if op.EnsureOp? then ServiceRef(op.service.namespace, op.service.name) else op.ref;
            && (op.EnsureOp? ==> ref in m && IsNormalForm(op.service, m[ref]))
            && (op.DeleteOp? ==> ref !in m)
            && forall r :: r != ref ==> (r in m <==> r in w.store) && (r in m ==> m[r] == w.store[r])
  {
    OperationIsAtomic(mode, w, op);
    if op.EnsureOp? { NormalizedIsNormalForm(op.service); }
  }
}
