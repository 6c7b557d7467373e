/** The dataplane engine: one transaction over the store, the config file and the interface. */
module Engine {
  import opened Text
  import opened IPv4
  import opened Sorting
  import opened Model
  import opened Normalize
  import opened DesiredStore
  import opened Render
  import opened Apply
  import opened IPAttach
  import opened ExternalIPs

  /** Everything a transaction works on. */
  datatype World = World(store: Services, disk: Disk, nic: set<Prefix>)

  /** Which external calls of one transaction fail. Addresses are handled at most once per loop. */
  datatype Schedule = Schedule(
    list: bool,
    attach: Addr -> CallFaults,
    rollback: Addr -> CallFaults,
    apply: ApplyFaults,
    detach: Addr -> CallFaults)

  datatype EngineError =
    | InvalidService
    | ListFailed
    | BadAddress
    | AttachFailed(addr: Addr, rollbackFailed: bool)
    | ApplyFailed(cause: ApplyError, rollbackFailed: bool)
    | DetachFailed(addr: Addr)
  {
    /** The store was replaced although an error is reported. */
    predicate AfterCommit() { DetachFailed? }

    predicate PostRename() { ApplyFailed? && cause.PostRename() }
  }

  /** The outcome of a transaction and every world it passed through. */
  datatype Transaction = Transaction(world: World, changed: bool, error: Option<EngineError>, visited: seq<World>)

  /** What a new store asks for. */
  datatype Plan = Plan(store: Services, text: Result<string>, desired: Result<seq<Addr>>)

  ghost function PlanFor(next: Services): Plan {
    Plan(next, Rendered(Listed(next)), Desired(Listed(next)))
  }

  // ---------------------------------------------------------------- the loops

  datatype Attached = Attached(nic: set<Prefix>, attached: seq<Addr>, failed: Option<Addr>, nics: seq<set<Prefix>>)

  /** Attaches in order, remembering what changed, until something fails. */
  function Attach(mode: Mode, nic: set<Prefix>, todo: seq<Addr>, attached: seq<Addr>, f: Addr -> CallFaults): Attached
    decreases |todo|
  {
    if todo == [] then Attached(nic, attached, None, [])
    else
      var c := Present(mode, nic, todo[0], f(todo[0]));
      if c.failed then Attached(c.nic, attached, Some(todo[0]), [c.nic])
      else
        var r := Attach(mode, c.nic, todo[1..], if c.changed then attached + [todo[0]] else attached, f);
        r.(nics := [c.nic] + r.nics)
  }

  datatype RolledBack = RolledBack(nic: set<Prefix>, failed: bool, nics: seq<set<Prefix>>)

  /** Detaches in reverse order, carrying on past failures. */
  function Rollback(mode: Mode, nic: set<Prefix>, attached: seq<Addr>, f: Addr -> CallFaults): RolledBack
    decreases |attached|
  {
    if attached == [] then RolledBack(nic, false, [])
    else
      var last := attached[|attached| - 1];
      var c := Absent(mode, nic, last, f(last));
      var r := Rollback(mode, c.nic, attached[..|attached| - 1], f);
      RolledBack(r.nic, c.failed || r.failed, [c.nic] + r.nics)
  }

  datatype Detached = Detached(nic: set<Prefix>, changed: bool, failed: Option<Addr>, nics: seq<set<Prefix>>)

  /** Detaches in order until something fails. */
  function Detach(mode: Mode, nic: set<Prefix>, todo: seq<Addr>, changed: bool, f: Addr -> CallFaults): Detached
    decreases |todo|
  {
    if todo == [] then Detached(nic, changed, None, [])
    else
      var c := Absent(mode, nic, todo[0], f(todo[0]));
      if c.failed then Detached(c.nic, changed, Some(todo[0]), [c.nic])
      else
        var r := Detach(mode, c.nic, todo[1..], changed || c.changed, f);
        r.(nics := [c.nic] + r.nics)
  }

  function AtNics(w: World, nics: seq<set<Prefix>>): (r: seq<World>)
    ensures |r| == |nics| && forall i :: 0 <= i < |r| ==> r[i] == w.(nic := nics[i])
  {
    seq(|nics|, i requires 0 <= i < |nics| => w.(nic := nics[i]))
  }

  lemma AtNicsAppend(trace: seq<World>, w: World, nics: seq<set<Prefix>>, n: set<Prefix>)
    ensures trace + AtNics(w, nics) + [w.(nic := n)] == trace + AtNics(w, nics + [n])
  {}

  lemma AttachStep(mode: Mode, nic: set<Prefix>, todo: seq<Addr>, attached: seq<Addr>, f: Addr -> CallFaults, before: seq<set<Prefix>>)
    requires todo != [] && !Present(mode, nic, todo[0], f(todo[0])).failed
    ensures var c := Present(mode, nic, todo[0], f(todo[0]));
            var r := Attach(mode, nic, todo, attached, f);
            var rest := Attach(mode, c.nic, todo[1..], if c.changed then attached + [todo[0]] else attached, f);
            r.(nics := before + r.nics) == rest.(nics := before + [c.nic] + rest.nics)
  {}

  lemma DetachStep(mode: Mode, nic: set<Prefix>, todo: seq<Addr>, changed: bool, f: Addr -> CallFaults, before: seq<set<Prefix>>)
    requires todo != [] && !Absent(mode, nic, todo[0], f(todo[0])).failed
    ensures var c := Absent(mode, nic, todo[0], f(todo[0]));
            var r := Detach(mode, nic, todo, changed, f);
            var rest := Detach(mode, c.nic, todo[1..], changed || c.changed, f);
            r.(nics := before + r.nics) == rest.(nics := before + [c.nic] + rest.nics)
  {}

  lemma RollbackStep(mode: Mode, nic: set<Prefix>, attached: seq<Addr>, f: Addr -> CallFaults, before: seq<set<Prefix>>)
    requires attached != []
    ensures var last := attached[|attached| - 1];
            var c := Absent(mode, nic, last, f(last));
            var r := Rollback(mode, nic, attached, f);
            var rest := Rollback(mode, c.nic, attached[..|attached| - 1], f);
            r.nic == rest.nic && r.failed == (c.failed || rest.failed) && before + r.nics == before + [c.nic] + rest.nics
  {}

  lemma AtNicsNone(trace: seq<World>, w: World)
    ensures trace + AtNics(w, []) == trace
  {}

  // ---------------------------------------------------------------- the transaction

  function Abandon(mode: Mode, w: World, a: Attached, visited: seq<World>, s: Schedule, error: bool -> EngineError): Transaction {
    var rb := Rollback(mode, a.nic, a.attached, s.rollback);
    Transaction(w.(nic := rb.nic), false, Some(error(rb.failed)), visited + AtNics(w, rb.nics))
  }

  function Finish(mode: Mode, w: World, stale: seq<Addr>, changed: bool, visited: seq<World>, s: Schedule): Transaction {
    var d := Detach(mode, w.nic, stale, changed, s.detach);
    var error := if d.failed.Some? then Some(DetachFailed(d.failed.value)) else None;
    Transaction(w.(nic := d.nic), d.failed.None? && d.changed, error, visited + AtNics(w, d.nics))
  }

  lemma FinishAfter(mode: Mode, w: World, stale: seq<Addr>, changed: bool, trace: seq<World>, start: seq<World>, applied: World, s: Schedule)
    ensures var t := Finish(mode, w, stale, changed, [w], s);
            var u := Finish(mode, w, stale, changed, start + [applied, w], s);
            && t.world == u.world && t.changed == u.changed && t.error == u.error
            && trace + (start + [applied]) + t.visited == trace + u.visited
  {
    var tail := AtNics(w, Detach(mode, w.nic, stale, changed, s.detach).nics);
    assert start + [applied] + ([w] + tail) == start + [applied, w] + tail;
    Assoc(trace, start + [applied], [w] + tail);
  }

  /** After the desired and the current addresses are known. */
  function Execute(mode: Mode, w: World, p: Plan, desired: seq<Addr>, current: seq<Addr>, s: Schedule): Transaction {
    var a := Attach(mode, w.nic, Difference(desired, current), [], s.attach);
    if a.failed.Some? then
      Abandon(mode, w, a, AtNics(w, a.nics), s, rolled => AttachFailed(a.failed.value, rolled))
    else
      var ap := ApplyRendering(w.disk, p.text, s.apply);
      var applied := World(w.store, ap.disk, a.nic);
      if ap.error.Some? then
        Abandon(mode, applied, a, AtNics(w, a.nics) + [applied], s, rolled => ApplyFailed(ap.error.value, rolled))
      else
        var committed := applied.(store := p.store);
        Finish(mode, committed, Difference(current, desired), ap.changed || |a.attached| > 0,
               AtNics(w, a.nics) + [applied, committed], s)
  }

  ghost function Reconcile(mode: Mode, w: World, p: Plan, s: Schedule): Transaction {
    if s.list && !mode.Noop? then Transaction(w, false, Some(ListFailed), [])
    else if p.desired.Err? then Transaction(w, false, Some(BadAddress), [])
    else Execute(mode, w, p, p.desired.value, ListedAddrs(mode, w.nic), s)
  }

  ghost function EnsureOf(mode: Mode, w: World, service: Service, s: Schedule): Transaction {
    if !ValidService(Normalized(service)) then Transaction(w, false, Some(InvalidService), [])
    else Reconcile(mode, w, PlanFor(Upserted(w.store, service)), s)
  }

  ghost function DeleteOf(mode: Mode, w: World, ref: ServiceRef, s: Schedule): Transaction {
    if ref !in w.store then Transaction(w, false, None, [])
    else Reconcile(mode, w, PlanFor(w.store - {ref}), s)
  }

  // ---------------------------------------------------------------- the engine

  class DataplaneEngine {
    var store: Store
    const applier: Applier
    const ipm: Manager
    ghost var trace: seq<World>

    ghost predicate Valid()
      reads this, store, ipm
    {
      store.Valid() && ipm.Valid()
    }

    ghost function Now(): World
      reads this, store, applier, ipm
    {
      World(store.services, applier.disk, ipm.nic)
    }

    constructor (applier: Applier, ipm: Manager)
      requires ipm.Valid()
      ensures Valid() && fresh(store) && store.services == map[] && trace == []
      ensures this.applier == applier && this.ipm == ipm
    {
      store := new Store();
      this.applier := applier;
      this.ipm := ipm;
      trace := [];
    }

    method Bootstrap(found: PidFile, f: ApplyFaults) returns (error: Option<ApplyError>)
      requires Valid()
      modifies applier
      ensures Valid() && store == old(store) && store.services == old(store.services)
      ensures var r := ApplyText(old(applier.disk), EMPTY_CONFIG,
                                 ShouldReloadOnBootstrap(applier.reloadCommand, applier.pidPath, found), f);
              applier.disk == r.disk && error == r.error
    {
      error := applier.Bootstrap(found, f);
    }

    method RollbackAttachedExternalIPs(attached: seq<Addr>, f: Addr -> CallFaults) returns (failed: bool)
      requires Valid()
      modifies this`trace, ipm`nic
      ensures Valid()
      ensures var r := Rollback(ipm.mode, old(ipm.nic), attached, f);
              ipm.nic == r.nic && failed == r.failed && trace == old(trace) + AtNics(old(Now()), r.nics)
    {
      failed := false;
      var index := |attached|;
      ghost var nics := [];
      AtNicsNone(trace, Now());
      assert attached[..index] == attached;
      while index > 0
        invariant 0 <= index <= |attached| && Valid()
        invariant var r := Rollback(ipm.mode, old(ipm.nic), attached, f);
                  var rest := Rollback(ipm.mode, ipm.nic, attached[..index], f);
                  r.nic == rest.nic && r.failed == (failed || rest.failed) && r.nics == nics + rest.nics
        invariant trace == old(trace) + AtNics(old(Now()), nics)
      {
        index := index - 1;
        var addr := attached[index];
        assert attached[..index + 1][..index] == attached[..index];
        RollbackStep(ipm.mode, ipm.nic, attached[..index + 1], f, nics);
        var _, err := ipm.MakeAbsent(addr, f(addr));
        failed := failed || err;
        AtNicsAppend(old(trace), old(Now()), nics, ipm.nic);
        nics := nics + [ipm.nic];
        trace := trace + [Now()];
      }
    }

    method AttachAll(todo: seq<Addr>, f: Addr -> CallFaults) returns (attached: seq<Addr>, failed: Option<Addr>)
      requires Valid()
      modifies this`trace, ipm`nic
      ensures Valid()
      ensures var r := Attach(ipm.mode, old(ipm.nic), todo, [], f);
              ipm.nic == r.nic && attached == r.attached && failed == r.failed
              && trace == old(trace) + AtNics(old(Now()), r.nics)
    {
      attached := [];
      var i := 0;
      ghost var nics := [];
      AtNicsNone(trace, Now());
      assert todo[0..] == todo;
      while i < |todo|
        invariant 0 <= i <= |todo| && Valid()
        invariant var r := Attach(ipm.mode, old(ipm.nic), todo, [], f);
                  var rest := Attach(ipm.mode, ipm.nic, todo[i..], attached, f);
                  r == rest.(nics := nics + rest.nics)
        invariant trace == old(trace) + AtNics(old(Now()), nics)
      {
        var addr := todo[i];
        assert todo[i..][1..] == todo[i + 1..];
        if !Present(ipm.mode, ipm.nic, addr, f(addr)).failed {
          AttachStep(ipm.mode, ipm.nic, todo[i..], attached, f, nics);
        }
        var changed, err := ipm.MakePresent(addr, f(addr));
        AtNicsAppend(old(trace), old(Now()), nics, ipm.nic);
        nics := nics + [ipm.nic];
        trace := trace + [Now()];
        if err {
          return attached, Some(addr);
        }
        if changed {
          attached := attached + [addr];
        }
        i := i + 1;
      }
      return attached, None;
    }

    method DetachAll(todo: seq<Addr>, changed: bool, f: Addr -> CallFaults) returns (any: bool, failed: Option<Addr>)
      requires Valid()
      modifies this`trace, ipm`nic
      ensures Valid()
      ensures var r := Detach(ipm.mode, old(ipm.nic), todo, changed, f);
              ipm.nic == r.nic && any == r.changed && failed == r.failed
              && trace == old(trace) + AtNics(old(Now()), r.nics)
    {
      any := changed;
      var i := 0;
      ghost var nics := [];
      AtNicsNone(trace, Now());
      assert todo[0..] == todo;
      while i < |todo|
        invariant 0 <= i <= |todo| && Valid()
        invariant var r := Detach(ipm.mode, old(ipm.nic), todo, changed, f);
                  var rest := Detach(ipm.mode, ipm.nic, todo[i..], any, f);
                  r == rest.(nics := nics + rest.nics)
        invariant trace == old(trace) + AtNics(old(Now()), nics)
      {
        var addr := todo[i];
        assert todo[i..][1..] == todo[i + 1..];
        if !Absent(ipm.mode, ipm.nic, addr, f(addr)).failed {
          DetachStep(ipm.mode, ipm.nic, todo[i..], any, f, nics);
        }
        var detached, err := ipm.MakeAbsent(addr, f(addr));
        AtNicsAppend(old(trace), old(Now()), nics, ipm.nic);
        nics := nics + [ipm.nic];
        trace := trace + [Now()];
        if err {
          return any, Some(addr);
        }
        any := any || detached;
        i := i + 1;
      }
      return any, None;
    }

    method ReconcileLocked(nextStore: Store, s: Schedule) returns (changed: bool, error: Option<EngineError>)
      requires Valid() && nextStore.Valid()
      modifies this`store, this`trace, applier, ipm`nic
      ensures Valid()
      ensures var t := Reconcile(ipm.mode, old(Now()), PlanFor(old(nextStore.services)), s);
              Now() == t.world && changed == t.changed && error == t.error && trace == old(trace) + t.visited
    {
      var nextServices := nextStore.List();
      var currentIPs := ipm.List(s.list);
      if currentIPs.Err? {
        return false, Some(ListFailed);
      }
      var desiredIPs := DesiredExternalIPs(nextServices);
      if desiredIPs.Err? {
        return false, Some(BadAddress);
      }
      var newIPs := DiffExternalIPs(desiredIPs.value, currentIPs.value);
      var staleIPs := DiffExternalIPs(currentIPs.value, desiredIPs.value);
      changed, error := ExecutePlan(nextStore, nextServices, newIPs, staleIPs, desiredIPs.value, currentIPs.value, s);
    }

    /** The part that changes something: attach, apply, commit, detach. */
    method ExecutePlan(nextStore: Store, nextServices: seq<Service>, newIPs: seq<Addr>, staleIPs: seq<Addr>,
                       ghost desired: seq<Addr>, ghost current: seq<Addr>, s: Schedule)
      returns (changed: bool, error: Option<EngineError>)
      requires Valid() && nextStore.Valid() && nextServices == Listed(nextStore.services)
      requires newIPs == Difference(desired, current) && staleIPs == Difference(current, desired)
      modifies this`store, this`trace, applier, ipm`nic
      ensures Valid()
      ensures var t := Execute(ipm.mode, old(Now()), PlanFor(old(nextStore.services)), desired, current, s);
              Now() == t.world && changed == t.changed && error == t.error && trace == old(trace) + t.visited
    {
      ghost var p := PlanFor(nextStore.services);
      ghost var a := Attach(ipm.mode, ipm.nic, newIPs, [], s.attach);
      ghost var start := AtNics(Now(), a.nics);
      var newlyAttached, failedAt := AttachAll(newIPs, s.attach);
      assert trace == old(trace) + start;
      if failedAt.Some? {
        ghost var here := Now();
        var rolled := RollbackAttachedExternalIPs(newlyAttached, s.rollback);
        Assoc(old(trace), start, AtNics(here, Rollback(ipm.mode, a.nic, newlyAttached, s.rollback).nics));
        return false, Some(AttachFailed(failedAt.value, rolled));
      }
      var configChanged, err := applier.Apply(nextServices, s.apply);
      ghost var applied := Now();
      trace := trace + [applied];
      Assoc(old(trace), start, [applied]);
      if err.Some? {
        var rolled := RollbackAttachedExternalIPs(newlyAttached, s.rollback);
        Assoc(old(trace), start + [applied], AtNics(applied, Rollback(ipm.mode, a.nic, newlyAttached, s.rollback).nics));
        return false, Some(ApplyFailed(err.value, rolled));
      }
      ghost var committed := applied.(store := nextStore.services);
      FinishAfter(ipm.mode, committed, staleIPs, configChanged || |newlyAttached| > 0, old(trace), start, applied, s);
      changed, error := CommitAndDetach(nextStore, staleIPs, configChanged || |newlyAttached| > 0, s);
    }

    /** From here on the new store is in force. */
    method CommitAndDetach(nextStore: Store, staleIPs: seq<Addr>, before: bool, s: Schedule)
      returns (changed: bool, error: Option<EngineError>)
      requires Valid() && nextStore.Valid()
      modifies this`store, this`trace, ipm`nic
      ensures Valid()
      ensures var committed := old(Now()).(store := old(nextStore.services));
              var t := Finish(ipm.mode, committed, staleIPs, before, [committed], s);
              Now() == t.world && changed == t.changed && error == t.error && trace == old(trace) + t.visited
    {
      store := nextStore;
      ghost var committed := Now();
      trace := trace + [committed];
      var any, stuck := DetachAll(staleIPs, before, s.detach);
      Assoc(old(trace), [committed], AtNics(committed, Detach(ipm.mode, committed.nic, staleIPs, before, s.detach).nics));
      if stuck.Some? {
        return false, Some(DetachFailed(stuck.value));
      }
      return any, None;
    }

    method Ensure(service: Service, s: Schedule) returns (changed: bool, error: Option<EngineError>)
      requires Valid()
      modifies this`store, this`trace, applier, ipm`nic
      ensures Valid()
      ensures var t := EnsureOf(ipm.mode, old(Now()), service, s);
              Now() == t.world && changed == t.changed && error == t.error && trace == old(trace) + t.visited
    {
      var normalized := NormalizeService(service);
      var invalid := ValidateService(normalized);
      if invalid.Some? {
        return false, Some(InvalidService);
      }
      var nextStore := store.Clone();
      nextStore.Upsert(normalized);
      NormalizedIdempotent(service);
      changed, error := ReconcileLocked(nextStore, s);
    }

    method Delete(ref: ServiceRef, s: Schedule) returns (changed: bool, error: Option<EngineError>)
      requires Valid()
      modifies this`store, this`trace, applier, ipm`nic
      ensures Valid()
      ensures var t := DeleteOf(ipm.mode, old(Now()), ref, s);
              Now() == t.world && changed == t.changed && error == t.error && trace == old(trace) + t.visited
    {
      var present := store.Get(ref);
      if present.None? {
        return false, None;
      }
      var nextStore := store.Clone();
      var _ := nextStore.Delete(ref);
      changed, error := ReconcileLocked(nextStore, s);
    }
  }
}
