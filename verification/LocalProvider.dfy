/** The file-based provider, and its agreement with the engine. */
module LocalProvider {
  import opened Text
  import opened IPv4
  import opened Sorting
  import opened Model
  import opened Normalize
  import opened DesiredStore
  import opened Render
  import opened RenderOrder
  import opened Apply
  import opened IPAttach
  import opened ExternalIPs
  import opened Engine
  import opened EngineSafety
  import opened EngineRuns

  datatype Local = Local(services: Services, disk: Disk)

  datatype LocalResult = LocalResult(state: Local, changed: bool, error: Option<ApplyError>)

  ghost function Commit(l: Local, next: Services, f: ApplyFaults): LocalResult {
    var r := ApplyRendering(l.disk, Rendered(RawListed(next)), f);
    LocalResult(Local(if r.error.None? then next else l.services, r.disk), r.changed, r.error)
  }

  /** The state an operation of the local provider tries to reach. */
  function LocalNext(m: Services, op: Op): Services {
    match op
    case EnsureOp(service, _) => m[service.Ref() := service]
    case DeleteOp(ref, _) => m - {ref}
  }

  ghost function LocalTransact(l: Local, op: Op): LocalResult {
    Commit(l, LocalNext(l.services, op), op.sched.apply)
  }

  // ---------------------------------------------------------------- the provider

  class Provider {
    const applier: Applier
    var services: Services

    ghost predicate Valid()
      reads this
    {
      WellKeyed(services)
    }

    ghost function Now(): Local
      reads this, applier
    {
      Local(services, applier.disk)
    }

    constructor (applier: Applier)
      ensures Valid() && services == map[] && this.applier == applier
    {
      this.applier := applier;
      services := map[];
    }

    method ServicesToList(services: Services) returns (list: seq<Service>)
      requires WellKeyed(services)
      ensures list == RawListed(services)
    {
      list := [];
      var left := services.Keys;
      while left != {}
        invariant left <= services.Keys
        invariant EntriesOf(list, services, services.Keys - left)
        decreases |left|
      {
        var ref :| ref in left;
        EntriesAppend(list, services, services.Keys - left, ref);
        assert services.Keys - (left - {ref}) == services.Keys - left + {ref};
        list := list + [services[ref]];
        left := left - {ref};
      }
      assert services.Keys - left == services.Keys;
      SortedEntries(list, services);
      list := Sort(LeService, list);
    }

    method ApplyState(next: Services, f: ApplyFaults) returns (changed: bool, error: Option<ApplyError>)
      requires WellKeyed(next)
      modifies applier
      ensures Applied(applier.disk, changed, error) == ApplyRendering(old(applier.disk), Rendered(RawListed(next)), f)
      ensures error.Some? ==> !changed
    {
      var list := ServicesToList(next);
      changed, error := applier.Apply(list, f);
    }

    method Ensure(service: Service, s: Schedule) returns (changed: bool, error: Option<ApplyError>)
      requires Valid()
      modifies this`services, applier
      ensures Valid()
      ensures LocalResult(Now(), changed, error) == LocalTransact(old(Now()), EnsureOp(service, s))
    {
      var nextState := services;
      nextState := nextState[service.Ref() := service];
      assert WellKeyed(nextState);
      ghost var before := Now();
      changed, error := ApplyState(nextState, s.apply);
      CommitIs(before, nextState, s.apply, Applied(applier.disk, changed, error));
      if error.Some? {
        return false, error;
      }
      services := nextState;
    }

    method Delete(ref: ServiceRef, s: Schedule) returns (changed: bool, error: Option<ApplyError>)
      requires Valid()
      modifies this`services, applier
      ensures Valid()
      ensures LocalResult(Now(), changed, error) == LocalTransact(old(Now()), DeleteOp(ref, s))
    {
      var nextState := services;
      nextState := nextState - {ref};
      assert WellKeyed(nextState);
      ghost var before := Now();
      changed, error := ApplyState(nextState, s.apply);
      CommitIs(before, nextState, s.apply, Applied(applier.disk, changed, error));
      if error.Some? {
        return false, error;
      }
      services := nextState;
    }
  }

  lemma CommitIs(l: Local, next: Services, f: ApplyFaults, r: Applied)
    requires r == ApplyRendering(l.disk, Rendered(RawListed(next)), f)
    ensures Commit(l, next, f) == LocalResult(Local(if r.error.None? then next else l.services, r.disk), r.changed, r.error)
  {}

  // ---------------------------------------------------------------- what both providers render

  /** Rendering the Services as given and rendering the normalised store is the same. */
  lemma SameText(m: Services)
    requires WellKeyed(m)
    ensures Rendered(RawListed(m)) == Rendered(Listed(NormalizedAll(m)))
  {
    RawNormalizes(m);
    ListedNormalizes(m);
    FromSliceNormalizes(RawListed(m), Listed(m));
  }

  /** The engine with address management disabled does nothing but apply and commit. */
  lemma {:induction false} NoopAttach(nic: set<Prefix>, todo: seq<Addr>, f: Addr -> CallFaults)
    ensures var r := Attach(Noop, nic, todo, [], f); r.nic == nic && r.attached == [] && r.failed.None?
    decreases |todo|
  {
    if todo != [] { NoopAttach(nic, todo[1..], f); }
  }

  lemma NoopReconcile(w: World, p: Plan, s: Schedule)
    requires p.desired.Ok?
    ensures var t := Reconcile(Noop, w, p, s); var ap := ApplyRendering(w.disk, p.text, s.apply);
            && t.world == World(if ap.error.None? then p.store else w.store, ap.disk, w.nic)
            && t.changed == ap.changed && (t.error.Some? <==> ap.error.Some?)
  {
    NoopAttach(w.nic, Difference(p.desired.value, []), s.attach);
  }

  // ---------------------------------------------------------------- agreement

  /** The engine's store is the normalised local one, and the files are the same. */
  ghost predicate Related(l: Local, w: World) {
    WellKeyed(l.services) && StoreOk(w.store) && w.store == NormalizedAll(l.services) && w.disk == l.disk
  }

  /** Same result, and the states stay related. */
  ghost predicate Agree(r: LocalResult, t: Transaction) {
    Related(r.state, t.world) && r.changed == t.changed && (r.error.Some? <==> t.error.Some?)
  }

  lemma InvalidRefused(m: Services, service: Service)
    requires WellKeyed(m) && m.Keys != {} && service.Ref() in m && m[service.Ref()] == service && !ValidService(service)
    ensures Rendered(RawListed(m)).Err?
  {
    SameText(m);
    NormalizedAllCanonical(m);
    var n := NormalizedAll(m);
    RenderedStore(n);
    ListedMembers(n);
    NormalizedIdempotent(service);
    ValidNormalized(service);
    assert n[service.Ref()] == Normalized(service);
    assert Normalized(service) in Listed(n);
  }

  lemma NextRelated(l: Local, w: World, op: Op)
    requires Related(l, w) && NextStore(w, op).Some?
    ensures WellKeyed(LocalNext(l.services, op)) && NormalizedAll(LocalNext(l.services, op)) == NextStore(w, op).value
    ensures StoreOk(NextStore(w, op).value)
  {
    NextStoreOk(w, op);
    match op
    case EnsureOp(service, _) => NormalizedAllUpdate(l.services, service);
    case DeleteOp(ref, _) => NormalizedAllRemove(l.services, ref);
  }

  lemma CommitAgrees(l: Local, w: World, next: Services, s: Schedule)
    requires Related(l, w) && WellKeyed(next) && StoreOk(NormalizedAll(next))
    ensures Agree(Commit(l, next, s.apply), Reconcile(Noop, w, PlanFor(NormalizedAll(next)), s))
  {
    SameText(next);
    DesiredOk(NormalizedAll(next));
    NoopReconcile(w, PlanFor(NormalizedAll(next)), s);
  }

  lemma InvalidLocal(l: Local, op: Op)
    requires WellKeyed(l.services) && op.EnsureOp? && !ValidService(op.service)
    ensures LocalTransact(l, op) == LocalResult(l, false, Some(RenderFailed))
  {
    var next := LocalNext(l.services, op);
    assert op.service.Ref() in next;
    InvalidRefused(next, op.service);
  }

  lemma InvalidEngine(w: World, op: Op)
    requires op.EnsureOp? && !ValidService(Normalized(op.service))
    ensures Transact(Noop, w, op) == Transaction(w, false, Some(InvalidService), [])
  {}

  lemma InvalidAgrees(l: Local, w: World, op: Op)
    requires Related(l, w) && op.EnsureOp? && !ValidService(Normalized(op.service))
    ensures Agree(LocalTransact(l, op), Transact(Noop, w, op))
  {
    ValidNormalized(op.service);
    InvalidLocal(l, op);
    InvalidEngine(w, op);
  }

  lemma PlannedAgrees(l: Local, w: World, op: Op)
    requires Related(l, w) && NextStore(w, op).Some?
    ensures Agree(LocalTransact(l, op), Transact(Noop, w, op))
  {
    NextRelated(l, w, op);
    TransactIs(Noop, w, op);
    CommitAgrees(l, w, LocalNext(l.services, op), op.sched);
  }

  /** Any Ensure, and any Delete of a stored Service, has the same outcome in both, whatever fails. */
  lemma OperationAgrees(l: Local, w: World, op: Op)
    requires Related(l, w) && (op.DeleteOp? ==> op.ref in w.store)
    ensures Agree(LocalTransact(l, op), Transact(Noop, w, op))
  {
    if op.EnsureOp? && !ValidService(Normalized(op.service)) {
      InvalidAgrees(l, w, op);
    } else {
      PlannedAgrees(l, w, op);
    }
  }

  /** The file is the rendering of the state. */
  ghost predicate FileCurrent(l: Local) {
    l.disk.active.Some? && Rendered(RawListed(l.services)) == Ok(l.disk.active.value)
  }

  /** An apply reports neither change nor error exactly when the file is read and found current. */
  lemma QuietApplyIff(d: Disk, text: string, f: ApplyFaults)
    ensures var r := ApplyRendering(d, Ok(text), f);
            && (!r.changed && r.error.None? <==> !f.read && d.active == Some(text))
            && (!r.changed && r.error.None? ==> r.disk == d)
  {}

  lemma LocalText(l: Local, w: World)
    requires Related(l, w)
    ensures Rendered(RawListed(l.services)).Ok?
  {
    SameText(l.services);
    StoreText(w.store);
  }

  /** Deleting an absent reference agrees exactly when the local provider finds its file current. */
  lemma AbsentDeleteAgreesIff(l: Local, w: World, op: Op)
    requires Related(l, w) && op.DeleteOp? && op.ref !in w.store
    ensures Agree(LocalTransact(l, op), Transact(Noop, w, op)) <==> !op.sched.apply.read && FileCurrent(l)
  {
    LocalText(l, w);
    var text := Rendered(RawListed(l.services));
    AbsentLocal(l, op, text);
    QuietApplyIff(l.disk, text.value, op.sched.apply);
    AbsentDelete(Noop, w, op.ref, op.sched);
    AgreeQuiet(l, w, ApplyRendering(l.disk, text, op.sched.apply));
  }

  /** An input: the file was changed behind the provider's back. Deleting an absent reference then puts the
      rendering back through the local provider, and does nothing through the engine. */
  lemma AbsentDeleteReapplies(l: Local, w: World, ref: ServiceRef, s: Schedule)
    requires Related(l, w) && ref !in w.store && !FileCurrent(l) && s.apply == NO_FAULTS
    ensures var r := LocalTransact(l, DeleteOp(ref, s));
            r.changed && r.error.None? && FileCurrent(r.state) && r.state.services == l.services
    ensures Transact(Noop, w, DeleteOp(ref, s)) == Transaction(w, false, None, [])
  {
    LocalText(l, w);
    AbsentDelete(Noop, w, ref, s);
    var text := Rendered(RawListed(l.services)).value;
    AbsentLocal(l, DeleteOp(ref, s), Ok(text));
    FreshApply(l.disk, text);
    Shown(LocalTransact(l, DeleteOp(ref, s)).state, text);
  }

  lemma FreshApply(d: Disk, text: string)
    requires d.active != Some(text)
    ensures var r := ApplyRendering(d, Ok(text), NO_FAULTS); r.changed && r.error.None? && r.disk.active == Some(text)
  {}

  lemma Shown(l: Local, text: string)
    requires l.disk.active == Some(text) && Rendered(RawListed(l.services)) == Ok(text)
    ensures FileCurrent(l)
  {}

  lemma AbsentLocal(l: Local, op: Op, text: Result<string>)
    requires op.DeleteOp? && op.ref !in l.services && text == Rendered(RawListed(l.services))
    ensures var ap := ApplyRendering(l.disk, text, op.sched.apply);
            LocalTransact(l, op) == LocalResult(Local(l.services, ap.disk), ap.changed, ap.error)
  {
    assert LocalNext(l.services, op) == l.services;
  }

  lemma AgreeQuiet(l: Local, w: World, ap: Applied)
    requires Related(l, w)
    ensures Agree(LocalResult(Local(l.services, ap.disk), ap.changed, ap.error), Transaction(w, false, None, []))
            <==> ap.disk == l.disk && !ap.changed && ap.error.None?
  {}

  // ---------------------------------------------------------------- runs

  /** Both providers, side by side, agree on every operation of the run. */
  ghost predicate RunAgrees(l: Local, w: World, ops: seq<Op>)
    decreases |ops|
  {
    ops == [] ||
    (var r, t := LocalTransact(l, ops[0]), Transact(Noop, w, ops[0]);
     Agree(r, t) && RunAgrees(r.state, t.world, ops[1..]))
  }

  /** Reads succeed and nothing fails after a rename. */
  ghost predicate Undisturbed(l: Local, ops: seq<Op>)
    decreases |ops|
  {
    ops == [] ||
    (var r := LocalTransact(l, ops[0]);
     !ops[0].sched.apply.read && (r.error.Some? ==> !r.error.value.PostRename()) && Undisturbed(r.state, ops[1..]))
  }

  lemma CommitKeepsCurrent(l: Local, next: Services, f: ApplyFaults)
    requires FileCurrent(l)
    requires var r := Commit(l, next, f); r.error.Some? ==> !r.error.value.PostRename()
    ensures FileCurrent(Commit(l, next, f).state)
  {
    var text := Rendered(RawListed(next));
    if text.Ok? {
      ApplyActive(l.disk, text.value, f);
    }
  }

  /** From files equal to the rendering of the state, undisturbed runs agree throughout. */
  lemma {:induction false} ProvidersAgree(l: Local, w: World, ops: seq<Op>)
    requires Related(l, w) && FileCurrent(l) && Undisturbed(l, ops)
    ensures RunAgrees(l, w, ops)
    decreases |ops|
  {
    if ops != [] {
      var op := ops[0];
      if op.DeleteOp? && op.ref !in w.store {
        AbsentDeleteAgreesIff(l, w, op);
      } else {
        OperationAgrees(l, w, op);
      }
      CommitKeepsCurrent(l, LocalNext(l.services, op), op.sched.apply);
      ProvidersAgree(LocalTransact(l, op).state, Transact(Noop, w, op).world, ops[1..]);
    }
  }

  /** The two providers as they start: nothing stored, the empty configuration in place. */
  lemma StartRelated(d: Disk, nic: set<Prefix>)
    requires d.active == Some(EMPTY_CONFIG)
    ensures Related(Local(map[], d), World(map[], d, nic)) && FileCurrent(Local(map[], d))
  {}
}
