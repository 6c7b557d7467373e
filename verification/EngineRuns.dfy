/** What holds over every run of the engine, whatever fails and however many operations ran. */
module EngineRuns {
  import opened Text
  import opened IPv4
  import opened Sorting
  import opened Model
  import opened Normalize
  import opened DesiredStore
  import opened Render
  import opened RenderOrder
  import opened ConfigParser
  import opened Apply
  import opened IPAttach
  import opened ExternalIPs
  import opened Engine
  import opened EngineFacts
  import opened EngineSafety
  import opened EngineExact

  datatype Op = EnsureOp(service: Service, sched: Schedule) | DeleteOp(ref: ServiceRef, sched: Schedule)

  ghost function Transact(mode: Mode, w: World, op: Op): Transaction {
    match op
    case EnsureOp(service, s) => EnsureOf(mode, w, service, s)
    case DeleteOp(ref, s) => DeleteOf(mode, w, ref, s)
  }

  /** Every world a run of operations passes through, in order. */
  ghost function History(mode: Mode, w: World, ops: seq<Op>): seq<World>
    decreases |ops|
  {
    if ops == [] then [w]
    else
      var t := Transact(mode, w, ops[0]);
      [w] + t.visited + History(mode, t.world, ops[1..])
  }

  /** Where a run of operations ends. */
  ghost function Reached(mode: Mode, w: World, ops: seq<Op>): World
    decreases |ops|
  {
    if ops == [] then w else Reached(mode, Transact(mode, w, ops[0]).world, ops[1..])
  }

  /** No operation of the run reports a failure after a rename. */
  ghost predicate NoPostRename(mode: Mode, w: World, ops: seq<Op>)
    decreases |ops|
  {
    ops == [] ||
    (var t := Transact(mode, w, ops[0]);
     (t.error.Some? ==> !t.error.value.PostRename()) && NoPostRename(mode, t.world, ops[1..]))
  }

  /** The store holds canonical, valid Services. */
  ghost predicate StoreOk(m: Services) {
    Canonical(m) && forall r :: r in m ==> ValidService(m[r])
  }

  /** Every address a stored Service asks for is attached. */
  ghost predicate StoreCovered(mode: Mode, w: World)
    requires !mode.Noop?
  {
    AllAttached(mode, w.nic, DesiredSet(Listed(w.store)))
  }

  // ---------------------------------------------------------------- plans of good stores are sound

  lemma ListedValid(m: Services)
    requires StoreOk(m)
    ensures AllValid(Listed(m))
  {
    ListedMembers(m);
  }

  lemma DesiredOk(m: Services)
    requires StoreOk(m)
    ensures Desired(Listed(m)) == Ok(InOrder(LeAddr, DesiredSet(Listed(m))))
    ensures forall a :: a in InOrder(LeAddr, DesiredSet(Listed(m))) <==> a in DesiredSet(Listed(m))
  {
    ListedValid(m);
    LeAddrOrder();
    InOrderProperties(LeAddr, DesiredSet(Listed(m)));
    forall s | s in Listed(m) ensures !UnparsedIP(s) { assert ValidService(s); }
  }

  lemma {:induction false} PortsTableBinds(s: Service, ports: seq<ServicePort>, f: Frontend)
    requires ValidService(s) && (forall p :: p in ports ==> ValidPort(p)) && f in PortsTable(s, ports)
    ensures f.bind.addr == Parse(s.externalIP).value
  {
    if f != PortsTable(s, ports)[0] {
      assert ports != [];
      PortsTableBinds(s, ports[1..], f);
    }
  }

  lemma {:induction false} TableBinds(list: seq<Service>, f: Frontend)
    requires AllValid(list) && f in Table(list)
    ensures f.bind.addr in DesiredSet(list)
  {
    assert list != [];
    assert list[0] in list;
    if f in PortsTable(list[0], list[0].ports) {
      PortsTableBinds(list[0], list[0].ports, f);
    } else {
      TableBinds(list[1..], f);
      var s :| s in list[1..] && Parse(s.externalIP) == Some(f.bind.addr);
      assert s in list;
    }
  }

  /** A text that reads as the routing table of `list` binds only addresses `list` asks for. */
  lemma BoundAreDesired(text: string, list: seq<Service>)
    requires AllValid(list) && ParseConfig(text) == Some(Table(list))
    ensures forall a :: a in Bound(Some(text)) ==> a in DesiredSet(list)
  {
    forall a | a in Bound(Some(text)) ensures a in DesiredSet(list) {
      var f :| f in Table(list) && f.bind.addr == a;
      TableBinds(list, f);
    }
  }

  lemma StoreReads(m: Services)
    requires StoreOk(m)
    ensures AllValid(Listed(m)) && Rendered(Listed(m)).Ok?
    ensures ParseConfig(Rendered(Listed(m)).value) == Some(Table(Listed(m)))
  {
    ListedValid(m);
    RenderedStore(m);
    if m == map[] {
      EmptyConfigReads();
    } else {
      ListFaithful(Listed(m));
    }
  }

  lemma StoreText(m: Services)
    requires StoreOk(m)
    ensures Rendered(Listed(m)).Ok?
    ensures forall a :: a in Bound(Some(Rendered(Listed(m)).value)) ==> a in DesiredSet(Listed(m))
  {
    StoreReads(m);
    BoundAreDesired(Rendered(Listed(m)).value, Listed(m));
  }

  lemma PlanSound(m: Services)
    requires StoreOk(m)
    ensures Sound(PlanFor(m))
  {
    StoreText(m);
    DesiredOk(m);
  }

  // ---------------------------------------------------------------- one operation

  /** The store an operation plans to commit, when it plans one at all. */
  ghost function NextStore(w: World, op: Op): Option<Services> {
    match op
    case EnsureOp(service, _) => if ValidService(Normalized(service)) then Some(Upserted(w.store, service)) else None
    case DeleteOp(ref, _) => if ref in w.store then Some(w.store - {ref}) else None
  }

  lemma NextStoreOk(w: World, op: Op)
    requires StoreOk(w.store) && NextStore(w, op).Some?
    ensures StoreOk(NextStore(w, op).value)
  {
    if op.EnsureOp? { UpsertedCanonical(w.store, op.service); }
  }

  lemma TransactIs(mode: Mode, w: World, op: Op)
    ensures NextStore(w, op).Some? ==>
            Transact(mode, w, op) == Reconcile(mode, w, PlanFor(NextStore(w, op).value), op.sched)
    ensures NextStore(w, op).None? ==> Transact(mode, w, op).world == w && Transact(mode, w, op).visited == []
  {}

  lemma AbsentDelete(mode: Mode, w: World, ref: ServiceRef, s: Schedule)
    requires ref !in w.store
    ensures Transact(mode, w, DeleteOp(ref, s)) == Transaction(w, false, None, [])
  {}

  lemma InForceCovered(mode: Mode, w: World, p: Plan, v: World)
    requires !mode.Noop? && InForce(mode, w, p, DesiredSet(Listed(w.store)), DesiredSet(Listed(p.store)), v)
    ensures StoreCovered(mode, v)
  {}

  lemma ReconcileKeeps(mode: Mode, w: World, next: Services, s: Schedule)
    requires !mode.Noop? && StoreCovered(mode, w) && StoreOk(next)
    ensures var t := Reconcile(mode, w, PlanFor(next), s);
            StoreCovered(mode, t.world) && forall i :: 0 <= i < |t.visited| ==> StoreCovered(mode, t.visited[i])
  {
    var p := PlanFor(next);
    var t := Reconcile(mode, w, p, s);
    DesiredOk(next);
    TransactionInForce(mode, w, p, DesiredSet(Listed(w.store)), DesiredSet(Listed(next)), s);
    forall i | 0 <= i < |t.visited| ensures StoreCovered(mode, t.visited[i]) {
      InForceCovered(mode, w, p, t.visited[i]);
    }
    InForceCovered(mode, w, p, t.world);
  }

  /** Every world an operation passes through keeps the addresses of the store in force attached. */
  lemma OperationKeeps(mode: Mode, w: World, op: Op)
    requires !mode.Noop? && StoreOk(w.store) && StoreCovered(mode, w)
    ensures var t := Transact(mode, w, op);
            StoreCovered(mode, t.world) && forall i :: 0 <= i < |t.visited| ==> StoreCovered(mode, t.visited[i])
  {
    TransactIs(mode, w, op);
    if NextStore(w, op).Some? {
      NextStoreOk(w, op);
      ReconcileKeeps(mode, w, NextStore(w, op).value, op.sched);
    }
  }

  lemma OperationStoreOk(mode: Mode, w: World, op: Op)
    requires !mode.Noop? && StoreOk(w.store)
    ensures StoreOk(Transact(mode, w, op).world.store)
  {
    TransactIs(mode, w, op);
    if NextStore(w, op).Some? {
      NextStoreOk(w, op);
      PlanSound(NextStore(w, op).value);
      ReconcileGuarantee(mode, w, PlanFor(NextStore(w, op).value), op.sched);
    }
  }

  /** The store is the old one or the planned one throughout, and the planned one in the end exactly when
      there was no error or the error came after the commit: a failed call leaves the old or the new state. */
  lemma OperationIsAtomic(mode: Mode, w: World, op: Op)
    requires !mode.Noop? && StoreOk(w.store)
    ensures var t := Transact(mode, w, op);
            && (forall i :: 0 <= i < |t.visited| ==>
                  t.visited[i].store == w.store || NextStore(w, op) == Some(t.visited[i].store))
            && (t.error.Some? && !t.error.value.AfterCommit() ==> t.world.store == w.store)
            && (t.error.None? || t.error.value.AfterCommit() ==>
                  NextStore(w, op) == Some(t.world.store) || (NextStore(w, op).None? && t.world.store == w.store))
            && (t.error.None? && NextStore(w, op).None? ==> op.DeleteOp?)
  {
    TransactIs(mode, w, op);
    if NextStore(w, op).Some? {
      NextStoreOk(w, op);
      ReconcileIsAtomic(mode, w, NextStore(w, op).value, op.sched);
    }
  }

  lemma ReconcileIsAtomic(mode: Mode, w: World, next: Services, s: Schedule)
    requires !mode.Noop? && StoreOk(next)
    ensures var t := Reconcile(mode, w, PlanFor(next), s);
            && (forall i :: 0 <= i < |t.visited| ==> t.visited[i].store == w.store || t.visited[i].store == next)
            && (t.error.Some? && !t.error.value.AfterCommit() ==> t.world.store == w.store)
            && (t.error.None? || t.error.value.AfterCommit() ==> t.world.store == next)
  {
    DesiredOk(next);
    ReconcileGuarantee(mode, w, PlanFor(next), s);
  }

  // ---------------------------------------------------------------- whole runs

  lemma {:induction false} CoverageKept(mode: Mode, w: World, ops: seq<Op>)
    requires !mode.Noop? && StoreOk(w.store) && StoreCovered(mode, w)
    ensures forall v :: v in History(mode, w, ops) ==> StoreCovered(mode, v)
    decreases |ops|
  {
    if ops != [] {
      var t := Transact(mode, w, ops[0]);
      OperationKeeps(mode, w, ops[0]);
      OperationStoreOk(mode, w, ops[0]);
      CoverageKept(mode, t.world, ops[1..]);
    }
  }

  /** The engine right after a successful Bootstrap. */
  ghost predicate Bootstrapped(w: World) {
    w.store == map[] && w.disk.active == Some(EMPTY_CONFIG)
  }

  /** A Bootstrap without error leads there. */
  lemma BootstrapStarts(w: World, reload: bool, f: ApplyFaults)
    requires w.store == map[] && ApplyText(w.disk, EMPTY_CONFIG, reload, f).error.None?
    ensures Bootstrapped(w.(disk := ApplyText(w.disk, EMPTY_CONFIG, reload, f).disk))
  {}

  lemma EmptyStore()
    ensures Listed(map[]) == [] && DesiredSet(Listed(map[])) == {} && StoreOk(map[])
  {}

  /** Coverage under all failures: in every reachable state, every address of a stored Service is attached. */
  lemma CoverageAlways(mode: Mode, w: World, ops: seq<Op>)
    requires !mode.Noop? && w.store == map[]
    ensures forall v :: v in History(mode, w, ops) ==> StoreCovered(mode, v)
  {
    EmptyStore();
    CoverageKept(mode, w, ops);
  }

  // ---------------------------------------------------------------- exactly when an operation succeeds

  /** What the operation plans, when it plans something. */
  ghost function PlanOf(w: World, op: Op): (p: Plan)
    requires StoreOk(w.store) && NextStore(w, op).Some?
    ensures p.store == NextStore(w, op).value && StoreOk(p.store) && p.desired.Ok? && p.text.Ok?
    ensures forall a :: a in p.desired.value <==> a in DesiredSet(Listed(p.store))
  {
    NextStoreOk(w, op);
    DesiredOk(NextStore(w, op).value);
    StoreText(NextStore(w, op).value);
    PlanFor(NextStore(w, op).value)
  }

  /** Nothing to do, or everything the transaction needs can be attached, applied and detached. */
  ghost predicate Succeeds(mode: Mode, w: World, op: Op)
    requires !mode.Noop? && StoreOk(w.store)
  {
    if NextStore(w, op).None? then op.DeleteOp?
    else
      var p := PlanOf(w, op);
      Commits(mode, w, p, op.sched) && forall a :: a in Stale(mode, w, p) ==> Works(op.sched.detach(a))
  }

  lemma SucceedsIff(mode: Mode, w: World, op: Op)
    requires !mode.Noop? && StoreOk(w.store)
    ensures Transact(mode, w, op).error.None? <==> Succeeds(mode, w, op)
  {
    TransactIs(mode, w, op);
    if NextStore(w, op).Some? { OutcomeIff(mode, w, PlanOf(w, op), op.sched); }
  }

  // ---------------------------------------------------------------- exactly when a run breaks coverage

  /** The operation fails past the rename while some address the new file binds was missing, was added
      without an error, and is taken away again by the rollback. */
  ghost predicate Uncovers(mode: Mode, w: World, op: Op)
    requires !mode.Noop? && StoreOk(w.store)
  {
    NextStore(w, op).Some? &&
    (var p := PlanOf(w, op);
     && FailsPostRename(mode, w, p, op.sched)
     && exists a :: a in Bound(Some(p.text.value)) && Prefix(a, mode.bits) !in w.nic
                    && !op.sched.attach(a).op && !Stays(op.sched.rollback(a)))
  }

  /** No operation of the run does that. */
  ghost predicate NeverUncovers(mode: Mode, w: World, ops: seq<Op>)
    requires !mode.Noop? && StoreOk(w.store)
    decreases |ops|
  {
    ops == [] ||
    (OperationStoreOk(mode, w, ops[0]);
     !Uncovers(mode, w, ops[0]) && NeverUncovers(mode, Transact(mode, w, ops[0]).world, ops[1..]))
  }

  lemma OperationUncoversIff(mode: Mode, w: World, op: Op)
    requires !mode.Noop? && StoreOk(w.store) && Covered(mode, w)
    ensures Covered(mode, Transact(mode, w, op).world) <==> !Uncovers(mode, w, op)
    ensures !Uncovers(mode, w, op) ==>
            forall i :: 0 <= i < |Transact(mode, w, op).visited| ==> Covered(mode, Transact(mode, w, op).visited[i])
  {
    TransactIs(mode, w, op);
    if NextStore(w, op).Some? {
      var p := PlanOf(w, op);
      PlanSound(p.store);
      UncoversIff(mode, w, p, op.sched);
      StepsCoveredIff(mode, w, p, op.sched);
    }
  }

  lemma {:induction false} CoveredRunIff(mode: Mode, w: World, ops: seq<Op>)
    requires !mode.Noop? && StoreOk(w.store) && Covered(mode, w)
    ensures (forall v :: v in History(mode, w, ops) ==> Covered(mode, v)) <==> NeverUncovers(mode, w, ops)
    decreases |ops|
  {
    if ops != [] {
      var t := Transact(mode, w, ops[0]);
      var rest := History(mode, t.world, ops[1..]);
      OperationStoreOk(mode, w, ops[0]);
      OperationUncoversIff(mode, w, ops[0]);
      assert t.world == rest[0] && rest[0] in rest;
      assert forall v :: v in rest ==> v in History(mode, w, ops);
      if Covered(mode, t.world) { CoveredRunIff(mode, t.world, ops[1..]); }
    }
  }

  /** Over whole runs, with any failures: every bound address is attached at every step exactly when no
      operation fails past the rename with a bound address missing, added and rolled back. */
  lemma MakeBeforeBreakIff(mode: Mode, w: World, ops: seq<Op>)
    requires !mode.Noop? && Bootstrapped(w)
    ensures StoreOk(w.store)
    ensures (forall v :: v in History(mode, w, ops) ==> Covered(mode, v)) <==> NeverUncovers(mode, w, ops)
  {
    EmptyStore();
    EmptyConfigReads();
    assert Bound(w.disk.active) == {};
    CoveredRunIff(mode, w, ops);
  }

  lemma {:induction false} LateFailuresOnly(mode: Mode, w: World, ops: seq<Op>)
    requires !mode.Noop? && StoreOk(w.store) && NoPostRename(mode, w, ops)
    ensures NeverUncovers(mode, w, ops)
    decreases |ops|
  {
    if ops != [] {
      var op := ops[0];
      TransactIs(mode, w, op);
      if NextStore(w, op).Some? { OutcomeIff(mode, w, PlanOf(w, op), op.sched); }
      OperationStoreOk(mode, w, op);
      LateFailuresOnly(mode, Transact(mode, w, op).world, ops[1..]);
    }
  }

  /** Make before break: in every run without post-rename failures, at every step, every address the
      config file binds is attached. */
  lemma MakeBeforeBreak(mode: Mode, w: World, ops: seq<Op>)
    requires !mode.Noop? && Bootstrapped(w) && NoPostRename(mode, w, ops)
    ensures forall v :: v in History(mode, w, ops) ==> Covered(mode, v)
  {
    MakeBeforeBreakIff(mode, w, ops);
    LateFailuresOnly(mode, w, ops);
  }

  // ---------------------------------------------------------------- stores and files over runs

  lemma {:induction false} StoresKept(mode: Mode, w: World, ops: seq<Op>)
    requires !mode.Noop? && StoreOk(w.store)
    ensures forall v :: v in History(mode, w, ops) ==> StoreOk(v.store)
    ensures Reached(mode, w, ops) in History(mode, w, ops)
    decreases |ops|
  {
    if ops != [] {
      var t := Transact(mode, w, ops[0]);
      OperationStoreOk(mode, w, ops[0]);
      OperationIsAtomic(mode, w, ops[0]);
      if NextStore(w, ops[0]).Some? { NextStoreOk(w, ops[0]); }
      StoresKept(mode, t.world, ops[1..]);
    }
  }

  /** In every reachable state the store holds canonical, valid Services. */
  lemma StoresAlwaysOk(mode: Mode, w: World, ops: seq<Op>)
    requires !mode.Noop? && w.store == map[]
    ensures forall v :: v in History(mode, w, ops) ==> StoreOk(v.store)
    ensures StoreOk(Reached(mode, w, ops).store)
  {
    EmptyStore();
    StoresKept(mode, w, ops);
  }

  /** The file is the rendering of the given store. */
  ghost predicate FileShows(active: Option<string>, store: Services) {
    active.Some? && Rendered(Listed(store)) == Ok(active.value)
  }

  /** The transaction leaves old store and file or planned store and file, and uses no other file on the way. */
  ghost predicate FileFollows(t: Transaction, w: World, next: Services, text: string) {
    && (forall i :: 0 <= i < |t.visited| ==> t.visited[i].disk.active == w.disk.active || t.visited[i].disk.active == Some(text))
    && ((t.world.store == w.store && t.world.disk.active == w.disk.active)
        || (t.world.store == next && t.world.disk.active == Some(text)))
  }

  lemma FollowingShows(t: Transaction, w: World, next: Services, text: string)
    requires FileFollows(t, w, next, text) && FileShows(w.disk.active, w.store) && FileShows(Some(text), next)
    ensures FileShows(t.world.disk.active, t.world.store)
    ensures forall i :: 0 <= i < |t.visited| ==>
              FileShows(t.visited[i].disk.active, w.store) || FileShows(t.visited[i].disk.active, next)
  {
    forall i | 0 <= i < |t.visited|
      ensures FileShows(t.visited[i].disk.active, w.store) || FileShows(t.visited[i].disk.active, next)
    {
      OneOfShows(w.disk.active, w.store, Some(text), next, t.visited[i].disk.active);
    }
  }

  lemma OneOfShows(was: Option<string>, store: Services, planned: Option<string>, next: Services, active: Option<string>)
    requires FileShows(was, store) && FileShows(planned, next) && (active == was || active == planned)
    ensures FileShows(active, store) || FileShows(active, next)
  {}

  lemma ReconcileFollows(mode: Mode, w: World, next: Services, s: Schedule) returns (text: string)
    requires !mode.Noop? && StoreOk(next)
    requires var t := Reconcile(mode, w, PlanFor(next), s); t.error.Some? ==> !t.error.value.PostRename()
    ensures FileShows(Some(text), next) && FileFollows(Reconcile(mode, w, PlanFor(next), s), w, next, text)
  {
    StoreText(next);
    DesiredOk(next);
    text := Rendered(Listed(next)).value;
    TransactionKeepsFile(mode, w, PlanFor(next), s);
  }

  /** Without a post-rename failure the file goes from the rendering of the old store to that of the planned
      one, and in the end it is the rendering of the store. */
  lemma OperationKeepsFile(mode: Mode, w: World, op: Op)
    requires !mode.Noop? && StoreOk(w.store) && FileShows(w.disk.active, w.store)
    requires var t := Transact(mode, w, op); t.error.Some? ==> !t.error.value.PostRename()
    ensures var t := Transact(mode, w, op);
            && FileShows(t.world.disk.active, t.world.store)
            && forall i :: 0 <= i < |t.visited| ==>
                 FileShows(t.visited[i].disk.active, w.store)
                 || (NextStore(w, op).Some? && FileShows(t.visited[i].disk.active, NextStore(w, op).value))
  {
    TransactIs(mode, w, op);
    if NextStore(w, op).Some? {
      NextStoreOk(w, op);
      var text := ReconcileFollows(mode, w, NextStore(w, op).value, op.sched);
      FollowingShows(Transact(mode, w, op), w, NextStore(w, op).value, text);
    }
  }

  lemma {:induction false} FilesKept(mode: Mode, w: World, ops: seq<Op>)
    requires !mode.Noop? && StoreOk(w.store) && FileShows(w.disk.active, w.store) && NoPostRename(mode, w, ops)
    ensures FileShows(Reached(mode, w, ops).disk.active, Reached(mode, w, ops).store)
    decreases |ops|
  {
    if ops != [] {
      OperationKeepsFile(mode, w, ops[0]);
      OperationStoreOk(mode, w, ops[0]);
      FilesKept(mode, Transact(mode, w, ops[0]).world, ops[1..]);
    }
  }

  lemma EmptyFile()
    ensures Rendered(Listed(map[])) == Ok(EMPTY_CONFIG)
  {
    RenderedStore(map[]);
  }

  /** After every run of a bootstrapped engine without post-rename failures, whatever else failed, the file is
      the rendering of the store. */
  lemma FileIsRendering(mode: Mode, w: World, ops: seq<Op>)
    requires !mode.Noop? && Bootstrapped(w) && NoPostRename(mode, w, ops)
    ensures FileShows(Reached(mode, w, ops).disk.active, Reached(mode, w, ops).store)
  {
    EmptyStore();
    EmptyFile();
    FilesKept(mode, w, ops);
  }

  // ---------------------------------------------------------------- self-healing

  /** The managed addresses are those of the stored Services and the file is the rendering of the store. */
  ghost predicate Healed(mode: Mode, w: World)
    requires !mode.Noop?
  {
    Managed(mode.bits, w.nic) == DesiredSet(Listed(w.store)) && FileShows(w.disk.active, w.store)
  }

  /** Self-healing: when Ensure, or Delete of a stored Service, reports no error, the managed addresses
      are exactly those of the stored Services and the file is the rendering of the store, whatever the
      state before. */
  lemma SuccessHeals(mode: Mode, w: World, op: Op)
    requires !mode.Noop? && StoreOk(w.store)
    requires Transact(mode, w, op).error.None? && (op.DeleteOp? ==> op.ref in w.store)
    ensures NextStore(w, op) == Some(Transact(mode, w, op).world.store) && Healed(mode, Transact(mode, w, op).world)
  {
    TransactIs(mode, w, op);
    var next := NextStore(w, op).value;
    NextStoreOk(w, op);
    StoreText(next);
    DesiredOk(next);
    TransactionHeals(mode, w, PlanFor(next), DesiredSet(Listed(next)), op.sched);
  }

  /** The same over runs: after any operations with any failures, one success repairs everything. */
  lemma SuccessHealsAnyRun(mode: Mode, w: World, ops: seq<Op>, op: Op)
    requires !mode.Noop? && w.store == map[]
    requires var v := Reached(mode, w, ops);
             Transact(mode, v, op).error.None? && (op.DeleteOp? ==> op.ref in v.store)
    ensures Healed(mode, Transact(mode, Reached(mode, w, ops), op).world)
  {
    StoresAlwaysOk(mode, w, ops);
    SuccessHeals(mode, Reached(mode, w, ops), op);
  }

  // ---------------------------------------------------------------- what is routed

  lemma {:induction false} PortInTable(s: Service, ports: seq<ServicePort>, p: ServicePort)
    requires ValidService(s) && (forall q :: q in ports ==> ValidPort(q)) && p in ports
    ensures FrontendOf(s, p) in PortsTable(s, ports)
  {
    if p != ports[0] { PortInTable(s, ports[1..], p); }
  }

  lemma {:induction false} ServiceInTable(list: seq<Service>, s: Service, p: ServicePort)
    requires AllValid(list) && s in list && p in s.ports
    ensures FrontendOf(s, p) in Table(list)
  {
    assert list[0] in list;
    if s == list[0] {
      PortInTable(s, s.ports, p);
    } else {
      ServiceInTable(list[1..], s, p);
    }
  }

  /** The file routes the port: the frontend it describes binds the Service's address and leads to the
      port's backends. */
  ghost predicate Routes(active: Option<string>, s: Service, p: ServicePort)
    requires ValidService(s) && ValidPort(p)
  {
    active.Some? && ParseConfig(active.value).Some? && FrontendOf(s, p) in ParseConfig(active.value).value
  }

  /** A file that is the rendering of a store routes every port of every Service in it. */
  lemma StoredIsRouted(active: Option<string>, m: Services, r: ServiceRef, p: ServicePort)
    requires StoreOk(m) && FileShows(active, m) && r in m && p in m[r].ports
    ensures Routes(active, m[r], p)
  {
    StoreReads(m);
    ListedHolds(m, r);
    ServiceInTable(Listed(m), m[r], p);
  }

  /** ... so its address is bound. */
  lemma RoutedIsBound(active: Option<string>, s: Service, p: ServicePort)
    requires ValidService(s) && ValidPort(p) && Routes(active, s, p)
    ensures Parse(s.externalIP).value in Bound(active)
  {
    assert FrontendOf(s, p).bind.addr == Parse(s.externalIP).value;
  }
}
