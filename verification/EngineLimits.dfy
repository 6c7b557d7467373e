/** What the engine does not repair or protect, exactly, with inputs that show it. */
module EngineLimits {
  import opened Text
  import opened IPv4
  import opened Sorting
  import opened Model
  import opened Normalize
  import opened DesiredStore
  import opened Render
  import opened ConfigParser
  import opened Apply
  import opened IPAttach
  import opened ExternalIPs
  import opened Engine
  import opened EngineSafety
  import opened EngineExact
  import opened EngineRuns
  import opened EngineFrame

  // ---------------------------------------------------------------- Delete

  /** A managed address that no stored Service asks for. */
  ghost predicate Unwanted(mode: Mode, w: World, a: Addr)
    requires !mode.Noop?
  {
    Prefix(a, mode.bits) in w.nic && a !in DesiredSet(Listed(w.store))
  }

  /** A Delete without error has healed the state exactly when it had something to delete or there was
      nothing to heal. */
  lemma DeleteHealsIff(mode: Mode, w: World, ref: ServiceRef, s: Schedule)
    requires !mode.Noop? && StoreOk(w.store) && Succeeds(mode, w, DeleteOp(ref, s))
    ensures Healed(mode, Transact(mode, w, DeleteOp(ref, s)).world) <==> ref in w.store || Healed(mode, w)
  {
    SucceedsIff(mode, w, DeleteOp(ref, s));
    if ref in w.store {
      SuccessHeals(mode, w, DeleteOp(ref, s));
    } else {
      AbsentDelete(mode, w, ref, s);
    }
  }

  /** The Delete gets as far as removing the Service from the store. */
  ghost predicate DeleteCommits(mode: Mode, w: World, ref: ServiceRef, s: Schedule)
    requires !mode.Noop? && StoreOk(w.store) && ref in w.store
  {
    Commits(mode, w, PlanOf(w, DeleteOp(ref, s)), s)
  }

  /** While detaching it gets stuck on an address that stays or that is not the last. */
  ghost predicate DeleteGetsStuck(mode: Mode, w: World, ref: ServiceRef, s: Schedule)
    requires !mode.Noop? && StoreOk(w.store) && ref in w.store
  {
    var stale := Stale(mode, w, PlanOf(w, DeleteOp(ref, s)));
    exists j :: 0 <= j < |stale| && StuckAt(stale, s.detach, j)
  }

  /** A committed Delete leaves an unwanted address attached exactly when it gets stuck. */
  lemma FailedDeleteLeavesStale(mode: Mode, w: World, ref: ServiceRef, s: Schedule)
    requires !mode.Noop? && StoreOk(w.store) && ref in w.store && DeleteCommits(mode, w, ref, s)
    ensures var v := Transact(mode, w, DeleteOp(ref, s)).world;
            && v.store == w.store - {ref}
            && ((exists a :: Unwanted(mode, v, a)) <==> DeleteGetsStuck(mode, w, ref, s))
  {
    var op := DeleteOp(ref, s);
    var p := PlanOf(w, op);
    TransactIs(mode, w, op);
    CommitLeavesIff(mode, w, p, DesiredSet(Listed(p.store)), s);
    UnwantedExists(mode, Transact(mode, w, op).world, DesiredSet(Listed(p.store)));
  }

  lemma UnwantedExists(mode: Mode, v: World, wanted: set<Addr>)
    requires !mode.Noop? && wanted == DesiredSet(Listed(v.store))
    ensures (exists a :: Unwanted(mode, v, a)) <==> (exists a :: Prefix(a, mode.bits) in v.nic && a !in wanted)
  {
    if a :| Prefix(a, mode.bits) in v.nic && a !in wanted { assert Unwanted(mode, v, a); }
  }

  function Deletes(ref: ServiceRef, schedules: seq<Schedule>): (r: seq<Op>)
    ensures |r| == |schedules| && forall i :: 0 <= i < |r| ==> r[i] == DeleteOp(ref, schedules[i])
  {
    seq(|schedules|, i requires 0 <= i < |schedules| => DeleteOp(ref, schedules[i]))
  }

  /** Deleting an absent reference again and again never changes anything. */
  lemma {:induction false} DeletesDoNothing(mode: Mode, w: World, ref: ServiceRef, retries: seq<Schedule>)
    requires ref !in w.store
    ensures Reached(mode, w, Deletes(ref, retries)) == w
    ensures forall v :: v in History(mode, w, Deletes(ref, retries)) ==> v == w
    decreases |retries|
  {
    if retries != [] {
      AbsentDelete(mode, w, ref, retries[0]);
      assert Deletes(ref, retries)[1..] == Deletes(ref, retries[1..]);
      DeletesDoNothing(mode, w, ref, retries[1..]);
    }
  }

  /** After a committed Delete no number of retries, with any faults, repairs anything: an unwanted address is
      left in every later world exactly when the first call got stuck. */
  lemma NoRetryRepairs(mode: Mode, w: World, ref: ServiceRef, s: Schedule, retries: seq<Schedule>, v: World)
    requires !mode.Noop? && StoreOk(w.store) && ref in w.store && DeleteCommits(mode, w, ref, s)
    requires v in History(mode, Transact(mode, w, DeleteOp(ref, s)).world, Deletes(ref, retries))
    ensures (exists a :: Unwanted(mode, v, a)) <==> DeleteGetsStuck(mode, w, ref, s)
  {
    FailedDeleteLeavesStale(mode, w, ref, s);
    DeletesDoNothing(mode, Transact(mode, w, DeleteOp(ref, s)).world, ref, retries);
  }

  // ---------------------------------------------------------------- inputs

  function NoCallFault(a: Addr): CallFaults { CallFaults(false, false, false, false) }

  /** Nothing fails. */
  const QUIET := Schedule(false, NoCallFault, NoCallFault, NO_FAULTS, NoCallFault)

  const ONLY_RELOAD_FAILS := QUIET.(apply := NO_FAULTS.(reload := true))

  const ONLY_DIR_SYNC_FAILS := QUIET.(apply := NO_FAULTS.(dirSync := true))

  /** Detaching `a` fails without effect, and nothing else fails. */
  function DetachFails(a: Addr): Schedule {
    QUIET.(detach := x => if x == a then CallFaults(false, true, false, false) else NoCallFault(x))
  }

  /** Without faults every operation that plans something succeeds. */
  lemma QuietSucceeds(mode: Mode, w: World, op: Op)
    requires !mode.Noop? && StoreOk(w.store) && NextStore(w, op).Some? && op.sched == QUIET
    ensures Transact(mode, w, op).error.None?
  {
    SucceedsIff(mode, w, op);
    QuietCommits(mode, w, PlanOf(w, op), QUIET);
  }

  lemma FirstServicePlan(w: World, service: Service, s: Schedule)
    requires w.store == map[] && ValidService(service)
    ensures StoreOk(w.store) && ValidService(Normalized(service))
    ensures NextStore(w, EnsureOp(service, s)) == Some(map[service.Ref() := Normalized(service)])
  {
    EmptyStore();
    ValidNormalized(service);
  }

  /** The text for one Service with a port binds its address, and is not the empty configuration. */
  lemma FirstServiceText(w: World, service: Service, s: Schedule)
    requires w.store == map[] && ValidService(service) && service.ports != []
    ensures StoreOk(w.store) && NextStore(w, EnsureOp(service, s)).Some?
    ensures var p := PlanOf(w, EnsureOp(service, s));
            Parse(service.externalIP).value in Bound(Some(p.text.value)) && p.text.value != EMPTY_CONFIG
  {
    FirstServicePlan(w, service, s);
    SomePort(service);
    var p := PlanOf(w, EnsureOp(service, s));
    var port := Normalized(service).ports[0];
    StoredIsRouted(Some(p.text.value), p.store, service.Ref(), port);
    RoutedIsBound(Some(p.text.value), Normalized(service), port);
    EmptyConfigReads();
  }

  /** The first Service of a bootstrapped engine, its address not attached yet, and a reload or directory sync
      that fails: the file binds an address that is not attached. */
  lemma FailedReloadUncovers(mode: Mode, w: World, service: Service, s: Schedule)
    requires !mode.Noop? && Bootstrapped(w) && ValidService(service) && service.ports != []
    requires Prefix(Parse(service.externalIP).value, mode.bits) !in w.nic
    requires s == ONLY_RELOAD_FAILS || s == ONLY_DIR_SYNC_FAILS
    ensures !Covered(mode, Transact(mode, w, EnsureOp(service, s)).world)
  {
    var op := EnsureOp(service, s);
    FirstServiceText(w, service, s);
    BootstrappedCovered(mode, w);
    OnlyLateFaults(mode, w, PlanOf(w, op), s);
    UncoversOne(mode, w, op, Parse(service.externalIP).value);
    OperationUncoversIff(mode, w, op);
  }

  lemma BootstrappedCovered(mode: Mode, w: World)
    requires !mode.Noop? && Bootstrapped(w)
    ensures Covered(mode, w)
  {
    EmptyConfigReads();
  }

  lemma UncoversOne(mode: Mode, w: World, op: Op, a: Addr)
    requires !mode.Noop? && StoreOk(w.store) && NextStore(w, op).Some?
    requires FailsPostRename(mode, w, PlanOf(w, op), op.sched) && a in Bound(Some(PlanOf(w, op).text.value))
    requires Prefix(a, mode.bits) !in w.nic && !op.sched.attach(a).op && !Stays(op.sched.rollback(a))
    ensures Uncovers(mode, w, op)
  {}

  /** A stored Service whose address nobody else asks for, and a detach of that address that fails: the address
      stays attached, and retrying the Delete never removes it. */
  lemma StuckDelete(mode: Mode, w: World, ref: ServiceRef, a: Addr, retries: seq<Schedule>, v: World)
    requires !mode.Noop? && StoreOk(w.store) && ref in w.store
    requires Prefix(a, mode.bits) in w.nic && a !in DesiredSet(Listed(w.store - {ref}))
    requires v in History(mode, Transact(mode, w, DeleteOp(ref, DetachFails(a))).world, Deletes(ref, retries))
    ensures ref !in v.store && Unwanted(mode, v, a)
  {
    var s := DetachFails(a);
    var op := DeleteOp(ref, s);
    var p := PlanOf(w, op);
    TransactIs(mode, w, op);
    QuietCommits(mode, w, p, s);
    CommitLeaves(mode, w, p, s, a);
    DeletesDoNothing(mode, Transact(mode, w, op).world, ref, retries);
  }

  /** An address somebody else attached, with the managed prefix length and asked for by no Service: the next
      operation without faults removes it. */
  lemma ForeignAddressRemoved(mode: Mode, w: World, op: Op, a: Addr)
    requires !mode.Noop? && StoreOk(w.store) && NextStore(w, op).Some? && op.sched == QUIET
    requires Prefix(a, mode.bits) in w.nic && a !in DesiredSet(Listed(NextStore(w, op).value))
    ensures Prefix(a, mode.bits) !in Transact(mode, w, op).world.nic
  {
    QuietSucceeds(mode, w, op);
    SuccessHeals(mode, w, op);
    ManagedPrefixKeptIff(mode, w, op, a);
  }

  /** A restarted engine, the address of another Service still attached: ensuring one Service removes it. */
  lemma RestartDetaches(mode: Mode, w: World, service: Service, other: Addr)
    requires !mode.Noop? && w.store == map[] && ValidService(service)
    requires Prefix(other, mode.bits) in w.nic && Parse(service.externalIP) != Some(other)
    ensures Prefix(other, mode.bits) !in Transact(mode, w, EnsureOp(service, QUIET)).world.nic
  {
    var op := EnsureOp(service, QUIET);
    FirstServicePlan(w, service, QUIET);
    QuietSucceeds(mode, w, op);
    RestartForgetsOthers(mode, w, service, QUIET);
    ManagedMember(mode.bits, Transact(mode, w, op).world.nic, other);
  }
}
