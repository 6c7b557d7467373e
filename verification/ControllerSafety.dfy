/** What holds in every reachable state of the controller. */
module ControllerSafety {
  import opened Text
  import opened IPv4
  import opened Model
  import opened Cluster
  import opened Status
  import opened Allocator
  import opened Discovery
  import opened Controller

  // ---------------------------------------------------------------- no orphaned provider state

  ghost predicate Pinned(s: Sys, ref: ServiceRef) { ref in s.objects && s.objects[ref].finalizer }

  /** Every provider entry belongs to an existing Service that still has the finalizer. */
  ghost predicate NoOrphan(s: Sys) {
    forall r :: r in s.provider ==> Pinned(s, r)
  }

  /** What the worker may rely on: about to fill the provider it holds the finalizer, about to drop the
      finalizer it has emptied the provider. */
  ghost predicate WorkerPinned(s: Sys) {
    match s.worker
    case Refetch(ref) => Pinned(s, ref)
    case ListServices(svc) => Pinned(s, svc.ref)
    case ListSlices(svc, _) => Pinned(s, svc.ref)
    case EnsureProvider(svc, _, _) => Pinned(s, svc.ref)
    case ClearStatus(svc) => svc.ref !in s.provider
    case RefetchUnmanaged(ref) => ref !in s.provider
    case RemoveFinalizer(svc) => svc.ref !in s.provider
    case _ => true
  }

  ghost predicate OrphanInv(s: Sys) { Keyed(s.objects) && NoOrphan(s) && WorkerPinned(s) }

  lemma StepKeepsNoOrphan(c: Config, s: Sys, f: Fault)
    requires OrphanInv(s)
    ensures Keyed(Step(c, s, f).objects) && NoOrphan(Step(c, s, f))
  {
    var t := Step(c, s, f);
    forall r | r in t.provider ensures Pinned(t, r) {
      assert r in s.provider || (s.worker.EnsureProvider? && r == s.worker.svc.ref);
      assert Pinned(s, r);
    }
  }

  lemma StepKeepsWorkerPinned(c: Config, s: Sys, f: Fault)
    requires OrphanInv(s)
    ensures WorkerPinned(Step(c, s, f))
  {
    match s.worker
    case Fetch(ref) => assert ref in s.objects ==> s.objects[ref].ref == ref;
    case Refetch(ref) => assert s.objects[ref].ref == ref;
    case RefetchUnmanaged(ref) => assert ref in s.objects ==> s.objects[ref].ref == ref;
    case _ =>
  }

  lemma StepKeepsOrphanInv(c: Config, s: Sys, f: Fault)
    requires OrphanInv(s)
    ensures OrphanInv(Step(c, s, f))
  {
    StepKeepsNoOrphan(c, s, f);
    StepKeepsWorkerPinned(c, s, f);
  }

  lemma MoveKeepsOrphanInv(c: Config, s: Sys, m: Move)
    requires OrphanInv(s) && (m.Environment? ==> FinalizersHeld(s.objects, m.objects))
    ensures OrphanInv(After(c, s, m))
  {
    if m.Work? { StepKeepsOrphanInv(c, s, m.fault); }
  }

  /** In every reachable state, whatever fails and whatever happens between calls. */
  lemma {:induction false} NeverOrphaned(c: Config, s: Sys, moves: seq<Move>)
    requires Keyed(s.objects) && s.provider == map[] && s.worker.Idle?
    requires Respects(c, s, moves, FinalizersHeld)
    ensures OrphanInv(RunOf(c, s, moves))
  {
    if moves != [] {
      var n := |moves| - 1;
      NeverOrphaned(c, s, moves[..n]);
      MoveKeepsOrphanInv(c, RunOf(c, s, moves[..n]), moves[n]);
    }
  }

  // ---------------------------------------------------------------- unique and provisioned addresses

  /** `ref` is an owner and publishes the pool address `a`. */
  predicate Publishes(c: Config, o: Objects, ref: ServiceRef, a: Addr) {
    ref in o && Owner(c, o[ref]) && a in Published(c.pool, o[ref].ingress)
  }

  /** No two owners publish the same pool address. */
  ghost predicate Unique(c: Config, o: Objects) {
    forall r, q, a :: Publishes(c, o, r, a) && Publishes(c, o, q, a) ==> r == q
  }

  /** An owner that publishes a pool address publishes just that, in canonical form. */
  ghost predicate OneEach(c: Config, o: Objects) {
    forall r, a :: Publishes(c, o, r, a) ==> o[r].ingress == [Format(a)]
  }

  ghost predicate EntryHas(p: map<ServiceRef, Service>, r: ServiceRef, a: Addr) {
    r in p && p[r].externalIP == Format(a)
  }

  /** Whatever an owner publishes, its provider entry has that address. */
  ghost predicate Provisioned(c: Config, o: Objects, p: map<ServiceRef, Service>) {
    forall r, a :: Publishes(c, o, r, a) ==> EntryHas(p, r, a)
  }

  ghost predicate Sound(c: Config, o: Objects, p: map<ServiceRef, Service>) {
    Keyed(o) && Unique(c, o) && OneEach(c, o) && Provisioned(c, o, p)
  }

  /** The snapshot's status is current, unless the object was replaced by a new one. */
  ghost predicate Snapshot(o: Objects, svc: Svc) {
    svc.ref in o ==> o[svc.ref].ingress == svc.ingress || o[svc.ref].ingress == []
  }

  /** The address chosen for `ref`: no other owner publishes it, and `ref` publishes no other. */
  ghost predicate Chosen(c: Config, o: Objects, ref: ServiceRef, ip: Addr) {
    && ip in c.pool
    && (forall q :: Publishes(c, o, q, ip) ==> q == ref)
    && (forall a :: Publishes(c, o, ref, a) ==> a == ip)
  }

  ghost predicate Silent(c: Config, o: Objects, ref: ServiceRef) {
    forall a :: !Publishes(c, o, ref, a)
  }

  /** What the worker may rely on. */
  ghost predicate WorkerSound(c: Config, o: Objects, p: map<ServiceRef, Service>, w: Worker) {
    match w
    case AddFinalizer(svc) => Snapshot(o, svc)
    case ListServices(svc) => Snapshot(o, svc)
    case ListSlices(svc, ip) => Chosen(c, o, svc.ref, ip)
    case EnsureProvider(svc, ip, service) => Chosen(c, o, svc.ref, ip) && service.externalIP == Format(ip)
    case WriteStatus(svc, ip) => Chosen(c, o, svc.ref, ip) && EntryHas(p, svc.ref, ip)
    case DeleteForDeletion(svc) => Silent(c, o, svc.ref)
    case DeleteForUnmanaged(svc) => Silent(c, o, svc.ref)
    case ClearStatus(svc) => Silent(c, o, svc.ref)
    case _ => true
  }

  ghost predicate AddressInv(c: Config, s: Sys) {
    Sound(c, s.objects, s.provider) && WorkerSound(c, s.objects, s.provider, s.worker)
  }

  lemma UsedElsewhereMember(c: Config, o: Objects, ref: ServiceRef, a: Addr)
    ensures a in UsedElsewhere(c, o, ref) <==> exists q :: q != ref && Publishes(c, o, q, a)
  {
    if a in UsedElsewhere(c, o, ref) {
      var q :| q in o && q != ref && Owner(c, o[q]) && a in Published(c.pool, o[q].ingress);
      assert Publishes(c, o, q, a);
    }
  }

  /** Allocation picks an address nobody else publishes, and the one already published if there is one. */
  lemma AllocationIsChosen(c: Config, o: Objects, svc: Svc)
    requires Unique(c, o) && OneEach(c, o) && Snapshot(o, svc)
    requires Choose(c.pool, UsedElsewhere(c, o, svc.ref), svc.ingress).Allocated?
    ensures Chosen(c, o, svc.ref, Choose(c.pool, UsedElsewhere(c, o, svc.ref), svc.ingress).ip)
  {
    var used := UsedElsewhere(c, o, svc.ref);
    var ip := Choose(c.pool, used, svc.ingress).ip;
    ChooseIsSafe(c.pool, used, svc.ingress);
    UsedElsewhereMember(c, o, svc.ref, ip);
    forall a | Publishes(c, o, svc.ref, a) ensures a == ip {
      assert o[svc.ref].ingress == [Format(a)];
      assert svc.ingress == [Format(a)];
      ParseFormat(a);
      assert Assigned(svc.ingress) == Some(a);
      PublishedMember(c.pool, svc.ingress, a);
      UsedElsewhereMember(c, o, svc.ref, a);
      assert a !in used;
    }
  }

  // ---------------------------------------------------------------- steps that publish nothing new

  /** `p` publishes no address that `o` does not, and what it publishes it publishes as `o` does. */
  ghost predicate Fewer(c: Config, o: Objects, p: Objects) {
    Keyed(p) && forall r, a :: Publishes(c, p, r, a) ==> Publishes(c, o, r, a) && p[r].ingress == o[r].ingress
  }

  lemma FewerSound(c: Config, o: Objects, p: Objects, entries: map<ServiceRef, Service>)
    requires Sound(c, o, entries) && Fewer(c, o, p)
    ensures Sound(c, p, entries)
  {}

  lemma FinalizerFewer(c: Config, o: Objects, svc: Svc, p: Objects)
    requires Keyed(o) && (p == WithFinalizer(o, svc) || p == WithoutFinalizer(o, svc))
    ensures Fewer(c, o, p)
  {}

  lemma ClearFewer(c: Config, o: Objects, ref: ServiceRef)
    requires Keyed(o)
    ensures Fewer(c, o, WithIngress(o, ref, []))
  {}

  /** The environment takes published addresses away from owners but never gives one. */
  lemma EnvironmentFewer(c: Config, o: Objects, p: Objects)
    requires StatusHeld(c, o, p)
    ensures Fewer(c, o, p)
  {}

  // ---------------------------------------------------------------- steps

  /** Writing the chosen address keeps addresses unique and provisioned. */
  lemma WriteSound(c: Config, o: Objects, p: map<ServiceRef, Service>, ref: ServiceRef, ip: Addr)
    requires Sound(c, o, p) && Chosen(c, o, ref, ip) && EntryHas(p, ref, ip)
    ensures Sound(c, WithIngress(o, ref, [Format(ip)]), p)
  {
    var o' := WithIngress(o, ref, [Format(ip)]);
    PublishedOne(c.pool, ip);
    forall r, a | Publishes(c, o', r, a)
      ensures (r == ref && a == ip && o'[r].ingress == [Format(a)])
              || (r != ref && Publishes(c, o, r, a) && o'[r] == o[r])
    {}
  }

  lemma ProviderSound(c: Config, o: Objects, p: map<ServiceRef, Service>, ref: ServiceRef, ip: Addr, service: Service)
    requires Sound(c, o, p) && Chosen(c, o, ref, ip) && service.externalIP == Format(ip)
    ensures Sound(c, o, p[ref := service])
  {}

  lemma RemovalSound(c: Config, o: Objects, p: map<ServiceRef, Service>, ref: ServiceRef)
    requires Sound(c, o, p) && Silent(c, o, ref)
    ensures Sound(c, o, p - {ref})
  {}

  lemma FetchSound(c: Config, o: Objects, p: map<ServiceRef, Service>, ref: ServiceRef)
    requires Keyed(o) && ref in o
    ensures WorkerSound(c, o, p, AfterFetch(c, o[ref]))
  {}

  lemma ReadStepKeeps(c: Config, s: Sys, f: Fault)
    requires AddressInv(c, s)
    requires s.worker.Fetch? || s.worker.Refetch? || s.worker.ListServices? || s.worker.ListSlices? || s.worker.RefetchUnmanaged?
    ensures AddressInv(c, Step(c, s, f))
  {
    match s.worker
    case Fetch(ref) => if ref in s.objects { FetchSound(c, s.objects, s.provider, ref); }
    case Refetch(ref) => assert ref in s.objects ==> s.objects[ref].ref == ref;
    case ListServices(svc) =>
      if Choose(c.pool, UsedElsewhere(c, s.objects, svc.ref), svc.ingress).Allocated? { AllocationIsChosen(c, s.objects, svc); }
    case ListSlices(svc, ip) =>
    case RefetchUnmanaged(ref) =>
  }

  lemma ProviderStepKeeps(c: Config, s: Sys, f: Fault)
    requires AddressInv(c, s)
    requires s.worker.EnsureProvider? || s.worker.DeleteForDeletion? || s.worker.DeleteForUnmanaged?
    ensures AddressInv(c, Step(c, s, f))
  {
    match s.worker
    case EnsureProvider(svc, ip, service) => ProviderSound(c, s.objects, s.provider, svc.ref, ip, service);
    case DeleteForDeletion(svc) => RemovalSound(c, s.objects, s.provider, svc.ref);
    case DeleteForUnmanaged(svc) => RemovalSound(c, s.objects, s.provider, svc.ref);
  }

  lemma WriteStepKeeps(c: Config, s: Sys, f: Fault)
    requires AddressInv(c, s)
    requires s.worker.AddFinalizer? || s.worker.WriteStatus? || s.worker.ClearStatus? || s.worker.RemoveFinalizer?
    ensures AddressInv(c, Step(c, s, f))
  {
    match s.worker
    case AddFinalizer(svc) =>
      FinalizerFewer(c, s.objects, svc, WithFinalizer(s.objects, svc));
      FewerSound(c, s.objects, WithFinalizer(s.objects, svc), s.provider);
    case WriteStatus(svc, ip) => WriteSound(c, s.objects, s.provider, svc.ref, ip);
    case ClearStatus(svc) =>
      ClearFewer(c, s.objects, svc.ref);
      FewerSound(c, s.objects, WithIngress(s.objects, svc.ref, []), s.provider);
    case RemoveFinalizer(svc) =>
      FinalizerFewer(c, s.objects, svc, WithoutFinalizer(s.objects, svc));
      FewerSound(c, s.objects, WithoutFinalizer(s.objects, svc), s.provider);
  }

  lemma StepKeepsAddressInv(c: Config, s: Sys, f: Fault)
    requires AddressInv(c, s)
    ensures AddressInv(c, Step(c, s, f))
  {
    match s.worker
    case Idle =>
    case Fetch(_) => ReadStepKeeps(c, s, f);
    case Refetch(_) => ReadStepKeeps(c, s, f);
    case ListServices(_) => ReadStepKeeps(c, s, f);
    case ListSlices(_, _) => ReadStepKeeps(c, s, f);
    case RefetchUnmanaged(_) => ReadStepKeeps(c, s, f);
    case EnsureProvider(_, _, _) => ProviderStepKeeps(c, s, f);
    case DeleteForDeletion(_) => ProviderStepKeeps(c, s, f);
    case DeleteForUnmanaged(_) => ProviderStepKeeps(c, s, f);
    case AddFinalizer(_) => WriteStepKeeps(c, s, f);
    case WriteStatus(_, _) => WriteStepKeeps(c, s, f);
    case ClearStatus(_) => WriteStepKeeps(c, s, f);
    case RemoveFinalizer(_) => WriteStepKeeps(c, s, f);
  }

  lemma EnvironmentKeepsWorker(c: Config, o: Objects, q: Objects, p: map<ServiceRef, Service>, w: Worker)
    requires StatusHeld(c, o, q) && Fewer(c, o, q) && WorkerSound(c, o, p, w)
    ensures WorkerSound(c, q, p, w)
  {}

  lemma MoveKeepsAddressInv(c: Config, s: Sys, m: Move)
    requires AddressInv(c, s) && (m.Environment? ==> StatusHeld(c, s.objects, m.objects))
    ensures AddressInv(c, After(c, s, m))
  {
    match m
    case Work(f) => StepKeepsAddressInv(c, s, f);
    case Start(_) =>
    case Environment(o, _) =>
      EnvironmentFewer(c, s.objects, o);
      FewerSound(c, s.objects, o, s.provider);
      EnvironmentKeepsWorker(c, s.objects, o, s.provider, s.worker);
    case Crash =>
  }

  // ---------------------------------------------------------------- whole runs

  /** A start in which no owner publishes a pool address yet. */
  ghost predicate NothingPublished(c: Config, s: Sys) {
    Keyed(s.objects) && s.worker.Idle? && forall r, a :: !Publishes(c, s.objects, r, a)
  }

  lemma {:induction false} RunKeepsAddressInv(c: Config, s: Sys, moves: seq<Move>, env: (Objects, Objects) -> bool)
    requires AddressInv(c, s) && Respects(c, s, moves, env) && forall o, p :: env(o, p) ==> StatusHeld(c, o, p)
    ensures AddressInv(c, RunOf(c, s, moves))
  {
    if moves != [] {
      var n := |moves| - 1;
      RunKeepsAddressInv(c, s, moves[..n], env);
      MoveKeepsAddressInv(c, RunOf(c, s, moves[..n]), moves[n]);
    }
  }

  /** In every reachable state owners publish pairwise different pool addresses, one each, and each
      published address is provisioned, whatever fails and whatever happens between calls. */
  lemma AddressesAlwaysSound(c: Config, s: Sys, moves: seq<Move>)
    requires NothingPublished(c, s) && Respects(c, s, moves, (o, p) => StatusHeld(c, o, p))
    ensures var t := RunOf(c, s, moves);
            Unique(c, t.objects) && OneEach(c, t.objects) && Provisioned(c, t.objects, t.provider)
  {
    RunKeepsAddressInv(c, s, moves, (o, p) => StatusHeld(c, o, p));
  }

  /** No step of the controller changes the address an owner publishes, or its entry's address. */
  lemma PublishedIsStable(c: Config, s: Sys, f: Fault, r: ServiceRef, a: Addr)
    requires AddressInv(c, s) && Publishes(c, s.objects, r, a)
    ensures var t := Step(c, s, f);
            Publishes(c, t.objects, r, a) && t.objects[r].ingress == [Format(a)] && EntryHas(t.provider, r, a)
  {
    var t := Step(c, s, f);
    StepKeepsAddressInv(c, s, f);
    PublishedMember(c.pool, s.objects[r].ingress, a);
    PublishedOne(c.pool, a);
    assert r in t.objects && Owner(c, t.objects[r]) && t.objects[r].ingress == s.objects[r].ingress;
  }

  /** The environment leaves `r` an owner and does not replace it by a new object. */
  predicate KeepsOwner(c: Config, r: ServiceRef, o: Objects, p: Objects) {
    StatusHeld(c, o, p) && (r in o && Owner(c, o[r]) ==> r in p && Owner(c, p[r]) && p[r].ingress == o[r].ingress)
  }

  /** As long as the environment keeps `r` an owner, no run of reconciles of any Services, in any order
      and with any failures, changes the address it publishes. */
  lemma {:induction false} AddressNeverChanges(c: Config, s: Sys, moves: seq<Move>, env: (Objects, Objects) -> bool,
                                               r: ServiceRef, a: Addr)
    requires AddressInv(c, s) && Publishes(c, s.objects, r, a)
    requires Respects(c, s, moves, env) && forall o, p :: env(o, p) ==> KeepsOwner(c, r, o, p)
    ensures AddressInv(c, RunOf(c, s, moves)) && Publishes(c, RunOf(c, s, moves).objects, r, a)
  {
    if moves != [] {
      var n := |moves| - 1;
      AddressNeverChanges(c, s, moves[..n], env, r, a);
      var t := RunOf(c, s, moves[..n]);
      MoveKeepsAddressInv(c, t, moves[n]);
      if moves[n].Work? { PublishedIsStable(c, t, moves[n].fault, r, a); }
    }
  }
}
