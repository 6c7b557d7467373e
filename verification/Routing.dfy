/** Controller and engine together: what is published is routed by the config file. */
module Routing {
  import opened Text
  import opened IPv4
  import opened Sorting
  import opened Model
  import opened Normalize
  import opened DesiredStore
  import opened Render
  import opened Apply
  import opened IPAttach
  import opened ExternalIPs
  import opened ConfigParser
  import opened Engine
  import opened EngineSafety
  import opened EngineRuns
  import opened Cluster
  import opened Discovery
  import opened EndToEnd
  import Controller
  import Safety = ControllerSafety

  // ---------------------------------------------------------------- Services have ports

  /** The API server admits no such Service without a port. */
  predicate AllHavePorts(o: Objects) {
    forall r :: r in o ==> o[r].ports != []
  }

  ghost predicate EntriesHavePorts(p: Services) {
    forall r :: r in p ==> p[r].ports != []
  }

  /** What the worker remembers has ports too. */
  predicate WorkerHasPorts(w: Controller.Worker) {
    match w
    case AddFinalizer(svc) => svc.ports != []
    case ListServices(svc) => svc.ports != []
    case ListSlices(svc, _) => svc.ports != []
    case EnsureProvider(_, _, service) => service.ports != []
    case _ => true
  }

  ghost predicate PortsInv(s: Controller.Sys) {
    AllHavePorts(s.objects) && EntriesHavePorts(s.provider) && WorkerHasPorts(s.worker)
  }

  lemma StepKeepsObjectPorts(c: Config, s: Controller.Sys, f: Controller.Fault)
    requires AllHavePorts(s.objects)
    ensures AllHavePorts(Controller.Step(c, s, f).objects)
  {
    match s.worker
    case AddFinalizer(svc) => WritesKeepPorts(s.objects, svc, []);
    case WriteStatus(svc, ip) => WritesKeepPorts(s.objects, svc, [Format(ip)]);
    case ClearStatus(svc) => WritesKeepPorts(s.objects, svc, []);
    case RemoveFinalizer(svc) => WritesKeepPorts(s.objects, svc, []);
    case _ =>
  }

  lemma WritesKeepPorts(o: Objects, svc: Svc, ingress: seq<string>)
    requires AllHavePorts(o)
    ensures AllHavePorts(Controller.WithFinalizer(o, svc)) && AllHavePorts(Controller.WithoutFinalizer(o, svc))
    ensures AllHavePorts(Controller.WithIngress(o, svc.ref, ingress))
  {}

  lemma StepKeepsEntryPorts(c: Config, s: Controller.Sys, f: Controller.Fault)
    requires EntriesHavePorts(s.provider) && WorkerHasPorts(s.worker)
    ensures EntriesHavePorts(Controller.Step(c, s, f).provider)
  {}

  lemma StepKeepsWorkerPorts(c: Config, s: Controller.Sys, f: Controller.Fault)
    requires AllHavePorts(s.objects) && WorkerHasPorts(s.worker)
    ensures WorkerHasPorts(Controller.Step(c, s, f).worker)
  {}

  lemma StepKeepsPorts(c: Config, s: Controller.Sys, f: Controller.Fault)
    requires PortsInv(s)
    ensures PortsInv(Controller.Step(c, s, f))
  {
    StepKeepsObjectPorts(c, s, f);
    StepKeepsEntryPorts(c, s, f);
    StepKeepsWorkerPorts(c, s, f);
  }

  lemma ControlKeepsPorts(c: Config, s: Controller.Sys, move: Controller.Move)
    requires PortsInv(s) && (move.Environment? ==> AllHavePorts(move.objects))
    ensures PortsInv(Controller.After(c, s, move))
  {
    if move.Work? { StepKeepsPorts(c, s, move.fault); }
  }

  // ---------------------------------------------------------------- what is routed

  /** The file has a frontend on address `a` for every port of the entry under `r`, and there is one. */
  ghost predicate RoutedTo(active: Option<string>, store: Services, r: ServiceRef, a: Addr) {
    && r in store && ValidService(store[r]) && store[r].externalIP == Format(a) && store[r].ports != []
    && forall p :: p in store[r].ports ==> ValidPort(p) && Routes(active, store[r], p)
  }

  /** Every pool address that an owner publishes leads, through the file, to the backends of that owner. */
  ghost predicate PublishedRouted(c: Config, o: Objects, store: Services, active: Option<string>) {
    forall r, a :: Safety.Publishes(c, o, r, a) ==> RoutedTo(active, store, r, a)
  }

  lemma EntryIsRouted(p: Services, store: Services, active: Option<string>, r: ServiceRef, a: Addr)
    requires Safety.EntryHas(p, r, a) && EntriesHavePorts(p) && Mirrors(p, store)
    requires StoreOk(store) && FileShows(active, store)
    ensures RoutedTo(active, store, r, a)
  {
    assert store[r] == Normalized(p[r]);
    SomePort(p[r]);
    forall q | q in store[r].ports ensures ValidPort(q) && Routes(active, store[r], q) {
      StoredIsRouted(active, store, r, q);
    }
  }

  lemma ProvisionedIsRouted(c: Config, o: Objects, p: Services, store: Services, active: Option<string>)
    requires Safety.Provisioned(c, o, p) && EntriesHavePorts(p) && Mirrors(p, store)
    requires StoreOk(store) && FileShows(active, store)
    ensures PublishedRouted(c, o, store, active)
  {
    forall r, a | Safety.Publishes(c, o, r, a) ensures RoutedTo(active, store, r, a) {
      EntryIsRouted(p, store, active, r, a);
    }
  }

  lemma RoutedToIsBound(active: Option<string>, store: Services, r: ServiceRef, a: Addr)
    requires RoutedTo(active, store, r, a)
    ensures a in Bound(active)
  {
    ParseFormat(a);
    RoutedIsBound(active, store[r], store[r].ports[0]);
  }

  lemma PublishedIsBound(c: Config, o: Objects, p: Services, store: Services, active: Option<string>)
    requires Safety.Provisioned(c, o, p) && EntriesHavePorts(p) && Mirrors(p, store)
    requires StoreOk(store) && FileShows(active, store)
    ensures forall r, a :: Safety.Publishes(c, o, r, a) ==> a in Bound(active)
  {
    forall r, a | Safety.Publishes(c, o, r, a) ensures a in Bound(active) {
      EntryIsRouted(p, store, active, r, a);
      RoutedToIsBound(active, store, r, a);
    }
  }

  // ---------------------------------------------------------------- runs

  ghost predicate RouteInv(c: Config, mode: Mode, x: Whole)
    requires !mode.Noop?
  {
    Inv(c, mode, x) && PortsInv(x.sys) && FileShows(x.world.disk.active, x.world.store)
  }

  /** No provider call of the run fails past the rename, and the cluster holds no Service without a port. */
  ghost predicate Undisturbed(c: Config, mode: Mode, x: Whole, moves: seq<WholeMove>) {
    moves == [] ||
    (var n := |moves| - 1; var y := RunOf(c, mode, x, moves[..n]);
     && Undisturbed(c, mode, x, moves[..n])
     && (moves[n].Control? && moves[n].move.Environment? ==> AllHavePorts(moves[n].move.objects))
     && (moves[n].ProviderCall? && CallsProvider(y.sys.worker) ==> NotPastRename(mode, y, moves[n].sched)))
  }

  ghost predicate NotPastRename(mode: Mode, x: Whole, s: Schedule)
    requires CallsProvider(x.sys.worker)
  {
    var e := Transact(mode, x.world, OperationOf(x.sys.worker, s)).error;
    e.Some? ==> !e.value.PostRename()
  }

  lemma ControlKeepsRoutes(c: Config, mode: Mode, x: Whole, move: Controller.Move)
    requires !mode.Noop? && RouteInv(c, mode, x) && !(move.Work? && CallsProvider(x.sys.worker))
    requires move.Environment? ==> Controller.StatusHeld(c, x.sys.objects, move.objects) && AllHavePorts(move.objects)
    ensures RouteInv(c, mode, EndToEnd.After(c, mode, x, Control(move)))
  {
    ControlKeeps(c, mode, x, move);
    ControlKeepsPorts(c, x.sys, move);
  }

  lemma CallKeepsRoutes(c: Config, mode: Mode, x: Whole, s: Schedule)
    requires !mode.Noop? && RouteInv(c, mode, x) && CallsProvider(x.sys.worker) && NotPastRename(mode, x, s)
    ensures RouteInv(c, mode, EndToEnd.After(c, mode, x, ProviderCall(s)))
  {
    var op := OperationOf(x.sys.worker, s);
    ProviderCallKeeps(c, mode, x, s);
    StepKeepsPorts(c, x.sys, FaultOf(Transact(mode, x.world, op)));
    OperationKeepsFile(mode, x.world, op);
  }

  /** Nothing published or provisioned yet, and the engine freshly bootstrapped. */
  ghost predicate RoutedStart(c: Config, x: Whole) {
    Initial(c, x) && AllHavePorts(x.sys.objects) && Bootstrapped(x.world)
  }

  lemma {:induction false} RunKeepsRoutes(c: Config, mode: Mode, x: Whole, moves: seq<WholeMove>)
    requires !mode.Noop? && RoutedStart(c, x) && EndToEnd.Respects(c, mode, x, moves) && Undisturbed(c, mode, x, moves)
    ensures RouteInv(c, mode, RunOf(c, mode, x, moves))
  {
    if moves == [] {
      InitialInv(c, mode, x);
      EmptyFile();
    } else {
      var n := |moves| - 1;
      RunKeepsRoutes(c, mode, x, moves[..n]);
      var y, m := RunOf(c, mode, x, moves[..n]), moves[n];
      if m.Control? {
        if !(m.move.Work? && CallsProvider(y.sys.worker)) { ControlKeepsRoutes(c, mode, y, m.move); }
      } else if CallsProvider(y.sys.worker) {
        CallKeepsRoutes(c, mode, y, m.sched);
      }
    }
  }

  /** In every run of controller and engine without post-rename failures, whatever else fails on either side:
      every published pool address of an owner is bound by the config file, with a frontend for each port of
      that owner's entry that leads to exactly its backends. */
  lemma PublishedIsRouted(c: Config, mode: Mode, x: Whole, moves: seq<WholeMove>)
    requires !mode.Noop? && RoutedStart(c, x) && EndToEnd.Respects(c, mode, x, moves) && Undisturbed(c, mode, x, moves)
    ensures var y := RunOf(c, mode, x, moves);
            && PublishedRouted(c, y.sys.objects, y.world.store, y.world.disk.active)
            && forall r, a :: Safety.Publishes(c, y.sys.objects, r, a) ==> a in Bound(y.world.disk.active)
  {
    RunKeepsRoutes(c, mode, x, moves);
    var y := RunOf(c, mode, x, moves);
    ProvisionedIsRouted(c, y.sys.objects, y.sys.provider, y.world.store, y.world.disk.active);
    PublishedIsBound(c, y.sys.objects, y.sys.provider, y.world.store, y.world.disk.active);
  }

  /** ... also in every world the engine passes through while it carries out a provider call. */
  lemma RoutedDuringCall(c: Config, mode: Mode, x: Whole, moves: seq<WholeMove>, s: Schedule, i: nat)
    requires !mode.Noop? && RoutedStart(c, x) && EndToEnd.Respects(c, mode, x, moves) && Undisturbed(c, mode, x, moves)
    requires var y := RunOf(c, mode, x, moves);
             && CallsProvider(y.sys.worker) && NotPastRename(mode, y, s)
             && i < |Transact(mode, y.world, OperationOf(y.sys.worker, s)).visited|
    ensures var y := RunOf(c, mode, x, moves);
            var v := Transact(mode, y.world, OperationOf(y.sys.worker, s)).visited[i];
            forall r, a :: Safety.Publishes(c, y.sys.objects, r, a) ==> a in Bound(v.disk.active) && Prefix(a, mode.bits) in v.nic
  {
    RunKeepsRoutes(c, mode, x, moves);
    CallStaysRouted(c, mode, RunOf(c, mode, x, moves), s, i);
    AttachedDuringCall(c, mode, x, moves, s);
  }

  lemma CallStaysRouted(c: Config, mode: Mode, x: Whole, s: Schedule, i: nat)
    requires !mode.Noop? && RouteInv(c, mode, x) && CallsProvider(x.sys.worker) && NotPastRename(mode, x, s)
    requires i < |Transact(mode, x.world, OperationOf(x.sys.worker, s)).visited|
    ensures var v := Transact(mode, x.world, OperationOf(x.sys.worker, s)).visited[i];
            forall r, a :: Safety.Publishes(c, x.sys.objects, r, a) ==> a in Bound(v.disk.active)
  {
    var op := OperationOf(x.sys.worker, s);
    var active := Transact(mode, x.world, op).visited[i].disk.active;
    OperationKeepsFile(mode, x.world, op);
    if FileShows(active, x.world.store) {
      PublishedIsBound(c, x.sys.objects, x.sys.provider, x.world.store, active);
    } else {
      var next := NextStore(x.world, op).value;
      TargetMirrors(x, s);
      TargetProvisioned(c, x.sys);
      TargetHasPorts(x.sys);
      NextStoreOk(x.world, op);
      PublishedIsBound(c, x.sys.objects, EndToEnd.Target(x.sys.provider, x.sys.worker), next, active);
    }
  }

  lemma TargetHasPorts(s: Controller.Sys)
    requires PortsInv(s) && CallsProvider(s.worker)
    ensures EntriesHavePorts(EndToEnd.Target(s.provider, s.worker))
  {}
}
