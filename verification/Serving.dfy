/** Controller and engine together: the servers in the config file are the endpoints the cluster offers. */
module Serving {
  import opened Text
  import opened IPv4
  import opened Sorting
  import opened Model
  import opened Normalize
  import opened DesiredStore
  import opened Render
  import opened Apply
  import opened IPAttach
  import opened ConfigParser
  import opened Engine
  import opened EngineSafety
  import opened EngineRuns
  import opened Cluster
  import opened Discovery
  import opened EndToEnd
  import opened Routing
  import Controller
  import Safety = ControllerSafety

  // ---------------------------------------------------------------- from an entry to the file

  /** The server leads to the endpoint. */
  predicate LeadsTo(v: Server, b: BackendEndpoint) {
    Parse(b.address) == Some(v.at.addr) && v.at.port == b.port
  }

  /** The servers of the frontend are exactly the endpoints offered for the port. */
  ghost predicate ServersAre(f: Frontend, ref: ServiceRef, p: SpecPort, slices: seq<Slice>) {
    && (forall b :: Offered(ref, p, slices, b) ==> exists v :: v in f.servers && LeadsTo(v, b))
    && (forall v :: v in f.servers ==> exists b :: Offered(ref, p, slices, b) && LeadsTo(v, b))
  }

  /** The file has a frontend for the port on the given address, and its servers are the offered endpoints. */
  ghost predicate Served(active: Option<string>, ref: ServiceRef, p: SpecPort, ip: Addr, slices: seq<Slice>) {
    && active.Some? && ParseConfig(active.value).Some?
    && exists f :: f in ParseConfig(active.value).value
                   && f.bind.addr == ip && f.bind.port == p.port && ServersAre(f, ref, p, slices)
  }

  lemma NormalPort(e: Service, i: nat)
    requires i < |e.ports|
    ensures NormalizePort(e.ports[i]) in Normalized(e).ports
  {
    NormalizedPorts(e);
    assert Map(NormalizePort, e.ports)[i] == NormalizePort(e.ports[i]);
    MultisetMember(Normalized(e).ports, Map(NormalizePort, e.ports));
  }

  lemma ServersOf(s: Service, p: ServicePort, ref: ServiceRef, spec: SpecPort, slices: seq<Slice>)
    requires ValidService(s) && ValidPort(p)
    requires forall b :: b in p.backends <==> Offered(ref, spec, slices, b)
    ensures ServersAre(FrontendOf(s, p), ref, spec, slices)
  {
    var f := FrontendOf(s, p);
    forall b | Offered(ref, spec, slices, b) ensures exists v :: v in f.servers && LeadsTo(v, b) {
      assert b in p.backends;
      var k :| 0 <= k < |p.backends| && p.backends[k] == b;
      assert f.servers[k] == ServerAt(p.backends, k);
      assert f.servers[k] in f.servers && LeadsTo(f.servers[k], b);
    }
    forall v | v in f.servers ensures exists b :: Offered(ref, spec, slices, b) && LeadsTo(v, b) {
      var k :| 0 <= k < |f.servers| && f.servers[k] == v;
      assert v == ServerAt(p.backends, k);
      assert p.backends[k] in p.backends && LeadsTo(v, p.backends[k]);
    }
  }

  /** An entry that serves a Service, once stored and rendered, is served by the file. */
  lemma StoredIsServed(active: Option<string>, store: Services, e: Service, svc: Svc, ip: Addr, slices: seq<Slice>, i: nat)
    requires Controller.Serves(e, svc, ip, slices) && i < |svc.ports|
    requires StoreOk(store) && FileShows(active, store) && svc.ref in store && store[svc.ref] == Normalized(e)
    ensures Served(active, svc.ref, svc.ports[i], ip, slices)
  {
    var s, q := store[svc.ref], NormalizePort(e.ports[i]);
    assert Controller.ServesPort(e, svc, slices, i);
    NormalPort(e, i);
    NormalizePortKeepsBag(e.ports[i]);
    MultisetMember(q.backends, e.ports[i].backends);
    StoredIsRouted(active, store, svc.ref, q);
    ServersOf(s, q, svc.ref, svc.ports[i], slices);
    ParseFormat(ip);
    var f := FrontendOf(s, q);
    assert f.bind.addr == ip && f.bind.port == svc.ports[i].port;
  }

  // ---------------------------------------------------------------- entries stem from what was seen

  /** The entry serves a Service as it was seen with slices as they were seen. */
  ghost predicate EntryKnown(e: Service, r: ServiceRef, sv: Svc -> bool, sl: seq<Slice> -> bool) {
    exists svc, ip, slices :: sv(svc) && sl(slices) && svc.ref == r && Controller.Serves(e, svc, ip, slices)
  }

  ghost predicate WorkerKnown(w: Controller.Worker, sv: Svc -> bool, sl: seq<Slice> -> bool) {
    match w
    case AddFinalizer(svc) => sv(svc)
    case ListServices(svc) => sv(svc)
    case ListSlices(svc, _) => sv(svc)
    case EnsureProvider(svc, _, service) => EntryKnown(service, svc.ref, sv, sl)
    case _ => true
  }

  ghost predicate Known(s: Controller.Sys, sv: Svc -> bool, sl: seq<Slice> -> bool) {
    WorkerKnown(s.worker, sv, sl) && forall r :: r in s.provider ==> EntryKnown(s.provider[r], r, sv, sl)
  }

  lemma StepWorkerKnown(c: Config, s: Controller.Sys, f: Controller.Fault, sv: Svc -> bool, sl: seq<Slice> -> bool)
    requires (forall r :: r in s.objects ==> sv(s.objects[r])) && sl(s.slices) && WorkerKnown(s.worker, sv, sl)
    ensures WorkerKnown(Controller.Step(c, s, f).worker, sv, sl)
  {
    if s.worker.ListSlices? {
      var svc, ip := s.worker.svc, s.worker.ip;
      Controller.DesiredServes(svc, ip, s.slices);
      assert EntryKnown(Controller.DesiredService(svc, ip, s.slices), svc.ref, sv, sl);
    }
  }

  lemma StepElsewhere(c: Config, s: Controller.Sys, f: Controller.Fault)
    requires !CallsProvider(s.worker)
    ensures Controller.Step(c, s, f).provider == s.provider
  {}

  lemma TargetKnown(p: Services, w: Controller.Worker, sv: Svc -> bool, sl: seq<Slice> -> bool)
    requires CallsProvider(w) && WorkerKnown(w, sv, sl) && forall r :: r in p ==> EntryKnown(p[r], r, sv, sl)
    ensures var q := EndToEnd.Target(p, w); forall r :: r in q ==> EntryKnown(q[r], r, sv, sl)
  {}

  lemma StepEntriesKnown(c: Config, s: Controller.Sys, f: Controller.Fault, sv: Svc -> bool, sl: seq<Slice> -> bool)
    requires Known(s, sv, sl)
    ensures var p := Controller.Step(c, s, f).provider; forall r :: r in p ==> EntryKnown(p[r], r, sv, sl)
  {
    if CallsProvider(s.worker) {
      StepProvider(c, s, f);
      TargetKnown(s.provider, s.worker, sv, sl);
    } else {
      StepElsewhere(c, s, f);
    }
  }

  lemma KnownMore(s: Controller.Sys, sv: Svc -> bool, sl: seq<Slice> -> bool, sv': Svc -> bool, sl': seq<Slice> -> bool)
    requires Known(s, sv, sl) && (forall x :: sv(x) ==> sv'(x)) && (forall x :: sl(x) ==> sl'(x))
    ensures Known(s, sv', sl')
  {
    forall e, r | EntryKnown(e, r, sv, sl) ensures EntryKnown(e, r, sv', sl') {
      var svc, ip, slices :| sv(svc) && sl(slices) && svc.ref == r && Controller.Serves(e, svc, ip, slices);
    }
  }

  // ---------------------------------------------------------------- runs

  /** The object was in the cluster at some point of the run. */
  ghost predicate Seen(c: Config, mode: Mode, x: Whole, moves: seq<WholeMove>, svc: Svc) {
    exists k :: 0 <= k <= |moves| && svc in RunOf(c, mode, x, moves[..k]).sys.objects.Values
  }

  /** These were the slices of the cluster at some point of the run. */
  ghost predicate SeenSlices(c: Config, mode: Mode, x: Whole, moves: seq<WholeMove>, slices: seq<Slice>) {
    exists k :: 0 <= k <= |moves| && slices == RunOf(c, mode, x, moves[..k]).sys.slices
  }

  lemma SeenBefore(c: Config, mode: Mode, x: Whole, moves: seq<WholeMove>, n: nat)
    requires n <= |moves|
    ensures forall svc :: Seen(c, mode, x, moves[..n], svc) ==> Seen(c, mode, x, moves, svc)
    ensures forall l :: SeenSlices(c, mode, x, moves[..n], l) ==> SeenSlices(c, mode, x, moves, l)
  {
    assert forall k :: 0 <= k <= n ==> moves[..n][..k] == moves[..k];
    forall svc | Seen(c, mode, x, moves[..n], svc) ensures Seen(c, mode, x, moves, svc) {
      var k :| 0 <= k <= n && svc in RunOf(c, mode, x, moves[..n][..k]).sys.objects.Values;
      assert svc in RunOf(c, mode, x, moves[..k]).sys.objects.Values;
    }
    forall l | SeenSlices(c, mode, x, moves[..n], l) ensures SeenSlices(c, mode, x, moves, l) {
      var k :| 0 <= k <= n && l == RunOf(c, mode, x, moves[..n][..k]).sys.slices;
      assert l == RunOf(c, mode, x, moves[..k]).sys.slices;
    }
  }

  lemma SeenNow(c: Config, mode: Mode, x: Whole, moves: seq<WholeMove>, n: nat)
    requires n <= |moves|
    ensures var y := RunOf(c, mode, x, moves[..n]).sys;
            && (forall r :: r in y.objects ==> Seen(c, mode, x, moves, y.objects[r]))
            && SeenSlices(c, mode, x, moves, y.slices)
  {}

  lemma {:induction false} EntriesStemFromRun(c: Config, mode: Mode, x: Whole, moves: seq<WholeMove>)
    requires x.sys.worker.Idle? && x.sys.provider == map[]
    ensures Known(RunOf(c, mode, x, moves).sys,
                  svc => Seen(c, mode, x, moves, svc), l => SeenSlices(c, mode, x, moves, l))
    decreases |moves|
  {
    if moves != [] {
      var n := |moves| - 1;
      var y, m := RunOf(c, mode, x, moves[..n]), moves[n];
      var sv: Svc -> bool, sl: seq<Slice> -> bool :=
        svc => Seen(c, mode, x, moves, svc), l => SeenSlices(c, mode, x, moves, l);
      EntriesStemFromRun(c, mode, x, moves[..n]);
      SeenBefore(c, mode, x, moves, n);
      SeenNow(c, mode, x, moves, n);
      KnownMore(y.sys, svc => Seen(c, mode, x, moves[..n], svc), l => SeenSlices(c, mode, x, moves[..n], l), sv, sl);
      MoveKnown(c, mode, y, m, sv, sl);
    }
  }

  lemma MoveKnown(c: Config, mode: Mode, y: Whole, m: WholeMove, sv: Svc -> bool, sl: seq<Slice> -> bool)
    requires (forall r :: r in y.sys.objects ==> sv(y.sys.objects[r])) && sl(y.sys.slices) && Known(y.sys, sv, sl)
    ensures Known(EndToEnd.After(c, mode, y, m).sys, sv, sl)
  {
    if m.Control? && m.move.Work? {
      StepWorkerKnown(c, y.sys, m.move.fault, sv, sl);
      StepEntriesKnown(c, y.sys, m.move.fault, sv, sl);
    } else if m.ProviderCall? && CallsProvider(y.sys.worker) {
      var f := FaultOf(Transact(mode, y.world, OperationOf(y.sys.worker, m.sched)));
      StepWorkerKnown(c, y.sys, f, sv, sl);
      StepEntriesKnown(c, y.sys, f, sv, sl);
    }
  }

  /** In every run of controller and engine without post-rename failures, whatever else fails: for every owner
      that publishes a pool address there is a version of the Service and a version of the slices, both from the
      run, such that the file has a frontend on that address for each port of the Service, whose servers are
      exactly the endpoints offered for the port. */
  lemma PublishedIsServed(c: Config, mode: Mode, x: Whole, moves: seq<WholeMove>, r: ServiceRef, a: Addr)
    returns (svc: Svc, slices: seq<Slice>)
    requires !mode.Noop? && RoutedStart(c, x) && EndToEnd.Respects(c, mode, x, moves) && Undisturbed(c, mode, x, moves)
    requires Safety.Publishes(c, RunOf(c, mode, x, moves).sys.objects, r, a)
    ensures svc.ref == r && Seen(c, mode, x, moves, svc) && SeenSlices(c, mode, x, moves, slices)
    ensures forall i :: 0 <= i < |svc.ports| ==>
              Served(RunOf(c, mode, x, moves).world.disk.active, r, svc.ports[i], a, slices)
  {
    var y := RunOf(c, mode, x, moves);
    RunKeepsRoutes(c, mode, x, moves);
    assert Safety.EntryHas(y.sys.provider, r, a);
    var ip;
    svc, ip, slices := EntryStemsFromRun(c, mode, x, moves, r);
    FormatInjective(ip, a);
    EntryIsServed(y.world.disk.active, y.sys.provider, y.world.store, svc, a, slices);
  }

  /** A provider entry serves a version of the Service with a version of the slices, both from the run. */
  lemma EntryStemsFromRun(c: Config, mode: Mode, x: Whole, moves: seq<WholeMove>, r: ServiceRef)
    returns (svc: Svc, ip: Addr, slices: seq<Slice>)
    requires x.sys.worker.Idle? && x.sys.provider == map[] && r in RunOf(c, mode, x, moves).sys.provider
    ensures svc.ref == r && Seen(c, mode, x, moves, svc) && SeenSlices(c, mode, x, moves, slices)
    ensures Controller.Serves(RunOf(c, mode, x, moves).sys.provider[r], svc, ip, slices)
  {
    var e := RunOf(c, mode, x, moves).sys.provider[r];
    EntriesStemFromRun(c, mode, x, moves);
    assert EntryKnown(e, r, svc => Seen(c, mode, x, moves, svc), l => SeenSlices(c, mode, x, moves, l));
    svc, ip, slices :| Seen(c, mode, x, moves, svc) && SeenSlices(c, mode, x, moves, slices) && svc.ref == r
                       && Controller.Serves(e, svc, ip, slices);
  }

  lemma EntryIsServed(active: Option<string>, p: Services, store: Services, svc: Svc, ip: Addr, slices: seq<Slice>)
    requires Mirrors(p, store) && StoreOk(store) && FileShows(active, store)
    requires svc.ref in p && Controller.Serves(p[svc.ref], svc, ip, slices)
    ensures forall i :: 0 <= i < |svc.ports| ==> Served(active, svc.ref, svc.ports[i], ip, slices)
  {
    forall i | 0 <= i < |svc.ports| ensures Served(active, svc.ref, svc.ports[i], ip, slices) {
      StoredIsServed(active, store, p[svc.ref], svc, ip, slices, i);
    }
  }

  /** When the entry is up to date, as after a Reconcile without error, these are the current ones. */
  lemma CurrentIsServed(c: Config, mode: Mode, x: Whole, ref: ServiceRef, ip: Addr, i: nat)
    requires !mode.Noop? && RouteInv(c, mode, x) && ref in x.sys.objects && i < |x.sys.objects[ref].ports|
    requires ref in x.sys.provider && Controller.Serves(x.sys.provider[ref], x.sys.objects[ref], ip, x.sys.slices)
    ensures Served(x.world.disk.active, ref, x.sys.objects[ref].ports[i], ip, x.sys.slices)
  {
    assert x.sys.objects[ref].ref == ref;
    EntryIsServed(x.world.disk.active, x.sys.provider, x.world.store, x.sys.objects[ref], ip, x.sys.slices);
  }
}
