/** The Service controller as a state machine: one worker, one API or provider call per step.

    Every step may fail, a failed write may still have taken effect, and the rest of the cluster
    may change between any two steps. */
module Controller {
  import opened Text
  import opened IPv4
  import opened Sorting
  import opened Model
  import opened Render
  import opened Cluster
  import opened Status
  import opened Allocator
  import opened Discovery

  // ---------------------------------------------------------------- building provider state

  function BuiltPort(b: PortBackends): ServicePort {
    ServicePort(b.name, b.protocol, b.port, b.targetPort.Show(), b.backends)
  }

  function Built(s: Svc, externalIP: string, discovered: seq<PortBackends>): Service {
    Service(s.ref.namespace, s.ref.name, if s.lbClass.Some? then s.lbClass.value else "", externalIP,
            Map(BuiltPort, discovered))
  }

  method BuildProviderService(s: Svc, externalIP: string, discovered: seq<PortBackends>) returns (r: Service)
    ensures r == Built(s, externalIP, discovered)
  {
    var ports := [];
    for i := 0 to |discovered|
      invariant ports == Map(BuiltPort, discovered[..i])
    {
      var port := discovered[i];
      Take(discovered, i);
      ports := ports + [ServicePort(port.name, port.protocol, port.port, port.targetPort.Show(), port.backends)];
    }
    TakeAll(discovered);
    r := Service(s.ref.namespace, s.ref.name, if s.lbClass.Some? then s.lbClass.value else "", externalIP, ports);
  }

  /** What the provider should hold for a Service with the given address. */
  ghost function DesiredService(s: Svc, ip: Addr, slices: seq<Slice>): Service {
    Built(s, Format(ip), DiscoveredAll(s.ref, s.ports, slices))
  }

  /** The provider Service `e` says about port `i` of the Service what the Service and the slices say: its number,
      name and protocol, its target, and exactly the endpoints offered for it, in order. */
  ghost predicate ServesPort(e: Service, s: Svc, slices: seq<Slice>, i: nat)
    requires i < |s.ports| == |e.ports|
  {
    var p, q := s.ports[i], e.ports[i];
    && q.port == p.port && q.name == p.name
    && q.protocol == (if p.protocol == "" then "TCP" else p.protocol)
    && q.targetPort == (if p.targetPort.IntVal? then Decimal(p.targetPort.number) else p.targetPort.text)
    && Sorted(LeBackend, q.backends) && Distinct(q.backends)
    && forall b :: b in q.backends <==> Offered(s.ref, p, slices, b)
  }

  /** The provider Service `e` is what the Service, its address and the slices call for. */
  ghost predicate Serves(e: Service, s: Svc, ip: Addr, slices: seq<Slice>) {
    && e.namespace == s.ref.namespace && e.name == s.ref.name && e.externalIP == Format(ip)
    && e.loadBalancerClass == (if s.lbClass.Some? then s.lbClass.value else "")
    && |e.ports| == |s.ports| && forall i :: 0 <= i < |s.ports| ==> ServesPort(e, s, slices, i)
  }

  /** Discovery and building together give the backends that the slices offer, port by port. */
  lemma DesiredServes(s: Svc, ip: Addr, slices: seq<Slice>)
    ensures Serves(DesiredService(s, ip, slices), s, ip, slices)
  {
    var e := DesiredService(s, ip, slices);
    forall i | 0 <= i < |s.ports| ensures ServesPort(e, s, slices, i) {
      DiscoveredIsExact(s.ref, s.ports[i], slices);
      assert e.ports[i] == BuiltPort(Discovered(s.ref, s.ports[i], slices));
    }
  }

  lemma OfferedValid(ref: ServiceRef, p: SpecPort, slices: seq<Slice>, b: BackendEndpoint)
    requires Offered(ref, p, slices, b)
    ensures ValidBackend(b)
  {
    var s, q, e, text :| s in slices && Offers(s, q, e, text, ref, p, b);
    ParseFormat(Parse(TrimSpace(text)).value);
  }

  lemma TCPSupported()
    ensures SupportedProtocol("TCP")
  {}

  /** Provider state built for a named Service with positive TCP ports always passes validation. */
  lemma BuiltIsValid(s: Svc, ip: Addr, slices: seq<Slice>)
    requires !Blank(s.ref.namespace) && !Blank(s.ref.name)
    requires forall p :: p in s.ports ==> p.port > 0 && (p.protocol == "" || p.protocol == "TCP")
    ensures ValidService(DesiredService(s, ip, slices))
  {
    var d := DiscoveredAll(s.ref, s.ports, slices);
    ParseFormat(ip);
    forall q | q in DesiredService(s, ip, slices).ports ensures ValidPort(q) {
      var i :| 0 <= i < |d| && q == BuiltPort(d[i]);
      assert s.ports[i] in s.ports;
      BuiltPortValid(s.ref, s.ports[i], slices);
    }
  }

  lemma BuiltPortValid(ref: ServiceRef, p: SpecPort, slices: seq<Slice>)
    requires p.port > 0 && (p.protocol == "" || p.protocol == "TCP")
    ensures ValidPort(BuiltPort(Discovered(ref, p, slices)))
  {
    TCPSupported();
    DiscoveredIsExact(ref, p, slices);
    forall b | b in Discovered(ref, p, slices).backends ensures ValidBackend(b) {
      OfferedValid(ref, p, slices, b);
    }
  }

  // ---------------------------------------------------------------- states

  /** What the worker does next, with what it remembers. */
  datatype Worker =
    | Idle
    | Fetch(ref: ServiceRef)
    | AddFinalizer(svc: Svc)
    | Refetch(ref: ServiceRef)
    | ListServices(svc: Svc)
    | ListSlices(svc: Svc, ip: Addr)
    | EnsureProvider(svc: Svc, ip: Addr, service: Service)
    | WriteStatus(svc: Svc, ip: Addr)
    | DeleteForDeletion(svc: Svc)
    | DeleteForUnmanaged(svc: Svc)
    | ClearStatus(svc: Svc)
    | RefetchUnmanaged(ref: ServiceRef)
    | RemoveFinalizer(svc: Svc)

  /** The cluster, the provider's entries, the worker, and the number of API writes tried so far. */
  datatype Sys = Sys(objects: Objects, slices: seq<Slice>, provider: map<ServiceRef, Service>, worker: Worker, writes: nat)

  datatype Fault = Fault(fails: bool, effect: bool)

  const NO_FAULT := Fault(false, false)

  /** The call is carried out: it succeeds, or it fails with its effect. */
  predicate TakesEffect(f: Fault) { !f.fails || f.effect }

  // ---------------------------------------------------------------- writes to the API server

  /** A merge patch replaces the whole finalizer list by the one computed from the snapshot `svc`. */
  function WithFinalizer(o: Objects, svc: Svc): Objects {
    if svc.ref in o then o[svc.ref := o[svc.ref].(finalizer := true, otherFinalizers := svc.otherFinalizers)] else o
  }

  /** A deleting object disappears with its last finalizer. */
  function WithoutFinalizer(o: Objects, svc: Svc): Objects {
    if svc.ref !in o then o
    else if o[svc.ref].deleting && !svc.otherFinalizers then o - {svc.ref}
    else o[svc.ref := o[svc.ref].(finalizer := false, otherFinalizers := svc.otherFinalizers)]
  }

  function WithIngress(o: Objects, ref: ServiceRef, ingress: seq<string>): Objects {
    if ref in o then o[ref := o[ref].(ingress := ingress)] else o
  }

  /** Addresses published by other owners in the whole cluster. */
  function UsedElsewhere(c: Config, o: Objects, ref: ServiceRef): set<Addr> {
    set r, a | r in o && r != ref && Owner(c, o[r]) && a in Published(c.pool, o[r].ingress) :: a
  }

  // ---------------------------------------------------------------- one step of the worker

  function AfterFetch(c: Config, s: Svc): Worker {
    if s.deleting then if s.finalizer then DeleteForDeletion(s) else Idle
    else if !Selected(c, s) then
      if s.finalizer || HasIngressInPool(s.ingress, c.pool) then DeleteForUnmanaged(s) else Idle
    else if s.finalizer then ListServices(s)
    else AddFinalizer(s)
  }

  function AfterUnmanagedDelete(s: Svc): Worker {
    if !IngressEqual(s.ingress, []) then ClearStatus(s)
    else if s.finalizer then RemoveFinalizer(s)
    else Idle
  }

  ghost function Step(c: Config, s: Sys, f: Fault): Sys {
    match s.worker
    case Idle => s
    case Fetch(ref) =>
      if f.fails || ref !in s.objects then s.(worker := Idle)
      else s.(worker := AfterFetch(c, s.objects[ref]))
    case AddFinalizer(svc) =>
      var o := if TakesEffect(f) then WithFinalizer(s.objects, svc) else s.objects;
      var next := if f.fails || svc.ref !in s.objects then Idle else Refetch(svc.ref);
      s.(objects := o, worker := next, writes := s.writes + 1)
    case Refetch(ref) =>
      s.(worker := if f.fails || ref !in s.objects then Idle else ListServices(s.objects[ref]))
    case ListServices(svc) =>
      if f.fails then s.(worker := Idle)
      else
        var a := Choose(c.pool, UsedElsewhere(c, s.objects, svc.ref), svc.ingress);
        s.(worker := if a.Allocated? then ListSlices(svc, a.ip) else Idle)
    case ListSlices(svc, ip) =>
      s.(worker := if f.fails then Idle else EnsureProvider(svc, ip, DesiredService(svc, ip, s.slices)))
    case EnsureProvider(svc, ip, service) =>
      var p := if TakesEffect(f) then s.provider[svc.ref := service] else s.provider;
      var next := if f.fails || IngressEqual(svc.ingress, [Format(ip)]) then Idle else WriteStatus(svc, ip);
      s.(provider := p, worker := next)
    case WriteStatus(svc, ip) =>
      var o := if TakesEffect(f) then WithIngress(s.objects, svc.ref, [Format(ip)]) else s.objects;
      s.(objects := o, worker := Idle, writes := s.writes + 1)
    case DeleteForDeletion(svc) =>
      var p := if TakesEffect(f) then s.provider - {svc.ref} else s.provider;
      s.(provider := p, worker := if f.fails then Idle else RemoveFinalizer(svc))
    case DeleteForUnmanaged(svc) =>
      var p := if TakesEffect(f) then s.provider - {svc.ref} else s.provider;
      s.(provider := p, worker := if f.fails then Idle else AfterUnmanagedDelete(svc))
    case ClearStatus(svc) =>
      var o := if TakesEffect(f) then WithIngress(s.objects, svc.ref, []) else s.objects;
      var next := if f.fails || svc.ref !in s.objects || !svc.finalizer then Idle else RefetchUnmanaged(svc.ref);
      s.(objects := o, worker := next, writes := s.writes + 1)
    case RefetchUnmanaged(ref) =>
      s.(worker := if f.fails || ref !in s.objects || !s.objects[ref].finalizer then Idle else RemoveFinalizer(s.objects[ref]))
    case RemoveFinalizer(svc) =>
      var o := if TakesEffect(f) then WithoutFinalizer(s.objects, svc) else s.objects;
      s.(objects := o, worker := Idle, writes := s.writes + 1)
  }

  /** How many steps the worker can still take. */
  function Rank(w: Worker): nat {
    match w
    case Idle => 0
    case Fetch(_) => 8
    case AddFinalizer(_) => 7
    case Refetch(_) => 6
    case ListServices(_) => 5
    case ListSlices(_, _) => 4
    case EnsureProvider(_, _, _) => 3
    case WriteStatus(_, _) => 2
    case DeleteForDeletion(_) => 5
    case DeleteForUnmanaged(_) => 5
    case ClearStatus(_) => 4
    case RefetchUnmanaged(_) => 3
    case RemoveFinalizer(_) => 2
  }

  lemma StepRanks(c: Config, s: Sys, f: Fault)
    requires !s.worker.Idle?
    ensures Rank(Step(c, s, f).worker) < Rank(s.worker)
  {}

  /** The worker runs to completion with nothing in between; call number `n` meets fault `f(n)`. */
  ghost function Finish(c: Config, s: Sys, f: nat -> Fault, n: nat): Sys
    decreases Rank(s.worker)
  {
    if s.worker.Idle? then s
    else
      StepRanks(c, s, f(n));
      Finish(c, Step(c, s, f(n)), f, n + 1)
  }

  /** What Reconcile returns: nothing to add, ask to be called again later, or an error. */
  datatype Report = Done | Requeue | Failed

  ghost function StepReport(c: Config, s: Sys, f: Fault): Report {
    if s.worker.Idle? then Done
    else if f.fails then Failed
    else
      match s.worker
      case AddFinalizer(svc) => if svc.ref in s.objects then Done else Failed
      case Refetch(ref) => if ref in s.objects then Done else Failed
      case ListServices(svc) =>
        (match Choose(c.pool, UsedElsewhere(c, s.objects, svc.ref), svc.ingress)
         case Allocated(_, _) => Done
         case NoFreeIP => Requeue
         case EmptyPool => Failed)
      case WriteStatus(svc, _) => if svc.ref in s.objects then Done else Failed
      case ClearStatus(svc) => if svc.ref in s.objects then Done else Failed
      case RefetchUnmanaged(ref) => if ref in s.objects then Done else Failed
      case RemoveFinalizer(svc) => if svc.ref in s.objects then Done else Failed
      case _ => Done
  }

  /** What the worker running to completion returns: the first step that ends it early decides. */
  ghost function Reported(c: Config, s: Sys, f: nat -> Fault, n: nat): Report
    decreases Rank(s.worker)
  {
    if s.worker.Idle? then Done
    else if StepReport(c, s, f(n)) != Done then StepReport(c, s, f(n))
    else
      StepRanks(c, s, f(n));
      Reported(c, Step(c, s, f(n)), f, n + 1)
  }

  // ---------------------------------------------------------------- runs with interference

  /** What the environment does between two steps of the worker. */
  datatype Move = Work(fault: Fault) | Start(ref: ServiceRef) | Environment(objects: Objects, slices: seq<Slice>) | Crash

  ghost function After(c: Config, s: Sys, m: Move): Sys {
    match m
    case Work(f) => Step(c, s, f)
    case Start(ref) => if s.worker.Idle? then s.(worker := Fetch(ref)) else s
    case Environment(o, l) => s.(objects := o, slices := l)
    case Crash => s.(worker := Idle)
  }

  ghost function RunOf(c: Config, s: Sys, moves: seq<Move>): Sys {
    if moves == [] then s else After(c, RunOf(c, s, moves[..|moves| - 1]), moves[|moves| - 1])
  }

  /** Every environment move of the run is allowed by `env`. */
  ghost predicate Respects(c: Config, s: Sys, moves: seq<Move>, env: (Objects, Objects) -> bool) {
    moves == [] ||
    (var n := |moves| - 1;
     && Respects(c, s, moves[..n], env)
     && (moves[n].Environment? ==> env(RunOf(c, s, moves[..n]).objects, moves[n].objects)))
  }

  /** Objects are stored under their own name. */
  predicate Keyed(o: Objects) {
    forall r :: r in o ==> o[r].ref == r
  }

  /** Only the controller removes its finalizer, and objects with a finalizer do not disappear. */
  predicate FinalizersHeld(o: Objects, p: Objects) {
    Keyed(p) && forall r :: r in o && o[r].finalizer ==> r in p && p[r].finalizer
  }

  /** Only the controller writes status: an object is new and has none, or keeps what it had; and no
      Service becomes an owner while it carries a pool address. */
  predicate StatusHeld(c: Config, o: Objects, p: Objects) {
    Keyed(p) && forall r :: r in p ==>
      || p[r].ingress == []
      || (&& r in o && p[r].ingress == o[r].ingress
          && (Owner(c, p[r]) && !Owner(c, o[r]) ==> Published(c.pool, o[r].ingress) == {}))
  }
}
