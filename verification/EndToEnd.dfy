/** Controller and engine together: what is published is attached. */
module EndToEnd {
  import opened Text
  import opened IPv4
  import opened Model
  import opened Normalize
  import opened DesiredStore
  import opened IPAttach
  import opened ExternalIPs
  import opened Engine
  import opened EngineSafety
  import opened EngineRuns
  import opened Cluster
  import opened Discovery
  import Controller
  import Safety = ControllerSafety

  /** The cluster and the worker on one side, the dataplane host on the other. */
  datatype Whole = Whole(sys: Controller.Sys, world: World)

  /** Either side's own moves, or the worker's provider call carried out by the engine. */
  datatype WholeMove = Control(move: Controller.Move) | ProviderCall(sched: Schedule)

  predicate CallsProvider(w: Controller.Worker) {
    w.EnsureProvider? || w.DeleteForDeletion? || w.DeleteForUnmanaged?
  }

  /** The engine operation behind the worker's provider call. */
  function OperationOf(w: Controller.Worker, s: Schedule): Op
    requires CallsProvider(w)
  {
    if w.EnsureProvider? then EnsureOp(w.service, s) else DeleteOp(w.svc.ref, s)
  }

  /** What the worker sees of a transaction: failed or not, and whether it took effect. */
  function FaultOf(t: Transaction): Controller.Fault {
    Controller.Fault(t.error.Some?, t.error.Some? && t.error.value.AfterCommit())
  }

  ghost function After(c: Config, mode: Mode, x: Whole, m: WholeMove): Whole {
    match m
    case Control(move) =>
      if move.Work? && CallsProvider(x.sys.worker) then x else x.(sys := Controller.After(c, x.sys, move))
    case ProviderCall(s) =>
      if !CallsProvider(x.sys.worker) then x
      else
        var t := Transact(mode, x.world, OperationOf(x.sys.worker, s));
        Whole(Controller.Step(c, x.sys, FaultOf(t)), t.world)
  }

  ghost function RunOf(c: Config, mode: Mode, x: Whole, moves: seq<WholeMove>): Whole {
    if moves == [] then x else After(c, mode, RunOf(c, mode, x, moves[..|moves| - 1]), moves[|moves| - 1])
  }

  /** Environment moves leave status to the controller. */
  ghost predicate Respects(c: Config, mode: Mode, x: Whole, moves: seq<WholeMove>) {
    moves == [] ||
    (var n := |moves| - 1;
     && Respects(c, mode, x, moves[..n])
     && (moves[n].Control? && moves[n].move.Environment? ==>
           Controller.StatusHeld(c, RunOf(c, mode, x, moves[..n]).sys.objects, moves[n].move.objects)))
  }

  // ---------------------------------------------------------------- the invariant

  /** The service about to be provisioned is the one the worker works on. */
  ghost predicate BuiltForIt(w: Controller.Worker) {
    w.EnsureProvider? ==> w.service.Ref() == w.svc.ref
  }

  /** The engine's store is the provider state the controller believes in, normalised. */
  ghost predicate Mirrors(p: Services, store: Services) {
    WellKeyed(p) && store == NormalizedAll(p)
  }

  ghost predicate Inv(c: Config, mode: Mode, x: Whole)
    requires !mode.Noop?
  {
    && Safety.AddressInv(c, x.sys) && BuiltForIt(x.sys.worker)
    && Mirrors(x.sys.provider, x.world.store) && StoreOk(x.world.store) && StoreCovered(mode, x.world)
  }

  /** Every pool address that an owner publishes is attached to the interface. */
  ghost predicate PublishedAttached(c: Config, mode: Mode, o: Objects, nic: set<Prefix>)
    requires !mode.Noop?
  {
    forall r, a :: Safety.Publishes(c, o, r, a) ==> Prefix(a, mode.bits) in nic
  }

  lemma StoredIsDesired(p: Services, r: ServiceRef, a: Addr)
    requires Safety.EntryHas(p, r, a)
    ensures a in DesiredSet(Listed(NormalizedAll(p)))
  {
    var n := NormalizedAll(p);
    NormalizedIdempotent(p[r]);
    ListedMembers(n);
    ParseFormat(a);
    assert Normalized(n[r]) in Listed(n) && Normalized(n[r]).externalIP == Format(a);
  }

  /** Published means provisioned, provisioned means stored, stored means attached. */
  lemma ProvisionedIsAttached(c: Config, mode: Mode, o: Objects, p: Services, w: World)
    requires !mode.Noop? && Safety.Provisioned(c, o, p) && Mirrors(p, w.store) && StoreCovered(mode, w)
    ensures PublishedAttached(c, mode, o, w.nic)
  {
    forall r, a | Safety.Publishes(c, o, r, a) ensures Prefix(a, mode.bits) in w.nic {
      StoredIsDesired(p, r, a);
    }
  }

  // ---------------------------------------------------------------- steps

  lemma ControlBuilt(c: Config, s: Controller.Sys, f: Controller.Fault)
    requires BuiltForIt(s.worker)
    ensures BuiltForIt(Controller.Step(c, s, f).worker)
    ensures !CallsProvider(s.worker) ==> Controller.Step(c, s, f).provider == s.provider
  {}

  lemma ControlKeeps(c: Config, mode: Mode, x: Whole, move: Controller.Move)
    requires !mode.Noop? && Inv(c, mode, x) && !(move.Work? && CallsProvider(x.sys.worker))
    requires move.Environment? ==> Controller.StatusHeld(c, x.sys.objects, move.objects)
    ensures Inv(c, mode, After(c, mode, x, Control(move)))
  {
    Safety.MoveKeepsAddressInv(c, x.sys, move);
    if move.Work? { ControlBuilt(c, x.sys, move.fault); }
  }

  /** The provider state the worker's call aims at. */
  function Target(p: Services, w: Controller.Worker): Services
    requires CallsProvider(w)
  {
    if w.EnsureProvider? then p[w.svc.ref := w.service] else p - {w.svc.ref}
  }

  lemma TargetMirrors(x: Whole, s: Schedule)
    requires Mirrors(x.sys.provider, x.world.store) && BuiltForIt(x.sys.worker) && CallsProvider(x.sys.worker)
    ensures var w := x.sys.worker; var next := NextStore(x.world, OperationOf(w, s));
            && (next.Some? ==> Mirrors(Target(x.sys.provider, w), next.value))
            && (next.None? && !w.EnsureProvider? ==> Target(x.sys.provider, w) == x.sys.provider)
  {
    var w := x.sys.worker;
    if w.EnsureProvider? {
      NormalizedAllUpdate(x.sys.provider, w.service);
    } else {
      NormalizedAllRemove(x.sys.provider, w.svc.ref);
      if w.svc.ref !in x.sys.provider { assert x.sys.provider - {w.svc.ref} == x.sys.provider; }
    }
  }

  lemma StepProvider(c: Config, s: Controller.Sys, f: Controller.Fault)
    requires CallsProvider(s.worker)
    ensures Controller.Step(c, s, f).provider ==
            (if Controller.TakesEffect(f) then Target(s.provider, s.worker) else s.provider)
    ensures Controller.Step(c, s, f).objects == s.objects
  {}

  lemma ProviderCallKeeps(c: Config, mode: Mode, x: Whole, s: Schedule)
    requires !mode.Noop? && Inv(c, mode, x) && CallsProvider(x.sys.worker)
    ensures Inv(c, mode, After(c, mode, x, ProviderCall(s)))
  {
    var op := OperationOf(x.sys.worker, s);
    var t := Transact(mode, x.world, op);
    Safety.StepKeepsAddressInv(c, x.sys, FaultOf(t));
    ControlBuilt(c, x.sys, FaultOf(t));
    StepProvider(c, x.sys, FaultOf(t));
    TargetMirrors(x, s);
    OperationKeeps(mode, x.world, op);
    OperationStoreOk(mode, x.world, op);
    OperationIsAtomic(mode, x.world, op);
  }

  lemma CallStaysAttached(c: Config, mode: Mode, x: Whole, s: Schedule)
    requires !mode.Noop? && Inv(c, mode, x) && CallsProvider(x.sys.worker)
    ensures var t := Transact(mode, x.world, OperationOf(x.sys.worker, s));
            forall i :: 0 <= i < |t.visited| ==> PublishedAttached(c, mode, x.sys.objects, t.visited[i].nic)
  {
    var op := OperationOf(x.sys.worker, s);
    var t := Transact(mode, x.world, op);
    TargetMirrors(x, s);
    OperationKeeps(mode, x.world, op);
    OperationIsAtomic(mode, x.world, op);
    TargetProvisioned(c, x.sys);
    forall i | 0 <= i < |t.visited| ensures PublishedAttached(c, mode, x.sys.objects, t.visited[i].nic) {
      if t.visited[i].store == x.world.store {
        ProvisionedIsAttached(c, mode, x.sys.objects, x.sys.provider, t.visited[i]);
      } else {
        ProvisionedIsAttached(c, mode, x.sys.objects, Target(x.sys.provider, x.sys.worker), t.visited[i]);
      }
    }
  }

  /** Whether or not the call takes effect, everything published stays provisioned. */
  lemma TargetProvisioned(c: Config, s: Controller.Sys)
    requires Safety.AddressInv(c, s) && CallsProvider(s.worker)
    ensures Safety.Provisioned(c, s.objects, Target(s.provider, s.worker))
  {
    var w := s.worker;
    if w.EnsureProvider? {
      Safety.ProviderSound(c, s.objects, s.provider, w.svc.ref, w.ip, w.service);
    } else {
      Safety.RemovalSound(c, s.objects, s.provider, w.svc.ref);
    }
  }

  // ---------------------------------------------------------------- whole runs

  /** Nothing published, nothing stored, the worker idle; the interface may hold anything. */
  ghost predicate Initial(c: Config, x: Whole) {
    Safety.NothingPublished(c, x.sys) && x.sys.provider == map[] && x.world.store == map[]
  }

  lemma InitialInv(c: Config, mode: Mode, x: Whole)
    requires !mode.Noop? && Initial(c, x)
    ensures Inv(c, mode, x)
  {}

  lemma {:induction false} RunKeepsInv(c: Config, mode: Mode, x: Whole, moves: seq<WholeMove>)
    requires !mode.Noop? && Initial(c, x) && Respects(c, mode, x, moves)
    ensures Inv(c, mode, RunOf(c, mode, x, moves))
  {
    InitialInv(c, mode, x);
    if moves != [] {
      var n := |moves| - 1;
      RunKeepsInv(c, mode, x, moves[..n]);
      var y, m := RunOf(c, mode, x, moves[..n]), moves[n];
      if m.Control? {
        if !(m.move.Work? && CallsProvider(y.sys.worker)) { ControlKeeps(c, mode, y, m.move); }
      } else if CallsProvider(y.sys.worker) {
        ProviderCallKeeps(c, mode, y, m.sched);
      }
    }
  }

  /** In every run of controller and engine, with any failures on either side and any allowed interference,
      every published pool address of an owner is attached and belongs to no other owner. */
  lemma PublishedIsAttached(c: Config, mode: Mode, x: Whole, moves: seq<WholeMove>)
    requires !mode.Noop? && Initial(c, x) && Respects(c, mode, x, moves)
    ensures var y := RunOf(c, mode, x, moves);
            PublishedAttached(c, mode, y.sys.objects, y.world.nic) && Safety.Unique(c, y.sys.objects)
  {
    RunKeepsInv(c, mode, x, moves);
    var y := RunOf(c, mode, x, moves);
    ProvisionedIsAttached(c, mode, y.sys.objects, y.sys.provider, y.world);
  }

  /** The same holds in every world the engine passes through while it carries out a provider call. */
  lemma AttachedDuringCall(c: Config, mode: Mode, x: Whole, moves: seq<WholeMove>, s: Schedule)
    requires !mode.Noop? && Initial(c, x) && Respects(c, mode, x, moves)
    requires CallsProvider(RunOf(c, mode, x, moves).sys.worker)
    ensures var y := RunOf(c, mode, x, moves);
            var t := Transact(mode, y.world, OperationOf(y.sys.worker, s));
            forall i :: 0 <= i < |t.visited| ==> PublishedAttached(c, mode, y.sys.objects, t.visited[i].nic)
  {
    RunKeepsInv(c, mode, x, moves);
    CallStaysAttached(c, mode, RunOf(c, mode, x, moves), s);
  }
}
