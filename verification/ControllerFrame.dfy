/** What the controller leaves alone. */
module ControllerFrame {
  import opened Text
  import opened IPv4
  import opened Model
  import opened Cluster
  import opened Status
  import opened Allocator
  import opened Discovery
  import opened Controller
  import opened ControllerSafety
  import opened ControllerQuiet

  /** The Service the worker is busy with. */
  function WorksOn(w: Worker): Option<ServiceRef> {
    match w
    case Idle => None
    case Fetch(ref) => Some(ref)
    case AddFinalizer(svc) => Some(svc.ref)
    case Refetch(ref) => Some(ref)
    case ListServices(svc) => Some(svc.ref)
    case ListSlices(svc, _) => Some(svc.ref)
    case EnsureProvider(svc, _, _) => Some(svc.ref)
    case WriteStatus(svc, _) => Some(svc.ref)
    case DeleteForDeletion(svc) => Some(svc.ref)
    case DeleteForUnmanaged(svc) => Some(svc.ref)
    case ClearStatus(svc) => Some(svc.ref)
    case RefetchUnmanaged(ref) => Some(ref)
    case RemoveFinalizer(svc) => Some(svc.ref)
  }

  predicate WritesNext(w: Worker) { w.AddFinalizer? || w.WriteStatus? || w.ClearStatus? || w.RemoveFinalizer? }

  /** The object is the same up to the controller's own finalizer and the published ingress. */
  predicate SameBut(x: Svc, y: Svc) {
    y == x.(finalizer := y.finalizer, ingress := y.ingress)
  }

  /** A patch of the finalizers is computed from a snapshot that shows the finalizers of others as they are. */
  predicate PatchIsCurrent(o: Objects, w: Worker) {
    (w.AddFinalizer? || w.RemoveFinalizer?) && w.svc.ref in o ==> o[w.svc.ref].otherFinalizers == w.svc.otherFinalizers
  }

  /** From `o` to `p` only `ref` changed: its object in the controller's finalizer and the ingress, and it
      disappeared only if it was deleting and nobody else held it. */
  ghost predicate OnlyOwnMarks(o: Objects, p: Objects, ref: ServiceRef) {
    && (forall r :: r != ref ==> (r in o <==> r in p) && (r in o ==> p[r] == o[r]))
    && (ref in p ==> ref in o && SameBut(o[ref], p[ref]))
    && (ref in o && ref !in p ==> o[ref].deleting && !o[ref].otherFinalizers)
  }

  /** The provider entries of all other Services are the same. */
  ghost predicate OthersSame(p: map<ServiceRef, Service>, q: map<ServiceRef, Service>, ref: ServiceRef) {
    forall r :: r != ref ==> (r in p <==> r in q) && (r in p ==> q[r] == p[r])
  }

  // ---------------------------------------------------------------- one step

  lemma WritesMarkOnly(o: Objects, svc: Svc)
    requires svc.ref in o ==> o[svc.ref].otherFinalizers == svc.otherFinalizers
    ensures OnlyOwnMarks(o, WithFinalizer(o, svc), svc.ref)
    ensures OnlyOwnMarks(o, WithoutFinalizer(o, svc), svc.ref)
  {}

  lemma StatusMarksOnly(o: Objects, ref: ServiceRef, ingress: seq<string>)
    ensures OnlyOwnMarks(o, WithIngress(o, ref, ingress), ref)
  {}

  lemma NothingMarked(o: Objects, ref: ServiceRef)
    ensures OnlyOwnMarks(o, o, ref)
  {}

  /** The objects after a write: as before, or with the write carried out. */
  lemma StepWrites(c: Config, s: Sys, f: Fault)
    ensures var o, p, w := s.objects, Step(c, s, f).objects, s.worker;
            || p == o
            || (w.AddFinalizer? && p == WithFinalizer(o, w.svc))
            || (w.RemoveFinalizer? && p == WithoutFinalizer(o, w.svc))
            || (w.WriteStatus? && p == WithIngress(o, w.svc.ref, [Format(w.ip)]))
            || (w.ClearStatus? && p == WithIngress(o, w.svc.ref, []))
  {}

  lemma StepMarksOnly(c: Config, s: Sys, f: Fault, p: Objects)
    requires PatchIsCurrent(s.objects, s.worker) && !s.worker.Idle? && p == Step(c, s, f).objects
    ensures OnlyOwnMarks(s.objects, p, WorksOn(s.worker).value)
  {
    var o, w := s.objects, s.worker;
    StepWrites(c, s, f);
    NothingMarked(o, WorksOn(w).value);
    if w.AddFinalizer? || w.RemoveFinalizer? {
      WritesMarkOnly(o, w.svc);
    } else if w.WriteStatus? {
      StatusMarksOnly(o, w.svc.ref, [Format(w.ip)]);
    } else if w.ClearStatus? {
      StatusMarksOnly(o, w.svc.ref, []);
    }
  }

  /** Every attempted write to the API server is counted, and nothing else changes objects. */
  lemma StepCountsWrites(c: Config, s: Sys, f: Fault)
    ensures var t := Step(c, s, f);
            && t.slices == s.slices
            && t.writes == s.writes + (if WritesNext(s.worker) then 1 else 0)
            && (!WritesNext(s.worker) ==> t.objects == s.objects)
  {}

  lemma StepKeepsEntries(c: Config, s: Sys, f: Fault)
    ensures var t := Step(c, s, f);
            forall r :: Some(r) != WorksOn(s.worker) ==>
              (r in s.provider <==> r in t.provider) && (r in s.provider ==> t.provider[r] == s.provider[r])
  {}

  /** One step: nothing but the Service at hand changes, and of its object only the controller's own marks. */
  lemma StepLeavesAlone(c: Config, s: Sys, f: Fault, ref: ServiceRef)
    requires PatchIsCurrent(s.objects, s.worker) && WorksOn(s.worker) == Some(ref)
    ensures var t := Step(c, s, f);
            OnlyOwnMarks(s.objects, t.objects, ref) && OthersSame(s.provider, t.provider, ref) && t.slices == s.slices
  {
    StepMarksOnly(c, s, f, Step(c, s, f).objects);
    StepCountsWrites(c, s, f);
    StepKeepsEntries(c, s, f);
  }

  /** The patch replaces the whole finalizer list, so a finalizer that somebody else holds is lost exactly when
      the snapshot did not show it. */
  lemma ForeignFinalizerLostIff(c: Config, s: Sys, f: Fault)
    requires (s.worker.AddFinalizer? || s.worker.RemoveFinalizer?) && TakesEffect(f)
    requires s.worker.svc.ref in s.objects && s.objects[s.worker.svc.ref].otherFinalizers
    ensures var o, ref := Step(c, s, f).objects, s.worker.svc.ref;
            (ref !in o || !o[ref].otherFinalizers) <==> !s.worker.svc.otherFinalizers
  {}

  // ---------------------------------------------------------------- a whole reconcile

  /** Undisturbed, the worker's snapshot of `ref` stays true up to what the worker itself changed. */
  ghost predicate Informed(o: Objects, w: Worker, ref: ServiceRef) {
    && (WorksOn(w) == None || WorksOn(w) == Some(ref))
    && PatchIsCurrent(o, w)
    && match w
       case DeleteForDeletion(svc) => ref in o && o[ref].finalizer && o[ref].otherFinalizers == svc.otherFinalizers
       case DeleteForUnmanaged(svc) => ref in o && o[ref] == svc && !svc.deleting
       case ClearStatus(svc) => ref in o && o[ref] == svc && !svc.deleting
       case RemoveFinalizer(svc) => ref in o && o[ref].finalizer
       case _ => true
  }

  lemma StepInforms(c: Config, s: Sys, f: Fault, ref: ServiceRef)
    requires Keyed(s.objects) && Informed(s.objects, s.worker, ref) && !s.worker.Idle?
    ensures Keyed(Step(c, s, f).objects) && Informed(Step(c, s, f).objects, Step(c, s, f).worker, ref)
  {
    match s.worker
    case DeleteForUnmanaged(svc) => IngressEqualNone(svc.ingress);
    case _ =>
  }

  lemma OnlyOwnMarksTwice(o: Objects, p: Objects, q: Objects, ref: ServiceRef)
    requires OnlyOwnMarks(o, p, ref) && OnlyOwnMarks(p, q, ref)
    ensures OnlyOwnMarks(o, q, ref)
  {}

  lemma {:induction false} FinishLeavesAlone(c: Config, s: Sys, f: nat -> Fault, n: nat, ref: ServiceRef)
    requires Keyed(s.objects) && Informed(s.objects, s.worker, ref)
    ensures var t := Finish(c, s, f, n);
            OnlyOwnMarks(s.objects, t.objects, ref) && OthersSame(s.provider, t.provider, ref) && t.slices == s.slices
    decreases Rank(s.worker)
  {
    if !s.worker.Idle? {
      var t := Step(c, s, f(n));
      StepRanks(c, s, f(n));
      StepLeavesAlone(c, s, f(n), ref);
      StepInforms(c, s, f(n), ref);
      FinishLeavesAlone(c, t, f, n + 1, ref);
      OnlyOwnMarksTwice(s.objects, t.objects, Finish(c, t, f, n + 1).objects, ref);
    }
  }

  /** A whole Reconcile with any failures and no interference: no object and no provider entry of another Service
      changes, and of its own object only the controller's finalizer and the ingress. */
  lemma ReconcileLeavesAlone(c: Config, s: Sys, f: nat -> Fault, ref: ServiceRef)
    requires Keyed(s.objects)
    ensures var t := Finish(c, s.(worker := Fetch(ref)), f, 0);
            OnlyOwnMarks(s.objects, t.objects, ref) && OthersSame(s.provider, t.provider, ref) && t.slices == s.slices
  {
    FinishLeavesAlone(c, s.(worker := Fetch(ref)), f, 0, ref);
  }

  /** A Service of another type or class that the controller does not hold and that publishes no pool address is
      not touched at all, whatever fails. */
  lemma UnselectedUntouched(c: Config, s: Sys, f: nat -> Fault, ref: ServiceRef)
    requires ref in s.objects && !s.objects[ref].finalizer
    requires !s.objects[ref].isLoadBalancer || s.objects[ref].lbClass != Some(c.lbClass)
    requires forall t :: t in s.objects[ref].ingress ==> Parse(TrimSpace(t)).None? || Parse(TrimSpace(t)).value !in c.pool
    ensures Finish(c, s.(worker := Fetch(ref)), f, 0) == s.(worker := Idle)
  {
    var s0 := s.(worker := Fetch(ref));
    StepRanks(c, s0, f(0));
    assert !HasIngressInPool(s.objects[ref].ingress, c.pool);
    assert Step(c, s0, f(0)) == s.(worker := Idle);
    assert Finish(c, s.(worker := Idle), f, 1) == s.(worker := Idle);
  }

  /** A selected Service, or one the controller holds, or one that publishes a pool address, is taken care of when
      nothing fails: without interference only an owner of an empty pool ends in an error. */
  lemma {:induction false} QuietFinishReports(c: Config, s: Sys, n: nat, ref: ServiceRef)
    requires Keyed(s.objects) && Informed(s.objects, s.worker, ref) && c.pool != []
    requires !s.worker.Idle? && !s.worker.Fetch? ==> ref in s.objects
    ensures Reported(c, s, NoFaults, n) != Failed
    decreases Rank(s.worker)
  {
    if !s.worker.Idle? {
      var t := Step(c, s, NO_FAULT);
      StepRanks(c, s, NO_FAULT);
      StepInforms(c, s, NO_FAULT, ref);
      if s.worker.ListServices? { ChooseIsSafe(c.pool, UsedElsewhere(c, s.objects, ref), s.worker.svc.ingress); }
      if StepReport(c, s, NO_FAULT) == Done {
        assert !t.worker.Idle? ==> ref in t.objects;
        QuietFinishReports(c, t, n + 1, ref);
      }
    }
  }

  /** When nothing fails and nothing interferes, Reconcile reports no error unless the pool is empty. */
  lemma QuietReconcileReports(c: Config, s: Sys, ref: ServiceRef)
    requires Keyed(s.objects) && c.pool != []
    ensures Reported(c, s.(worker := Fetch(ref)), NoFaults, 0) != Failed
  {
    QuietFinishReports(c, s.(worker := Fetch(ref)), 0, ref);
  }

  /** An input: a Service that was deselected, and a finalizer that somebody else adds right before the controller
      removes its own. The foreign finalizer is removed as well. */
  lemma LateFinalizerLost(c: Config, s: Sys, ref: ServiceRef)
    requires s.worker.Idle? && ref in s.objects
    requires var svc := s.objects[ref];
             svc.ref == ref && !svc.deleting && !Selected(c, svc) && svc.finalizer && !svc.otherFinalizers && svc.ingress == []
    ensures var held := s.objects[ref := s.objects[ref].(otherFinalizers := true)];
            var moves := [Start(ref), Work(NO_FAULT), Work(NO_FAULT), Environment(held, s.slices), Work(NO_FAULT)];
            var t := RunOf(c, s, moves).objects;
            ref in t && !t[ref].otherFinalizers && !t[ref].finalizer
  {
    var svc := s.objects[ref];
    var held := s.objects[ref := svc.(otherFinalizers := true)];
    var fetch, delete, remove := [Start(ref)], [Start(ref), Work(NO_FAULT)], [Start(ref), Work(NO_FAULT), Work(NO_FAULT)];
    IngressEqualNone(svc.ingress);
    RunNext(c, s, [], Start(ref));
    assert [] + [Start(ref)] == fetch;
    RunNext(c, s, fetch, Work(NO_FAULT));
    assert fetch + [Work(NO_FAULT)] == delete;
    assert RunOf(c, s, delete) == s.(worker := DeleteForUnmanaged(svc));
    RunNext(c, s, delete, Work(NO_FAULT));
    assert delete + [Work(NO_FAULT)] == remove;
    assert RunOf(c, s, remove).worker == RemoveFinalizer(svc);
    RunNext(c, s, remove, Environment(held, s.slices));
    RunNext(c, s, remove + [Environment(held, s.slices)], Work(NO_FAULT));
    assert remove + [Environment(held, s.slices)] + [Work(NO_FAULT)]
        == [Start(ref), Work(NO_FAULT), Work(NO_FAULT), Environment(held, s.slices), Work(NO_FAULT)];
  }

  lemma RunNext(c: Config, s: Sys, moves: seq<Move>, m: Move)
    ensures RunOf(c, s, moves + [m]) == After(c, RunOf(c, s, moves), m)
  {
    assert (moves + [m])[..|moves|] == moves;
  }
}
