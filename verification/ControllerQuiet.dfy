/** Reconciling without failures: one pass settles a Service, and one pass over all resolves conflicts. */
module ControllerQuiet {
  import opened Text
  import opened IPv4
  import opened Sorting
  import opened Model
  import opened Cluster
  import opened Status
  import opened Allocator
  import opened Discovery
  import opened Controller
  import opened ControllerSafety

  function NoFaults(n: nat): Fault { NO_FAULT }

  /** A complete Reconcile of `ref` in which nothing fails and nothing interferes. */
  ghost function Reconciled(c: Config, s: Sys, ref: ServiceRef): Sys {
    Finish(c, s.(worker := Fetch(ref)), NoFaults, 0)
  }

  // ---------------------------------------------------------------- closed forms

  lemma FinishOne(c: Config, s: Sys, n: nat)
    requires !s.worker.Idle?
    ensures Finish(c, s, NoFaults, n) == Finish(c, Step(c, s, NO_FAULT), NoFaults, n + 1)
  {}

  lemma FinishIdle(c: Config, s: Sys, n: nat)
    requires s.worker.Idle?
    ensures Finish(c, s, NoFaults, n) == s
  {}

  /** Publishing the chosen address, if it is not published already. */
  function Publish(s: Sys, svc: Svc, ip: Addr): Sys {
    if IngressEqual(svc.ingress, [Format(ip)]) then s.(worker := Idle)
    else s.(objects := WithIngress(s.objects, svc.ref, [Format(ip)]), worker := Idle, writes := s.writes + 1)
  }

  /** The rest of a managed reconcile once the finalizer is in place. */
  ghost function Settled(c: Config, s: Sys, svc: Svc): Sys {
    var a := Choose(c.pool, UsedElsewhere(c, s.objects, svc.ref), svc.ingress);
    if !a.Allocated? then s.(worker := Idle)
    else Publish(s.(provider := s.provider[svc.ref := DesiredService(svc, a.ip, s.slices)]), svc, a.ip)
  }

  lemma FinishEnsure(c: Config, s: Sys, n: nat, svc: Svc, ip: Addr, service: Service)
    requires s.worker == EnsureProvider(svc, ip, service)
    ensures Finish(c, s, NoFaults, n) == Publish(s.(provider := s.provider[svc.ref := service]), svc, ip)
  {
    FinishOne(c, s, n);
    var t := Step(c, s, NO_FAULT);
    if t.worker.Idle? {
      FinishIdle(c, t, n + 1);
    } else {
      FinishOne(c, t, n + 1);
      FinishIdle(c, Step(c, t, NO_FAULT), n + 2);
    }
  }

  lemma FinishList(c: Config, s: Sys, n: nat, svc: Svc)
    requires s.worker == ListServices(svc)
    ensures Finish(c, s, NoFaults, n) == Settled(c, s, svc)
  {
    FinishOne(c, s, n);
    var t := Step(c, s, NO_FAULT);
    if t.worker.Idle? {
      FinishIdle(c, t, n + 1);
    } else {
      var ip := t.worker.ip;
      FinishOne(c, t, n + 1);
      FinishEnsure(c, Step(c, t, NO_FAULT), n + 2, svc, ip, DesiredService(svc, ip, s.slices));
    }
  }

  /** A Service with the finalizer set. */
  function Held(svc: Svc): Svc { svc.(finalizer := true) }

  lemma ReconciledManaged(c: Config, s: Sys, ref: ServiceRef)
    requires Keyed(s.objects) && ref in s.objects && Owner(c, s.objects[ref])
    ensures var svc := Held(s.objects[ref]);
            Reconciled(c, s, ref) ==
            if s.objects[ref].finalizer then Settled(c, s, svc)
            else Settled(c, s.(objects := s.objects[ref := svc], writes := s.writes + 1), svc)
  {
    var s0 := s.(worker := Fetch(ref));
    var svc := s.objects[ref];
    assert svc.ref == ref;
    FinishOne(c, s0, 0);
    var s1 := Step(c, s0, NO_FAULT);
    if svc.finalizer {
      assert Held(svc) == svc;
      FinishList(c, s1, 1, svc);
      SettledIgnoresWorker(c, s, s1.worker, svc);
    } else {
      FinishOne(c, s1, 1);
      var s2 := Step(c, s1, NO_FAULT);
      assert s2 == s.(objects := s.objects[ref := Held(svc)], writes := s.writes + 1, worker := Refetch(ref));
      FinishOne(c, s2, 2);
      var s3 := Step(c, s2, NO_FAULT);
      FinishList(c, s3, 3, Held(svc));
      SettledIgnoresWorker(c, s.(objects := s.objects[ref := Held(svc)], writes := s.writes + 1), s3.worker, Held(svc));
    }
  }

  lemma SettledIgnoresWorker(c: Config, s: Sys, w: Worker, svc: Svc)
    ensures Settled(c, s.(worker := w), svc) == Settled(c, s, svc)
  {}

  lemma ReconciledAbsent(c: Config, s: Sys, ref: ServiceRef)
    requires ref !in s.objects || AfterFetch(c, s.objects[ref]).Idle?
    ensures Reconciled(c, s, ref) == s.(worker := Idle)
  {
    FinishOne(c, s.(worker := Fetch(ref)), 0);
  }

  lemma ReconciledDeleting(c: Config, s: Sys, ref: ServiceRef)
    requires Keyed(s.objects) && ref in s.objects && s.objects[ref].deleting && s.objects[ref].finalizer
    ensures Reconciled(c, s, ref) ==
            s.(provider := s.provider - {ref}, objects := WithoutFinalizer(s.objects, s.objects[ref]),
               worker := Idle, writes := s.writes + 1)
  {
    var s0 := s.(worker := Fetch(ref));
    FinishOne(c, s0, 0);
    var s1 := Step(c, s0, NO_FAULT);
    FinishOne(c, s1, 1);
    var s2 := Step(c, s1, NO_FAULT);
    FinishOne(c, s2, 2);
    FinishIdle(c, Step(c, s2, NO_FAULT), 3);
  }

  /** What remains of an unmanaged Service after its clean-up. */
  ghost predicate Released(t: Sys, ref: ServiceRef) {
    ref in t.objects && t.objects[ref].ingress == [] && !t.objects[ref].finalizer && !t.objects[ref].deleting
  }

  lemma FinishRemove(c: Config, s: Sys, n: nat, svc: Svc)
    requires s.worker == RemoveFinalizer(svc)
    ensures Finish(c, s, NoFaults, n) ==
            s.(objects := WithoutFinalizer(s.objects, svc), worker := Idle, writes := s.writes + 1)
  {}

  lemma FinishClear(c: Config, s: Sys, n: nat, svc: Svc)
    requires s.worker == ClearStatus(svc) && Keyed(s.objects) && svc.ref in s.objects && s.objects[svc.ref] == svc
    requires !svc.deleting && svc.ref !in s.provider && !Selected(c, svc)
    ensures Cleaned(c, Finish(c, s, NoFaults, n), svc.ref)
  {
    FinishOne(c, s, n);
    var t := Step(c, s, NO_FAULT);
    assert t.objects == s.objects[svc.ref := svc.(ingress := [])];
    if svc.finalizer {
      FinishOne(c, t, n + 1);
      FinishRemove(c, Step(c, t, NO_FAULT), n + 2, svc.(ingress := []));
    } else {
      FinishIdle(c, t, n + 1);
    }
  }

  /** An unmanaged Service after its clean-up, and nothing left of it in the provider. */
  ghost predicate Cleaned(c: Config, t: Sys, ref: ServiceRef) {
    && t.worker.Idle? && Keyed(t.objects) && ref !in t.provider && Released(t, ref) && !Selected(c, t.objects[ref])
  }

  lemma ReconciledUnmanaged(c: Config, s: Sys, ref: ServiceRef)
    requires Keyed(s.objects) && ref in s.objects && AfterFetch(c, s.objects[ref]).DeleteForUnmanaged?
    ensures Cleaned(c, Reconciled(c, s, ref), ref)
  {
    var svc := s.objects[ref];
    var s0 := s.(worker := Fetch(ref));
    FinishOne(c, s0, 0);
    var s1 := Step(c, s0, NO_FAULT);
    FinishOne(c, s1, 1);
    var s2 := Step(c, s1, NO_FAULT);
    IngressEqualNone(svc.ingress);
    if svc.ingress != [] {
      FinishClear(c, s2, 2, svc);
    } else {
      assert svc.finalizer;
      FinishRemove(c, s2, 2, svc);
    }
  }

  // ---------------------------------------------------------------- idempotence

  /** Changing only `ref` does not change what others publish. */
  lemma UsedUnaffected(c: Config, o: Objects, p: Objects, ref: ServiceRef)
    requires forall r :: r != ref ==> (r in o <==> r in p) && (r in o ==> o[r] == p[r])
    ensures UsedElsewhere(c, o, ref) == UsedElsewhere(c, p, ref)
  {}

  /** Once an address is published, allocation comes back to it. */
  lemma ChooseAgain(pool: seq<Addr>, used: set<Addr>, ingress: seq<string>, ip: Addr)
    requires Choose(pool, used, ingress).Allocated? && ip == Choose(pool, used, ingress).ip
    ensures Choose(pool, used, [Format(ip)]) == Allocated(ip, true)
  {
    ChooseIsSafe(pool, used, ingress);
    ParseFormat(ip);
  }

  /** The snapshot after settling differs at most in its status. */
  lemma SettledSnapshot(c: Config, s: Sys, svc: Svc)
    requires Keyed(s.objects) && svc.ref in s.objects && s.objects[svc.ref] == svc
    ensures var t := Settled(c, s, svc);
            && Keyed(t.objects) && svc.ref in t.objects && t.worker.Idle? && t.slices == s.slices
            && t.objects[svc.ref] == svc.(ingress := t.objects[svc.ref].ingress)
            && UsedElsewhere(c, t.objects, svc.ref) == UsedElsewhere(c, s.objects, svc.ref)
  {
    UsedUnaffected(c, s.objects, Settled(c, s, svc).objects, svc.ref);
  }

  /** Publishing again what is published already changes nothing. */
  lemma PublishAgain(c: Config, t: Sys, svc: Svc, ip: Addr)
    requires t.worker.Idle? && svc.ref in t.provider && t.provider[svc.ref] == DesiredService(svc, ip, t.slices)
    requires Choose(c.pool, UsedElsewhere(c, t.objects, svc.ref), svc.ingress).Allocated?
    requires Choose(c.pool, UsedElsewhere(c, t.objects, svc.ref), svc.ingress).ip == ip
    requires IngressEqual(svc.ingress, [Format(ip)])
    ensures Settled(c, t, svc) == t
  {}

  lemma SameDesired(svc: Svc, ingress: seq<string>, ip: Addr, slices: seq<Slice>)
    ensures DesiredService(svc.(ingress := ingress), ip, slices) == DesiredService(svc, ip, slices)
  {}

  /** A settled Service: reconciling its snapshot again changes nothing. */
  lemma SettledAgain(c: Config, s: Sys, svc: Svc)
    requires Keyed(s.objects) && svc.ref in s.objects && s.objects[svc.ref] == svc
    ensures var t := Settled(c, s, svc);
            svc.ref in t.objects && Settled(c, t, t.objects[svc.ref]) == t
  {
    var used := UsedElsewhere(c, s.objects, svc.ref);
    var a := Choose(c.pool, used, svc.ingress);
    var t := Settled(c, s, svc);
    SettledSnapshot(c, s, svc);
    if a.Allocated? {
      var svc2 := t.objects[svc.ref];
      SameDesired(svc, svc2.ingress, a.ip, s.slices);
      IngressEqualOne([Format(a.ip)], a.ip);
      FormatTrimmed(a.ip);
      ChooseAgain(c.pool, used, svc.ingress, a.ip);
      assert svc2.ingress == if IngressEqual(svc.ingress, [Format(a.ip)]) then svc.ingress else [Format(a.ip)];
      PublishAgain(c, t, svc2, a.ip);
    }
  }

  lemma ManagedIdempotent(c: Config, s: Sys, ref: ServiceRef)
    requires Keyed(s.objects) && ref in s.objects && Owner(c, s.objects[ref])
    ensures var t := Reconciled(c, s, ref); Reconciled(c, t, ref) == t
  {
    var svc := Held(s.objects[ref]);
    var start := if s.objects[ref].finalizer then s else s.(objects := s.objects[ref := svc], writes := s.writes + 1);
    ReconciledManaged(c, s, ref);
    SettledSnapshot(c, start, svc);
    SettledAgain(c, start, svc);
    var t := Settled(c, start, svc);
    assert Keyed(t.objects) && Owner(c, t.objects[ref]) && t.objects[ref].finalizer;
    ReconciledManaged(c, t, ref);
    assert Held(t.objects[ref]) == t.objects[ref];
  }

  /** A second Reconcile right after a failure-free one makes no API write and no provider change, for
      absent, managed, exhausted, unmanaged and deleting Services alike. */
  lemma ReconcileIdempotent(c: Config, s: Sys, ref: ServiceRef)
    requires Keyed(s.objects)
    ensures var t := Reconciled(c, s, ref); Reconciled(c, t, ref) == t
  {
    var t := Reconciled(c, s, ref);
    if ref !in s.objects || AfterFetch(c, s.objects[ref]).Idle? {
      ReconciledAbsent(c, s, ref);
      ReconciledAbsent(c, t, ref);
    } else if s.objects[ref].deleting {
      ReconciledDeleting(c, s, ref);
      ReconciledAbsent(c, t, ref);
    } else if !Selected(c, s.objects[ref]) {
      ReconciledUnmanaged(c, s, ref);
      assert !HasIngressInPool([], c.pool);
      ReconciledAbsent(c, t, ref);
    } else {
      ManagedIdempotent(c, s, ref);
    }
  }
}
