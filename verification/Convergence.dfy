/** What a Reconcile that reports no error has achieved. */
module Convergence {
  import opened Text
  import opened IPv4
  import opened Model
  import opened Cluster
  import opened Status
  import opened Allocator
  import opened Discovery
  import opened Controller
  import opened ControllerSafety
  import opened ControllerQuiet

  /** A step that reports no error did what it does when nothing fails. */
  lemma NoErrorNoFault(c: Config, s: Sys, f: Fault)
    requires StepReport(c, s, f) != Failed
    ensures Step(c, s, f) == Step(c, s, NO_FAULT) && StepReport(c, s, f) == StepReport(c, s, NO_FAULT)
  {}

  lemma RequeueEnds(c: Config, s: Sys)
    requires StepReport(c, s, NO_FAULT) == Requeue
    ensures Step(c, s, NO_FAULT) == s.(worker := Idle)
  {}

  /** A run that reports no error is the run without failures. */
  lemma {:induction false} NoErrorIsFaultFree(c: Config, s: Sys, f: nat -> Fault, n: nat)
    requires Reported(c, s, f, n) != Failed
    ensures Finish(c, s, f, n) == Finish(c, s, NoFaults, n)
    ensures Reported(c, s, f, n) == Reported(c, s, NoFaults, n)
    decreases Rank(s.worker)
  {
    if !s.worker.Idle? {
      StepRanks(c, s, f(n));
      NoErrorNoFault(c, s, f(n));
      if StepReport(c, s, f(n)) == Done {
        NoErrorIsFaultFree(c, Step(c, s, f(n)), f, n + 1);
      } else {
        RequeueEnds(c, s);
      }
    }
  }

  lemma ReportNext(c: Config, s: Sys, n: nat)
    requires !s.worker.Idle? && StepReport(c, s, NO_FAULT) == Done
    ensures Reported(c, s, NoFaults, n) == Reported(c, Step(c, s, NO_FAULT), NoFaults, n + 1)
  {}

  /** The Service is held, provisioned with a pool address nobody else publishes, and publishes it. */
  ghost predicate Converged(c: Config, s: Sys, t: Sys, ref: ServiceRef, ip: Addr)
    requires ref in s.objects
  {
    && ref in t.objects && t.objects[ref].finalizer
    && ip in c.pool && ip !in UsedElsewhere(c, t.objects, ref)
    && IngressEqual(t.objects[ref].ingress, [Format(ip)])
    && ref in t.provider && t.provider[ref] == DesiredService(s.objects[ref], ip, s.slices)
    && Serves(t.provider[ref], s.objects[ref], ip, s.slices)
  }

  lemma SettledConverges(c: Config, s: Sys, svc: Svc)
    requires Keyed(s.objects) && svc.ref in s.objects && s.objects[svc.ref] == svc && svc.finalizer
    requires Choose(c.pool, UsedElsewhere(c, s.objects, svc.ref), svc.ingress).Allocated?
    ensures Converged(c, s, Settled(c, s, svc), svc.ref, Choose(c.pool, UsedElsewhere(c, s.objects, svc.ref), svc.ingress).ip)
  {
    var used := UsedElsewhere(c, s.objects, svc.ref);
    var ip := Choose(c.pool, used, svc.ingress).ip;
    ChooseIsSafe(c.pool, used, svc.ingress);
    SettledSnapshot(c, s, svc);
    DesiredServes(svc, ip, s.slices);
    IngressEqualOne([Format(ip)], ip);
    FormatTrimmed(ip);
  }

  lemma DesiredIgnoresFinalizer(svc: Svc, ip: Addr, slices: seq<Slice>)
    ensures DesiredService(Held(svc), ip, slices) == DesiredService(svc, ip, slices)
  {}

  /** What the run without failures reports for an owner. */
  lemma OwnerReport(c: Config, s: Sys, ref: ServiceRef)
    requires Keyed(s.objects) && ref in s.objects && Owner(c, s.objects[ref])
    ensures Reported(c, s.(worker := Fetch(ref)), NoFaults, 0) ==
            match Choose(c.pool, UsedElsewhere(c, s.objects, ref), s.objects[ref].ingress)
            case Allocated(_, _) => Done
            case NoFreeIP => Requeue
            case EmptyPool => Failed
  {
    var s0, svc := s.(worker := Fetch(ref)), s.objects[ref];
    ReportNext(c, s0, 0);
    var s1 := Step(c, s0, NO_FAULT);
    if svc.finalizer {
      ListReport(c, s1, 1, svc);
    } else {
      ReportNext(c, s1, 1);
      var s2 := Step(c, s1, NO_FAULT);
      ReportNext(c, s2, 2);
      var s3 := Step(c, s2, NO_FAULT);
      UsedUnaffected(c, s.objects, s3.objects, ref);
      ListReport(c, s3, 3, Held(svc));
    }
  }

  lemma ListReport(c: Config, s: Sys, n: nat, svc: Svc)
    requires s.worker == ListServices(svc) && svc.ref in s.objects
    ensures Reported(c, s, NoFaults, n) == StepReport(c, s, NO_FAULT)
  {
    if StepReport(c, s, NO_FAULT) == Done {
      ReportNext(c, s, n);
      var t := Step(c, s, NO_FAULT);
      ReportNext(c, t, n + 1);
      var u := Step(c, t, NO_FAULT);
      ReportNext(c, u, n + 2);
      var v := Step(c, u, NO_FAULT);
      if v.worker.WriteStatus? {
        ReportNext(c, v, n + 3);
      }
    }
  }

  /** Reconcile of an owner, alone, with any failures: no error means converged, and a request to come
      back means exactly that other owners publish the whole pool. */
  lemma OwnerConverges(c: Config, s: Sys, ref: ServiceRef, f: nat -> Fault)
    requires Keyed(s.objects) && ref in s.objects && Owner(c, s.objects[ref])
    requires Reported(c, s.(worker := Fetch(ref)), f, 0) != Failed
    ensures var t := Finish(c, s.(worker := Fetch(ref)), f, 0);
            var report := Reported(c, s.(worker := Fetch(ref)), f, 0);
            && (report == Done ==> exists ip :: Converged(c, s, t, ref, ip))
            && (report == Requeue <==> c.pool != [] && forall a :: a in c.pool ==> a in UsedElsewhere(c, s.objects, ref))
            && (report == Requeue ==> t.provider == s.provider && t.objects == s.objects[ref := Held(s.objects[ref])])
  {
    var used, svc := UsedElsewhere(c, s.objects, ref), Held(s.objects[ref]);
    NoErrorIsFaultFree(c, s.(worker := Fetch(ref)), f, 0);
    OwnerReport(c, s, ref);
    ChooseIsSafe(c.pool, used, svc.ingress);
    ReconciledManaged(c, s, ref);
    var start := if s.objects[ref].finalizer then s else s.(objects := s.objects[ref := svc], writes := s.writes + 1);
    assert start.objects == s.objects[ref := svc];
    UsedUnaffected(c, s.objects, start.objects, ref);
    if Choose(c.pool, used, svc.ingress).Allocated? {
      var ip := Choose(c.pool, used, svc.ingress).ip;
      SettledConverges(c, start, svc);
      DesiredIgnoresFinalizer(s.objects[ref], ip, s.slices);
      DesiredServes(s.objects[ref], ip, s.slices);
      assert Converged(c, s, Reconciled(c, s, ref), ref, ip);
    }
  }

  /** No error for a Service that is not an owner: nothing of it is left in the provider once the
      controller held it, the finalizer is gone, and an unmanaged one publishes nothing. */
  lemma OthersConverge(c: Config, s: Sys, ref: ServiceRef, f: nat -> Fault)
    requires Keyed(s.objects) && ref in s.objects && !Owner(c, s.objects[ref])
    requires Reported(c, s.(worker := Fetch(ref)), f, 0) != Failed
    ensures var t := Finish(c, s.(worker := Fetch(ref)), f, 0);
            && (s.objects[ref].finalizer ==> ref !in t.provider)
            && (ref in t.objects ==> !t.objects[ref].finalizer)
            && (s.objects[ref].deleting && s.objects[ref].finalizer ==> (ref in t.objects <==> s.objects[ref].otherFinalizers))
            && (!s.objects[ref].deleting ==> ref in t.objects && Published(c.pool, t.objects[ref].ingress) == {})
  {
    var svc := s.objects[ref];
    NoErrorIsFaultFree(c, s.(worker := Fetch(ref)), f, 0);
    if svc.deleting && svc.finalizer {
      ReconciledDeleting(c, s, ref);
    } else if AfterFetch(c, svc).Idle? {
      ReconciledAbsent(c, s, ref);
      if !svc.deleting { NothingInPool(svc.ingress, c.pool); }
    } else {
      ReconciledUnmanaged(c, s, ref);
    }
  }

  lemma NothingInPool(ingress: seq<string>, pool: seq<Addr>)
    requires !HasIngressInPool(ingress, pool)
    ensures Published(pool, ingress) == {}
  {
    if a :| a in Published(pool, ingress) {
      PublishedIsInPool(ingress, pool, a);
    }
  }

  /** So retrying until no error is reported settles the Service: the next Reconcile changes nothing. */
  lemma NoErrorIsSettled(c: Config, s: Sys, ref: ServiceRef, f: nat -> Fault)
    requires Keyed(s.objects) && Reported(c, s.(worker := Fetch(ref)), f, 0) != Failed
    ensures var t := Finish(c, s.(worker := Fetch(ref)), f, 0); Reconciled(c, t, ref) == t
  {
    NoErrorIsFaultFree(c, s.(worker := Fetch(ref)), f, 0);
    ReconcileIdempotent(c, s, ref);
  }
}
