/** Reconcile as it is written: call by call, with early returns. */
module Reconciler {
  import opened Text
  import opened IPv4
  import opened Sorting
  import opened Model
  import opened Cluster
  import opened Status
  import opened Allocator
  import opened Discovery
  import opened Controller

  lemma FinishNext(c: Config, s: Sys, f: nat -> Fault, n: nat)
    requires !s.worker.Idle?
    ensures Finish(c, s, f, n) == Finish(c, Step(c, s, f(n)), f, n + 1)
    ensures Reported(c, s, f, n) == if StepReport(c, s, f(n)) != Done then StepReport(c, s, f(n))
                                    else Reported(c, Step(c, s, f(n)), f, n + 1)
  {}

  lemma FinishDone(c: Config, s: Sys, f: nat -> Fault, n: nat)
    requires s.worker.Idle?
    ensures Finish(c, s, f, n) == s && Reported(c, s, f, n) == Done
  {}

  /** A list of all objects shows the same used addresses, in whatever order it comes. */
  lemma ListShowsUsed(c: Config, o: Objects, services: seq<Svc>, ref: ServiceRef)
    requires Keyed(o) && forall s :: s in services <==> s.ref in o && s == o[s.ref]
    ensures Used(c, ref, services) == UsedElsewhere(c, o, ref)
  {
    forall a ensures a in Used(c, ref, services) <==> a in UsedElsewhere(c, o, ref) {
      if a in Used(c, ref, services) {
        var s, t :| s in services && Owner(c, s) && s.ref != ref && t in s.ingress
                    && Parse(t) == Some(a) && a in c.pool;
        assert a in Published(c.pool, s.ingress);
        assert s.ref in o && o[s.ref] == s;
      }
      if a in UsedElsewhere(c, o, ref) {
        var r :| r in o && r != ref && Owner(c, o[r]) && a in Published(c.pool, o[r].ingress);
        var t :| t in o[r].ingress && Parse(t) == Some(a);
        assert o[r] in services;
      }
    }
  }

  function SlicesOf(ref: ServiceRef, slices: seq<Slice>): seq<Slice> {
    if slices == [] then []
    else
      var found, last := SlicesOf(ref, slices[..|slices| - 1]), slices[|slices| - 1];
      if Belongs(ref, last) then found + [last] else found
  }

  lemma {:induction false} SlicesOfMembers(ref: ServiceRef, slices: seq<Slice>, s: Slice)
    ensures s in SlicesOf(ref, slices) <==> s in slices && Belongs(ref, s)
  {
    if slices != [] {
      var n := |slices| - 1;
      SlicesOfMembers(ref, slices[..n], s);
      assert slices == slices[..n] + [slices[n]];
    }
  }

  /** Listing only the Service's own slices loses no backend. */
  lemma OwnSlicesSuffice(ref: ServiceRef, ports: seq<SpecPort>, slices: seq<Slice>)
    ensures DiscoveredAll(ref, ports, SlicesOf(ref, slices)) == DiscoveredAll(ref, ports, slices)
  {
    forall i | 0 <= i < |ports|
      ensures BackendSet(ref, ports[i], SlicesOf(ref, slices)) == BackendSet(ref, ports[i], slices)
    {
      OwnSlicesSameSet(ref, ports[i], slices);
    }
  }

  lemma OwnSlicesSameSet(ref: ServiceRef, p: SpecPort, slices: seq<Slice>)
    ensures BackendSet(ref, p, SlicesOf(ref, slices)) == BackendSet(ref, p, slices)
  {
    forall b ensures b in BackendSet(ref, p, SlicesOf(ref, slices)) <==> b in BackendSet(ref, p, slices) {
      InBackendSet(ref, p, slices, b);
      InBackendSet(ref, p, SlicesOf(ref, slices), b);
      if Offered(ref, p, slices, b) {
        var s, q, e, text :| s in slices && Offers(s, q, e, text, ref, p, b);
        SlicesOfMembers(ref, slices, s);
        assert s in SlicesOf(ref, slices);
      }
      if Offered(ref, p, SlicesOf(ref, slices), b) {
        var s, q, e, text :| s in SlicesOf(ref, slices) && Offers(s, q, e, text, ref, p, b);
        SlicesOfMembers(ref, slices, s);
      }
    }
  }

  class ServiceReconciler {
    const config: Config
    var objects: Objects
    var slices: seq<Slice>
    var provider: map<ServiceRef, Service>
    var writes: nat

    constructor (config: Config, objects: Objects, slices: seq<Slice>)
      ensures this.config == config && Now() == Sys(objects, slices, map[], Idle, 0)
    {
      this.config := config;
      this.objects := objects;
      this.slices := slices;
      provider := map[];
      writes := 0;
    }

    ghost function Now(): Sys
      reads this
    {
      Sys(objects, slices, provider, Idle, writes)
    }

    /** The state with the worker at `w`, run to completion. */
    ghost function Rest(w: Worker, f: nat -> Fault, n: nat): Sys
      reads this
    {
      Finish(config, Now().(worker := w), f, n)
    }

    /** What that run returns. */
    ghost function Says(w: Worker, f: nat -> Fault, n: nat): Report
      reads this
    {
      Reported(config, Now().(worker := w), f, n)
    }

    // -------------------------------------------------------------- calls to the API server and the provider

    method Get(ref: ServiceRef, f: Fault) returns (r: Option<Svc>)
      ensures r == if f.fails || ref !in objects then None else Some(objects[ref])
    {
      if f.fails || ref !in objects {
        return None;
      }
      return Some(objects[ref]);
    }

    method PatchAddFinalizer(svc: Svc, f: Fault) returns (failed: bool)
      modifies this`objects, this`writes
      ensures objects == (if TakesEffect(f) then WithFinalizer(old(objects), svc) else old(objects))
      ensures writes == old(writes) + 1 && failed == (f.fails || svc.ref !in old(objects))
    {
      writes := writes + 1;
      failed := f.fails || svc.ref !in objects;
      if TakesEffect(f) && svc.ref in objects {
        objects := objects[svc.ref := objects[svc.ref].(finalizer := true, otherFinalizers := svc.otherFinalizers)];
      }
    }

    method PatchRemoveFinalizer(svc: Svc, f: Fault) returns (failed: bool)
      modifies this`objects, this`writes
      ensures objects == (if TakesEffect(f) then WithoutFinalizer(old(objects), svc) else old(objects))
      ensures writes == old(writes) + 1 && failed == (f.fails || svc.ref !in old(objects))
    {
      writes := writes + 1;
      failed := f.fails || svc.ref !in objects;
      if TakesEffect(f) && svc.ref in objects {
        if objects[svc.ref].deleting && !svc.otherFinalizers {
          objects := objects - {svc.ref};
        } else {
          objects := objects[svc.ref := objects[svc.ref].(finalizer := false, otherFinalizers := svc.otherFinalizers)];
        }
      }
    }

    method UpdateStatus(svc: Svc, ingress: seq<string>, f: Fault) returns (failed: bool)
      modifies this`objects, this`writes
      ensures objects == (if TakesEffect(f) then WithIngress(old(objects), svc.ref, ingress) else old(objects))
      ensures writes == old(writes) + 1 && failed == (f.fails || svc.ref !in old(objects))
    {
      writes := writes + 1;
      failed := f.fails || svc.ref !in objects;
      if TakesEffect(f) && svc.ref in objects {
        objects := objects[svc.ref := objects[svc.ref].(ingress := ingress)];
      }
    }

    method ProviderDelete(ref: ServiceRef, f: Fault)
      modifies this`provider
      ensures provider == if TakesEffect(f) then old(provider) - {ref} else old(provider)
    {
      if TakesEffect(f) {
        provider := provider - {ref};
      }
    }

    method ProviderEnsure(ref: ServiceRef, service: Service, f: Fault)
      modifies this`provider
      ensures provider == if TakesEffect(f) then old(provider)[ref := service] else old(provider)
    {
      if TakesEffect(f) {
        provider := provider[ref := service];
      }
    }

    method ListAllServices() returns (services: seq<Svc>)
      requires Keyed(objects)
      ensures forall s :: s in services <==> s.ref in objects && s == objects[s.ref]
    {
      services := [];
      var left := objects.Keys;
      while left != {}
        invariant left <= objects.Keys
        invariant forall s :: s in services <==> s.ref in objects && s.ref !in left && s == objects[s.ref]
        decreases |left|
      {
        var r :| r in left;
        services := services + [objects[r]];
        left := left - {r};
      }
    }

    method ListEndpointSlices(ref: ServiceRef) returns (found: seq<Slice>)
      ensures found == SlicesOf(ref, slices)
    {
      found := [];
      for i := 0 to |slices|
        invariant found == SlicesOf(ref, slices[..i])
      {
        assert slices[..i + 1][..i] == slices[..i];
        if Belongs(ref, slices[i]) {
          found := found + [slices[i]];
        }
      }
      TakeAll(slices);
    }

    // -------------------------------------------------------------- the three ways through Reconcile

    method ReconcileDeletingService(svc: Svc, f: nat -> Fault, n: nat) returns (r: Report)
      modifies this`objects, this`provider, this`writes
      ensures Now() == old(Rest(if svc.finalizer then DeleteForDeletion(svc) else Idle, f, n))
      ensures r == old(Says(if svc.finalizer then DeleteForDeletion(svc) else Idle, f, n))
    {
      if !svc.finalizer {
        return Done;
      }
      ghost var s := Now().(worker := DeleteForDeletion(svc));
      FinishNext(config, s, f, n);
      ProviderDelete(svc.ref, f(n));
      if f(n).fails {
        FinishDone(config, Step(config, s, f(n)), f, n + 1);
        return Failed;
      }
      r := RemoveServiceFinalizer(svc, f, n + 1);
    }

    method RemoveServiceFinalizer(svc: Svc, f: nat -> Fault, n: nat) returns (r: Report)
      modifies this`objects, this`writes
      ensures Now() == old(Rest(if svc.finalizer then RemoveFinalizer(svc) else Idle, f, n))
      ensures r == old(Says(if svc.finalizer then RemoveFinalizer(svc) else Idle, f, n))
    {
      if !svc.finalizer {
        return Done;
      }
      ghost var s := Now().(worker := RemoveFinalizer(svc));
      FinishNext(config, s, f, n);
      FinishDone(config, Step(config, s, f(n)), f, n + 1);
      var failed := PatchRemoveFinalizer(svc, f(n));
      return if failed then Failed else Done;
    }

    method ClearServiceStatus(svc: Svc, f: nat -> Fault, n: nat) returns (r: Report)
      modifies this`objects, this`writes
      ensures Now() == old(Rest(ClearStatus(svc), f, n))
      ensures r == old(Says(ClearStatus(svc), f, n))
    {
      ghost var s := Now().(worker := ClearStatus(svc));
      FinishNext(config, s, f, n);
      ghost var s1 := Step(config, s, f(n));
      var failed := UpdateStatus(svc, [], f(n));
      if failed || !svc.finalizer {
        FinishDone(config, s1, f, n + 1);
        return if failed then Failed else Done;
      }
      FinishNext(config, s1, f, n + 1);
      ghost var s2 := Step(config, s1, f(n + 1));
      var fetched := Get(svc.ref, f(n + 1));
      if fetched.None? {
        FinishDone(config, s2, f, n + 2);
        return Failed;
      }
      r := RemoveServiceFinalizer(fetched.value, f, n + 2);
    }

    method ReconcileUnmanagedService(svc: Svc, f: nat -> Fault, n: nat) returns (r: Report)
      requires !svc.deleting && !Selected(config, svc)
      modifies this`objects, this`provider, this`writes
      ensures Now() == old(Rest(AfterFetch(config, svc), f, n))
      ensures r == old(Says(AfterFetch(config, svc), f, n))
    {
      var ownedStatus := HasIngressInPool(svc.ingress, config.pool);
      if !svc.finalizer && !ownedStatus {
        return Done;
      }
      ghost var s := Now().(worker := DeleteForUnmanaged(svc));
      FinishNext(config, s, f, n);
      ProviderDelete(svc.ref, f(n));
      if f(n).fails {
        FinishDone(config, Step(config, s, f(n)), f, n + 1);
        return Failed;
      }
      if !IngressEqual(svc.ingress, []) {
        r := ClearServiceStatus(svc, f, n + 1);
        return;
      }
      assert svc.finalizer;
      r := RemoveServiceFinalizer(svc, f, n + 1);
    }

    /** Provider first, then status. */
    method EnsureAndPublish(svc: Svc, ip: Addr, service: Service, f: nat -> Fault, n: nat) returns (r: Report)
      modifies this`objects, this`provider, this`writes
      ensures Now() == old(Rest(EnsureProvider(svc, ip, service), f, n))
      ensures r == old(Says(EnsureProvider(svc, ip, service), f, n))
    {
      ghost var s := Now().(worker := EnsureProvider(svc, ip, service));
      FinishNext(config, s, f, n);
      ghost var s1 := Step(config, s, f(n));
      ProviderEnsure(svc.ref, service, f(n));
      if f(n).fails || IngressEqual(svc.ingress, [Format(ip)]) {
        FinishDone(config, s1, f, n + 1);
        return if f(n).fails then Failed else Done;
      }
      FinishNext(config, s1, f, n + 1);
      FinishDone(config, Step(config, s1, f(n + 1)), f, n + 2);
      var failed := UpdateStatus(svc, [Format(ip)], f(n + 1));
      return if failed then Failed else Done;
    }

    /** Allocates an address, builds the provider state, and hands both on. */
    method AllocateAndProvision(svc: Svc, f: nat -> Fault, n: nat) returns (r: Report)
      requires Keyed(objects)
      modifies this`objects, this`provider, this`writes
      ensures Now() == old(Rest(ListServices(svc), f, n))
      ensures r == old(Says(ListServices(svc), f, n))
    {
      ghost var s := Now().(worker := ListServices(svc));
      FinishNext(config, s, f, n);
      ghost var s1 := Step(config, s, f(n));
      if f(n).fails {
        FinishDone(config, s1, f, n + 1);
        return Failed;
      }
      var services := ListAllServices();
      ListShowsUsed(config, objects, services, svc.ref);
      var allocation := Allocate(config, svc, services);
      if !allocation.Allocated? {
        FinishDone(config, s1, f, n + 1);
        return if allocation.NoFreeIP? then Requeue else Failed;
      }
      FinishNext(config, s1, f, n + 1);
      if f(n + 1).fails {
        FinishDone(config, Step(config, s1, f(n + 1)), f, n + 2);
        return Failed;
      }
      var endpointSlices := ListEndpointSlices(svc.ref);
      var discovered := Discover(svc, endpointSlices);
      OwnSlicesSuffice(svc.ref, svc.ports, slices);
      var providerService := BuildProviderService(svc, Format(allocation.ip), discovered);
      r := EnsureAndPublish(svc, allocation.ip, providerService, f, n + 2);
    }

    /** Reconcile: exactly the worker's steps, one after the other. */
    method Reconcile(ref: ServiceRef, f: nat -> Fault) returns (r: Report)
      requires Keyed(objects)
      modifies this`objects, this`provider, this`writes
      ensures Now() == old(Rest(Fetch(ref), f, 0))
      ensures r == old(Says(Fetch(ref), f, 0))
    {
      ghost var s := Now().(worker := Fetch(ref));
      FinishNext(config, s, f, 0);
      ghost var s1 := Step(config, s, f(0));
      var fetched := Get(ref, f(0));
      if fetched.None? {
        FinishDone(config, s1, f, 1);
        return if f(0).fails then Failed else Done;
      }
      var svc := fetched.value;
      if svc.deleting {
        r := ReconcileDeletingService(svc, f, 1);
        return;
      }
      if !Selected(config, svc) {
        r := ReconcileUnmanagedService(svc, f, 1);
        return;
      }
      if svc.finalizer {
        r := AllocateAndProvision(svc, f, 1);
        return;
      }
      r := HoldAndProvision(svc, f, 1);
    }

    /** Adds the finalizer and reads the object again before going on. */
    method HoldAndProvision(svc: Svc, f: nat -> Fault, n: nat) returns (r: Report)
      requires Keyed(objects)
      modifies this`objects, this`provider, this`writes
      ensures Now() == old(Rest(AddFinalizer(svc), f, n))
      ensures r == old(Says(AddFinalizer(svc), f, n))
    {
      ghost var s := Now().(worker := AddFinalizer(svc));
      FinishNext(config, s, f, n);
      ghost var s1 := Step(config, s, f(n));
      var failed := PatchAddFinalizer(svc, f(n));
      if failed {
        FinishDone(config, s1, f, n + 1);
        return Failed;
      }
      assert s1 == Now().(worker := Refetch(svc.ref));
      FinishNext(config, s1, f, n + 1);
      ghost var s2 := Step(config, s1, f(n + 1));
      var fetched := Get(svc.ref, f(n + 1));
      if fetched.None? {
        FinishDone(config, s2, f, n + 2);
        return Failed;
      }
      r := AllocateAndProvision(fetched.value, f, n + 2);
    }
  }
}
