/** Reconciling every owner once, in any order, leaves each with its own pool address. */
module ConflictResolution {
  import opened Text
  import opened IPv4
  import opened Sorting
  import opened Model
  import opened Cluster
  import opened Status
  import opened Allocator
  import opened Controller
  import opened ControllerSafety
  import opened ControllerQuiet

  function Owners(c: Config, o: Objects): set<ServiceRef> {
    set r | r in o && Owner(c, o[r])
  }

  // ---------------------------------------------------------------- counting

  lemma {:induction false} SubsetCard<T>(x: set<T>, y: set<T>)
    requires x <= y
    ensures |x| <= |y|
    decreases x
  {
    if x != {} {
      var e :| e in x;
      SubsetCard(x - {e}, y - {e});
    }
  }

  lemma UnionCard<T>(x: set<T>, y: set<T>)
    ensures |x + y| <= |x| + |y|
  {}

  /** All pool addresses published by the given owners. */
  function AllPublished(c: Config, o: Objects, refs: set<ServiceRef>): set<Addr> {
    set r, a | r in refs && r in o && a in Published(c.pool, o[r].ingress) :: a
  }

  /** Owners that publish at most one address each use no more addresses than there are owners. */
  lemma {:induction false} PublishedCard(c: Config, o: Objects, refs: set<ServiceRef>)
    requires forall r :: r in refs ==> r in o && |Published(c.pool, o[r].ingress)| <= 1
    ensures |AllPublished(c, o, refs)| <= |refs|
    decreases refs
  {
    if refs == {} {
      assert AllPublished(c, o, refs) == {};
    } else {
      var r :| r in refs;
      var rest, mine := AllPublished(c, o, refs - {r}), Published(c.pool, o[r].ingress);
      PublishedCard(c, o, refs - {r});
      assert AllPublished(c, o, refs) <= rest + mine;
      SubsetCard(AllPublished(c, o, refs), rest + mine);
      UnionCard(rest, mine);
    }
  }

  lemma {:induction false} DistinctCard<T(!new)>(s: seq<T>)
    requires Distinct(s)
    ensures |Members(s)| == |s|
  {
    DistinctMembers(s);
    assert |multiset(s)| == |s| && |multiset(Members(s))| == |Members(s)|;
  }

  /** Pigeonhole: with no more owners than pool addresses, someone else's addresses never fill the pool. */
  lemma PoolNotExhausted(c: Config, o: Objects, ref: ServiceRef)
    requires Distinct(c.pool) && ref in Owners(c, o) && |Owners(c, o)| <= |c.pool|
    requires forall r :: r in Owners(c, o) ==> |Published(c.pool, o[r].ingress)| <= 1
    ensures exists a :: a in c.pool && a !in UsedElsewhere(c, o, ref)
  {
    var others := Owners(c, o) - {ref};
    var used := UsedElsewhere(c, o, ref);
    assert used == AllPublished(c, o, others) by {
      forall a ensures a in used <==> a in AllPublished(c, o, others) {
        if a in used {
          var r :| r in o && r != ref && Owner(c, o[r]) && a in Published(c.pool, o[r].ingress);
          assert r in others;
        }
      }
    }
    PublishedCard(c, o, others);
    assert |others| == |Owners(c, o)| - 1;
    if Members(c.pool) <= used {
      SubsetCard(Members(c.pool), used);
      DistinctCard(c.pool);
      assert false;
    }
    var a :| a in Members(c.pool) && a !in used;
  }

  // ---------------------------------------------------------------- one reconcile

  /** A state the pass may start from: enough addresses, and no owner publishes two. */
  ghost predicate Fits(c: Config, o: Objects) {
    && Keyed(o) && Distinct(c.pool) && |Owners(c, o)| <= |c.pool|
    && (forall r :: r in Owners(c, o) ==>
          |Published(c.pool, o[r].ingress)| <= 1 && forall t :: t in o[r].ingress ==> TrimSpace(t) == t)
  }

  /** `r` publishes exactly one address, and nobody else publishes it. */
  ghost predicate Resolved(c: Config, o: Objects, r: ServiceRef) {
    exists a :: Holds(c, o, r, a)
  }

  ghost predicate Holds(c: Config, o: Objects, r: ServiceRef, a: Addr) {
    && r in o && Owner(c, o[r]) && a in c.pool && o[r].ingress == [Format(a)]
    && (forall q :: Publishes(c, o, q, a) ==> q == r)
  }

  /** Only `ref` changes, and it ends up publishing `ip`. */
  ghost predicate Assigns(c: Config, o: Objects, p: Objects, ref: ServiceRef, ip: Addr) {
    && ref in o && p == o[ref := o[ref].(finalizer := true, ingress := [Format(ip)])]
    && ip in c.pool && ip !in UsedElsewhere(c, o, ref)
  }

  lemma SettledAssigns(c: Config, s: Sys, svc: Svc) returns (ip: Addr)
    requires Fits(c, s.objects) && svc.ref in Owners(c, s.objects) && s.objects[svc.ref] == svc && svc.finalizer
    ensures Assigns(c, s.objects, Settled(c, s, svc).objects, svc.ref, ip)
  {
    var used := UsedElsewhere(c, s.objects, svc.ref);
    PoolNotExhausted(c, s.objects, svc.ref);
    ChooseIsSafe(c.pool, used, svc.ingress);
    assert c.pool != [];
    ip := Choose(c.pool, used, svc.ingress).ip;
    IngressEqualOne(svc.ingress, ip);
    if IngressEqual(svc.ingress, [Format(ip)]) {
      assert svc.ingress[0] in svc.ingress;
      assert svc.ingress == [Format(ip)];
      assert s.objects[svc.ref := svc] == s.objects;
    }
  }

  lemma HeldFits(c: Config, o: Objects, ref: ServiceRef)
    requires Fits(c, o) && ref in Owners(c, o)
    ensures Fits(c, o[ref := Held(o[ref])]) && Owners(c, o[ref := Held(o[ref])]) == Owners(c, o)
    ensures UsedElsewhere(c, o[ref := Held(o[ref])], ref) == UsedElsewhere(c, o, ref)
  {
    var p := o[ref := Held(o[ref])];
    UsedUnaffected(c, o, p, ref);
    assert Owners(c, p) == Owners(c, o);
  }

  lemma ReconcileAssigns(c: Config, s: Sys, ref: ServiceRef) returns (ip: Addr)
    requires Fits(c, s.objects) && ref in Owners(c, s.objects)
    ensures Assigns(c, s.objects, Reconciled(c, s, ref).objects, ref, ip)
  {
    var svc := Held(s.objects[ref]);
    ReconciledManaged(c, s, ref);
    HeldFits(c, s.objects, ref);
    if s.objects[ref].finalizer {
      assert svc == s.objects[ref];
      ip := SettledAssigns(c, s, svc);
    } else {
      var held := s.(objects := s.objects[ref := svc], writes := s.writes + 1);
      ip := SettledAssigns(c, held, svc);
      assert held.objects[ref := svc.(finalizer := true, ingress := [Format(ip)])]
          == s.objects[ref := s.objects[ref].(finalizer := true, ingress := [Format(ip)])];
    }
  }

  // ---------------------------------------------------------------- the pass

  lemma AssignKeepsFit(c: Config, o: Objects, p: Objects, ref: ServiceRef, ip: Addr)
    requires Fits(c, o) && ref in Owners(c, o) && Assigns(c, o, p, ref, ip)
    ensures Fits(c, p) && Owners(c, p) == Owners(c, o)
  {
    PublishedOne(c.pool, ip);
    FormatTrimmed(ip);
    assert Owners(c, p) == Owners(c, o);
  }

  lemma AssignResolves(c: Config, o: Objects, p: Objects, ref: ServiceRef, ip: Addr)
    requires ref in Owners(c, o) && Assigns(c, o, p, ref, ip)
    ensures Holds(c, p, ref, ip)
  {}

  lemma AssignKeepsResolved(c: Config, o: Objects, p: Objects, ref: ServiceRef, ip: Addr, r: ServiceRef)
    requires ref in Owners(c, o) && Assigns(c, o, p, ref, ip) && Resolved(c, o, r) && r != ref
    ensures Resolved(c, p, r)
  {
    var a :| Holds(c, o, r, a);
    PublishedOne(c.pool, a);
    assert Publishes(c, o, r, a);
    UsedElsewhereMember(c, o, ref, a);
    PublishedOne(c.pool, ip);
    forall q | Publishes(c, p, q, a) ensures q == r {
      if q == ref {
        assert false;
      } else {
        assert Publishes(c, o, q, a);
      }
    }
    assert Holds(c, p, r, a);
  }

  /** Reconciling the given Services one after the other without failures. */
  ghost function ReconcileEach(c: Config, s: Sys, order: seq<ServiceRef>): Sys {
    if order == [] then s
    else Reconciled(c, ReconcileEach(c, s, order[..|order| - 1]), order[|order| - 1])
  }

  lemma {:induction false} PassResolves(c: Config, s: Sys, order: seq<ServiceRef>)
    requires Fits(c, s.objects) && Distinct(order) && forall r :: r in order ==> r in Owners(c, s.objects)
    ensures var o := ReconcileEach(c, s, order).objects;
            && Fits(c, o) && Owners(c, o) == Owners(c, s.objects)
            && forall r :: r in order ==> Resolved(c, o, r)
  {
    if order != [] {
      var n := |order| - 1;
      var init, ref := order[..n], order[n];
      PassResolves(c, s, init);
      var t := ReconcileEach(c, s, init);
      assert ref in order && ref in Owners(c, t.objects);
      var ip := ReconcileAssigns(c, t, ref);
      var p := Reconciled(c, t, ref).objects;
      AssignKeepsFit(c, t.objects, p, ref, ip);
      AssignResolves(c, t.objects, p, ref, ip);
      forall r | r in order ensures Resolved(c, p, r) {
        if r != ref {
          assert r in init;
          AssignKeepsResolved(c, t.objects, p, ref, ip, r);
        }
      }
    }
  }

  /** From any state with no more owners than pool addresses in which no owner publishes two addresses,
      reconciling each owner once, in any order, leaves each with exactly one pool address, all different. */
  lemma ConflictsResolve(c: Config, s: Sys, order: seq<ServiceRef>)
    requires Fits(c, s.objects) && Distinct(order) && Members(order) == Owners(c, s.objects)
    ensures var o := ReconcileEach(c, s, order).objects;
            && Owners(c, o) == Owners(c, s.objects)
            && (forall r :: r in Owners(c, o) ==> exists a :: a in c.pool && o[r].ingress == [Format(a)])
            && (forall r, q, a :: Publishes(c, o, r, a) && Publishes(c, o, q, a) ==> r == q)
  {
    var o := ReconcileEach(c, s, order).objects;
    forall r | r in order ensures r in Owners(c, s.objects) { assert r in Members(order); }
    PassResolves(c, s, order);
    forall r | r in Owners(c, o) ensures Resolved(c, o, r) {
      assert r in Members(order);
    }
    forall r | r in Owners(c, o) ensures exists a :: a in c.pool && o[r].ingress == [Format(a)] {
      var a :| Holds(c, o, r, a);
    }
    forall r, q, a | Publishes(c, o, r, a) && Publishes(c, o, q, a) ensures r == q {
      assert r in Owners(c, o);
      var b :| Holds(c, o, r, b);
      PublishedOne(c.pool, b);
    }
  }
}
