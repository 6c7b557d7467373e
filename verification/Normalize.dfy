/** Canonical form of one Service: ports in key order, backends in address order. */
module Normalize {
  import opened Text
  import opened Sorting
  import opened Model

  function NormalizePort(p: ServicePort): ServicePort {
    p.(backends := Sort(LeBackend, p.backends))
  }

  function Normalized(s: Service): Service {
    s.(ports := Map(NormalizePort, Sort(LePort, s.ports)))
  }

  /** A Service whose ports have pairwise different keys. */
  ghost predicate DistinctPortKeys(s: Service) {
    forall i, j :: 0 <= i < j < |s.ports| ==> KeyOf(s.ports[i]) != KeyOf(s.ports[j])
  }

  /** Ports that the comparator cannot tell apart have the same backends up to order. */
  ghost predicate TiesAgree(s: Service) {
    forall p, q :: p in s.ports && q in s.ports && KeyOf(p) == KeyOf(q) ==> BagOfPort(p) == BagOfPort(q)
  }

  lemma DistinctKeysTiesAgree(s: Service)
    requires DistinctPortKeys(s)
    ensures TiesAgree(s)
  {}

  // ---------------------------------------------------------------- Services up to order

  datatype PortBag = PortBag(key: PortKey, backends: multiset<BackendEndpoint>)

  datatype ServiceBag = ServiceBag(
    namespace: string, name: string, loadBalancerClass: string, externalIP: string, ports: multiset<PortBag>)

  function BagOfPort(p: ServicePort): PortBag {
    PortBag(KeyOf(p), multiset(p.backends))
  }

  /** A Service with the order of its ports and of their backends forgotten. */
  function BagOf(s: Service): ServiceBag {
    ServiceBag(s.namespace, s.name, s.loadBalancerClass, s.externalIP, multiset(Map(BagOfPort, s.ports)))
  }

  /** What any sorting routine may produce from `s`: the same Service up to order, sorted. */
  ghost predicate IsNormalForm(s: Service, r: Service) {
    && BagOf(r) == BagOf(s)
    && Sorted(LePort, r.ports)
    && (forall i :: 0 <= i < |r.ports| ==> Sorted(LeBackend, r.ports[i].backends))
  }

  // ---------------------------------------------------------------- lemmas

  lemma NormalizePortRespectsBag(p: ServicePort, q: ServicePort)
    requires BagOfPort(p) == BagOfPort(q)
    ensures NormalizePort(p) == NormalizePort(q)
  {
    LeBackendOrder();
    SortSorted(LeBackend, p.backends);
    SortSorted(LeBackend, q.backends);
    SortPermutes(LeBackend, p.backends);
    SortPermutes(LeBackend, q.backends);
    SortedUnique(LeBackend, Sort(LeBackend, p.backends), Sort(LeBackend, q.backends));
  }

  lemma NormalizePortKeepsBag(p: ServicePort)
    ensures BagOfPort(NormalizePort(p)) == BagOfPort(p)
    ensures Sorted(LeBackend, NormalizePort(p).backends)
  {
    LeBackendOrder();
    SortPermutes(LeBackend, p.backends);
    SortSorted(LeBackend, p.backends);
  }

  lemma NormalizedPorts(s: Service)
    ensures multiset(Normalized(s).ports) == multiset(Map(NormalizePort, s.ports))
    ensures Sorted(LePort, Normalized(s).ports)
  {
    LePortOrder();
    SortSorted(LePort, s.ports);
    SortPermutes(LePort, s.ports);
    MapPermuted(NormalizePort, Sort(LePort, s.ports), s.ports);
  }

  lemma SomePort(service: Service)
    requires service.ports != []
    ensures Normalized(service).ports != []
  {
    NormalizedPorts(service);
    assert |multiset(Normalized(service).ports)| == |Map(NormalizePort, service.ports)|;
  }

  /** Normalising only reorders. */
  lemma NormalizedIsNormalForm(s: Service)
    ensures IsNormalForm(s, Normalized(s))
  {
    var r := Normalized(s);
    NormalizedPorts(s);
    MapPermuted(BagOfPort, r.ports, Map(NormalizePort, s.ports));
    forall p ensures BagOfPort(NormalizePort(p)) == BagOfPort(p) { NormalizePortKeepsBag(p); }
    assert Map(BagOfPort, Map(NormalizePort, s.ports)) == Map(BagOfPort, s.ports);
    forall i | 0 <= i < |r.ports| ensures Sorted(LeBackend, r.ports[i].backends) {
      NormalizePortKeepsBag(Sort(LePort, s.ports)[i]);
    }
  }

  /** A Service in normal form is a fixed point. */
  lemma NormalFormFixed(s: Service, r: Service)
    requires IsNormalForm(s, r)
    ensures Normalized(r) == r
  {
    SortIdentity(LePort, r.ports);
    forall i | 0 <= i < |r.ports| ensures NormalizePort(r.ports[i]) == r.ports[i] {
      SortIdentity(LeBackend, r.ports[i].backends);
    }
    assert Map(NormalizePort, r.ports) == r.ports;
  }

  lemma NormalizedIdempotent(s: Service)
    ensures Normalized(Normalized(s)) == Normalized(s)
  {
    NormalizedIsNormalForm(s);
    NormalFormFixed(s, Normalized(s));
  }

  lemma NormalizedAntisymmetric(s: Service)
    requires TiesAgree(s)
    ensures AntisymmetricOn(LePort, Normalized(s).ports)
  {
    var ports := Normalized(s).ports;
    NormalizedPorts(s);
    LePortOrder();
    MultisetMember(ports, Map(NormalizePort, s.ports));
    forall x, y | x in ports && y in ports && LePort(x, y) && LePort(y, x) ensures x == y {
      assert x in Map(NormalizePort, s.ports) && y in Map(NormalizePort, s.ports);
      var i :| 0 <= i < |s.ports| && NormalizePort(s.ports[i]) == x;
      var j :| 0 <= j < |s.ports| && NormalizePort(s.ports[j]) == y;
      assert KeyOf(s.ports[i]) == KeyOf(s.ports[j]);
      NormalizePortRespectsBag(s.ports[i], s.ports[j]);
    }
  }

  /** Reordering ports or backends does not change the normal form. */
  lemma NormalizedRespectsBag(s: Service, t: Service)
    requires BagOf(s) == BagOf(t) && TiesAgree(s)
    ensures Normalized(s) == Normalized(t)
  {
    forall p, q | BagOfPort(p) == BagOfPort(q) ensures NormalizePort(p) == NormalizePort(q) {
      NormalizePortRespectsBag(p, q);
    }
    MapThrough(BagOfPort, NormalizePort, s.ports, t.ports);
    NormalizedPorts(s);
    NormalizedPorts(t);
    NormalizedAntisymmetric(s);
    LePortOrder();
    SortedUnique(LePort, Normalized(s).ports, Normalized(t).ports);
  }

  /** When ties agree there is only one normal form, whatever routine sorts. */
  lemma NormalFormUnique(s: Service, r: Service)
    requires TiesAgree(s)
    ensures IsNormalForm(s, r) <==> r == Normalized(s)
  {
    NormalizedIsNormalForm(s);
    if IsNormalForm(s, r) {
      NormalFormFixed(s, r);
      NormalizedRespectsBag(s, r);
    }
  }

  /** Exchanging two ports with the same key leaves a normal form one. */
  lemma SwapTies(s: Service, r: Service, i: nat, j: nat)
    requires IsNormalForm(s, r)
    requires i < j < |r.ports| && KeyOf(r.ports[i]) == KeyOf(r.ports[j])
    ensures IsNormalForm(s, r.(ports := Swapped(r.ports, i, j)))
  {
    var q := Swapped(r.ports, i, j);
    SwappedPermutes(r.ports, i, j);
    MapPermuted(BagOfPort, q, r.ports);
    forall a, b | 0 <= a < b < |q| ensures LePort(q[a], q[b]) {
      assert LePort(r.ports[a], r.ports[b]);
      assert KeyOf(q[a]) == KeyOf(r.ports[a]) && KeyOf(q[b]) == KeyOf(r.ports[b]);
    }
  }

  /** Two tied ports with different backends appear, tied and different, in the normal form. */
  lemma TiedPositions(s: Service, p: ServicePort, q: ServicePort) returns (i: nat, j: nat)
    requires p in s.ports && q in s.ports && KeyOf(p) == KeyOf(q) && BagOfPort(p) != BagOfPort(q)
    ensures i < j < |Normalized(s).ports|
    ensures KeyOf(Normalized(s).ports[i]) == KeyOf(Normalized(s).ports[j])
    ensures Normalized(s).ports[i] != Normalized(s).ports[j]
  {
    var ports := Sort(LePort, s.ports);
    SortPermutes(LePort, s.ports);
    MultisetMember(ports, s.ports);
    NormalizePortKeepsBag(p);
    NormalizePortKeepsBag(q);
    var a :| 0 <= a < |ports| && ports[a] == p;
    var b :| 0 <= b < |ports| && ports[b] == q;
    assert a != b;
    i, j := if a < b then a else b, if a < b then b else a;
    assert NormalizePort(p) != NormalizePort(q);
  }

  /** The promise of a sorting routine determines the normal form exactly when ties agree. */
  lemma NormalFormUniqueIff(s: Service)
    ensures (forall r :: IsNormalForm(s, r) ==> r == Normalized(s)) <==> TiesAgree(s)
  {
    if TiesAgree(s) {
      forall r | IsNormalForm(s, r) ensures r == Normalized(s) { NormalFormUnique(s, r); }
    } else {
      var p, q :| p in s.ports && q in s.ports && KeyOf(p) == KeyOf(q) && BagOfPort(p) != BagOfPort(q);
      var r := Normalized(s);
      var i, j := TiedPositions(s, p, q);
      NormalizedIsNormalForm(s);
      SwapTies(s, r, i, j);
      var r' := r.(ports := Swapped(r.ports, i, j));
      assert r'.ports[i] != r.ports[i];
      assert IsNormalForm(s, r') && r' != Normalized(s);
    }
  }

  /** A port on 80 with one backend. */
  function TiedPort(address: string): ServicePort {
    ServicePort("http", "TCP", 80, "8080", [BackendEndpoint(address, 8080)])
  }

  /** An input: two ports with one key and different backends can be left in either order. */
  lemma TiedPortsHaveTwoForms()
    ensures var p, q := TiedPort("10.0.0.1"), TiedPort("10.0.0.2");
            var s := Service("default", "web", "", "192.0.2.1", [p, q]);
            IsNormalForm(s, s) && IsNormalForm(s, s.(ports := [q, p])) && s != s.(ports := [q, p])
  {
    var p, q := TiedPort("10.0.0.1"), TiedPort("10.0.0.2");
    var s := Service("default", "web", "", "192.0.2.1", [p, q]);
    LePortOrder();
    LeBackendOrder();
    assert p.backends[0] != q.backends[0] by { assert "10.0.0.1"[7] != "10.0.0.2"[7]; }
    SwapTies(s, s, 0, 1);
    assert Swapped([p, q], 0, 1) == [q, p];
  }

  /** Sorts a copy of the ports, then the backends of each port in turn. */
  method NormalizeService(service: Service) returns (normalized: Service)
    ensures normalized == Normalized(service)
  {
    var ports := Sort(LePort, service.ports);
    var index := 0;
    while index < |ports|
      invariant 0 <= index <= |ports| == |service.ports|
      invariant forall i :: 0 <= i < index ==> ports[i] == NormalizePort(Sort(LePort, service.ports)[i])
      invariant forall i :: index <= i < |ports| ==> ports[i] == Sort(LePort, service.ports)[i]
    {
      ports := ports[index := ports[index].(backends := Sort(LeBackend, ports[index].backends))];
      index := index + 1;
    }
    assert ports == Map(NormalizePort, Sort(LePort, service.ports));
    normalized := service.(ports := ports);
  }
}
