/** The engine's in-memory desired state. */
module DesiredStore {
  import opened Text
  import opened Sorting
  import opened Model
  import opened Normalize

  type Services = map<ServiceRef, Service>

  /** Every Service is stored under its own reference. */
  ghost predicate WellKeyed(m: Services) {
    forall r :: r in m ==> m[r].Ref() == r
  }

  /** Every Service is also in normal form, as `Upsert` leaves it. */
  ghost predicate Canonical(m: Services) {
    WellKeyed(m) && forall r :: r in m ==> Normalized(m[r]) == m[r]
  }

  function NormalizedAll(m: Services): (n: Services)
    ensures n.Keys == m.Keys
  {
    map r | r in m :: Normalized(m[r])
  }

  function Upserted(m: Services, s: Service): Services {
    m[s.Ref() := Normalized(s)]
  }

  /** The stored Services in the order of their references. */
  ghost function Listed(m: Services): (r: seq<Service>)
    ensures |r| == |m.Keys|
  {
    var refs := InOrder(LeRef, m.Keys);
    RefsAreKeys(m);
    seq(|refs|, i requires 0 <= i < |refs| => Normalized(m[refs[i]]))
  }

  lemma RefsAreKeys(m: Services)
    ensures forall r :: r in InOrder(LeRef, m.Keys) <==> r in m
    ensures Sorted(LeRef, InOrder(LeRef, m.Keys)) && Distinct(InOrder(LeRef, m.Keys))
  {
    LeRefOrder();
    InOrderProperties(LeRef, m.Keys);
  }

  /** The Services in the order of their references, as they were given. */
  ghost function RawListed(m: Services): (r: seq<Service>)
    ensures |r| == |m.Keys|
  {
    var refs := InOrder(LeRef, m.Keys);
    RefsAreKeys(m);
    seq(|refs|, i requires 0 <= i < |refs| => m[refs[i]])
  }

  lemma ListedIsRaw(m: Services)
    ensures Listed(m) == RawListed(NormalizedAll(m))
  {}

  lemma RawNormalizes(m: Services)
    ensures Listed(m) == Map(Normalized, RawListed(m))
  {}

  lemma UpsertedCanonical(m: Services, s: Service)
    requires Canonical(m)
    ensures Canonical(Upserted(m, s))
  {
    NormalizedIdempotent(s);
  }

  lemma NormalizedAllCanonical(m: Services)
    requires WellKeyed(m)
    ensures Canonical(NormalizedAll(m))
  {
    forall r | r in m ensures Normalized(Normalized(m[r])) == Normalized(m[r]) { NormalizedIdempotent(m[r]); }
  }

  lemma ListedNormalizes(m: Services)
    ensures Listed(NormalizedAll(m)) == Listed(m)
  {
    RefsAreKeys(m);
    forall r | r in m ensures Normalized(Normalized(m[r])) == Normalized(m[r]) { NormalizedIdempotent(m[r]); }
  }

  lemma NormalizedAllUpdate(m: Services, s: Service)
    ensures NormalizedAll(m[s.Ref() := s]) == NormalizedAll(m)[s.Ref() := Normalized(s)]
  {}

  lemma NormalizedAllRemove(m: Services, ref: ServiceRef)
    ensures NormalizedAll(m - {ref}) == NormalizedAll(m) - {ref}
  {}

  lemma ListedHolds(m: Services, r: ServiceRef)
    requires r in m
    ensures Normalized(m[r]) in Listed(m)
  {
    RefsAreKeys(m);
    var refs := InOrder(LeRef, m.Keys);
    var i :| 0 <= i < |refs| && refs[i] == r;
    assert Listed(m)[i] == Normalized(m[r]);
  }

  lemma ListedComesFrom(m: Services, i: nat) returns (r: ServiceRef)
    requires i < |Listed(m)|
    ensures r in m && Listed(m)[i] == Normalized(m[r])
  {
    RefsAreKeys(m);
    r := InOrder(LeRef, m.Keys)[i];
  }

  /** What stands in the list, by membership. */
  lemma ListedMembers(m: Services)
    ensures forall s :: s in Listed(m) <==> exists r :: r in m && s == Normalized(m[r])
  {
    forall r | r in m ensures Normalized(m[r]) in Listed(m) { ListedHolds(m, r); }
    forall s | s in Listed(m) ensures exists r :: r in m && s == Normalized(m[r]) {
      var i :| 0 <= i < |Listed(m)| && Listed(m)[i] == s;
      var r := ListedComesFrom(m, i);
    }
  }

  predicate LeService(x: Service, y: Service) {
    LeRef(x.Ref(), y.Ref())
  }

  lemma LeServiceOrder()
    ensures TotalPreorder(LeService)
  {
    LeRefOrder();
  }

  function RefOf(s: Service): ServiceRef { s.Ref() }

  /** `list` holds the entry under each of `keys`, once. */
  ghost predicate EntriesOf(list: seq<Service>, m: Services, keys: set<ServiceRef>) {
    && (forall s :: s in list ==> s.Ref() in m && s == m[s.Ref()])
    && Distinct(Map(RefOf, list))
    && Members(Map(RefOf, list)) == keys
  }

  lemma EntriesAppend(list: seq<Service>, m: Services, keys: set<ServiceRef>, ref: ServiceRef)
    requires WellKeyed(m) && EntriesOf(list, m, keys) && ref in m && ref !in keys
    ensures EntriesOf(list + [m[ref]], m, keys + {ref})
  {
    assert Map(RefOf, list + [m[ref]]) == Map(RefOf, list) + [ref];
    assert ref !in Map(RefOf, list) by { assert ref !in Members(Map(RefOf, list)); }
    assert Members(Map(RefOf, list) + [ref]) == Members(Map(RefOf, list)) + {ref};
  }

  lemma RawByRefs(sorted: seq<Service>, m: Services)
    requires Map(RefOf, sorted) == InOrder(LeRef, m.Keys)
    requires forall s :: s in sorted ==> s.Ref() in m && s == m[s.Ref()]
    ensures sorted == RawListed(m)
  {}

  lemma EntriesInRefOrder(list: seq<Service>, sorted: seq<Service>, m: Services)
    requires EntriesOf(list, m, m.Keys) && Sorted(LeService, sorted) && multiset(sorted) == multiset(list)
    ensures Map(RefOf, sorted) == InOrder(LeRef, m.Keys)
  {
    MapPermuted(RefOf, sorted, list);
    DistinctMembers(Map(RefOf, list));
    RefsSorted(Map(RefOf, sorted), Map(RefOf, list), m.Keys);
  }

  /** Whatever order the map was walked in, sorting the entries gives them in the order of their references. */
  lemma SortedEntries(list: seq<Service>, m: Services)
    requires WellKeyed(m) && EntriesOf(list, m, m.Keys)
    ensures Sort(LeService, list) == RawListed(m)
  {
    var sorted := Sort(LeService, list);
    LeServiceOrder();
    SortSorted(LeService, list);
    SortPermutes(LeService, list);
    EntriesInRefOrder(list, sorted, m);
    MultisetMember(sorted, list);
    RawByRefs(sorted, m);
  }

  lemma RefsSorted(refs: seq<ServiceRef>, listRefs: seq<ServiceRef>, keys: set<ServiceRef>)
    requires Sorted(LeRef, refs) && multiset(listRefs) == multiset(keys)
    requires multiset(refs) == multiset(listRefs)
    ensures refs == InOrder(LeRef, keys)
  {
    LeRefOrder();
    InOrderProperties(LeRef, keys);
    SortedUnique(LeRef, refs, InOrder(LeRef, keys));
  }

  /** Walks the map in some order and sorts what it found. */
  method SortedServiceListFromMap(services: Services) returns (list: seq<Service>)
    requires WellKeyed(services)
    ensures list == Listed(services)
  {
    ghost var all := NormalizedAll(services);
    list := [];
    var left := services.Keys;
    while left != {}
      invariant left <= services.Keys
      invariant EntriesOf(list, all, services.Keys - left)
      decreases |left|
    {
      var ref :| ref in left;
      var normalized := NormalizeService(services[ref]);
      EntriesAppend(list, all, services.Keys - left, ref);
      assert services.Keys - (left - {ref}) == services.Keys - left + {ref};
      list := list + [normalized];
      left := left - {ref};
    }
    assert services.Keys - left == services.Keys;
    SortedEntries(list, all);
    ListedIsRaw(services);
    list := Sort(LeService, list);
  }

  /** `part` holds the entries of `all` that are not under the keys `left`. */
  ghost predicate CopiedBut(part: Services, all: Services, left: set<ServiceRef>) {
    left <= all.Keys && part == all - left
  }

  lemma CopiedMore(part: Services, all: Services, left: set<ServiceRef>, ref: ServiceRef)
    requires CopiedBut(part, all, left) && ref in left
    ensures CopiedBut(part[ref := all[ref]], all, left - {ref})
  {}

  class Store {
    var services: Services

    ghost predicate Valid()
      reads this
    {
      Canonical(services)
    }

    constructor ()
      ensures Valid() && services == map[]
    {
      services := map[];
    }

    /** A detached copy. */
    method Clone() returns (cloned: Store)
      requires Valid()
      ensures fresh(cloned) && cloned.Valid() && cloned.services == services
    {
      cloned := new Store();
      var entries := services;
      var left := entries.Keys;
      while left != {}
        invariant fresh(cloned) && CopiedBut(cloned.services, entries, left)
        decreases |left|
      {
        var ref :| ref in left;
        var normalized := NormalizeService(entries[ref]);
        CopiedMore(cloned.services, entries, left, ref);
        cloned.services := cloned.services[ref := normalized];
        left := left - {ref};
      }
    }

    method Upsert(service: Service)
      requires Valid()
      modifies this
      ensures Valid() && services == Upserted(old(services), service)
    {
      var normalized := NormalizeService(service);
      services := services[normalized.Ref() := normalized];
      UpsertedCanonical(old(services), service);
    }

    method Delete(ref: ServiceRef) returns (removed: bool)
      requires Valid()
      modifies this
      ensures Valid() && services == old(services) - {ref}
      ensures removed <==> ref in old(services)
    {
      if ref !in services {
        assert services - {ref} == services;
        return false;
      }
      services := services - {ref};
      return true;
    }

    method Get(ref: ServiceRef) returns (r: Option<Service>)
      ensures r == if ref in services then Some(services[ref]) else None
    {
      if ref !in services {
        return None;
      }
      return Some(services[ref]);
    }

    method List() returns (list: seq<Service>)
      requires Valid()
      ensures list == Listed(services)
    {
      list := SortedServiceListFromMap(services);
    }
  }

  /** The stored Services are listed by ascending namespace and name, each once. */
  lemma ListedAscends(m: Services, i: nat, j: nat)
    requires WellKeyed(m) && i < j < |Listed(m)|
    ensures var x, y := Listed(m)[i], Listed(m)[j];
            || (x.namespace != y.namespace && LeString(x.namespace, y.namespace))
            || (x.namespace == y.namespace && x.name != y.name && LeString(x.name, y.name))
  {
    var refs := InOrder(LeRef, m.Keys);
    RefsAreKeys(m);
    assert refs[i] in m && refs[j] in m;
    assert Listed(m)[i].Ref() == refs[i] && Listed(m)[j].Ref() == refs[j];
    assert LeRef(refs[i], refs[j]) && refs[i] != refs[j];
  }
}
