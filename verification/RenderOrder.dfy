/** The generated text does not depend on the order in which state was supplied. */
module RenderOrder {
  import opened Text
  import opened Sorting
  import opened Model
  import opened Normalize
  import opened DesiredStore
  import opened Render

  /** Upserting two lists one after the other: the second one wins where they meet. */
  lemma {:induction false} FromSliceConcat(x: seq<Service>, y: seq<Service>)
    ensures FromSlice(x + y) == FromSlice(x) + FromSlice(y)
  {
    if y == [] {
      assert x + y == x;
    } else {
      var n := |y| - 1;
      FromSliceConcat(x, y[..n]);
      assert (x + y)[..|x + y| - 1] == x + y[..n];
    }
  }

  lemma FromSliceOne(s: Service)
    ensures FromSlice([s]) == map[s.Ref() := Normalized(s)]
  {}

  lemma Overwritten<K, V>(p: map<K, V>, k: K, x: V, m: map<K, V>, y: V)
    ensures p + map[k := x] + m + map[k := y] == p + m + map[k := y]
  {}

  /** A later Service with the same reference replaces an earlier one. */
  lemma LaterDuplicateWins(pre: seq<Service>, s: Service, mid: seq<Service>, t: Service, post: seq<Service>)
    requires s.Ref() == t.Ref()
    ensures Rendered(pre + [s] + mid + [t] + post) == Rendered(pre + mid + [t] + post)
  {
    var r, ns, nt := s.Ref(), Normalized(s), Normalized(t);
    assert FromSlice(pre + [s] + mid + [t]) == FromSlice(pre) + map[r := ns] + FromSlice(mid) + map[r := nt] by {
      FromSliceConcat(pre, [s]);
      FromSliceConcat(pre + [s], mid);
      FromSliceConcat(pre + [s] + mid, [t]);
      FromSliceOne(s);
      FromSliceOne(t);
    }
    assert FromSlice(pre + mid + [t]) == FromSlice(pre) + FromSlice(mid) + map[r := nt] by {
      FromSliceConcat(pre, mid);
      FromSliceConcat(pre + mid, [t]);
      FromSliceOne(t);
    }
    Overwritten(FromSlice(pre), r, ns, FromSlice(mid), nt);
    FromSliceConcat(pre + [s] + mid + [t], post);
    FromSliceConcat(pre + mid + [t], post);
  }

  // ---------------------------------------------------------------- distinct references

  ghost predicate DistinctRefs(list: seq<Service>) {
    Distinct(Map(RefOf, list))
  }

  lemma {:induction false} FromSliceDistinct(list: seq<Service>)
    requires DistinctRefs(list)
    ensures forall s :: s in list ==> s.Ref() in FromSlice(list) && FromSlice(list)[s.Ref()] == Normalized(s)
    ensures forall r :: r in FromSlice(list) ==> exists s :: s in list && s.Ref() == r
  {
    if list != [] {
      var n := |list| - 1;
      var init, last := list[..n], list[n];
      assert Map(RefOf, init) == Map(RefOf, list)[..n];
      FromSliceDistinct(init);
      forall s | s in list ensures s.Ref() in FromSlice(list) && FromSlice(list)[s.Ref()] == Normalized(s) {
        var i :| 0 <= i < |list| && list[i] == s;
        if i < n {
          assert s in init;
          assert Map(RefOf, list)[i] != Map(RefOf, list)[n];
        }
      }
      forall r | r in FromSlice(list) ensures exists s :: s in list && s.Ref() == r {
        if r == last.Ref() {
          assert last in list;
        } else {
          var s :| s in init && s.Ref() == r;
          assert s in list;
        }
      }
    }
  }

  lemma DistinctPermuted<T(!new)>(s: seq<T>, t: seq<T>)
    requires multiset(s) == multiset(t) && Distinct(s)
    ensures Distinct(t)
  {
    forall i, j | 0 <= i < j < |t| ensures t[i] != t[j] {
      if t[i] == t[j] {
        DuplicateCount(t, i, j);
        DistinctMembers(s);
        assert false;
      }
    }
  }

  /** With distinct references the upserted store depends only on which Services there are. */
  lemma FromSlicePermuted(a: seq<Service>, b: seq<Service>)
    requires multiset(a) == multiset(b) && DistinctRefs(a)
    ensures FromSlice(a) == FromSlice(b)
  {
    MapPermuted(RefOf, a, b);
    DistinctPermuted(Map(RefOf, a), Map(RefOf, b));
    MultisetMember(a, b);
    FromSliceDistinct(a);
    FromSliceDistinct(b);
    forall r ensures r in FromSlice(a) <==> r in FromSlice(b) {
      if r in FromSlice(a) { var s :| s in a && s.Ref() == r; assert s in b; }
      if r in FromSlice(b) { var s :| s in b && s.Ref() == r; assert s in a; }
    }
    forall r | r in FromSlice(a) ensures FromSlice(a)[r] == FromSlice(b)[r] {
      var s :| s in a && s.Ref() == r;
      assert s in b;
    }
  }

  // ---------------------------------------------------------------- order does not matter

  /** Services up to the order of Services, of ports and of backends. */
  function ServicesBag(services: seq<Service>): multiset<ServiceBag> {
    multiset(Map(BagOf, services))
  }

  lemma TiesAgreeRespectsBag(s: Service, t: Service)
    requires BagOf(s) == BagOf(t) && TiesAgree(s)
    ensures TiesAgree(t)
  {
    var fs, ft := Map(BagOfPort, s.ports), Map(BagOfPort, t.ports);
    MultisetMember(fs, ft);
    forall p, q | p in t.ports && q in t.ports && KeyOf(p) == KeyOf(q) ensures BagOfPort(p) == BagOfPort(q) {
      var p' := PortWithBag(s, t, p);
      var q' := PortWithBag(s, t, q);
    }
  }

  lemma PortWithBag(s: Service, t: Service, p: ServicePort) returns (p': ServicePort)
    requires BagOf(s) == BagOf(t) && p in t.ports
    ensures p' in s.ports && BagOfPort(p') == BagOfPort(p)
  {
    var fs, ft := Map(BagOfPort, s.ports), Map(BagOfPort, t.ports);
    MultisetMember(fs, ft);
    var j :| 0 <= j < |t.ports| && t.ports[j] == p;
    assert ft[j] in fs;
    var i :| 0 <= i < |s.ports| && fs[i] == ft[j];
    p' := s.ports[i];
  }

  const NO_SERVICE := Service("", "", "", "", [])

  ghost function NormalizedIfAgreed(s: Service): Service {
    if TiesAgree(s) then Normalized(s) else NO_SERVICE
  }

  lemma AgreedRespectsBag(s: Service, t: Service)
    requires BagOf(s) == BagOf(t)
    ensures NormalizedIfAgreed(s) == NormalizedIfAgreed(t)
  {
    if TiesAgree(s) {
      TiesAgreeRespectsBag(s, t);
      NormalizedRespectsBag(s, t);
    } else if TiesAgree(t) {
      TiesAgreeRespectsBag(t, s);
    }
  }

  lemma SameBagsSameNormalForms(a: seq<Service>, b: seq<Service>)
    requires ServicesBag(a) == ServicesBag(b)
    requires forall s :: s in a ==> TiesAgree(s)
    ensures multiset(Map(Normalized, a)) == multiset(Map(Normalized, b))
  {
    forall s, t | BagOf(s) == BagOf(t) ensures NormalizedIfAgreed(s) == NormalizedIfAgreed(t) {
      AgreedRespectsBag(s, t);
    }
    MapThrough(BagOf, NormalizedIfAgreed, a, b);
    MultisetMember(Map(BagOf, a), Map(BagOf, b));
    forall t | t in b ensures TiesAgree(t) {
      var j :| 0 <= j < |b| && b[j] == t;
      assert Map(BagOf, b)[j] in Map(BagOf, a);
      var i :| 0 <= i < |a| && Map(BagOf, a)[i] == BagOf(t);
      assert a[i] in a;
      TiesAgreeRespectsBag(a[i], t);
    }
    assert Map(NormalizedIfAgreed, a) == Map(Normalized, a);
    assert Map(NormalizedIfAgreed, b) == Map(Normalized, b);
  }

  /** Reordering Services, ports or backends never changes the generated text. */
  lemma RenderIgnoresOrder(a: seq<Service>, b: seq<Service>)
    requires ServicesBag(a) == ServicesBag(b)
    requires DistinctRefs(a) && forall s :: s in a ==> TiesAgree(s)
    ensures Rendered(a) == Rendered(b)
  {
    var na, nb := Map(Normalized, a), Map(Normalized, b);
    SameBagsSameNormalForms(a, b);
    FromSliceNormalizes(a, na);
    FromSliceNormalizes(b, nb);
    assert Map(RefOf, na) == Map(RefOf, a);
    FromSlicePermuted(na, nb);
    MultisetMember(Map(BagOf, a), Map(BagOf, b));
  }

  // ---------------------------------------------------------------- rendering a store

  lemma ListedDistinct(m: Services)
    requires WellKeyed(m)
    ensures DistinctRefs(Listed(m))
  {
    RefsAreKeys(m);
    assert Map(RefOf, Listed(m)) == InOrder(LeRef, m.Keys) by {
      forall i | 0 <= i < |Listed(m)| ensures Listed(m)[i].Ref() == InOrder(LeRef, m.Keys)[i] {
        assert InOrder(LeRef, m.Keys)[i] in InOrder(LeRef, m.Keys);
      }
    }
  }

  /** A map with the keys of `m` that has every listed Service under its reference. */
  lemma ListedDetermines(m: Services, f: Services)
    requires WellKeyed(m) && f.Keys == m.Keys
    requires forall s :: s in Listed(m) ==> s.Ref() in f && f[s.Ref()] == Normalized(s)
    ensures f == NormalizedAll(m)
  {
    forall r | r in m ensures f[r] == Normalized(m[r]) {
      ListedHolds(m, r);
      NormalizedIdempotent(m[r]);
      assert Normalized(m[r]).Ref() == r;
    }
  }

  /** Listing a store and upserting the list again gives the store back, normalised. */
  lemma FromListed(m: Services)
    requires WellKeyed(m)
    ensures FromSlice(Listed(m)) == NormalizedAll(m)
  {
    ListedDistinct(m);
    FromSliceDistinct(Listed(m));
    FromListedKeys(m);
    ListedDetermines(m, FromSlice(Listed(m)));
  }

  lemma FromListedKeys(m: Services)
    requires WellKeyed(m)
    ensures FromSlice(Listed(m)).Keys == m.Keys
  {
    var l, f := Listed(m), FromSlice(Listed(m));
    ListedDistinct(m);
    FromSliceDistinct(l);
    ListedMembers(m);
    forall r | r in m ensures r in f {
      var s := Normalized(m[r]);
      assert s in l && s.Ref() == r;
    }
    forall r | r in f ensures r in m {
      var s :| s in l && s.Ref() == r;
    }
  }

  /** The text for the whole store. */
  lemma RenderedStore(m: Services)
    requires WellKeyed(m)
    ensures Rendered(Listed(m)) == if m == map[] then Ok(EMPTY_CONFIG) else RenderedList(Listed(m))
  {
    FromListed(m);
    ListedNormalizes(m);
    assert m == map[] <==> |m.Keys| == 0;
  }
}
