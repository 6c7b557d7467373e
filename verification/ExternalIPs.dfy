/** The addresses that should be attached for the stored Services. */
module ExternalIPs {
  import opened Text
  import opened IPv4
  import opened Sorting
  import opened Model
  import opened IPAttach

  /** A non-empty external address that is not a valid IPv4 address. */
  predicate UnparsedIP(s: Service) {
    s.externalIP != "" && Parse(s.externalIP).None?
  }

  /** The addresses the Services ask for. */
  function DesiredSet(services: seq<Service>): set<Addr> {
    set s | s in services && Parse(s.externalIP).Some? :: Parse(s.externalIP).value
  }

  ghost function Desired(services: seq<Service>): Result<seq<Addr>> {
    if exists s :: s in services && UnparsedIP(s) then Err else Ok(InOrder(LeAddr, DesiredSet(services)))
  }

  function Difference(left: seq<Addr>, right: seq<Addr>): seq<Addr> {
    if left == [] then []
    else
      var d, last := Difference(left[..|left| - 1], right), left[|left| - 1];
      if last in right then d else d + [last]
  }

  lemma {:induction false} DifferenceMembers(left: seq<Addr>, right: seq<Addr>, a: Addr)
    ensures a in Difference(left, right) <==> a in left && a !in right
  {
    if left != [] {
      var n := |left| - 1;
      DifferenceMembers(left[..n], right, a);
      assert left == left[..n] + [left[n]];
    }
  }

  lemma {:induction false} DifferenceDistinct(left: seq<Addr>, right: seq<Addr>)
    requires Distinct(left)
    ensures Distinct(Difference(left, right))
  {
    if left != [] {
      var n := |left| - 1;
      DifferenceDistinct(left[..n], right);
      DifferenceMembers(left[..n], right, left[n]);
      assert left[n] !in left[..n];
    }
  }

  /** Collects the addresses in a set. */
  method CollectExternalIPs(services: seq<Service>) returns (r: Result<set<Addr>>)
    ensures r == if exists s :: s in services && UnparsedIP(s) then Err else Ok(DesiredSet(services))
  {
    var unique: set<Addr> := {};
    for i := 0 to |services|
      invariant forall k :: 0 <= k < i ==> !UnparsedIP(services[k])
      invariant unique == DesiredSet(services[..i])
    {
      var service := services[i];
      assert service in services;
      Take(services, i);
      DesiredAppend(services[..i], service);
      if service.externalIP == "" {
        EmptyIsNoAddress();
        continue;
      }
      var addr := Parse(service.externalIP);
      if addr.None? {
        return Err;
      }
      unique := unique + {addr.value};
    }
    TakeAll(services);
    return Ok(unique);
  }

  /** Collects the addresses, lists them in some order, and sorts. */
  method DesiredExternalIPs(services: seq<Service>) returns (r: Result<seq<Addr>>)
    ensures r == Desired(services)
  {
    var unique := CollectExternalIPs(services);
    if unique.Err? {
      return Err;
    }
    var addresses := Enumerate(unique.value);
    LeAddrOrder();
    SortedEnumeration(LeAddr, addresses, unique.value);
    return Ok(Sort(LeAddr, addresses));
  }

  lemma EmptyIsNoAddress()
    ensures Parse("").None?
  {}

  lemma DesiredAppend(services: seq<Service>, s: Service)
    ensures DesiredSet(services + [s]) ==
            DesiredSet(services) + (if Parse(s.externalIP).Some? then {Parse(s.externalIP).value} else {})
  {}

  method DiffExternalIPs(left: seq<Addr>, right: seq<Addr>) returns (diff: seq<Addr>)
    ensures diff == Difference(left, right)
  {
    var rightSet: set<Addr> := {};
    for i := 0 to |right|
      invariant forall a :: a in rightSet <==> a in right[..i]
    {
      Take(right, i);
      rightSet := rightSet + {right[i]};
    }
    TakeAll(right);
    diff := [];
    for i := 0 to |left|
      invariant diff == Difference(left[..i], right)
    {
      assert left[..i + 1][..i] == left[..i];
      if left[i] in rightSet {
        continue;
      }
      diff := diff + [left[i]];
    }
    TakeAll(left);
  }

  /** An address is wanted exactly when a Service has it as its external address. */
  lemma WantedIff(services: seq<Service>, a: Addr)
    ensures a in DesiredSet(services) <==> exists s :: s in services && s.externalIP == Format(a)
  {
    ParseFormat(a);
    if a in DesiredSet(services) {
      var s :| s in services && Parse(s.externalIP) == Some(a);
      ParseIffFormat(s.externalIP, a);
    }
  }

  /** Reading the addresses fails exactly when a Service has a text for one that is not an IPv4 address; otherwise
      each wanted address is listed once, in ascending order. */
  lemma DesiredIs(services: seq<Service>)
    ensures Desired(services).Err? <==> exists s :: s in services && s.externalIP != "" && Parse(s.externalIP).None?
    ensures Desired(services).Ok? ==>
            var l := Desired(services).value;
            Sorted(LeAddr, l) && Distinct(l) && forall a :: a in l <==> a in DesiredSet(services)
  {
    LeAddrOrder();
    InOrderProperties(LeAddr, DesiredSet(services));
    if s :| s in services && s.externalIP != "" && Parse(s.externalIP).None? { assert UnparsedIP(s); }
  }

  /** The difference keeps the order. */
  lemma {:induction false} DifferenceSorted(left: seq<Addr>, right: seq<Addr>)
    requires Sorted(LeAddr, left)
    ensures Sorted(LeAddr, Difference(left, right))
  {
    if left != [] {
      var n := |left| - 1;
      DifferenceSorted(left[..n], right);
      forall a | a in Difference(left[..n], right) ensures LeAddr(a, left[n]) {
        DifferenceMembers(left[..n], right, a);
        var i :| 0 <= i < n && left[i] == a;
      }
    }
  }
}
