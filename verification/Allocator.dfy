/** Choosing an external address for a Service. */
module Allocator {
  import opened Text
  import opened IPv4
  import opened Sorting
  import opened Model
  import opened Cluster

  datatype Allocation = Allocated(ip: Addr, reused: bool) | NoFreeIP | EmptyPool

  /** Addresses published by other owners. */
  function Used(c: Config, current: ServiceRef, services: seq<Svc>): set<Addr> {
    set s, t | s in services && Owner(c, s) && s.ref != current && t in s.ingress
               && Parse(t).Some? && Parse(t).value in c.pool :: Parse(t).value
  }

  /** The first entry that is an address. */
  function Assigned(ingress: seq<string>): Option<Addr> {
    if ingress == [] then None
    else if Parse(ingress[0]).Some? then Parse(ingress[0])
    else Assigned(ingress[1..])
  }

  function FirstFree(pool: seq<Addr>, used: set<Addr>): Option<Addr> {
    if pool == [] then None
    else if pool[0] !in used then Some(pool[0])
    else FirstFree(pool[1..], used)
  }

  function Choose(pool: seq<Addr>, used: set<Addr>, ingress: seq<string>): Allocation {
    var mine := Assigned(ingress);
    if pool == [] then EmptyPool
    else if mine.Some? && mine.value in pool && mine.value !in used then Allocated(mine.value, true)
    else
      var free := FirstFree(pool, used);
      if free.Some? then Allocated(free.value, false) else NoFreeIP
  }

  /** Position `k` holds the first pool address nobody uses. */
  ghost predicate FirstFreeAt(pool: seq<Addr>, used: set<Addr>, k: nat) {
    k < |pool| && pool[k] !in used && forall j :: 0 <= j < k ==> pool[j] in used
  }

  lemma {:induction false} FirstFreeIs(pool: seq<Addr>, used: set<Addr>)
    ensures FirstFree(pool, used).Some? ==> exists k: nat :: FirstFreeAt(pool, used, k) && pool[k] == FirstFree(pool, used).value
    ensures FirstFree(pool, used).None? <==> forall a :: a in pool ==> a in used
  {
    if pool != [] {
      var rest := pool[1..];
      FirstFreeIs(rest, used);
      if pool[0] !in used {
        assert FirstFreeAt(pool, used, 0);
      } else if FirstFree(rest, used).Some? {
        var k: nat :| FirstFreeAt(rest, used, k) && rest[k] == FirstFree(rest, used).value;
        assert FirstFreeAt(pool, used, k + 1);
      }
    }
  }

  /** Entry `k` is the first that is an address. */
  ghost predicate FirstAddressAt(ingress: seq<string>, k: nat) {
    k < |ingress| && Parse(ingress[k]).Some? && forall j :: 0 <= j < k ==> Parse(ingress[j]).None?
  }

  lemma {:induction false} AssignedIs(ingress: seq<string>)
    ensures Assigned(ingress).Some? ==> exists k: nat :: FirstAddressAt(ingress, k) && Parse(ingress[k]) == Assigned(ingress)
    ensures Assigned(ingress).None? <==> forall j :: 0 <= j < |ingress| ==> Parse(ingress[j]).None?
  {
    if ingress != [] {
      var rest := ingress[1..];
      AssignedIs(rest);
      if Parse(ingress[0]).Some? {
        assert FirstAddressAt(ingress, 0);
      } else if Assigned(rest).Some? {
        var k: nat :| FirstAddressAt(rest, k) && Parse(rest[k]) == Assigned(rest);
        assert FirstAddressAt(ingress, k + 1);
      } else {
        assert forall j :: 1 <= j < |ingress| ==> ingress[j] == rest[j - 1];
      }
    }
  }

  /** The first address in the status is in the pool and free: the Service can keep it. */
  ghost predicate Keeps(pool: seq<Addr>, used: set<Addr>, ingress: seq<string>, ip: Addr) {
    ip in pool && ip !in used && exists k: nat :: FirstAddressAt(ingress, k) && Parse(ingress[k]) == Some(ip)
  }

  /** Keeping comes first, exactly when it is possible; otherwise the first free pool address is taken; exhaustion
      is reported exactly when others use the whole pool. */
  lemma ChooseIs(pool: seq<Addr>, used: set<Addr>, ingress: seq<string>, ip: Addr)
    ensures var r := Choose(pool, used, ingress);
            && (r == Allocated(ip, true) <==> Keeps(pool, used, ingress, ip))
            && (r == Allocated(ip, false) <==>
                  && (forall a :: !Keeps(pool, used, ingress, a))
                  && exists k: nat :: FirstFreeAt(pool, used, k) && pool[k] == ip)
            && (r.NoFreeIP? <==> pool != [] && forall a :: a in pool ==> a in used)
            && (r.EmptyPool? <==> pool == [])
  {
    var r, mine := Choose(pool, used, ingress), Assigned(ingress);
    AssignedIs(ingress);
    FirstFreeIs(pool, used);
    if mine.Some? {
      var k: nat :| FirstAddressAt(ingress, k) && Parse(ingress[k]) == mine;
      assert forall i: nat :: FirstAddressAt(ingress, i) ==> i == k;
    }
    if mine.Some? && r == Allocated(mine.value, true) { assert Keeps(pool, used, ingress, mine.value); }
    assert forall i: nat, k: nat :: FirstFreeAt(pool, used, i) && FirstFreeAt(pool, used, k) ==> i == k;
  }

  /** An allocated address is free; exhaustion is reported exactly when others use the whole pool. */
  lemma ChooseIsSafe(pool: seq<Addr>, used: set<Addr>, ingress: seq<string>)
    ensures var r := Choose(pool, used, ingress);
            && (r.Allocated? ==> r.ip in pool && r.ip !in used)
            && (r.NoFreeIP? <==> pool != [] && forall a :: a in pool ==> a in used)
            && (r.EmptyPool? <==> pool == [])
  {
    FirstFreeIs(pool, used);
  }

  /** Published addresses of one Service, added to those found before. */
  lemma UsedAppend(c: Config, current: ServiceRef, services: seq<Svc>, s: Svc)
    ensures Used(c, current, services + [s]) ==
            Used(c, current, services)
            + (if Owner(c, s) && s.ref != current then Published(c.pool, s.ingress) else {})
  {}

  lemma PublishedAppend(pool: seq<Addr>, ingress: seq<string>, t: string)
    ensures Published(pool, ingress + [t]) ==
            Published(pool, ingress) + (if Parse(t).Some? && Parse(t).value in pool then {Parse(t).value} else {})
  {}

  /** Every address used by another owner, with one of its users. */
  method CollectUsedIPs(c: Config, current: Svc, services: seq<Svc>) returns (used: map<Addr, ServiceRef>)
    ensures used.Keys == Used(c, current.ref, services)
  {
    used := map[];
    for i := 0 to |services|
      invariant used.Keys == Used(c, current.ref, services[..i])
    {
      var service := services[i];
      Take(services, i);
      UsedAppend(c, current.ref, services[..i], service);
      if service.deleting {
        continue;
      }
      if service.ref == current.ref {
        continue;
      }
      if !Selected(c, service) {
        continue;
      }
      ghost var before := used.Keys;
      for j := 0 to |service.ingress|
        invariant used.Keys == before + Published(c.pool, service.ingress[..j])
      {
        var ip := service.ingress[j];
        Take(service.ingress, j);
        PublishedAppend(c.pool, service.ingress[..j], ip);
        var addr := Parse(ip);
        if addr.None? || addr.value !in c.pool {
          continue;
        }
        used := used[addr.value := service.ref];
      }
      TakeAll(service.ingress);
    }
    TakeAll(services);
  }

  method AssignedIPFromStatus(service: Svc) returns (r: Option<Addr>)
    ensures r == Assigned(service.ingress)
  {
    assert service.ingress[0..] == service.ingress;
    for i := 0 to |service.ingress|
      invariant Assigned(service.ingress) == Assigned(service.ingress[i..])
    {
      var addr := Parse(service.ingress[i]);
      assert service.ingress[i..][1..] == service.ingress[i + 1..];
      if addr.Some? {
        return addr;
      }
    }
    return None;
  }

  method Allocate(c: Config, current: Svc, services: seq<Svc>) returns (r: Allocation)
    ensures r == Choose(c.pool, Used(c, current.ref, services), current.ingress)
  {
    if |c.pool| == 0 {
      return EmptyPool;
    }
    var used := CollectUsedIPs(c, current, services);
    var mine := AssignedIPFromStatus(current);
    if mine.Some? && mine.value in c.pool {
      if mine.value !in used {
        return Allocated(mine.value, true);
      }
    }
    assert c.pool[0..] == c.pool;
    for i := 0 to |c.pool|
      invariant FirstFree(c.pool, used.Keys) == FirstFree(c.pool[i..], used.Keys)
    {
      var candidate := c.pool[i];
      assert c.pool[i..][1..] == c.pool[i + 1..];
      if candidate in used {
        continue;
      }
      return Allocated(candidate, false);
    }
    return NoFreeIP;
  }
}
