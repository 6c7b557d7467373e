/** Comparing and checking the published load-balancer status. */
module Status {
  import opened Text
  import opened IPv4
  import opened Cluster

  /** The first entry that is not blank, trimmed. */
  function FirstIngressIP(ingress: seq<string>): Option<string> {
    if ingress == [] then None
    else if TrimSpace(ingress[0]) != "" then Some(TrimSpace(ingress[0]))
    else FirstIngressIP(ingress[1..])
  }

  predicate IngressEqual(current: seq<string>, desired: seq<string>) {
    var want := FirstIngressIP(desired);
    if want.None? then |current| == 0
    else |current| == 1 && TrimSpace(current[0]) == want.value
  }

  predicate HasIngressInPool(ingress: seq<string>, pool: seq<Addr>) {
    exists t :: t in ingress && Parse(TrimSpace(t)).Some? && Parse(TrimSpace(t)).value in pool
  }

  lemma FormatTrimmed(a: Addr)
    ensures TrimSpace(Format(a)) == Format(a) && Format(a) != ""
  {
    FormatShape(a);
    TrimSpaceIdentity(Format(a));
  }

  /** Compared with one assigned address: exactly one entry, that address up to white space. */
  lemma IngressEqualOne(current: seq<string>, a: Addr)
    ensures IngressEqual(current, [Format(a)]) <==> |current| == 1 && TrimSpace(current[0]) == Format(a)
  {
    FormatTrimmed(a);
  }

  /** Compared with nothing: no entries at all. */
  lemma IngressEqualNone(current: seq<string>)
    ensures IngressEqual(current, []) <==> current == []
  {}

  /** Whatever the allocator counts as published is found in the pool here too. */
  lemma PublishedIsInPool(ingress: seq<string>, pool: seq<Addr>, a: Addr)
    requires a in Published(pool, ingress)
    ensures HasIngressInPool(ingress, pool)
  {
    PublishedMember(pool, ingress, a);
    FormatTrimmed(a);
    ParseFormat(a);
    assert Format(a) in ingress;
  }

  /** A pool address with white space around it is found as well. */
  lemma InPoolIff(ingress: seq<string>, pool: seq<Addr>)
    ensures HasIngressInPool(ingress, pool) <==> exists i :: 0 <= i < |ingress| && exists a :: a in pool && TrimSpace(ingress[i]) == Format(a)
  {
    if HasIngressInPool(ingress, pool) {
      var t :| t in ingress && Parse(TrimSpace(t)).Some? && Parse(TrimSpace(t)).value in pool;
      var i :| 0 <= i < |ingress| && ingress[i] == t;
      ParseIffFormat(TrimSpace(t), Parse(TrimSpace(t)).value);
    }
    if i :| 0 <= i < |ingress| && exists a :: a in pool && TrimSpace(ingress[i]) == Format(a) {
      var a :| a in pool && TrimSpace(ingress[i]) == Format(a);
      ParseFormat(a);
      assert ingress[i] in ingress;
    }
  }
}
