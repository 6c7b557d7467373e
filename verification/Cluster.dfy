/** Kubernetes objects, as far as the controller looks at them. */
module Cluster {
  import opened Text
  import opened IPv4
  import opened Model

  datatype IntOrString = IntVal(number: Int32) | StrVal(text: string) {
    function Show(): string { if IntVal? then Decimal(number) else text }
  }

  datatype SpecPort = SpecPort(name: string, protocol: string, port: Int32, targetPort: IntOrString)

  /** A Service object. `ingress` holds the IP field of each published ingress entry. */
  datatype Svc = Svc(
    ref: ServiceRef,
    isLoadBalancer: bool,
    lbClass: Option<string>,
    deleting: bool,
    finalizer: bool,
    otherFinalizers: bool,
    ingress: seq<string>,
    ports: seq<SpecPort>)

  type Objects = map<ServiceRef, Svc>

  datatype Config = Config(pool: seq<Addr>, lbClass: string)

  /** The controller's selection. */
  predicate Selected(c: Config, s: Svc) {
    s.isLoadBalancer && s.lbClass == Some(c.lbClass)
  }

  /** A selected Service that is not being deleted: only these count as owners of an address. */
  predicate Owner(c: Config, s: Svc) {
    !s.deleting && Selected(c, s)
  }

  lemma OwnerIff(c: Config, s: Svc)
    ensures Owner(c, s) <==> !s.deleting && s.isLoadBalancer && s.lbClass == Some(c.lbClass)
  {}

  /** The pool addresses a list of ingress entries publishes. */
  function Published(pool: seq<Addr>, ingress: seq<string>): set<Addr> {
    set t | t in ingress && Parse(t).Some? && Parse(t).value in pool :: Parse(t).value
  }

  lemma PublishedMember(pool: seq<Addr>, ingress: seq<string>, a: Addr)
    ensures a in Published(pool, ingress) <==> a in pool && Format(a) in ingress
  {
    ParseFormat(a);
    if a in Published(pool, ingress) {
      var t :| t in ingress && Parse(t) == Some(a);
      ParseIffFormat(t, a);
    }
  }

  lemma PublishedOne(pool: seq<Addr>, a: Addr)
    requires a in pool
    ensures Published(pool, [Format(a)]) == {a}
  {
    forall x ensures x in Published(pool, [Format(a)]) <==> x == a {
      PublishedMember(pool, [Format(a)], x);
      if Format(x) == Format(a) { FormatInjective(x, a); }
    }
  }
}
