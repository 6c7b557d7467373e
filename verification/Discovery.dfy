/** Finding the backends of each Service port in EndpointSlices. */
module Discovery {
  import opened Text
  import opened IPv4
  import opened Sorting
  import opened Model
  import opened Cluster

  datatype EndpointPort = EndpointPort(name: Option<string>, protocol: Option<string>, port: Option<Int32>)

  datatype Endpoint = Endpoint(addresses: seq<string>, ready: Option<bool>)

  /** `serviceName` is the value of the service-name label, empty when the label is missing. */
  datatype Slice = Slice(namespace: string, serviceName: string, ports: seq<EndpointPort>, endpoints: seq<Endpoint>)

  datatype PortBackends = PortBackends(
    name: string, protocol: string, port: Int32, targetPort: IntOrString, backends: seq<BackendEndpoint>)

  // ---------------------------------------------------------------- matching

  function NormalProtocol(protocol: string): string { if protocol == "" then "TCP" else protocol }

  function SliceProtocol(protocol: Option<string>): string {
    if protocol.None? then "TCP" else NormalProtocol(protocol.value)
  }

  /** The name or the number that a Service port targets. */
  function TargetOf(p: SpecPort): (string, Int32) {
    match p.targetPort
    case StrVal(text) => if TrimSpace(text) != "" then (TrimSpace(text), 0) else ("", p.port)
    case IntVal(number) => if number > 0 then ("", number) else ("", p.port)
  }

  function PortName(q: EndpointPort): string { if q.name.None? then "" else TrimSpace(q.name.value) }

  predicate Matches(p: SpecPort, q: EndpointPort) {
    && q.port.Some? && q.port.value > 0
    && NormalProtocol(p.protocol) == SliceProtocol(q.protocol)
    && (|| (p.name != "" && PortName(q) == p.name)
        || (if TargetOf(p).0 != "" then PortName(q) == TargetOf(p).0 else q.port.value == TargetOf(p).1))
  }

  predicate Ready(e: Endpoint) { e.ready.None? || e.ready.value }

  predicate Belongs(ref: ServiceRef, s: Slice) { s.namespace == ref.namespace && s.serviceName == ref.name }

  /** The canonical form of an endpoint address, if it is IPv4. */
  function CanonicalAddress(text: string): Option<string> {
    var a := Parse(TrimSpace(text));
    if a.Some? then Some(Format(a.value)) else None
  }

  /** A port by which a Service port can be reached speaks its protocol, TCP where none is given. */
  lemma MatchNeedsProtocol(p: SpecPort, q: EndpointPort)
    requires Matches(p, q)
    ensures q.port.Some? && q.port.value > 0
    ensures (if p.protocol == "" then "TCP" else p.protocol)
         == (if q.protocol.None? || q.protocol.value == "" then "TCP" else q.protocol.value)
  {}

  /** An endpoint port with the name of the Service port matches whatever the target is. */
  lemma NamedPortMatches(p: SpecPort, q: EndpointPort)
    requires p.name != "" && q.name.Some? && TrimSpace(q.name.value) == p.name
    ensures Matches(p, q) <==>
            && q.port.Some? && q.port.value > 0
            && (if p.protocol == "" then "TCP" else p.protocol)
            == (if q.protocol.None? || q.protocol.value == "" then "TCP" else q.protocol.value)
  {}

  /** Otherwise the target port decides: a positive number means that port, a name that is not blank means the
      endpoint port of that name, and anything else means the port of the Service itself. */
  lemma TargetDecides(p: SpecPort, q: EndpointPort)
    requires p.name == "" || (if q.name.None? then "" else TrimSpace(q.name.value)) != p.name
    requires (if p.protocol == "" then "TCP" else p.protocol)
          == (if q.protocol.None? || q.protocol.value == "" then "TCP" else q.protocol.value)
    ensures p.targetPort.IntVal? && p.targetPort.number > 0 ==>
            (Matches(p, q) <==> q.port == Some(p.targetPort.number))
    ensures p.targetPort.StrVal? && !Blank(p.targetPort.text) ==>
            (Matches(p, q) <==> q.port.Some? && q.port.value > 0
                                && q.name.Some? && TrimSpace(q.name.value) == TrimSpace(p.targetPort.text))
    ensures (p.targetPort.IntVal? && p.targetPort.number <= 0) || (p.targetPort.StrVal? && Blank(p.targetPort.text)) ==>
            (Matches(p, q) <==> q.port == Some(p.port) && p.port > 0)
  {
    if p.targetPort.StrVal? { TrimSpaceBlank(p.targetPort.text); }
  }

  // ---------------------------------------------------------------- the specification

  /** `b` is address `text` of a ready endpoint of a matching port of one of the Service's slices. */
  predicate Offers(s: Slice, q: EndpointPort, e: Endpoint, text: string, ref: ServiceRef, p: SpecPort, b: BackendEndpoint) {
    && Belongs(ref, s) && q in s.ports && e in s.endpoints && text in e.addresses
    && Matches(p, q) && Ready(e)
    && CanonicalAddress(text) == Some(b.address) && q.port.value == b.port
  }

  ghost predicate Offered(ref: ServiceRef, p: SpecPort, slices: seq<Slice>, b: BackendEndpoint) {
    exists s, q, e, text :: s in slices && Offers(s, q, e, text, ref, p, b)
  }

  /** Offering, spelled out: a slice of the Service's own namespace labelled with its name, a matching port, an
      endpoint not known to be unready, and one of its addresses in canonical form. */
  lemma OffersIff(s: Slice, q: EndpointPort, e: Endpoint, text: string, ref: ServiceRef, p: SpecPort, b: BackendEndpoint)
    ensures Offers(s, q, e, text, ref, p, b) <==>
            && s.namespace == ref.namespace && s.serviceName == ref.name
            && q in s.ports && Matches(p, q) && q.port == Some(b.port)
            && e in s.endpoints && e.ready != Some(false) && text in e.addresses
            && Parse(TrimSpace(text)).Some? && b.address == Format(Parse(TrimSpace(text)).value)
  {}

  /** Whatever some slice offers is offered ... */
  lemma OfferedFrom(s: Slice, q: EndpointPort, e: Endpoint, text: string, ref: ServiceRef, p: SpecPort, a: Addr, slices: seq<Slice>)
    requires s in slices && s.namespace == ref.namespace && s.serviceName == ref.name
    requires q in s.ports && Matches(p, q) && e in s.endpoints && e.ready != Some(false)
    requires text in e.addresses && Parse(TrimSpace(text)) == Some(a)
    ensures q.port.Some? && Offered(ref, p, slices, BackendEndpoint(Format(a), q.port.value))
  {
    OffersIff(s, q, e, text, ref, p, BackendEndpoint(Format(a), q.port.value));
  }

  /** ... and nothing else is. */
  lemma OfferedBy(ref: ServiceRef, p: SpecPort, slices: seq<Slice>, b: BackendEndpoint)
    returns (s: Slice, q: EndpointPort, e: Endpoint, text: string)
    requires Offered(ref, p, slices, b)
    ensures s in slices && s.namespace == ref.namespace && s.serviceName == ref.name
    ensures q in s.ports && Matches(p, q) && q.port == Some(b.port) && e in s.endpoints && e.ready != Some(false)
    ensures text in e.addresses && Parse(TrimSpace(text)).Some? && b.address == Format(Parse(TrimSpace(text)).value)
  {
    s, q, e, text :| s in slices && Offers(s, q, e, text, ref, p, b);
    OffersIff(s, q, e, text, ref, p, b);
  }

  /** Every endpoint that any slice mentions. */
  ghost function Mentioned(slices: seq<Slice>): set<BackendEndpoint> {
    set s, q, e, text | s in slices && q in s.ports && e in s.endpoints && text in e.addresses
                        && q.port.Some? && CanonicalAddress(text).Some?
      :: BackendEndpoint(CanonicalAddress(text).value, q.port.value)
  }

  /** Exactly the ready IPv4 endpoints of matching slices and ports. */
  ghost function BackendSet(ref: ServiceRef, p: SpecPort, slices: seq<Slice>): set<BackendEndpoint> {
    set b | b in Mentioned(slices) && Offered(ref, p, slices, b)
  }

  lemma InBackendSet(ref: ServiceRef, p: SpecPort, slices: seq<Slice>, b: BackendEndpoint)
    ensures b in BackendSet(ref, p, slices) <==> Offered(ref, p, slices, b)
  {}

  ghost function Discovered(ref: ServiceRef, p: SpecPort, slices: seq<Slice>): PortBackends {
    PortBackends(p.name, NormalProtocol(p.protocol), p.port, p.targetPort,
                 InOrder(LeBackend, BackendSet(ref, p, slices)))
  }

  ghost function DiscoveredAll(ref: ServiceRef, ports: seq<SpecPort>, slices: seq<Slice>): (r: seq<PortBackends>)
    ensures |r| == |ports| && forall i :: 0 <= i < |ports| ==> r[i] == Discovered(ref, ports[i], slices)
  {
    seq(|ports|, i requires 0 <= i < |ports| => Discovered(ref, ports[i], slices))
  }

  // ---------------------------------------------------------------- independence of order

  datatype EndpointView = EndpointView(addresses: set<string>, ready: Option<bool>)

  datatype SliceView = SliceView(namespace: string, serviceName: string, ports: set<EndpointPort>, endpoints: set<EndpointView>)

  ghost function ViewOfEndpoint(e: Endpoint): EndpointView { EndpointView(Members(e.addresses), e.ready) }

  /** A slice with every order in it forgotten. */
  ghost function ViewOf(s: Slice): SliceView {
    SliceView(s.namespace, s.serviceName, Members(s.ports), set e | e in s.endpoints :: ViewOfEndpoint(e))
  }

  lemma OffersByView(s: Slice, t: Slice, q: EndpointPort, e: Endpoint, text: string, ref: ServiceRef, p: SpecPort, b: BackendEndpoint)
    requires ViewOf(s) == ViewOf(t) && Offers(s, q, e, text, ref, p, b)
    ensures exists e' :: Offers(t, q, e', text, ref, p, b)
  {
    assert q in Members(s.ports);
    assert ViewOfEndpoint(e) in ViewOf(s).endpoints;
    var e' :| e' in t.endpoints && ViewOfEndpoint(e') == ViewOfEndpoint(e);
    assert text in Members(e.addresses);
    assert Offers(t, q, e', text, ref, p, b);
  }

  /** The slices with their own order and all order inside them forgotten. */
  ghost function Views(slices: seq<Slice>): set<SliceView> {
    set s | s in slices :: ViewOf(s)
  }

  lemma OfferedByView(ref: ServiceRef, p: SpecPort, x: seq<Slice>, y: seq<Slice>, b: BackendEndpoint)
    requires Views(x) <= Views(y) && Offered(ref, p, x, b)
    ensures Offered(ref, p, y, b)
  {
    var s, q, e, text :| s in x && Offers(s, q, e, text, ref, p, b);
    assert ViewOf(s) in Views(y);
    var t :| t in y && ViewOf(t) == ViewOf(s);
    OffersByView(s, t, q, e, text, ref, p, b);
  }

  lemma BackendByView(ref: ServiceRef, p: SpecPort, x: seq<Slice>, y: seq<Slice>, b: BackendEndpoint)
    requires Views(x) <= Views(y) && b in BackendSet(ref, p, x)
    ensures b in BackendSet(ref, p, y)
  {
    InBackendSet(ref, p, x, b);
    OfferedByView(ref, p, x, y, b);
    InBackendSet(ref, p, y, b);
  }

  lemma BackendSetByView(ref: ServiceRef, p: SpecPort, x: seq<Slice>, y: seq<Slice>)
    requires Views(x) == Views(y)
    ensures BackendSet(ref, p, x) == BackendSet(ref, p, y)
  {
    var inX, inY := BackendSet(ref, p, x), BackendSet(ref, p, y);
    assert inX <= inY by {
      forall b | b in inX ensures b in inY { BackendByView(ref, p, x, y, b); }
    }
    assert inY <= inX by {
      forall b | b in inY ensures b in inX { BackendByView(ref, p, y, x, b); }
    }
  }

  /** Reordering or repeating slices, ports, endpoints or addresses does not change the result. */
  lemma DiscoveryIgnoresOrder(ref: ServiceRef, ports: seq<SpecPort>, x: seq<Slice>, y: seq<Slice>)
    requires Views(x) == Views(y)
    ensures DiscoveredAll(ref, ports, x) == DiscoveredAll(ref, ports, y)
  {
    forall i | 0 <= i < |ports| ensures DiscoveredAll(ref, ports, x)[i] == DiscoveredAll(ref, ports, y)[i] {
      BackendSetByView(ref, ports[i], x, y);
    }
  }

  /** The discovered list: strictly increasing, and exactly the offered endpoints. */
  lemma DiscoveredIsExact(ref: ServiceRef, p: SpecPort, slices: seq<Slice>)
    ensures var l := Discovered(ref, p, slices).backends;
            && Sorted(LeBackend, l) && Distinct(l)
            && forall b :: b in l <==> Offered(ref, p, slices, b)
  {
    LeBackendOrder();
    InOrderProperties(LeBackend, BackendSet(ref, p, slices));
    forall b ensures b in Discovered(ref, p, slices).backends <==> Offered(ref, p, slices, b) {
      InBackendSet(ref, p, slices, b);
    }
  }

  // ---------------------------------------------------------------- the duplicate filter

  function Key(b: BackendEndpoint): string { b.address + ":" + Decimal(b.port) }

  predicate Clean(b: BackendEndpoint) { ':' !in b.address && b.port > 0 }

  /** The key used to spot duplicates tells endpoints apart. */
  lemma KeyInjective(x: BackendEndpoint, y: BackendEndpoint)
    requires Clean(x) && Clean(y) && Key(x) == Key(y)
    ensures x == y
  {
    assert Key(x) == x.address + [':'] + Digits(x.port) && Key(y) == y.address + [':'] + Digits(y.port);
    FirstSeparator(x.address, Digits(x.port), y.address, Digits(y.port), ':');
    DigitsInjective(x.port, y.port);
  }

  /** What the filter and the list hold after collecting the endpoints in `s`. */
  ghost predicate Holds(seen: set<string>, list: seq<BackendEndpoint>, s: set<BackendEndpoint>) {
    && Distinct(list)
    && (forall b :: b in list <==> b in s)
    && (forall b :: b in s ==> Clean(b) && Key(b) in seen)
    && (forall k :: k in seen ==> exists b :: b in s && Key(b) == k)
  }

  lemma HoldsMore(seen: set<string>, list: seq<BackendEndpoint>, s: set<BackendEndpoint>, b: BackendEndpoint)
    requires Holds(seen, list, s) && Clean(b) && Key(b) !in seen
    ensures Holds(seen + {Key(b)}, list + [b], s + {b})
  {}

  lemma SeenMeansPresent(seen: set<string>, list: seq<BackendEndpoint>, s: set<BackendEndpoint>, b: BackendEndpoint)
    requires Holds(seen, list, s) && Clean(b) && Key(b) in seen
    ensures s + {b} == s
  {
    var x :| x in s && Key(x) == Key(b);
    KeyInjective(x, b);
  }

  // ---------------------------------------------------------------- the nested loops

  function AddressBackends(addresses: seq<string>, port: Int32): set<BackendEndpoint> {
    set t | t in addresses && CanonicalAddress(t).Some? :: BackendEndpoint(CanonicalAddress(t).value, port)
  }

  ghost function EndpointBackends(endpoints: seq<Endpoint>, port: Int32): set<BackendEndpoint> {
    set e, t | e in endpoints && Ready(e) && t in e.addresses && CanonicalAddress(t).Some?
      :: BackendEndpoint(CanonicalAddress(t).value, port)
  }

  ghost function PortsBackends(ports: seq<EndpointPort>, endpoints: seq<Endpoint>, p: SpecPort): set<BackendEndpoint> {
    set q, b | q in ports && Matches(p, q) && b in EndpointBackends(endpoints, q.port.value) :: b
  }

  ghost function SlicesBackends(ref: ServiceRef, slices: seq<Slice>, p: SpecPort): set<BackendEndpoint> {
    set s, b | s in slices && Belongs(ref, s) && b in PortsBackends(s.ports, s.endpoints, p) :: b
  }

  lemma AddressesAppend(addresses: seq<string>, t: string, port: Int32)
    ensures AddressBackends(addresses + [t], port) == AddressBackends(addresses, port)
            + (if CanonicalAddress(t).Some? then {BackendEndpoint(CanonicalAddress(t).value, port)} else {})
  {}

  lemma EndpointsAppend(endpoints: seq<Endpoint>, e: Endpoint, port: Int32)
    ensures EndpointBackends(endpoints + [e], port) == EndpointBackends(endpoints, port)
            + (if Ready(e) then AddressBackends(e.addresses, port) else {})
  {}

  lemma PortsAppend(ports: seq<EndpointPort>, q: EndpointPort, endpoints: seq<Endpoint>, p: SpecPort)
    ensures PortsBackends(ports + [q], endpoints, p) == PortsBackends(ports, endpoints, p)
            + (if Matches(p, q) then EndpointBackends(endpoints, q.port.value) else {})
  {}

  lemma SlicesAppend(ref: ServiceRef, slices: seq<Slice>, s: Slice, p: SpecPort)
    ensures SlicesBackends(ref, slices + [s], p) == SlicesBackends(ref, slices, p)
            + (if Belongs(ref, s) then PortsBackends(s.ports, s.endpoints, p) else {})
  {}

  /** The loops together visit exactly the specified endpoints. */
  lemma LoopsVisitAll(ref: ServiceRef, slices: seq<Slice>, p: SpecPort)
    ensures SlicesBackends(ref, slices, p) == BackendSet(ref, p, slices)
  {
    forall b ensures b in SlicesBackends(ref, slices, p) <==> b in BackendSet(ref, p, slices) {
      InBackendSet(ref, p, slices, b);
      if b in SlicesBackends(ref, slices, p) {
        VisitedIsOffered(ref, slices, p, b);
      }
      if Offered(ref, p, slices, b) {
        OfferedIsVisited(ref, slices, p, b);
      }
    }
  }

  lemma VisitedIsOffered(ref: ServiceRef, slices: seq<Slice>, p: SpecPort, b: BackendEndpoint)
    requires b in SlicesBackends(ref, slices, p)
    ensures Offered(ref, p, slices, b)
  {
    var s :| s in slices && Belongs(ref, s) && b in PortsBackends(s.ports, s.endpoints, p);
    var q :| q in s.ports && Matches(p, q) && b in EndpointBackends(s.endpoints, q.port.value);
    var e, t :| e in s.endpoints && Ready(e) && t in e.addresses && CanonicalAddress(t).Some?
                && b == BackendEndpoint(CanonicalAddress(t).value, q.port.value);
    assert Offers(s, q, e, t, ref, p, b);
  }

  lemma OfferedIsVisited(ref: ServiceRef, slices: seq<Slice>, p: SpecPort, b: BackendEndpoint)
    requires Offered(ref, p, slices, b)
    ensures b in SlicesBackends(ref, slices, p)
  {
    var s, q, e, t :| s in slices && Offers(s, q, e, t, ref, p, b);
    assert b == BackendEndpoint(CanonicalAddress(t).value, q.port.value);
    assert b in EndpointBackends(s.endpoints, q.port.value);
    assert b in PortsBackends(s.ports, s.endpoints, p);
  }

  lemma CanonicalClean(t: string, port: Int32)
    requires CanonicalAddress(t).Some? && port > 0
    ensures Clean(BackendEndpoint(CanonicalAddress(t).value, port))
  {
    FormatShape(Parse(TrimSpace(t)).value);
  }

  method CollectAddresses(addresses: seq<string>, port: Int32, seen0: set<string>, list0: seq<BackendEndpoint>,
                          ghost s: set<BackendEndpoint>)
    returns (seen: set<string>, list: seq<BackendEndpoint>)
    requires port > 0 && Holds(seen0, list0, s)
    ensures Holds(seen, list, s + AddressBackends(addresses, port))
  {
    seen, list := seen0, list0;
    assert s + AddressBackends(addresses[..0], port) == s;
    for i := 0 to |addresses|
      invariant Holds(seen, list, s + AddressBackends(addresses[..i], port))
    {
      ghost var now := s + AddressBackends(addresses[..i], port);
      Take(addresses, i);
      AddressesAppend(addresses[..i], addresses[i], port);
      var address := CanonicalAddress(addresses[i]);
      if address.None? {
        assert s + AddressBackends(addresses[..i + 1], port) == now;
        continue;
      }
      var backend := BackendEndpoint(address.value, port);
      CanonicalClean(addresses[i], port);
      assert s + AddressBackends(addresses[..i + 1], port) == now + {backend};
      if Key(backend) in seen {
        SeenMeansPresent(seen, list, now, backend);
        continue;
      }
      HoldsMore(seen, list, now, backend);
      seen := seen + {Key(backend)};
      list := list + [backend];
    }
    TakeAll(addresses);
  }

  method CollectEndpoints(endpoints: seq<Endpoint>, port: Int32, seen0: set<string>, list0: seq<BackendEndpoint>,
                          ghost s: set<BackendEndpoint>)
    returns (seen: set<string>, list: seq<BackendEndpoint>)
    requires port > 0 && Holds(seen0, list0, s)
    ensures Holds(seen, list, s + EndpointBackends(endpoints, port))
  {
    seen, list := seen0, list0;
    assert s + EndpointBackends(endpoints[..0], port) == s;
    for i := 0 to |endpoints|
      invariant Holds(seen, list, s + EndpointBackends(endpoints[..i], port))
    {
      ghost var now := s + EndpointBackends(endpoints[..i], port);
      Take(endpoints, i);
      EndpointsAppend(endpoints[..i], endpoints[i], port);
      if !Ready(endpoints[i]) {
        assert s + EndpointBackends(endpoints[..i + 1], port) == now;
        continue;
      }
      seen, list := CollectAddresses(endpoints[i].addresses, port, seen, list, now);
      assert s + EndpointBackends(endpoints[..i + 1], port) == now + AddressBackends(endpoints[i].addresses, port);
    }
    TakeAll(endpoints);
  }

  method CollectPorts(slice: Slice, p: SpecPort, seen0: set<string>, list0: seq<BackendEndpoint>,
                      ghost s: set<BackendEndpoint>)
    returns (seen: set<string>, list: seq<BackendEndpoint>)
    requires Holds(seen0, list0, s)
    ensures Holds(seen, list, s + PortsBackends(slice.ports, slice.endpoints, p))
  {
    seen, list := seen0, list0;
    assert s + PortsBackends(slice.ports[..0], slice.endpoints, p) == s;
    for i := 0 to |slice.ports|
      invariant Holds(seen, list, s + PortsBackends(slice.ports[..i], slice.endpoints, p))
    {
      ghost var now := s + PortsBackends(slice.ports[..i], slice.endpoints, p);
      var q := slice.ports[i];
      Take(slice.ports, i);
      PortsAppend(slice.ports[..i], q, slice.endpoints, p);
      if !Matches(p, q) {
        assert s + PortsBackends(slice.ports[..i + 1], slice.endpoints, p) == now;
        continue;
      }
      seen, list := CollectEndpoints(slice.endpoints, q.port.value, seen, list, now);
      assert s + PortsBackends(slice.ports[..i + 1], slice.endpoints, p)
          == now + EndpointBackends(slice.endpoints, q.port.value);
    }
    TakeAll(slice.ports);
  }

  method CollectSlices(ref: ServiceRef, p: SpecPort, slices: seq<Slice>) returns (list: seq<BackendEndpoint>)
    ensures Distinct(list) && forall b :: b in list <==> b in BackendSet(ref, p, slices)
  {
    var seen: set<string> := {};
    list := [];
    assert SlicesBackends(ref, slices[..0], p) == {};
    for i := 0 to |slices|
      invariant Holds(seen, list, SlicesBackends(ref, slices[..i], p))
    {
      Take(slices, i);
      SlicesAppend(ref, slices[..i], slices[i], p);
      if !Belongs(ref, slices[i]) {
        assert SlicesBackends(ref, slices[..i + 1], p) == SlicesBackends(ref, slices[..i], p);
        continue;
      }
      seen, list := CollectPorts(slices[i], p, seen, list, SlicesBackends(ref, slices[..i], p));
    }
    TakeAll(slices);
    LoopsVisitAll(ref, slices, p);
  }

  /** For each Service port, its backends. */
  method Discover(service: Svc, slices: seq<Slice>) returns (discovered: seq<PortBackends>)
    ensures discovered == DiscoveredAll(service.ref, service.ports, slices)
  {
    discovered := [];
    for i := 0 to |service.ports|
      invariant |discovered| == i
      invariant forall k :: 0 <= k < i ==> discovered[k] == Discovered(service.ref, service.ports[k], slices)
    {
      var p := service.ports[i];
      var list := CollectSlices(service.ref, p, slices);
      LeBackendOrder();
      SortedEnumeration(LeBackend, list, BackendSet(service.ref, p, slices));
      discovered := discovered + [PortBackends(p.name, NormalProtocol(p.protocol), p.port, p.targetPort, Sort(LeBackend, list))];
    }
  }
}
