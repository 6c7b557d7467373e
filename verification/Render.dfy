/** Validation of provider state and generation of the HAProxy configuration text. */
module Render {
  import opened Text
  import IPv4
  import opened Sorting
  import opened Model
  import opened Normalize
  import opened DesiredStore
  import opened Identifiers

  // ---------------------------------------------------------------- validation

  predicate SupportedProtocol(protocol: string) {
    var t := TrimSpace(protocol);
    t == "" || ToLower(t) == "tcp"
  }

  predicate ValidBackend(b: BackendEndpoint) {
    IPv4.Parse(b.address).Some? && b.port > 0
  }

  predicate ValidPort(p: ServicePort) {
    && SupportedProtocol(p.protocol)
    && p.port > 0
    && forall b :: b in p.backends ==> ValidBackend(b)
  }

  predicate ValidService(s: Service) {
    && !Blank(s.namespace)
    && !Blank(s.name)
    && IPv4.Parse(s.externalIP).Some?
    && forall p :: p in s.ports ==> ValidPort(p)
  }

  datatype ValidationError =
    | BlankNamespace
    | BlankName
    | BadExternalIP(text: string)
    | UnsupportedProtocol(protocol: string)
    | BadPort(port: Int32)
    | BadBackendAddress(text: string)
    | BadBackendPort(port: Int32)

  predicate ValidHead(p: ServicePort) { SupportedProtocol(p.protocol) && p.port > 0 }

  /** Backend `j` is the first bad one of the port. */
  ghost predicate FirstBadBackend(p: ServicePort, j: nat) {
    j < |p.backends| && !ValidBackend(p.backends[j]) && forall k :: 0 <= k < j ==> ValidBackend(p.backends[k])
  }

  /** `e` is the first fault of the port, in the order of the checks. */
  ghost predicate FirstPortFault(p: ServicePort, e: ValidationError) {
    match e
    case UnsupportedProtocol(t) => t == p.protocol && !SupportedProtocol(t)
    case BadPort(n) => SupportedProtocol(p.protocol) && n == p.port && n <= 0
    case BadBackendAddress(t) =>
      ValidHead(p) && exists j: nat :: FirstBadBackend(p, j) && p.backends[j].address == t && IPv4.Parse(t).None?
    case BadBackendPort(n) =>
      ValidHead(p) && exists j: nat :: FirstBadBackend(p, j) && p.backends[j].port == n && IPv4.Parse(p.backends[j].address).Some?
    case _ => false
  }

  /** Port `i` is the first bad one of the Service. */
  ghost predicate FirstBadPort(s: Service, i: nat) {
    i < |s.ports| && !ValidPort(s.ports[i]) && forall k :: 0 <= k < i ==> ValidPort(s.ports[k])
  }

  /** `e` is the first fault of the Service, in the order of the checks. */
  ghost predicate FirstFault(s: Service, e: ValidationError) {
    match e
    case BlankNamespace => Blank(s.namespace)
    case BlankName => !Blank(s.namespace) && Blank(s.name)
    case BadExternalIP(t) => !Blank(s.namespace) && !Blank(s.name) && t == s.externalIP && IPv4.Parse(t).None?
    case _ =>
      && !Blank(s.namespace) && !Blank(s.name) && IPv4.Parse(s.externalIP).Some?
      && exists i: nat :: FirstBadPort(s, i) && FirstPortFault(s.ports[i], e)
  }

  lemma FirstPortFaultUnique(p: ServicePort, d: ValidationError, e: ValidationError)
    requires FirstPortFault(p, d) && FirstPortFault(p, e)
    ensures d == e
  {
    assert forall i: nat, j: nat :: FirstBadBackend(p, i) && FirstBadBackend(p, j) ==> i == j;
  }

  predicate Named(e: ValidationError) { e.BlankNamespace? || e.BlankName? || e.BadExternalIP? }

  /** There is only one first fault. */
  lemma FirstFaultUnique(s: Service, d: ValidationError, e: ValidationError)
    requires FirstFault(s, d) && FirstFault(s, e)
    ensures d == e
  {
    if !Named(d) && !Named(e) {
      var i: nat :| FirstBadPort(s, i) && FirstPortFault(s.ports[i], d);
      var j: nat :| FirstBadPort(s, j) && FirstPortFault(s.ports[j], e);
      assert i == j;
      FirstPortFaultUnique(s.ports[i], d, e);
    }
  }

  method ValidatePort(port: ServicePort) returns (e: Option<ValidationError>)
    ensures e.None? <==> ValidPort(port)
    ensures e.Some? ==> FirstPortFault(port, e.value)
  {
    if ToLower(TrimSpace(port.protocol)) != "tcp" && TrimSpace(port.protocol) != "" {
      return Some(UnsupportedProtocol(port.protocol));
    }
    if port.port <= 0 {
      return Some(BadPort(port.port));
    }
    for j := 0 to |port.backends|
      invariant forall k :: 0 <= k < j ==> ValidBackend(port.backends[k])
    {
      var backend := port.backends[j];
      assert backend in port.backends;
      if IPv4.Parse(backend.address).None? {
        assert FirstBadBackend(port, j);
        return Some(BadBackendAddress(backend.address));
      }
      if backend.port <= 0 {
        assert FirstBadBackend(port, j);
        return Some(BadBackendPort(backend.port));
      }
    }
    return None;
  }

  /** Reports the first fault of the Service, or none exactly when it is valid. */
  method ValidateService(s: Service) returns (e: Option<ValidationError>)
    ensures e.None? <==> ValidService(s)
    ensures e.Some? ==> FirstFault(s, e.value)
  {
    TrimSpaceBlank(s.namespace);
    TrimSpaceBlank(s.name);
    if TrimSpace(s.namespace) == "" {
      return Some(BlankNamespace);
    }
    if TrimSpace(s.name) == "" {
      return Some(BlankName);
    }
    if IPv4.Parse(s.externalIP).None? {
      return Some(BadExternalIP(s.externalIP));
    }
    for i := 0 to |s.ports|
      invariant forall k :: 0 <= k < i ==> ValidPort(s.ports[k])
    {
      e := ValidatePort(s.ports[i]);
      assert s.ports[i] in s.ports;
      if e.Some? {
        assert FirstBadPort(s, i);
        return;
      }
    }
    return None;
  }

  /** Acceptance does not depend on the order of ports or backends. */
  lemma ValidityRespectsBag(s: Service, t: Service)
    requires BagOf(s) == BagOf(t) && ValidService(s)
    ensures ValidService(t)
  {
    MultisetMember(Map(BagOfPort, s.ports), Map(BagOfPort, t.ports));
    forall q | q in t.ports ensures ValidPort(q) {
      var j :| 0 <= j < |t.ports| && t.ports[j] == q;
      assert Map(BagOfPort, t.ports)[j] in Map(BagOfPort, s.ports);
      var i :| 0 <= i < |s.ports| && Map(BagOfPort, s.ports)[i] == BagOfPort(q);
      var p := s.ports[i];
      assert ValidPort(p) && KeyOf(p) == KeyOf(q);
      MultisetMember(p.backends, q.backends);
    }
  }

  lemma ValidNormalized(s: Service)
    ensures ValidService(Normalized(s)) <==> ValidService(s)
  {
    NormalizedIsNormalForm(s);
    if ValidService(s) {
      ValidityRespectsBag(s, Normalized(s));
    }
    if ValidService(Normalized(s)) {
      ValidityRespectsBag(Normalized(s), s);
    }
  }

  // ---------------------------------------------------------------- text

  const HEADER_LINES: seq<string> := [
    "# Managed by k8s-lb-controller. DO NOT EDIT.",
    "global",
    "    maxconn 2048",
    "",
    "defaults",
    "    mode tcp",
    "    timeout connect 5s",
    "    timeout client 30s",
    "    timeout server 30s"]

  const BOOTSTRAP_LINES: seq<string> := [
    "",
    "# Bootstrap listener keeps HAProxy runnable " + "before the first managed Service exists.",
    "frontend fe_bootstrap_loopback",
    "    bind 127.0.0.2:65535",
    "    mode http",
    "    http-request return status 204"]

  /** Every line followed by a line feed. */
  function Unlines(lines: seq<string>): string {
    if lines == [] then "" else lines[0] + "\n" + Unlines(lines[1..])
  }

  lemma {:induction false} UnlinesConcat(a: seq<string>, b: seq<string>)
    ensures Unlines(a + b) == Unlines(a) + Unlines(b)
  {
    if a == [] {
      assert a + b == b;
    } else {
      UnlinesConcat(a[1..], b);
      assert (a + b)[1..] == a[1..] + b;
      Assoc(a[0] + "\n", Unlines(a[1..]), Unlines(b));
    }
  }

  function Endpoint(address: string, port: Int32): string { address + ":" + Decimal(port) }

  function ServerLine(index: nat, b: BackendEndpoint): string {
    "    server " + ServerName(index, b) + " " + Endpoint(b.address, b.port)
  }

  /** The line "    server srv_unavailable 127.0.0.1:1 disabled". */
  const UNAVAILABLE_LINE: string :=
    "    server " + ("srv_unavailable" + [' '] + ("127.0.0.1:1" + [' '] + "disabled"))

  function ServerLines(backends: seq<BackendEndpoint>): seq<string> {
    if backends == [] then [UNAVAILABLE_LINE]
    else seq(|backends|, i requires 0 <= i < |backends| => ServerLine(i, backends[i]))
  }

  function SectionLines(s: Service, p: ServicePort): seq<string> {
    var parts := PartsOf(s, p);
    [ "",
      "frontend " + FrontendName(parts),
      "    bind " + Endpoint(s.externalIP, p.port),
      "    mode tcp",
      "    default_backend " + BackendName(parts),
      "",
      "backend " + BackendName(parts),
      "    mode tcp",
      "    balance roundrobin" ]
  }

  function PortLines(s: Service, p: ServicePort): seq<string> {
    SectionLines(s, p) + ServerLines(p.backends)
  }

  function PortsLines(s: Service, ports: seq<ServicePort>): seq<string> {
    if ports == [] then [] else PortLines(s, ports[0]) + PortsLines(s, ports[1..])
  }

  function ListLines(list: seq<Service>): seq<string> {
    if list == [] then [] else PortsLines(list[0], list[0].ports) + ListLines(list[1..])
  }

  ghost predicate AllValid(list: seq<Service>) {
    forall s :: s in list ==> ValidService(s)
  }

  /** The text for Services already in order. */
  ghost function RenderedList(list: seq<Service>): Result<string> {
    if AllValid(list) then Ok(Unlines(HEADER_LINES + ListLines(list))) else Err
  }

  const EMPTY_CONFIG: string := Unlines(HEADER_LINES + BOOTSTRAP_LINES)

  /** Upserting the Services one by one into an empty store. */
  function FromSlice(services: seq<Service>): Services {
    if services == [] then map[]
    else Upserted(FromSlice(services[..|services| - 1]), services[|services| - 1])
  }

  ghost function Rendered(services: seq<Service>): Result<string> {
    if services == [] then Ok(EMPTY_CONFIG) else RenderedList(Listed(FromSlice(services)))
  }

  // ---------------------------------------------------------------- the text builder

  lemma {:induction false} PortsLinesAppend(s: Service, a: seq<ServicePort>, p: ServicePort)
    ensures PortsLines(s, a + [p]) == PortsLines(s, a) + PortLines(s, p)
  {
    if a == [] {
      assert [p][1..] == [] && a + [p] == [p];
      TakeNothing(PortLines(s, p), PortLines(s, p));
    } else {
      PortsLinesAppend(s, a[1..], p);
      assert (a + [p])[1..] == a[1..] + [p];
      Assoc(PortLines(s, a[0]), PortsLines(s, a[1..]), PortLines(s, p));
    }
  }

  lemma {:induction false} ListLinesAppend(a: seq<Service>, s: Service)
    ensures ListLines(a + [s]) == ListLines(a) + PortsLines(s, s.ports)
  {
    if a == [] {
      assert [s][1..] == [] && a + [s] == [s];
      TakeNothing(PortsLines(s, s.ports), PortsLines(s, s.ports));
    } else {
      ListLinesAppend(a[1..], s);
      assert (a + [s])[1..] == a[1..] + [s];
      Assoc(PortsLines(a[0], a[0].ports), ListLines(a[1..]), PortsLines(s, s.ports));
    }
  }

  /** Writes one line and its line feed to the text built so far. */
  method WriteLine(text: string, ghost lines: seq<string>, line: string) returns (builder: string)
    requires text == Unlines(lines)
    ensures builder == Unlines(lines + [line])
  {
    builder := text + line;
    builder := builder + "\n";
    UnlinesConcat(lines, [line]);
    assert [line][1..] == [];
    assert Unlines([line]) == line + "\n";
  }

  /** One frontend and the head of its backend. */
  method WriteSection(text: string, ghost lines: seq<string>, service: Service, port: ServicePort) returns (builder: string)
    requires text == Unlines(lines)
    ensures builder == Unlines(lines + SectionLines(service, port))
  {
    var suffix := SanitizeIdentifier(Suffix(PartsOf(service, port)));
    var backendName := "be_" + suffix;
    var frontendName := "fe_" + suffix;
    ghost var l := SectionLines(service, port);
    builder := text;
    TakeNothing(lines, l);
    builder := WriteLine(builder, lines, "");
    TakeAfter(lines, l, 0);
    builder := WriteLine(builder, lines + l[..1], "frontend " + frontendName);
    TakeAfter(lines, l, 1);
    builder := WriteLine(builder, lines + l[..2], "    bind " + Endpoint(service.externalIP, port.port));
    TakeAfter(lines, l, 2);
    builder := WriteLine(builder, lines + l[..3], "    mode tcp");
    TakeAfter(lines, l, 3);
    builder := WriteLine(builder, lines + l[..4], "    default_backend " + backendName);
    TakeAfter(lines, l, 4);
    builder := WriteLine(builder, lines + l[..5], "");
    TakeAfter(lines, l, 5);
    builder := WriteLine(builder, lines + l[..6], "backend " + backendName);
    TakeAfter(lines, l, 6);
    builder := WriteLine(builder, lines + l[..7], "    mode tcp");
    TakeAfter(lines, l, 7);
    builder := WriteLine(builder, lines + l[..8], "    balance roundrobin");
    TakeAfter(lines, l, 8);
    TakeAll(l);
  }

  method WriteServers(text: string, ghost lines: seq<string>, port: ServicePort) returns (builder: string)
    requires text == Unlines(lines)
    ensures builder == Unlines(lines + ServerLines(port.backends))
  {
    builder := text;
    if |port.backends| == 0 {
      builder := WriteLine(builder, lines, UNAVAILABLE_LINE);
      return;
    }
    ghost var l := ServerLines(port.backends);
    TakeNothing(lines, l);
    var index := 0;
    while index < |port.backends|
      invariant 0 <= index <= |port.backends|
      invariant builder == Unlines(lines + l[..index])
    {
      var backend := port.backends[index];
      var name := SanitizeIdentifier("srv_" + Padded(index + 1) + "_" + backend.address + "_" + Decimal(backend.port));
      builder := WriteLine(builder, lines + l[..index], "    server " + name + " " + Endpoint(backend.address, backend.port));
      TakeAfter(lines, l, index);
      index := index + 1;
    }
    TakeAll(l);
  }

  method WriteService(text: string, ghost lines: seq<string>, service: Service) returns (builder: string)
    requires text == Unlines(lines)
    ensures builder == Unlines(lines + PortsLines(service, service.ports))
  {
    builder := text;
    TakeNothing(lines, PortsLines(service, []));
    TakeNothing([], service.ports);
    for j := 0 to |service.ports|
      invariant builder == Unlines(lines + PortsLines(service, service.ports[..j]))
    {
      var port := service.ports[j];
      ghost var done := lines + PortsLines(service, service.ports[..j]);
      builder := WriteSection(builder, done, service, port);
      builder := WriteServers(builder, done + SectionLines(service, port), port);
      PortsLinesAppend(service, service.ports[..j], port);
      Take(service.ports, j);
      Assoc(done, SectionLines(service, port), ServerLines(port.backends));
      Assoc(lines, PortsLines(service, service.ports[..j]), PortLines(service, port));
    }
    TakeAll(service.ports);
  }

  method SortedServiceListFromSlice(services: seq<Service>) returns (list: seq<Service>)
    ensures list == Listed(FromSlice(services))
  {
    var store := new Store();
    var i := 0;
    while i < |services|
      invariant 0 <= i <= |services| && store.Valid()
      invariant store.services == FromSlice(services[..i])
    {
      store.Upsert(services[i]);
      assert services[..i + 1][..i] == services[..i];
      i := i + 1;
    }
    assert services[..i] == services;
    list := store.List();
  }

  lemma {:induction false} FromSliceNormalizes(services: seq<Service>, normalized: seq<Service>)
    requires normalized == Map(Normalized, services)
    ensures FromSlice(normalized) == FromSlice(services)
  {
    if services != [] {
      var n := |services| - 1;
      assert normalized[..n] == Map(Normalized, services[..n]);
      FromSliceNormalizes(services[..n], normalized[..n]);
      NormalizedIdempotent(services[n]);
    }
  }

  method NormalizeAll(services: seq<Service>) returns (normalized: seq<Service>)
    ensures normalized == Map(Normalized, services)
  {
    normalized := [];
    for i := 0 to |services|
      invariant normalized == Map(Normalized, services[..i])
    {
      var n := NormalizeService(services[i]);
      assert services[..i + 1] == services[..i] + [services[i]];
      normalized := normalized + [n];
    }
    assert services[..|services|] == services;
  }

  /** Produces the configuration, or an error when some Service is invalid. */
  method RenderConfig(services: seq<Service>) returns (r: Result<string>)
    ensures r == Rendered(services)
  {
    var sortedServices := NormalizeAll(services);
    FromSliceNormalizes(services, sortedServices);

    if |sortedServices| == 0 {
      var empty := Unlines(HEADER_LINES);
      UnlinesConcat(HEADER_LINES, BOOTSTRAP_LINES);
      return Ok(empty + Unlines(BOOTSTRAP_LINES));
    }

    var list := SortedServiceListFromSlice(sortedServices);
    r := RenderSorted(list);
  }

  lemma AllValidTake(list: seq<Service>, i: nat)
    requires i < |list| && AllValid(list[..i])
    ensures AllValid(list[..i + 1]) <==> ValidService(list[i])
    ensures !ValidService(list[i]) ==> !AllValid(list)
  {}

  method RenderSorted(list: seq<Service>) returns (r: Result<string>)
    ensures r == RenderedList(list)
  {
    var builder := Unlines(HEADER_LINES);
    TakeNothing([], list);
    TakeNothing(HEADER_LINES, ListLines([]));
    for i := 0 to |list|
      invariant AllValid(list[..i])
      invariant builder == Unlines(HEADER_LINES + ListLines(list[..i]))
    {
      AllValidTake(list, i);
      var invalid := ValidateService(list[i]);
      if invalid.Some? {
        return Err;
      }
      builder := WriteService(builder, HEADER_LINES + ListLines(list[..i]), list[i]);
      ListLinesAppend(list[..i], list[i]);
      Take(list, i);
      Assoc(HEADER_LINES, ListLines(list[..i]), PortsLines(list[i], list[i].ports));
    }
    TakeAll(list);
    return Ok(builder);
  }

  /** The protocol is blank or, up to case and surrounding white space, "tcp"; everything else is refused. */
  lemma SupportedProtocolIff(protocol: string)
    ensures SupportedProtocol(protocol) <==>
            var t := TrimSpace(protocol);
            || t == ""
            || (|t| == 3 && (t[0] == 't' || t[0] == 'T') && (t[1] == 'c' || t[1] == 'C') && (t[2] == 'p' || t[2] == 'P'))
  {}

  /** What makes a Service acceptable, spelled out. */
  lemma ValidIff(s: Service)
    ensures ValidService(s) <==>
            && !Blank(s.namespace) && !Blank(s.name) && IPv4.Parse(s.externalIP).Some?
            && (forall p :: p in s.ports ==> SupportedProtocol(p.protocol) && p.port > 0)
            && (forall p, b :: p in s.ports && b in p.backends ==> IPv4.Parse(b.address).Some? && b.port > 0)
  {}
}
