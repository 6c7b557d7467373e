/** Whole configuration texts that the repository's own tests and constants promise. */
module Golden {
  import opened Text
  import opened IPv4
  import opened Sorting
  import opened Model
  import opened Normalize
  import opened DesiredStore
  import opened Identifiers
  import opened Render
  import opened RenderOrder

  // ---------------------------------------------------------------- the Service of the test

  const FIRST := BackendEndpoint("10.0.0.1", 8080)
  const SECOND := BackendEndpoint("10.0.0.2", 8080)

  function PortWith(backends: seq<BackendEndpoint>): ServicePort {
    ServicePort("http", "TCP", 80, "", backends)
  }

  function DemoWith(backends: seq<BackendEndpoint>): Service {
    Service("default", "demo", "", "203.0.113.10", [PortWith(backends)])
  }

  lemma BackendsSort()
    ensures Sort(LeBackend, [SECOND, FIRST]) == [FIRST, SECOND]
  {
    var x, y := "10.0.0.1", "10.0.0.2";
    assert LeString(x, y) by {
      LeStringIff(x, y);
      assert x[..7] == y[..7] && x[7] < y[7];
    }
    assert x[7] != y[7];
    LeBackendOrder();
    assert LeBackend(FIRST, SECOND) && !LeBackend(SECOND, FIRST);
    assert [SECOND, FIRST][1..] == [FIRST] && [FIRST][1..] == [];
    assert Sort(LeBackend, []) == [];
    assert Sort(LeBackend, [FIRST]) == [FIRST];
    assert Sort(LeBackend, [SECOND, FIRST]) == Insert(LeBackend, SECOND, [FIRST]);
    assert Insert(LeBackend, SECOND, []) == [SECOND];
  }

  lemma DemoNormalizes()
    ensures Normalized(DemoWith([SECOND, FIRST])) == DemoWith([FIRST, SECOND])
  {
    BackendsSort();
    var p := PortWith([SECOND, FIRST]);
    assert [p][1..] == [];
    assert Sort(LePort, []) == [];
    assert Sort(LePort, [p]) == [p];
    assert NormalizePort(p) == PortWith([FIRST, SECOND]);
  }

  lemma OneListed(s: Service)
    ensures Listed(FromSlice([s])) == [Normalized(s)]
  {
    var m := map[s.Ref() := Normalized(s)];
    FromSliceOne(s);
    NormalizedIdempotent(s);
    ListedHolds(m, s.Ref());
    assert m.Keys == {s.Ref()};
    assert |Listed(m)| == 1;
  }

  // ---------------------------------------------------------------- its names

  lemma Written()
    ensures Decimal(80) == "80" && Decimal(8080) == "8080" && Padded(1) == "0001" && Padded(2) == "0002"
  {
    assert Digits(8) == "8" && Digits(80) == "80" && Digits(808) == "808" && Digits(8080) == "8080";
    assert Digits(1) == "1" && Digits(2) == "2";
  }

  predicate Settled(s: string) {
    s != [] && s[0] != '_' && s[|s| - 1] != '_' && forall i :: 0 <= i < |s| ==> Alnum(s[i]) || s[i] == '_'
  }

  lemma PlainStays(s: string)
    requires Settled(s)
    ensures Sanitized(s) == s
  {
    assert Mangle(s) == s;
    assert TrimUnderscoreLeft(s) == s && TrimUnderscoreRight(s) == s;
  }

  lemma NamesFrom(p: NameParts, suffix: string)
    requires Suffix(p) == suffix && Settled(suffix)
    ensures FrontendName(p) == "fe_" + suffix && BackendName(p) == "be_" + suffix
  {
    PlainStays(suffix);
  }

  lemma DemoPlain()
    ensures Settled("default_demo_80_http_tcp")
  {}

  lemma JoinFive(a: string, b: string, c: string, d: string, e: string)
    ensures Join([a, b, c, d, e], '_') == a + "_" + (b + "_" + (c + "_" + (d + "_" + e)))
  {
    var parts := [a, b, c, d, e];
    assert parts[1..] == [b, c, d, e];
    assert parts[1..][1..] == [c, d, e];
    assert parts[1..][1..][1..] == [d, e];
    assert parts[1..][1..][1..][1..] == [e];
    assert Join([e], '_') == e;
    assert Join([d, e], '_') == d + "_" + e;
    assert Join([c, d, e], '_') == c + "_" + (d + "_" + e);
    assert Join([b, c, d, e], '_') == b + "_" + (c + "_" + (d + "_" + e));
  }

  lemma DemoJoined(s: string)
    requires s == "default" + "_" + ("demo" + "_" + ("80" + "_" + ("http" + "_" + "TCP")))
    ensures s == "default_demo_80_http_TCP"
  {
    assert "http" + "_" + "TCP" == "http_TCP";
    assert "80" + "_" + "http_TCP" == "80_http_TCP";
    assert "demo" + "_" + "80_http_TCP" == "demo_80_http_TCP";
  }

  lemma DemoLower()
    ensures ToLower("default_demo_80_http_TCP") == "default_demo_80_http_tcp"
  {}

  lemma DemoSuffix(p: NameParts)
    requires p == NameParts("default", "demo", 80, "http", "TCP")
    ensures Suffix(p) == "default_demo_80_http_tcp"
  {
    Written();
    JoinFive(p.namespace, p.name, Decimal(p.port), p.portName, p.protocol);
    DemoJoined(Join([p.namespace, p.name, Decimal(p.port), p.portName, p.protocol], '_'));
    DemoLower();
  }

  const DEMO_PARTS := NameParts("default", "demo", 80, "http", "TCP")

  lemma DemoNames()
    ensures FrontendName(DEMO_PARTS) == "fe_" + "default_demo_80_http_tcp"
    ensures BackendName(DEMO_PARTS) == "be_" + "default_demo_80_http_tcp"
  {
    DemoSuffix(DEMO_PARTS);
    DemoPlain();
    NamesFrom(DEMO_PARTS, "default_demo_80_http_tcp");
  }

  lemma ServerNameFrom(index: nat, b: BackendEndpoint, padded: string, text: string, rest: string)
    requires Padded(index + 1) == padded && text == b.address + "_" + Decimal(b.port) && Mangle(text) == rest
    ensures ServerName(index, b) == "srv_" + (padded + "_" + rest)
  {
    ServerNameShape(index, b);
  }

  lemma MangledEndpoints()
    ensures Mangle("10.0.0.1_8080") == "10_0_0_1_8080" && Mangle("10.0.0.2_8080") == "10_0_0_2_8080"
  {}

  lemma ServerNames()
    ensures ServerName(0, FIRST) == "srv_" + ("0001" + "_" + "10_0_0_1_8080")
    ensures ServerName(1, SECOND) == "srv_" + ("0002" + "_" + "10_0_0_2_8080")
  {
    Written();
    MangledEndpoints();
    ServerNameFrom(0, FIRST, "0001", "10.0.0.1_8080", "10_0_0_1_8080");
    ServerNameFrom(1, SECOND, "0002", "10.0.0.2_8080", "10_0_0_2_8080");
  }

  // ---------------------------------------------------------------- the texts

  lemma FrontendText(name: string)
    requires name == "fe_" + "default_demo_80_http_tcp"
    ensures name == "fe_default_demo_80_http_tcp"
  {}

  lemma FrontendLineText(name: string)
    requires name == "fe_default_demo_80_http_tcp"
    ensures "frontend " + name == "frontend fe_default_demo_80_http_tcp"
  {}

  lemma BindLine()
    ensures "    bind " + Endpoint("203.0.113.10", 80) == "    bind 203.0.113.10:80"
  {
    Written();
    assert "    bind " + ("203.0.113.10" + ":" + "80") == "    bind 203.0.113.10:80";
  }

  lemma BackendText(name: string)
    requires name == "be_" + "default_demo_80_http_tcp"
    ensures name == "be_default_demo_80_http_tcp"
  {}

  lemma UsesText(name: string)
    requires name == "be_default_demo_80_http_tcp"
    ensures "    default_backend " + name == "    default_backend be_default_demo_80_http_tcp"
  {}

  lemma BackendLineText(name: string)
    requires name == "be_default_demo_80_http_tcp"
    ensures "backend " + name == "backend be_default_demo_80_http_tcp"
  {}

  lemma SectionFrom(s: Service, p: ServicePort, frontend: string, bind: string, uses: string, backend: string)
    requires frontend == "frontend " + FrontendName(PartsOf(s, p)) && bind == "    bind " + Endpoint(s.externalIP, p.port)
    requires uses == "    default_backend " + BackendName(PartsOf(s, p)) && backend == "backend " + BackendName(PartsOf(s, p))
    ensures SectionLines(s, p) ==
            ["", frontend, bind, "    mode tcp", uses, "", backend, "    mode tcp", "    balance roundrobin"]
  {}

  lemma DemoSection(s: Service, p: ServicePort)
    requires PartsOf(s, p) == DEMO_PARTS && s.externalIP == "203.0.113.10" && p.port == 80
    ensures SectionLines(s, p) ==
            [ "",
              "frontend fe_default_demo_80_http_tcp",
              "    bind 203.0.113.10:80",
              "    mode tcp",
              "    default_backend be_default_demo_80_http_tcp",
              "",
              "backend be_default_demo_80_http_tcp",
              "    mode tcp",
              "    balance roundrobin" ]
  {
    DemoNames();
    FrontendText(FrontendName(PartsOf(s, p)));
    FrontendLineText(FrontendName(PartsOf(s, p)));
    BindLine();
    BackendText(BackendName(PartsOf(s, p)));
    UsesText(BackendName(PartsOf(s, p)));
    BackendLineText(BackendName(PartsOf(s, p)));
    SectionFrom(s, p, "frontend fe_default_demo_80_http_tcp", "    bind 203.0.113.10:80",
                "    default_backend be_default_demo_80_http_tcp", "backend be_default_demo_80_http_tcp");
  }

  lemma FirstServerText(name: string, at: string)
    requires name == "srv_" + ("0001" + "_" + "10_0_0_1_8080") && at == "10.0.0.1" + ":" + "8080"
    ensures "    server " + name + " " + at == "    server srv_0001_10_0_0_1_8080 10.0.0.1:8080"
  {}

  lemma SecondServerText(name: string, at: string)
    requires name == "srv_" + ("0002" + "_" + "10_0_0_2_8080") && at == "10.0.0.2" + ":" + "8080"
    ensures "    server " + name + " " + at == "    server srv_0002_10_0_0_2_8080 10.0.0.2:8080"
  {}

  lemma DemoServerLines(x: BackendEndpoint, y: BackendEndpoint)
    requires x == FIRST && y == SECOND
    ensures ServerLine(0, x) == "    server srv_0001_10_0_0_1_8080 10.0.0.1:8080"
    ensures ServerLine(1, y) == "    server srv_0002_10_0_0_2_8080 10.0.0.2:8080"
  {
    ServerNames();
    Written();
    FirstServerText(ServerName(0, x), Endpoint(x.address, x.port));
    SecondServerText(ServerName(1, y), Endpoint(y.address, y.port));
  }

  lemma TwoServers(x: BackendEndpoint, y: BackendEndpoint)
    ensures ServerLines([x, y]) == [ServerLine(0, x), ServerLine(1, y)]
  {}

  lemma TextOf(a: Octet, b: Octet, c: Octet, d: Octet, text: string)
    requires text == Digits(a) + "." + Digits(b) + "." + Digits(c) + "." + Digits(d)
    ensures IPv4.Parse(text) == Some(Addr(a, b, c, d))
  {
    DottedQuad(Addr(a, b, c, d));
    ParseFormat(Addr(a, b, c, d));
  }

  lemma SmallNumbers()
    ensures Digits(0) == "0" && Digits(1) == "1" && Digits(2) == "2" && Digits(10) == "10"
    ensures Digits(113) == "113" && Digits(203) == "203"
  {
    assert Digits(11) == "11" && Digits(20) == "20";
  }

  lemma DemoAddresses()
    ensures IPv4.Parse("203.0.113.10").Some? && IPv4.Parse("10.0.0.1").Some? && IPv4.Parse("10.0.0.2").Some?
  {
    SmallNumbers();
    assert "203.0.113.10" == "203" + "." + "0" + "." + "113" + "." + "10";
    assert "10.0.0.1" == "10" + "." + "0" + "." + "0" + "." + "1";
    assert "10.0.0.2" == "10" + "." + "0" + "." + "0" + "." + "2";
    TextOf(203, 0, 113, 10, "203.0.113.10");
    TextOf(10, 0, 0, 1, "10.0.0.1");
    TextOf(10, 0, 0, 2, "10.0.0.2");
  }

  lemma TcpSupported()
    ensures SupportedProtocol("TCP")
  {
    TrimSpaceIdentity("TCP");
    SupportedProtocolIff("TCP");
  }

  lemma TwoBackendsValid(s: Service, p: ServicePort, x: BackendEndpoint, y: BackendEndpoint)
    requires !Blank(s.namespace) && !Blank(s.name) && IPv4.Parse(s.externalIP).Some? && s.ports == [p]
    requires SupportedProtocol(p.protocol) && p.port > 0 && p.backends == [x, y]
    requires IPv4.Parse(x.address).Some? && x.port > 0 && IPv4.Parse(y.address).Some? && y.port > 0
    ensures ValidService(s)
  {}

  lemma NotBlank(s: string)
    requires s != [] && !IsSpace(s[0])
    ensures !Blank(s)
  {}

  lemma DemoValid()
    ensures ValidService(DemoWith([FIRST, SECOND]))
  {
    DemoAddresses();
    TcpSupported();
    NotBlank("default");
    NotBlank("demo");
    TwoBackendsValid(DemoWith([FIRST, SECOND]), PortWith([FIRST, SECOND]), FIRST, SECOND);
  }

  lemma OneServiceText(s: Service, n: Service, p: ServicePort)
    requires Normalized(s) == n && n.ports == [p] && ValidService(n)
    ensures Rendered([s]) == Ok(Unlines(HEADER_LINES + PortLines(n, p)))
  {
    OneListed(s);
    assert [p][1..] == [] && [n][1..] == [];
    assert PortsLines(n, []) == [] && ListLines([]) == [];
    assert PortLines(n, p) + [] == PortLines(n, p);
    assert PortsLines(n, [p]) == PortLines(n, p);
    assert ListLines([n]) == PortLines(n, p);
    assert AllValid([n]);
  }

  lemma UnavailableText(rest: string)
    requires rest == "127.0.0.1:1" + [' '] + "disabled"
    ensures "    server " + ("srv_unavailable" + [' '] + rest) == "    server srv_unavailable 127.0.0.1:1 disabled"
  {
    assert rest == "127.0.0.1:1 disabled";
  }

  /** A port without backends, word for word. */
  lemma EmptyBackend(backends: seq<BackendEndpoint>)
    requires backends == []
    ensures ServerLines(backends) == ["    server srv_unavailable 127.0.0.1:1 disabled"]
  {
    UnavailableText("127.0.0.1:1" + [' '] + "disabled");
  }

  /** The rendering of one Service whose backends are given out of order, word for word. */
  lemma DemoConfig(header: seq<string>, section: seq<string>, servers: seq<string>)
    requires header ==
             [ "# Managed by k8s-lb-controller. DO NOT EDIT.",
               "global",
               "    maxconn 2048",
               "",
               "defaults",
               "    mode tcp",
               "    timeout connect 5s",
               "    timeout client 30s",
               "    timeout server 30s" ]
    requires section ==
             [ "",
               "frontend fe_default_demo_80_http_tcp",
               "    bind 203.0.113.10:80",
               "    mode tcp",
               "    default_backend be_default_demo_80_http_tcp",
               "",
               "backend be_default_demo_80_http_tcp",
               "    mode tcp",
               "    balance roundrobin" ]
    requires servers ==
             [ "    server srv_0001_10_0_0_1_8080 10.0.0.1:8080",
               "    server srv_0002_10_0_0_2_8080 10.0.0.2:8080" ]
    ensures Rendered([DemoWith([SECOND, FIRST])]) == Ok(Unlines(header + (section + servers)))
  {
    var s, n, p := DemoWith([SECOND, FIRST]), DemoWith([FIRST, SECOND]), PortWith([FIRST, SECOND]);
    DemoNormalizes();
    DemoValid();
    OneServiceText(s, n, p);
    assert SectionLines(n, p) == section by { DemoSection(n, p); }
    assert ServerLines(p.backends) == servers by {
      TwoServers(FIRST, SECOND);
      DemoServerLines(FIRST, SECOND);
    }
  }

  /** The configuration without any Service, word for word. */
  lemma EmptyConfig(header: seq<string>, bootstrap: seq<string>)
    requires header ==
             [ "# Managed by k8s-lb-controller. DO NOT EDIT.",
               "global",
               "    maxconn 2048",
               "",
               "defaults",
               "    mode tcp",
               "    timeout connect 5s",
               "    timeout client 30s",
               "    timeout server 30s" ]
    requires bootstrap ==
             [ "",
               "# Bootstrap listener keeps HAProxy runnable " + "before the first managed Service exists.",
               "frontend fe_bootstrap_loopback",
               "    bind 127.0.0.2:65535",
               "    mode http",
               "    http-request return status 204" ]
    ensures Rendered([]) == Ok(Unlines(header + bootstrap))
  {}
}
