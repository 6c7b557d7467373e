/** A reader for the generated configuration, and the proof that it loses nothing.

    HAProxy acts on the text alone. The reader recovers the routing table from the text, so two
    states that render to the same text route the same way. */
module ConfigParser {
  import opened Text
  import IPv4
  import opened Sorting
  import opened Model
  import opened DesiredStore
  import opened Identifiers
  import opened Render

  datatype Target = Target(addr: IPv4.Addr, port: nat)

  datatype Server = Server(name: string, at: Target)

  datatype Frontend = Frontend(name: string, bind: Target, backend: string, servers: seq<Server>)

  // ---------------------------------------------------------------- the reader

  function After(prefix: string, line: string): Option<string> {
    if prefix <= line then Some(line[|prefix|..]) else None
  }

  function ParseTarget(s: string): Option<Target> {
    var f := Split(s, ':');
    if |f| != 2 then None
    else
      var a, n := IPv4.Parse(f[0]), ParseNat(f[1]);
      if a.Some? && n.Some? then Some(Target(a.value, n.value)) else None
  }

  function ParseServer(line: string): Option<Server> {
    var rest := After("    server ", line);
    if rest.None? then None
    else
      var f := Split(rest.value, ' ');
      if |f| != 2 then None
      else
        var t := ParseTarget(f[1]);
        if t.Some? then Some(Server(f[0], t.value)) else None
  }

  datatype Body = Body(servers: seq<Server>, rest: seq<string>)

  function ParseServers(lines: seq<string>): (b: Body)
    ensures |b.rest| <= |lines|
  {
    if lines == [] || ParseServer(lines[0]).None? then Body([], lines)
    else
      var b := ParseServers(lines[1..]);
      Body([ParseServer(lines[0]).value] + b.servers, b.rest)
  }

  /** Either server lines or the placeholder for a backend without servers. */
  function ParseBody(lines: seq<string>): (b: Option<Body>)
    ensures b.Some? ==> |b.value.rest| <= |lines|
  {
    var b := ParseServers(lines);
    if b.servers != [] then Some(b)
    else if lines != [] && lines[0] == UNAVAILABLE_LINE then Some(Body([], lines[1..]))
    else None
  }

  function ParseHead(lines: seq<string>, servers: seq<Server>): Option<Frontend>
    requires |lines| == 9
  {
    var name, bind := After("frontend ", lines[1]), After("    bind ", lines[2]);
    var uses, backend := After("    default_backend ", lines[4]), After("backend ", lines[6]);
    if lines[0] == "" && lines[3] == "    mode tcp" && lines[5] == "" && lines[7] == "    mode tcp"
       && lines[8] == "    balance roundrobin"
       && name.Some? && bind.Some? && uses.Some? && backend.Some? && uses == backend
       && ParseTarget(bind.value).Some?
    then Some(Frontend(name.value, ParseTarget(bind.value).value, backend.value, servers))
    else None
  }

  function ParseSections(lines: seq<string>): Option<seq<Frontend>>
    decreases |lines|
  {
    if lines == [] then Some([])
    else if |lines| < 9 then None
    else
      var body := ParseBody(lines[9..]);
      if body.None? then None
      else
        var head, tail := ParseHead(lines[..9], body.value.servers), ParseSections(body.value.rest);
        if head.Some? && tail.Some? then Some([head.value] + tail.value) else None
  }

  function ParseLines(lines: seq<string>): Option<seq<Frontend>> {
    if !(HEADER_LINES <= lines) then None
    else
      var rest := lines[|HEADER_LINES|..];
      if rest == BOOTSTRAP_LINES then Some([]) else ParseSections(rest)
  }

  /** The routing table a configuration text describes; the bootstrap listener routes nothing. */
  function ParseConfig(text: string): Option<seq<Frontend>> {
    var lines := Split(text, '\n');
    if lines[|lines| - 1] != "" then None else ParseLines(lines[..|lines| - 1])
  }

  // ---------------------------------------------------------------- the table meant by a state

  function TargetOf(address: string, port: Int32): Target
    requires IPv4.Parse(address).Some? && port > 0
  {
    Target(IPv4.Parse(address).value, port)
  }

  predicate ValidBackends(backends: seq<BackendEndpoint>) {
    forall i :: 0 <= i < |backends| ==> ValidBackend(backends[i])
  }

  function ServerAt(backends: seq<BackendEndpoint>, i: nat): Server
    requires ValidBackends(backends) && i < |backends|
  {
    Server(ServerName(i, backends[i]), TargetOf(backends[i].address, backends[i].port))
  }

  function Servers(backends: seq<BackendEndpoint>): (r: seq<Server>)
    requires ValidBackends(backends)
    ensures |r| == |backends| && forall i :: 0 <= i < |r| ==> r[i] == ServerAt(backends, i)
  {
    seq(|backends|, i requires 0 <= i < |backends| => ServerAt(backends, i))
  }

  function FrontendOf(s: Service, p: ServicePort): Frontend
    requires ValidService(s) && ValidPort(p)
  {
    Frontend(FrontendName(PartsOf(s, p)), TargetOf(s.externalIP, p.port), BackendName(PartsOf(s, p)),
             Servers(p.backends))
  }

  function PortsTable(s: Service, ports: seq<ServicePort>): seq<Frontend>
    requires ValidService(s) && forall p :: p in ports ==> ValidPort(p)
  {
    if ports == [] then []
    else
      assert ports[0] in ports;
      [FrontendOf(s, ports[0])] + PortsTable(s, ports[1..])
  }

  /** One frontend for each port of each Service, in order. */
  ghost function Table(list: seq<Service>): seq<Frontend>
    requires AllValid(list)
  {
    if list == [] then []
    else
      assert list[0] in list;
      PortsTable(list[0], list[0].ports) + Table(list[1..])
  }

  // ---------------------------------------------------------------- lines of the text

  predicate OneLine(s: string) { '\n' !in s }

  lemma {:induction false} SplitUnlines(lines: seq<string>)
    requires forall i :: 0 <= i < |lines| ==> OneLine(lines[i])
    ensures Split(Unlines(lines), '\n') == lines + [""]
  {
    if lines != [] {
      SplitUnlines(lines[1..]);
      SplitCons(lines[0], Unlines(lines[1..]), '\n');
      assert [lines[0]] + (lines[1..] + [""]) == lines + [""];
    }
  }

  /** Characters that identifiers, addresses and ports are written with. */
  predicate WordChar(c: char) { Alnum(c) || c == '_' || c == '.' }

  predicate Word(s: string) { forall i :: 0 <= i < |s| ==> WordChar(s[i]) }

  lemma WordHasNo(s: string)
    requires Word(s)
    ensures '\n' !in s && ' ' !in s && ':' !in s
  {}

  lemma NamesAreWords(s: Service, p: ServicePort)
    ensures Word(FrontendName(PartsOf(s, p))) && Word(BackendName(PartsOf(s, p)))
  {
    SanitizedShape(Suffix(PartsOf(s, p)));
  }

  lemma ServerNameIsWord(i: nat, b: BackendEndpoint)
    ensures Word(ServerName(i, b))
  {}

  lemma AddressIsWord(address: string)
    requires IPv4.Parse(address).Some?
    ensures Word(address)
  {
    var a := IPv4.Parse(address).value;
    IPv4.ParseIffFormat(address, a);
    IPv4.FormatShape(a);
  }

  lemma EndpointReads(address: string, port: Int32)
    requires IPv4.Parse(address).Some? && port > 0
    ensures ParseTarget(Endpoint(address, port)) == Some(TargetOf(address, port))
    ensures ' ' !in Endpoint(address, port) && '\n' !in Endpoint(address, port)
  {
    AddressIsWord(address);
    WordHasNo(address);
    assert Endpoint(address, port) == address + [':'] + Digits(port);
    SplitCons(address, Digits(port), ':');
    SplitPlain(Digits(port), ':');
    ParseNatDigits(port);
  }

  lemma AfterPrefix(prefix: string, rest: string)
    ensures After(prefix, prefix + rest) == Some(rest)
  {}

  lemma ServerLineReads(i: nat, b: BackendEndpoint)
    requires ValidBackend(b)
    ensures ParseServer(ServerLine(i, b)) == Some(Server(ServerName(i, b), TargetOf(b.address, b.port)))
  {
    var name, at := ServerName(i, b), Endpoint(b.address, b.port);
    var rest := name + [' '] + at;
    assert After("    server ", ServerLine(i, b)) == Some(rest) by {
      assert ServerLine(i, b) == "    server " + rest;
      AfterPrefix("    server ", rest);
    }
    assert Split(rest, ' ') == [name, at] by {
      ServerNameIsWord(i, b);
      WordHasNo(name);
      EndpointReads(b.address, b.port);
      SplitCons(name, at, ' ');
      SplitPlain(at, ' ');
    }
    EndpointReads(b.address, b.port);
  }

  lemma ServerLineIsLine(i: nat, b: BackendEndpoint)
    requires ValidBackend(b)
    ensures OneLine(ServerLine(i, b))
  {
    var name, at := ServerName(i, b), Endpoint(b.address, b.port);
    ServerNameIsWord(i, b);
    WordHasNo(name);
    EndpointReads(b.address, b.port);
    assert OneLine("    server ") && OneLine(" ");
    JoinedLine("    server ", name);
    JoinedLine("    server " + name, " ");
    JoinedLine("    server " + name + " ", at);
  }

  lemma JoinedLine(a: string, b: string)
    requires OneLine(a) && OneLine(b)
    ensures OneLine(a + b)
  {}

  lemma PlaceholderIsNoServer()
    ensures ParseServer(UNAVAILABLE_LINE).None?
  {
    var tail := "127.0.0.1:1" + [' '] + "disabled";
    AfterPrefix("    server ", "srv_unavailable" + [' '] + tail);
    assert ' ' !in "srv_unavailable" && ' ' !in "127.0.0.1:1" && ' ' !in "disabled";
    SplitCons("srv_unavailable", tail, ' ');
    SplitCons("127.0.0.1:1", "disabled", ' ');
    SplitPlain("disabled", ' ');
  }

  lemma PlaceholderIsLine()
    ensures OneLine(UNAVAILABLE_LINE)
  {}

  /** What may follow a backend: the end, or the blank line before the next frontend. */
  predicate Boundary(rest: seq<string>) { rest == [] || rest[0] == "" }

  lemma ServerInFront(line: string, server: Server, lines: seq<string>, servers: seq<Server>, rest: seq<string>)
    requires ParseServer(line) == Some(server) && ParseServers(lines) == Body(servers, rest)
    ensures ParseServers([line] + lines) == Body([server] + servers, rest)
  {
    assert ([line] + lines)[1..] == lines;
  }

  lemma BoundaryEnds(rest: seq<string>)
    requires Boundary(rest)
    ensures ParseServers(rest) == Body([], rest)
  {}

  lemma DropOne<T>(l: seq<T>, i: nat, rest: seq<T>)
    requires i < |l|
    ensures l[i..] == [l[i]] + l[i + 1..] && l[i..] + rest == [l[i]] + (l[i + 1..] + rest)
  {}

  lemma {:induction false} ServersRead(backends: seq<BackendEndpoint>, i: nat, rest: seq<string>)
    requires backends != [] && ValidBackends(backends) && i <= |backends| && Boundary(rest)
    ensures ParseServers(ServerLines(backends)[i..] + rest) == Body(Servers(backends)[i..], rest)
    decreases |backends| - i
  {
    var lines, servers := ServerLines(backends), Servers(backends);
    if i == |backends| {
      assert lines[i..] + rest == rest && servers[i..] == [];
      BoundaryEnds(rest);
    } else {
      ServersRead(backends, i + 1, rest);
      ServerLineReads(i, backends[i]);
      ServerInFront(lines[i], servers[i], lines[i + 1..] + rest, servers[i + 1..], rest);
      DropOne(lines, i, rest);
      DropOne(servers, i, []);
    }
  }

  lemma BodyReads(p: ServicePort, rest: seq<string>)
    requires ValidPort(p) && Boundary(rest)
    ensures ParseBody(ServerLines(p.backends) + rest) == Some(Body(Servers(p.backends), rest))
  {
    var lines := ServerLines(p.backends);
    if p.backends == [] {
      PlaceholderIsNoServer();
      assert (lines + rest)[0] == UNAVAILABLE_LINE && (lines + rest)[1..] == rest;
    } else {
      ServersRead(p.backends, 0, rest);
      assert lines[0..] == lines && Servers(p.backends)[0..] == Servers(p.backends);
    }
  }

  lemma HeadReads(s: Service, p: ServicePort)
    requires ValidService(s) && ValidPort(p)
    ensures ParseHead(SectionLines(s, p), Servers(p.backends)) == Some(FrontendOf(s, p))
  {
    var parts := PartsOf(s, p);
    AfterPrefix("frontend ", FrontendName(parts));
    AfterPrefix("    bind ", Endpoint(s.externalIP, p.port));
    AfterPrefix("    default_backend ", BackendName(parts));
    AfterPrefix("backend ", BackendName(parts));
    EndpointReads(s.externalIP, p.port);
  }

  lemma SectionReads(s: Service, p: ServicePort, rest: seq<string>)
    requires ValidService(s) && ValidPort(p) && Boundary(rest) && ParseSections(rest).Some?
    ensures ParseSections(PortLines(s, p) + rest) == Some([FrontendOf(s, p)] + ParseSections(rest).value)
    ensures Boundary(PortLines(s, p) + rest)
  {
    var head, lines := SectionLines(s, p), PortLines(s, p) + rest;
    Assoc(head, ServerLines(p.backends), rest);
    assert lines[..9] == head && lines[9..] == ServerLines(p.backends) + rest;
    BodyReads(p, rest);
    HeadReads(s, p);
  }

  lemma {:induction false} PortsRead(s: Service, ports: seq<ServicePort>, rest: seq<string>)
    requires ValidService(s) && forall p :: p in ports ==> ValidPort(p)
    requires Boundary(rest) && ParseSections(rest).Some?
    ensures ParseSections(PortsLines(s, ports) + rest) == Some(PortsTable(s, ports) + ParseSections(rest).value)
    ensures Boundary(PortsLines(s, ports) + rest)
  {
    if ports == [] {
      assert PortsLines(s, ports) + rest == rest;
      assert PortsTable(s, ports) + ParseSections(rest).value == ParseSections(rest).value;
    } else {
      assert ports[0] in ports;
      var tail := PortsLines(s, ports[1..]) + rest;
      PortsRead(s, ports[1..], rest);
      SectionReads(s, ports[0], tail);
      assert PortsLines(s, ports) + rest == PortLines(s, ports[0]) + tail by {
        Assoc(PortLines(s, ports[0]), PortsLines(s, ports[1..]), rest);
      }
      PortsTableStep(s, ports, ParseSections(rest).value);
    }
  }

  lemma PortsTableStep(s: Service, ports: seq<ServicePort>, more: seq<Frontend>)
    requires ValidService(s) && ports != [] && forall p :: p in ports ==> ValidPort(p)
    ensures ports[0] in ports && (forall p :: p in ports[1..] ==> ValidPort(p))
    ensures PortsTable(s, ports) + more == [FrontendOf(s, ports[0])] + (PortsTable(s, ports[1..]) + more)
  {
    Assoc([FrontendOf(s, ports[0])], PortsTable(s, ports[1..]), more);
  }

  lemma {:induction false} ListReads(list: seq<Service>)
    requires AllValid(list)
    ensures ParseSections(ListLines(list)) == Some(Table(list)) && Boundary(ListLines(list))
  {
    if list != [] {
      assert list[0] in list;
      ListReads(list[1..]);
      PortsRead(list[0], list[0].ports, ListLines(list[1..]));
    }
  }

  // ---------------------------------------------------------------- the whole text

  lemma HeaderIsLines()
    ensures forall i :: 0 <= i < |HEADER_LINES| ==> OneLine(HEADER_LINES[i])
  {
    assert OneLine(HEADER_LINES[0]);
    assert OneLine(HEADER_LINES[1]);
    assert OneLine(HEADER_LINES[2]);
    assert OneLine(HEADER_LINES[3]);
    assert OneLine(HEADER_LINES[4]);
    assert OneLine(HEADER_LINES[5]);
    assert OneLine(HEADER_LINES[6]);
    assert OneLine(HEADER_LINES[7]);
    assert OneLine(HEADER_LINES[8]);
  }

  lemma BootstrapIsLines()
    ensures forall i :: 0 <= i < |BOOTSTRAP_LINES| ==> OneLine(BOOTSTRAP_LINES[i])
  {
    JoinedLine("# Bootstrap listener keeps HAProxy runnable ", "before the first managed Service exists.");
    BootstrapRest();
  }

  lemma BootstrapRest()
    ensures OneLine(BOOTSTRAP_LINES[0]) && OneLine(BOOTSTRAP_LINES[2]) && OneLine(BOOTSTRAP_LINES[3])
    ensures OneLine(BOOTSTRAP_LINES[4]) && OneLine(BOOTSTRAP_LINES[5])
  {}

  lemma SectionIsLines(s: Service, p: ServicePort)
    requires ValidService(s) && ValidPort(p)
    ensures forall l :: l in SectionLines(s, p) ==> OneLine(l)
  {
    NamesAreWords(s, p);
    WordHasNo(FrontendName(PartsOf(s, p)));
    WordHasNo(BackendName(PartsOf(s, p)));
    EndpointReads(s.externalIP, p.port);
    JoinedLine("frontend ", FrontendName(PartsOf(s, p)));
    JoinedLine("    bind ", Endpoint(s.externalIP, p.port));
    JoinedLine("    default_backend ", BackendName(PartsOf(s, p)));
    JoinedLine("backend ", BackendName(PartsOf(s, p)));
    assert OneLine("") && OneLine("    mode tcp") && OneLine("    balance roundrobin");
  }

  lemma PortIsLines(s: Service, p: ServicePort)
    requires ValidService(s) && ValidPort(p)
    ensures forall l :: l in PortLines(s, p) ==> OneLine(l)
  {
    SectionIsLines(s, p);
    PlaceholderIsLine();
    forall l | l in ServerLines(p.backends) ensures OneLine(l) {
      if p.backends != [] {
        var i :| 0 <= i < |p.backends| && l == ServerLines(p.backends)[i];
        assert p.backends[i] in p.backends;
        ServerLineIsLine(i, p.backends[i]);
      }
    }
  }

  lemma {:induction false} PortsAreLines(s: Service, ports: seq<ServicePort>)
    requires ValidService(s) && forall p :: p in ports ==> ValidPort(p)
    ensures forall l :: l in PortsLines(s, ports) ==> OneLine(l)
  {
    if ports != [] {
      assert ports[0] in ports;
      PortIsLines(s, ports[0]);
      PortsAreLines(s, ports[1..]);
    }
  }

  lemma {:induction false} ListIsLines(list: seq<Service>)
    requires AllValid(list)
    ensures forall l :: l in ListLines(list) ==> OneLine(l)
  {
    if list != [] {
      assert list[0] in list;
      PortsAreLines(list[0], list[0].ports);
      ListIsLines(list[1..]);
    }
  }

  lemma TextReads(lines: seq<string>)
    requires forall l :: l in lines ==> OneLine(l)
    ensures ParseConfig(Unlines(HEADER_LINES + lines)) ==
            if lines == BOOTSTRAP_LINES then Some([]) else ParseSections(lines)
  {
    var all := HEADER_LINES + lines;
    HeaderIsLines();
    forall i | 0 <= i < |all| ensures OneLine(all[i]) {
      if i >= |HEADER_LINES| { assert all[i] in lines; }
    }
    SplitUnlines(all);
    assert (all + [""])[..|all|] == all;
    assert all[|HEADER_LINES|..] == lines;
  }

  /** No list of sections looks like the bootstrap listener. */
  lemma NotBootstrap(list: seq<Service>)
    requires AllValid(list)
    ensures ListLines(list) != BOOTSTRAP_LINES
  {}

  /** Reading the text of valid Services gives exactly their routing table, in order. */
  lemma ListFaithful(list: seq<Service>)
    requires AllValid(list)
    ensures RenderedList(list).Ok? && ParseConfig(RenderedList(list).value) == Some(Table(list))
  {
    ListIsLines(list);
    ListReads(list);
    NotBootstrap(list);
    TextReads(ListLines(list));
  }

  lemma EmptyConfigReads()
    ensures ParseConfig(EMPTY_CONFIG) == Some([])
  {
    BootstrapIsLines();
    forall l | l in BOOTSTRAP_LINES ensures OneLine(l) {
      var i :| 0 <= i < |BOOTSTRAP_LINES| && BOOTSTRAP_LINES[i] == l;
    }
    TextReads(BOOTSTRAP_LINES);
  }

  /** The routing table meant by a list of Services given in any order, duplicates included. */
  ghost function TableOf(services: seq<Service>): seq<Frontend>
    requires Rendered(services).Ok?
  {
    if services == [] then [] else Table(Listed(FromSlice(services)))
  }

  /** The reader inverts the generator on everything the generator accepts. */
  lemma RenderFaithful(services: seq<Service>)
    requires Rendered(services).Ok?
    ensures ParseConfig(Rendered(services).value) == Some(TableOf(services))
  {
    if services == [] {
      EmptyConfigReads();
    } else {
      ListFaithful(Listed(FromSlice(services)));
    }
  }

  /** Equal texts mean equal routing tables. */
  lemma EqualTextEqualTable(a: seq<Service>, b: seq<Service>)
    requires Rendered(a).Ok? && Rendered(a) == Rendered(b)
    ensures TableOf(a) == TableOf(b)
  {
    RenderFaithful(a);
    RenderFaithful(b);
  }

  /** A port without backends and a port whose one backend is 127.0.0.1:1 read differently. */
  lemma PlaceholderDistinguished(s: Service, p: ServicePort, q: ServicePort)
    requires ValidService(s) && ValidPort(p) && ValidPort(q)
    requires p.backends == [] && q.backends != []
    ensures FrontendOf(s, p).servers == [] && FrontendOf(s, q).servers != []
    ensures ParseBody(ServerLines(p.backends)) != ParseBody(ServerLines(q.backends))
  {
    BodyReads(p, []);
    BodyReads(q, []);
    TakeNothing(ServerLines(p.backends), [""]);
    TakeNothing(ServerLines(q.backends), [""]);
  }
}
