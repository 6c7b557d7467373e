/** Section and server names in the generated configuration, and when they are distinct. */
module Identifiers {
  import opened Text
  import opened Sorting
  import opened Model

  predicate Alnum(c: char) { 'a' <= c <= 'z' || '0' <= c <= '9' }

  /** Letters a-z and digits stay, everything else becomes an underscore. */
  function Keep(c: char): char { if Alnum(c) then c else '_' }

  /** Lower-casing and then replacing, on one character. */
  function MangleChar(c: char): char { Keep(LowerChar(c)) }

  function Mangle(s: string): string { Map(MangleChar, s) }

  function TrimUnderscoreLeft(s: string): string {
    if s != [] && s[0] == '_' then TrimUnderscoreLeft(s[1..]) else s
  }

  function TrimUnderscoreRight(s: string): string {
    if s != [] && s[|s| - 1] == '_' then TrimUnderscoreRight(s[..|s| - 1]) else s
  }

  function TrimUnderscores(s: string): string { TrimUnderscoreRight(TrimUnderscoreLeft(s)) }

  function OrUnnamed(s: string): string { if s == [] then "unnamed" else s }

  /** The identifier for any text: mangled, and stripped of underscores at both ends. */
  function Sanitized(value: string): string { OrUnnamed(TrimUnderscores(Mangle(value))) }

  method SanitizeIdentifier(value: string) returns (r: string)
    ensures r == Sanitized(value)
  {
    var trimmed := TrimSpace(ToLower(value));
    StripSpaceFirst(value);
    if trimmed == [] {
      return "unnamed";
    }
    var builder := "";
    var i := 0;
    while i < |trimmed|
      invariant 0 <= i <= |trimmed|
      invariant builder == Map(Keep, trimmed[..i])
    {
      assert trimmed[..i + 1] == trimmed[..i] + [trimmed[i]];
      builder := builder + [if Alnum(trimmed[i]) then trimmed[i] else '_'];
      i := i + 1;
    }
    assert trimmed[..i] == trimmed;
    var sanitized := TrimUnderscores(builder);
    if sanitized == [] {
      return "unnamed";
    }
    return sanitized;
  }

  // ---------------------------------------------------------------- trimming

  lemma {:induction false} SpaceLeftVanishes(s: string)
    ensures TrimUnderscoreLeft(Map(Keep, TrimLeft(s))) == TrimUnderscoreLeft(Map(Keep, s))
  {
    if s != [] && IsSpace(s[0]) {
      SpaceLeftVanishes(s[1..]);
      assert Map(Keep, s)[1..] == Map(Keep, s[1..]);
    }
  }

  lemma {:induction false} TrimLeftAppend(s: string)
    ensures TrimUnderscores(s + "_") == TrimUnderscores(s)
  {
    if s == [] {
      assert s + "_" == "_" && "_"[1..] == "";
    } else if s[0] == '_' {
      TrimLeftAppend(s[1..]);
      assert (s + "_")[1..] == s[1..] + "_";
    } else {
      assert (s + "_")[..|s|] == s;
    }
  }

  lemma {:induction false} SpaceRightVanishes(s: string)
    ensures TrimUnderscores(Map(Keep, TrimRight(s))) == TrimUnderscores(Map(Keep, s))
    decreases |s|
  {
    if s != [] && IsSpace(s[|s| - 1]) {
      SpaceRightVanishes(s[..|s| - 1]);
      TrimLeftAppend(Map(Keep, s[..|s| - 1]));
      assert Map(Keep, s) == Map(Keep, s[..|s| - 1]) + "_";
    }
  }

  /** Trimming white space first makes no difference. */
  lemma StripSpaceFirst(value: string)
    ensures var t := TrimSpace(ToLower(value));
            TrimUnderscores(Map(Keep, t)) == TrimUnderscores(Mangle(value))
    ensures TrimSpace(ToLower(value)) == [] ==> TrimUnderscores(Mangle(value)) == []
  {
    var low := ToLower(value);
    SpaceLeftVanishes(low);
    SpaceRightVanishes(TrimLeft(low));
    assert Map(Keep, low) == Mangle(value);
  }

  /** Identifiers hold letters, digits and underscores only, and are never empty. */
  lemma SanitizedShape(value: string)
    ensures Sanitized(value) != []
    ensures forall i :: 0 <= i < |Sanitized(value)| ==> Alnum(Sanitized(value)[i]) || Sanitized(value)[i] == '_'
  {
    var m := Mangle(value);
    TrimmedPart(m);
    var t := TrimUnderscores(m);
    forall i | 0 <= i < |t| ensures Alnum(t[i]) || t[i] == '_' {
      assert t[i] in m;
    }
  }

  lemma {:induction false} TrimmedLeftPart(s: string)
    ensures forall c :: c in TrimUnderscoreLeft(s) ==> c in s
  {
    if s != [] && s[0] == '_' { TrimmedLeftPart(s[1..]); }
  }

  lemma {:induction false} TrimmedRightPart(s: string)
    ensures forall c :: c in TrimUnderscoreRight(s) ==> c in s
    decreases |s|
  {
    if s != [] && s[|s| - 1] == '_' { TrimmedRightPart(s[..|s| - 1]); }
  }

  lemma TrimmedPart(s: string)
    ensures forall c :: c in TrimUnderscores(s) ==> c in s
  {
    TrimmedLeftPart(s);
    TrimmedRightPart(TrimUnderscoreLeft(s));
  }

  // ---------------------------------------------------------------- names

  /** The parts a section name is made of. */
  datatype NameParts = NameParts(namespace: string, name: string, port: Int32, portName: string, protocol: string)

  function PartsOf(s: Service, p: ServicePort): NameParts {
    NameParts(s.namespace, s.name, p.port, p.name, p.protocol)
  }

  function Suffix(p: NameParts): string {
    ToLower(Join([p.namespace, p.name, Decimal(p.port), p.portName, p.protocol], '_'))
  }

  function FrontendName(p: NameParts): string { "fe_" + Sanitized(Suffix(p)) }

  function BackendName(p: NameParts): string { "be_" + Sanitized(Suffix(p)) }

  /** At least four digits, as `%04d` prints. */
  function Padded(n: nat): (r: string)
    ensures forall i :: 0 <= i < |r| ==> IsDigit(r[i])
  {
    var d := Digits(n);
    if |d| == 1 then "000" + d else if |d| == 2 then "00" + d else if |d| == 3 then "0" + d else d
  }

  function ServerText(index: nat, b: BackendEndpoint): string {
    "srv_" + Padded(index + 1) + "_" + b.address + "_" + Decimal(b.port)
  }

  function ServerName(index: nat, b: BackendEndpoint): string { Sanitized(ServerText(index, b)) }

  // ---------------------------------------------------------------- server names

  lemma {:induction false} ValueOfZeros(z: string, d: string)
    requires forall i :: 0 <= i < |z| ==> z[i] == '0'
    requires forall i :: 0 <= i < |d| ==> IsDigit(d[i])
    ensures NatValue(z + d) == NatValue(d)
    decreases |z| + |d|
  {
    var t := z + d;
    if d == [] {
      if z != [] {
        assert t == z && t[..|t| - 1] == z[..|z| - 1] + d;
        ValueOfZeros(z[..|z| - 1], d);
      }
    } else {
      assert t[..|t| - 1] == z + d[..|d| - 1];
      ValueOfZeros(z, d[..|d| - 1]);
    }
  }

  lemma PaddedValue(n: nat)
    ensures NatValue(Padded(n)) == n
  {
    var d := Digits(n);
    NatValueDigits(n);
    if |d| == 1 {
      ValueOfZeros("000", d);
    } else if |d| == 2 {
      ValueOfZeros("00", d);
    } else if |d| == 3 {
      ValueOfZeros("0", d);
    }
  }

  lemma MangleConcat(a: string, b: string)
    ensures Mangle(a + b) == Mangle(a) + Mangle(b)
  {}

  function ServerRest(b: BackendEndpoint): string { Mangle(b.address + "_" + Decimal(b.port)) }

  /** A server name is a fixed word, the padded position, and something after it. */
  lemma ServerNameShape(index: nat, b: BackendEndpoint)
    ensures ServerName(index, b) == "srv_" + (Padded(index + 1) + ['_'] + ServerRest(b))
  {}

  lemma NoUnderscore(n: nat)
    ensures '_' !in Padded(n)
  {}

  lemma PaddedInjective(m: nat, n: nat)
    requires Padded(m) == Padded(n)
    ensures m == n
  {
    PaddedValue(m);
    PaddedValue(n);
  }

  lemma ServerNameTail(index: nat, b: BackendEndpoint)
    ensures |ServerName(index, b)| >= 4
    ensures ServerName(index, b)[4..] == Padded(index + 1) + ['_'] + ServerRest(b)
  {
    ServerNameShape(index, b);
  }

  /** Server names at different positions differ, whatever the endpoints are. */
  lemma ServerNamesDistinct(i: nat, b: BackendEndpoint, j: nat, c: BackendEndpoint)
    requires ServerName(i, b) == ServerName(j, c)
    ensures i == j
  {
    ServerNameTail(i, b);
    ServerNameTail(j, c);
    NoUnderscore(i + 1);
    NoUnderscore(j + 1);
    FirstSeparator(Padded(i + 1), ServerRest(b), Padded(j + 1), ServerRest(c), '_');
    PaddedInjective(i + 1, j + 1);
  }

  // ---------------------------------------------------------------- section names

  predicate Over(alphabet: set<char>, s: string) {
    forall i :: 0 <= i < |s| ==> s[i] in alphabet
  }

  /** Texts in which nothing becomes an underscore. */
  predicate Plain(s: string) {
    forall i :: 0 <= i < |s| ==> Alnum(LowerChar(s[i]))
  }

  ghost predicate PartsOver(alphabet: set<char>, p: NameParts) {
    && p.namespace != [] && Over(alphabet, p.namespace)
    && p.name != [] && Over(alphabet, p.name)
    && Over(alphabet, p.portName)
    && Plain(p.protocol)
  }

  /** The same parts, the protocol taken in lower case. */
  predicate SameParts(p: NameParts, q: NameParts) {
    && p.namespace == q.namespace && p.name == q.name && p.port == q.port && p.portName == q.portName
    && ToLower(p.protocol) == ToLower(q.protocol)
  }

  /** Section names tell apart any two sets of parts written in `alphabet`. */
  ghost predicate NamesInjective(alphabet: set<char>) {
    forall p, q :: PartsOver(alphabet, p) && PartsOver(alphabet, q) && FrontendName(p) == FrontendName(q)
                   ==> SameParts(p, q)
  }

  /** No character becomes an underscore and no two characters become the same one. */
  ghost predicate Faithful(alphabet: set<char>) {
    && (forall c :: c in alphabet ==> MangleChar(c) != '_')
    && (forall c, d :: c in alphabet && d in alphabet && MangleChar(c) == MangleChar(d) ==> c == d)
  }

  function PortFields(n: int): seq<string> {
    if n < 0 then ["", Digits(-n)] else [Digits(n)]
  }

  function TailFields(portName: string, protocol: string): seq<string> {
    if protocol != [] then [portName, protocol] else if portName != [] then [portName] else []
  }

  /** The underscore-separated fields of a section name. */
  function NameFields(p: NameParts): seq<string> {
    [Mangle(p.namespace), Mangle(p.name)] + PortFields(p.port) + TailFields(Mangle(p.portName), Mangle(p.protocol))
  }

  lemma LowerIdempotent(s: string)
    ensures Mangle(ToLower(s)) == Mangle(s)
  {}

  lemma {:induction false} JoinConcat(a: seq<string>, b: seq<string>)
    requires |a| >= 1 && |b| >= 1
    ensures Join(a + b, '_') == Join(a, '_') + "_" + Join(b, '_')
  {
    if |a| == 1 {
      assert (a + b)[1..] == b;
    } else {
      JoinConcat(a[1..], b);
      assert (a + b)[1..] == a[1..] + b;
    }
  }

  lemma {:induction false} MangleJoin(parts: seq<string>)
    ensures Mangle(Join(parts, '_')) == Join(Map(Mangle, parts), '_')
  {
    if |parts| > 1 {
      MangleJoin(parts[1..]);
      MangleConcat(parts[0] + ['_'], Join(parts[1..], '_'));
      MangleConcat(parts[0], ['_']);
      assert Mangle(['_']) == ['_'];
      assert Map(Mangle, parts)[1..] == Map(Mangle, parts[1..]);
    }
  }

  /** Mangling the joined parts of a name. */
  lemma MangledSuffix(p: NameParts)
    ensures Mangle(Suffix(p)) ==
            Join([Mangle(p.namespace), Mangle(p.name), Mangle(Decimal(p.port)), Mangle(p.portName), Mangle(p.protocol)], '_')
  {
    var parts := [p.namespace, p.name, Decimal(p.port), p.portName, p.protocol];
    LowerIdempotent(Join(parts, '_'));
    MangleJoin(parts);
    assert Map(Mangle, parts) ==
      [Mangle(p.namespace), Mangle(p.name), Mangle(Decimal(p.port)), Mangle(p.portName), Mangle(p.protocol)];
  }

  lemma MangledPort(n: int)
    ensures Mangle(Decimal(n)) == Join(PortFields(n), '_')
  {}

  /** Exactly the empty trailing fields are stripped. */
  lemma StrippedTail(head: string, portName: string, protocol: string)
    requires head != [] && head[0] != '_' && head[|head| - 1] != '_'
    requires '_' !in portName && '_' !in protocol
    ensures TrimUnderscores(head + "_" + portName + "_" + protocol) ==
            if protocol != [] then head + "_" + portName + "_" + protocol
            else if portName != [] then head + "_" + portName else head
  {
    var m := head + "_" + portName + "_" + protocol;
    assert TrimUnderscoreLeft(m) == m;
    if protocol != [] {
      assert m[|m| - 1] == protocol[|protocol| - 1];
    } else {
      var m1 := head + "_" + portName;
      assert m[..|m| - 1] == m1 && m[|m| - 1] == '_';
      assert TrimUnderscoreRight(m) == TrimUnderscoreRight(m1);
      if portName != [] {
        assert m1[|m1| - 1] == portName[|portName| - 1];
      } else {
        assert m1[..|m1| - 1] == head;
        assert TrimUnderscoreRight(m1) == TrimUnderscoreRight(head);
      }
    }
  }

  lemma PortFieldsShape(n: int)
    ensures forall i :: 0 <= i < |PortFields(n)| ==> '_' !in PortFields(n)[i]
    ensures Join(PortFields(n), '_') != []
    ensures var j := Join(PortFields(n), '_'); j[|j| - 1] != '_'
  {}

  lemma JoinTwo(a: string, b: string)
    ensures Join([a, b], '_') == a + "_" + b
  {
    assert [a, b][1..] == [b];
  }

  lemma Regroup(a: string, b: string, c: string)
    ensures a + "_" + (b + "_" + c) == a + "_" + b + "_" + c
  {}

  lemma JoinTail(fields: seq<string>, portName: string, protocol: string)
    requires |fields| >= 1
    ensures Join(fields + TailFields(portName, protocol), '_') ==
            if protocol != [] then Join(fields, '_') + "_" + portName + "_" + protocol
            else if portName != [] then Join(fields, '_') + "_" + portName else Join(fields, '_')
  {
    if protocol != [] {
      JoinConcat(fields, [portName, protocol]);
      JoinTwo(portName, protocol);
      Regroup(Join(fields, '_'), portName, protocol);
    } else if portName != [] {
      JoinConcat(fields, [portName]);
    } else {
      assert fields + [] == fields;
    }
  }

  function FrontFields(p: NameParts): seq<string> {
    [Mangle(p.namespace), Mangle(p.name)] + PortFields(p.port)
  }

  lemma FrontJoined(p: NameParts)
    ensures Join(FrontFields(p), '_') == Mangle(p.namespace) + "_" + Mangle(p.name) + "_" + Mangle(Decimal(p.port))
  {
    var two := [Mangle(p.namespace), Mangle(p.name)];
    MangledPort(p.port);
    JoinConcat(two, PortFields(p.port));
    assert two[1..] == [Mangle(p.name)];
  }

  lemma SuffixJoined(p: NameParts)
    ensures Mangle(Suffix(p)) == Join(FrontFields(p), '_') + "_" + Mangle(p.portName) + "_" + Mangle(p.protocol)
  {
    var two := [Mangle(p.namespace), Mangle(p.name)];
    var port, pn, pr := Mangle(Decimal(p.port)), Mangle(p.portName), Mangle(p.protocol);
    MangledSuffix(p);
    FrontJoined(p);
    assert two[1..] == [Mangle(p.name)];
    assert [port, pn, pr][1..] == [pn, pr] && [pn, pr][1..] == [pr];
    assert Join([pn, pr], '_') == pn + ['_'] + pr;
    JoinConcat(two, [port, pn, pr]);
    assert two + [port, pn, pr] == [Mangle(p.namespace), Mangle(p.name), port, pn, pr];
  }

  lemma PlainMangled(s: string)
    requires Plain(s)
    ensures '_' !in Mangle(s)
  {}

  lemma NameFieldsPlain(p: NameParts)
    requires Plain(p.namespace) && Plain(p.name) && Plain(p.portName) && Plain(p.protocol)
    ensures forall i :: 0 <= i < |NameFields(p)| ==> '_' !in NameFields(p)[i]
  {}

  /** The name of parts that mangle to no underscore splits back into its fields. */
  lemma NameSplits(p: NameParts)
    requires p.namespace != [] && p.name != []
    requires Plain(p.namespace) && Plain(p.name) && Plain(p.portName) && Plain(p.protocol)
    ensures Split(Sanitized(Suffix(p)), '_') == NameFields(p)
  {
    var head := Join(FrontFields(p), '_');
    assert head != [] && head[0] != '_' && head[|head| - 1] != '_' by {
      FrontJoined(p);
      MangledPort(p.port);
      PortFieldsShape(p.port);
      PlainMangled(p.namespace);
      assert head[0] == Mangle(p.namespace)[0];
      assert head[|head| - 1] == Mangle(Decimal(p.port))[|Mangle(Decimal(p.port))| - 1];
    }
    PlainMangled(p.portName);
    PlainMangled(p.protocol);
    assert Sanitized(Suffix(p)) == Join(NameFields(p), '_') by {
      SuffixJoined(p);
      StrippedTail(head, Mangle(p.portName), Mangle(p.protocol));
      JoinTail(FrontFields(p), Mangle(p.portName), Mangle(p.protocol));
      assert NameFields(p) == FrontFields(p) + TailFields(Mangle(p.portName), Mangle(p.protocol));
    }
    NameFieldsPlain(p);
    SplitJoin(NameFields(p), '_');
  }

  lemma PortFieldsInjective(m: int, n: int, x: seq<string>, y: seq<string>)
    requires PortFields(m) + x == PortFields(n) + y
    ensures m == n && x == y
  {
    var f, g := PortFields(m) + x, PortFields(n) + y;
    assert f[0] == PortFields(m)[0] && g[0] == PortFields(n)[0];
    if m < 0 {
      assert n < 0;
      assert f[1] == PortFields(m)[1] && g[1] == PortFields(n)[1];
      DigitsInjective(-m, -n);
    } else {
      assert n >= 0;
      DigitsInjective(m, n);
    }
    assert x == f[|PortFields(m)|..] && y == g[|PortFields(n)|..];
  }

  lemma TailFieldsInjective(a: string, b: string, c: string, d: string)
    requires TailFields(a, b) == TailFields(c, d)
    ensures a == c && b == d
  {}

  lemma FieldsDetermineParts(p: NameParts, q: NameParts)
    requires NameFields(p) == NameFields(q)
    ensures Mangle(p.namespace) == Mangle(q.namespace) && Mangle(p.name) == Mangle(q.name)
    ensures p.port == q.port
    ensures Mangle(p.portName) == Mangle(q.portName) && Mangle(p.protocol) == Mangle(q.protocol)
  {
    var f, g := NameFields(p), NameFields(q);
    var t, u := TailFields(Mangle(p.portName), Mangle(p.protocol)), TailFields(Mangle(q.portName), Mangle(q.protocol));
    assert f[0] == g[0] && f[1] == g[1];
    assert f[2..] == PortFields(p.port) + t && g[2..] == PortFields(q.port) + u;
    PortFieldsInjective(p.port, q.port, t, u);
    TailFieldsInjective(Mangle(p.portName), Mangle(p.protocol), Mangle(q.portName), Mangle(q.protocol));
  }

  lemma MangleInjectiveOn(alphabet: set<char>, s: string, t: string)
    requires Faithful(alphabet) && Over(alphabet, s) && Over(alphabet, t) && Mangle(s) == Mangle(t)
    ensures s == t
  {}

  lemma FaithfulPlain(alphabet: set<char>, s: string)
    requires Faithful(alphabet) && Over(alphabet, s)
    ensures Plain(s)
  {}

  lemma FaithfulNamesDiffer(alphabet: set<char>, p: NameParts, q: NameParts)
    requires Faithful(alphabet) && PartsOver(alphabet, p) && PartsOver(alphabet, q)
    requires FrontendName(p) == FrontendName(q)
    ensures SameParts(p, q)
  {
    assert Sanitized(Suffix(p)) == FrontendName(p)[3..] && Sanitized(Suffix(q)) == FrontendName(q)[3..];
    FaithfulPlain(alphabet, p.namespace);
    FaithfulPlain(alphabet, p.name);
    FaithfulPlain(alphabet, p.portName);
    FaithfulPlain(alphabet, q.namespace);
    FaithfulPlain(alphabet, q.name);
    FaithfulPlain(alphabet, q.portName);
    NameSplits(p);
    NameSplits(q);
    FieldsDetermineParts(p, q);
    MangleInjectiveOn(alphabet, p.namespace, q.namespace);
    MangleInjectiveOn(alphabet, p.name, q.name);
    MangleInjectiveOn(alphabet, p.portName, q.portName);
    assert Mangle(p.protocol) == ToLower(p.protocol) && Mangle(q.protocol) == ToLower(q.protocol);
  }

  /** Only the joined namespace and name matter: where one ends and the other starts is lost. */
  lemma SameJointSameName(p: NameParts, q: NameParts)
    requires p.port == q.port && p.portName == q.portName && p.protocol == q.protocol
    requires Mangle(p.namespace) + "_" + Mangle(p.name) == Mangle(q.namespace) + "_" + Mangle(q.name)
    ensures FrontendName(p) == FrontendName(q) && BackendName(p) == BackendName(q)
  {
    var rest := [Mangle(Decimal(p.port)), Mangle(p.portName), Mangle(p.protocol)];
    forall r | r == p || r == q
      ensures Mangle(Suffix(r)) == Mangle(r.namespace) + "_" + Mangle(r.name) + "_" + Join(rest, '_')
    {
      MangledSuffix(r);
      var two := [Mangle(r.namespace), Mangle(r.name)];
      assert two + rest == [Mangle(r.namespace), Mangle(r.name), rest[0], rest[1], rest[2]];
      JoinConcat(two, rest);
      assert two[1..] == [Mangle(r.name)];
    }
  }

  /** A character that becomes an underscore makes two names collide. */
  lemma UnderscoreCollides(alphabet: set<char>, c: char)
    requires c in alphabet && MangleChar(c) == '_'
    ensures !NamesInjective(alphabet)
  {
    var p, q := NameParts([c], [c, c], 80, "", "TCP"), NameParts([c, c], [c], 80, "", "TCP");
    assert Mangle([c]) == "_" && Mangle([c, c]) == "__";
    SameJointSameName(p, q);
    assert PartsOver(alphabet, p) && PartsOver(alphabet, q);
    assert |p.namespace| != |q.namespace|;
  }

  /** Two characters that become the same one make two names collide. */
  lemma TwinsCollide(alphabet: set<char>, c: char, d: char)
    requires c in alphabet && d in alphabet && c != d && MangleChar(c) == MangleChar(d)
    ensures !NamesInjective(alphabet)
  {
    var p, q := NameParts([c], [c], 80, "", "TCP"), NameParts([d], [c], 80, "", "TCP");
    assert Mangle([c]) == Mangle([d]);
    SameJointSameName(p, q);
    assert PartsOver(alphabet, p) && PartsOver(alphabet, q);
    assert p.namespace[0] != q.namespace[0];
  }

  /** Section names are injective over an alphabet exactly when mangling is faithful to it. */
  lemma NamesInjectiveIff(alphabet: set<char>)
    ensures NamesInjective(alphabet) <==> Faithful(alphabet)
  {
    if Faithful(alphabet) {
      forall p, q | PartsOver(alphabet, p) && PartsOver(alphabet, q) && FrontendName(p) == FrontendName(q)
        ensures SameParts(p, q)
      {
        FaithfulNamesDiffer(alphabet, p, q);
      }
    } else if c :| c in alphabet && MangleChar(c) == '_' {
      UnderscoreCollides(alphabet, c);
    } else {
      var c, d :| c in alphabet && d in alphabet && MangleChar(c) == MangleChar(d) && c != d;
      TwinsCollide(alphabet, c, d);
    }
  }

  /** Letters a-z and digits are a faithful alphabet. */
  lemma LowercaseFaithful()
    ensures Faithful(set c: char | Alnum(c))
  {}

  /** A hyphen, which section 2.1 of RFC 1123 allows in names, makes 'a'/'b-c' and 'a-b'/'c' collide. */
  lemma HyphenCollides(port: Int32, portName: string, protocol: string)
    ensures FrontendName(NameParts("a", "b-c", port, portName, protocol)) ==
            FrontendName(NameParts("a-b", "c", port, portName, protocol))
  {
    assert Mangle("a") == "a" && Mangle("b-c") == "b_c" && Mangle("a-b") == "a_b" && Mangle("c") == "c";
    SameJointSameName(NameParts("a", "b-c", port, portName, protocol), NameParts("a-b", "c", port, portName, protocol));
  }

  /** Numbers below 10000 are printed with four digits, larger ones with as many as they have. */
  lemma PaddedWidth(n: nat)
    ensures |Padded(n)| >= 4 && (|Padded(n)| > 4 ==> Padded(n) == Digits(n))
  {}

  /** A value of which nothing is left is called "unnamed". */
  lemma NothingLeft(value: string)
    ensures (forall i :: 0 <= i < |value| ==> MangleChar(value[i]) == '_') ==> Sanitized(value) == "unnamed"
  {
    if forall i :: 0 <= i < |value| ==> MangleChar(value[i]) == '_' {
      UnderscoresOnly(Mangle(value));
    }
  }

  lemma {:induction false} UnderscoresOnly(s: string)
    requires forall i :: 0 <= i < |s| ==> s[i] == '_'
    ensures TrimUnderscoreLeft(s) == []
  {
    if s != [] { UnderscoresOnly(s[1..]); }
  }
}
