/** IPv4 addresses and prefixes with their canonical text forms. */
module IPv4 {
  import opened Text

  type Octet = x: nat | x < 256

  datatype Addr = Addr(a: Octet, b: Octet, c: Octet, d: Octet)

  /** Network order, as `netip.Addr.Compare` orders IPv4 addresses. */
  predicate LeAddr(x: Addr, y: Addr) {
    if x.a != y.a then x.a < y.a
    else if x.b != y.b then x.b < y.b
    else if x.c != y.c then x.c < y.c
    else x.d <= y.d
  }

  function Format(x: Addr): string {
    Join([Digits(x.a), Digits(x.b), Digits(x.c), Digits(x.d)], '.')
  }

  function ParseOctet(s: string): (r: Option<Octet>)
    ensures r.Some? ==> s == Digits(r.value)
  {
    var n := ParseNat(s);
    if n.Some? && n.value < 256 then Some(n.value) else None
  }

  /** `netip.ParseAddr` followed by `Is4`: four canonical octets, nothing else. */
  function Parse(s: string): Option<Addr> {
    var f := Split(s, '.');
    if |f| != 4 then None
    else
      var a, b, c, d := ParseOctet(f[0]), ParseOctet(f[1]), ParseOctet(f[2]), ParseOctet(f[3]);
      if a.Some? && b.Some? && c.Some? && d.Some?
      then Some(Addr(a.value, b.value, c.value, d.value)) else None
  }

  predicate AddrChar(c: char) { IsDigit(c) || c == '.' }

  /** The text of an address consists of digits and dots and starts and ends with a digit. */
  lemma FormatShape(x: Addr)
    ensures forall i :: 0 <= i < |Format(x)| ==> AddrChar(Format(x)[i])
    ensures |Format(x)| >= 7 && IsDigit(Format(x)[0]) && IsDigit(Format(x)[|Format(x)| - 1])
  {
    var p := [Digits(x.a), Digits(x.b), Digits(x.c), Digits(x.d)];
    assert p[1..] == [Digits(x.b), Digits(x.c), Digits(x.d)];
    assert p[1..][1..] == [Digits(x.c), Digits(x.d)];
    assert p[1..][1..][1..] == [Digits(x.d)];
    assert Join(p[1..][1..], '.') == Digits(x.c) + ['.'] + Digits(x.d);
    assert Join(p[1..], '.') == Digits(x.b) + ['.'] + Join(p[1..][1..], '.');
    assert Format(x) == Digits(x.a) + ['.'] + Join(p[1..], '.');
  }

  lemma ParseFormat(x: Addr)
    ensures Parse(Format(x)) == Some(x)
  {
    SplitJoin([Digits(x.a), Digits(x.b), Digits(x.c), Digits(x.d)], '.');
    ParseNatDigits(x.a);
    ParseNatDigits(x.b);
    ParseNatDigits(x.c);
    ParseNatDigits(x.d);
  }

  /** The accepted texts are exactly the canonical ones. */
  lemma ParseIffFormat(s: string, x: Addr)
    ensures Parse(s) == Some(x) <==> s == Format(x)
  {
    ParseFormat(x);
    if Parse(s) == Some(x) {
      JoinSplit(s, '.');
      assert Split(s, '.') == [Digits(x.a), Digits(x.b), Digits(x.c), Digits(x.d)];
    }
  }

  lemma FormatInjective(x: Addr, y: Addr)
    requires Format(x) == Format(y)
    ensures x == y
  {
    ParseFormat(x);
    ParseFormat(y);
  }

  // ---------------------------------------------------------------- prefixes

  datatype Prefix = Prefix(addr: Addr, bits: nat)

  function FormatPrefix(p: Prefix): string {
    Format(p.addr) + ['/'] + Digits(p.bits)
  }

  /** `netip.ParsePrefix` on IPv4 texts. */
  function ParsePrefix(s: string): Option<Prefix> {
    var f := Split(s, '/');
    if |f| != 2 then None
    else
      var a, n := Parse(f[0]), ParseNat(f[1]);
      if a.Some? && n.Some? && n.value <= 32 then Some(Prefix(a.value, n.value)) else None
  }

  lemma ParsePrefixFormat(p: Prefix)
    requires p.bits <= 32
    ensures ParsePrefix(FormatPrefix(p)) == Some(p)
  {
    FormatShape(p.addr);
    SplitCons(Format(p.addr), Digits(p.bits), '/');
    SplitPlain(Digits(p.bits), '/');
    ParseFormat(p.addr);
    ParseNatDigits(p.bits);
  }

  /** The accepted prefix texts are exactly the canonical ones. */
  lemma ParsePrefixIff(s: string, p: Prefix)
    ensures ParsePrefix(s) == Some(p) <==> p.bits <= 32 && s == FormatPrefix(p)
  {
    if p.bits <= 32 { ParsePrefixFormat(p); }
    if ParsePrefix(s) == Some(p) {
      var f := Split(s, '/');
      JoinSplit(s, '/');
      ParseIffFormat(f[0], p.addr);
      assert f[1..] == [f[1]];
      assert Join(f, '/') == f[0] + ['/'] + Join(f[1..], '/');
    }
  }

  /** Addresses are ordered by their 32-bit value. */
  lemma LeAddrAscends(x: Addr, y: Addr)
    ensures LeAddr(x, y) <==>
            ((x.a * 256 + x.b) * 256 + x.c) * 256 + x.d <= ((y.a * 256 + y.b) * 256 + y.c) * 256 + y.d
  {}

  lemma DottedQuad(x: Addr)
    ensures Format(x) == Digits(x.a) + "." + Digits(x.b) + "." + Digits(x.c) + "." + Digits(x.d)
  {
    var p := [Digits(x.a), Digits(x.b), Digits(x.c), Digits(x.d)];
    assert p[1..] == [Digits(x.b), Digits(x.c), Digits(x.d)];
    assert p[1..][1..] == [Digits(x.c), Digits(x.d)];
    assert p[1..][1..][1..] == [Digits(x.d)];
    assert Join(p[1..][1..], '.') == Digits(x.c) + "." + Digits(x.d);
    assert Join(p[1..], '.') == Digits(x.b) + "." + Join(p[1..][1..], '.');
    assert Format(x) == Digits(x.a) + "." + Join(p[1..], '.');
  }
}
