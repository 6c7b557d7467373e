/** Reading the interface addresses that `ip -4 -o addr show` prints. */
module Listing {
  import opened Text
  import opened IPv4
  import Sorting

  // ---------------------------------------------------------------- lines as fields

  function NonEmpty(ts: seq<seq<string>>): seq<seq<string>> {
    if ts == [] then []
    else (if ts[0] == [] then [] else [ts[0]]) + NonEmpty(ts[1..])
  }

  function FieldsOfLines(lines: seq<string>): (r: seq<seq<string>>)
    ensures |r| == |lines|
  {
    seq(|lines|, i requires 0 <= i < |lines| => Fields(lines[i]))
  }

  /** The fields of each line of a text that has any. */
  function TokenLines(text: string): seq<seq<string>> {
    NonEmpty(FieldsOfLines(Split(text, '\n')))
  }

  lemma {:induction false} NonEmptyConcat(a: seq<seq<string>>, b: seq<seq<string>>)
    ensures NonEmpty(a + b) == NonEmpty(a) + NonEmpty(b)
  {
    if a == [] {
      assert a + b == b;
    } else {
      var head := if a[0] == [] then [] else [a[0]];
      NonEmptyConcat(a[1..], b);
      assert (a + b)[0] == a[0] && (a + b)[1..] == a[1..] + b;
      Sorting.Assoc(head, NonEmpty(a[1..]), NonEmpty(b));
    }
  }

  lemma FieldsOfLinesConcat(a: seq<string>, b: seq<string>)
    ensures FieldsOfLines(a + b) == FieldsOfLines(a) + FieldsOfLines(b)
  {}

  lemma NoTokens()
    ensures FieldsOfLines([""]) == [[]] && NonEmpty([[]]) == []
  {}

  lemma SpaceInFront(c: char, s: string)
    requires IsSpace(c)
    ensures TokenLines([c] + s) == TokenLines(s)
  {
    var r := Split(s, '\n');
    assert ([c] + s)[1..] == s;
    if c == '\n' {
      FieldsOfLinesConcat([[]], r);
      NoTokens();
      NonEmptyConcat([[]], FieldsOfLines(r));
    } else {
      assert ([c] + r[0])[1..] == r[0];
      assert FieldsOfLines([[c] + r[0]] + r[1..]) == FieldsOfLines(r);
    }
  }

  lemma GrownHead(c: char, r: seq<string>, q: seq<string>)
    requires r != []
    ensures (r + q)[0] == r[0] && [[c] + r[0]] + (r + q)[1..] == [[c] + r[0]] + r[1..] + q
  {}

  lemma {:induction false} SplitTwo(s: string, t: string)
    ensures Split(s + ['\n'] + t, '\n') == Split(s, '\n') + Split(t, '\n')
  {
    var u := s + ['\n'] + t;
    if s == [] {
      assert u[0] == '\n' && u[1..] == t;
    } else {
      SplitTwo(s[1..], t);
      assert u[0] == s[0] && u[1..] == s[1..] + ['\n'] + t;
      var r, q := Split(s[1..], '\n'), Split(t, '\n');
      if s[0] == '\n' {
        Sorting.Assoc([[]], r, q);
      } else {
        GrownHead(s[0], r, q);
      }
    }
  }

  function GrowLast(r: seq<string>, c: char): seq<string>
    requires r != []
  {
    r[..|r| - 1] + [r[|r| - 1] + [c]]
  }

  lemma GrowBothEnds(b: char, r: seq<string>, c: char)
    requires r != []
    ensures [[]] + GrowLast(r, c) == GrowLast([[]] + r, c)
    ensures [[b] + GrowLast(r, c)[0]] + GrowLast(r, c)[1..] == GrowLast([[b] + r[0]] + r[1..], c)
  {
    if |r| == 1 {
      assert [b] + (r[0] + [c]) == [b] + r[0] + [c];
    }
  }

  lemma {:induction false} SplitGrow(s: string, c: char)
    requires c != '\n'
    ensures Split(s + [c], '\n') == GrowLast(Split(s, '\n'), c)
  {
    if s == [] {
      assert s + [c] == [c] && [c][1..] == [];
      assert Split([c], '\n') == [[c] + []] && [c] + [] == [c];
      assert GrowLast([[]], c) == [[] + [c]] && [] + [c] == [c];
    } else {
      SplitGrow(s[1..], c);
      assert (s + [c])[0] == s[0] && (s + [c])[1..] == s[1..] + [c];
      GrowBothEnds(s[0], Split(s[1..], '\n'), c);
    }
  }

  lemma SpaceAtEnd(s: string, c: char)
    requires IsSpace(c)
    ensures TokenLines(s + [c]) == TokenLines(s)
  {
    var r := Split(s, '\n');
    var n := |r| - 1;
    if c == '\n' {
      SplitTwo(s, []);
      assert s + [c] + [] == s + [c];
      FieldsOfLinesConcat(r, [[]]);
      NoTokens();
      NonEmptyConcat(FieldsOfLines(r), [[]]);
    } else {
      SplitGrow(s, c);
      FieldsBlankEnd(r[n], c);
      assert FieldsOfLines(r[..n] + [r[n] + [c]]) == FieldsOfLines(r);
    }
  }

  lemma {:induction false} TrimLeftTokens(s: string)
    ensures TokenLines(TrimLeft(s)) == TokenLines(s)
  {
    if s != [] && IsSpace(s[0]) {
      TrimLeftTokens(s[1..]);
      SpaceInFront(s[0], s[1..]);
      assert [s[0]] + s[1..] == s;
    }
  }

  lemma {:induction false} TrimRightTokens(s: string)
    ensures TokenLines(TrimRight(s)) == TokenLines(s)
    decreases |s|
  {
    if s != [] && IsSpace(s[|s| - 1]) {
      TrimRightTokens(s[..|s| - 1]);
      SpaceAtEnd(s[..|s| - 1], s[|s| - 1]);
      assert s[..|s| - 1] + [s[|s| - 1]] == s;
    }
  }

  /** Trimming the text first changes no line's fields. */
  lemma TrimTokens(s: string)
    ensures TokenLines(TrimSpace(s)) == TokenLines(s)
  {
    TrimLeftTokens(s);
    TrimRightTokens(TrimLeft(s));
  }

  // ---------------------------------------------------------------- what a listing says

  /** The field after the first "inet" that has one. */
  function AfterInet(fields: seq<string>): Option<string> {
    if |fields| < 2 then None
    else if fields[0] == "inet" then Some(fields[1])
    else AfterInet(fields[1..])
  }

  /** What one more line adds to the addresses found so far. `six` says which texts are IPv6 prefixes;
      those are skipped. */
  function WithLine(found: Result<seq<Addr>>, fields: seq<string>, bits: nat, six: string -> bool): Result<seq<Addr>> {
    var text := AfterInet(fields);
    if found.Err? || text.None? then found
    else
      var p := ParsePrefix(text.value);
      if p.None? then if six(text.value) then found else Err
      else if p.value.bits == bits then Ok(found.value + [p.value.addr])
      else found
  }

  /** The managed addresses on the given lines, or an error when some address is malformed. */
  function ManagedOn(ts: seq<seq<string>>, bits: nat, six: string -> bool): Result<seq<Addr>> {
    if ts == [] then Ok([]) else WithLine(ManagedOn(ts[..|ts| - 1], bits, six), ts[|ts| - 1], bits, six)
  }

  lemma ManagedAppend(ts: seq<seq<string>>, t: seq<string>, bits: nat, six: string -> bool)
    ensures ManagedOn(ts + [t], bits, six) == WithLine(ManagedOn(ts, bits, six), t, bits, six)
  {}

  /** The line with these fields shows the prefix `p`. */
  ghost predicate Shows(fields: seq<string>, p: Prefix) {
    exists pre, post :: "inet" !in pre && fields == pre + ["inet", FormatPrefix(p)] + post
  }

  /** A listing of `prefixes`, one per line, in any layout, blank lines allowed. */
  ghost predicate WellFormedListing(text: string, prefixes: seq<Prefix>) {
    && |TokenLines(text)| == |prefixes|
    && forall i :: 0 <= i < |prefixes| ==> prefixes[i].bits <= 32 && Shows(TokenLines(text)[i], prefixes[i])
  }

  function WithBits(prefixes: seq<Prefix>, bits: nat): seq<Addr> {
    if prefixes == [] then []
    else
      var found, last := WithBits(prefixes[..|prefixes| - 1], bits), prefixes[|prefixes| - 1];
      if last.bits == bits then found + [last.addr] else found
  }

  lemma {:induction false} AfterInetFound(pre: seq<string>, text: string, post: seq<string>)
    requires "inet" !in pre
    ensures AfterInet(pre + ["inet", text] + post) == Some(text)
  {
    var f := pre + ["inet", text] + post;
    if pre != [] {
      AfterInetFound(pre[1..], text, post);
      assert f[1..] == pre[1..] + ["inet", text] + post;
      assert f[0] == pre[0] && pre[0] in pre;
    }
  }

  lemma {:induction false} ShownLinesParse(ts: seq<seq<string>>, prefixes: seq<Prefix>, bits: nat, six: string -> bool)
    requires |ts| == |prefixes|
    requires forall i :: 0 <= i < |ts| ==> prefixes[i].bits <= 32 && Shows(ts[i], prefixes[i])
    ensures ManagedOn(ts, bits, six) == Ok(WithBits(prefixes, bits))
  {
    if ts != [] {
      var n := |ts| - 1;
      ShownLinesParse(ts[..n], prefixes[..n], bits, six);
      assert Shows(ts[n], prefixes[n]);
      var pre, post :| "inet" !in pre && ts[n] == pre + ["inet", FormatPrefix(prefixes[n])] + post;
      AfterInetFound(pre, FormatPrefix(prefixes[n]), post);
      ParsePrefixFormat(prefixes[n]);
    }
  }

  /** The parser recovers exactly the managed addresses, in order, from any well-formed listing. */
  lemma ListingParsed(text: string, prefixes: seq<Prefix>, bits: nat, six: string -> bool)
    requires WellFormedListing(text, prefixes)
    ensures ManagedOn(TokenLines(text), bits, six) == Ok(WithBits(prefixes, bits))
  {
    ShownLinesParse(TokenLines(text), prefixes, bits, six);
  }

  // ---------------------------------------------------------------- the parser

  lemma {:induction false} ManagedErrSticks(ts: seq<seq<string>>, i: nat, bits: nat, six: string -> bool)
    requires i <= |ts| && ManagedOn(ts[..i], bits, six).Err?
    ensures ManagedOn(ts, bits, six).Err?
    decreases |ts|
  {
    if i == |ts| {
      assert ts[..i] == ts;
    } else {
      var n := |ts| - 1;
      assert ts[..n][..i] == ts[..i];
      ManagedErrSticks(ts[..n], i, bits, six);
    }
  }

  lemma {:induction false} ManagedSkipsBlank(ts: seq<seq<string>>, bits: nat, six: string -> bool)
    ensures ManagedOn(ts, bits, six) == ManagedOn(NonEmpty(ts), bits, six)
  {
    if ts != [] {
      var n := |ts| - 1;
      ManagedSkipsBlank(ts[..n], bits, six);
      assert ts == ts[..n] + [ts[n]];
      NonEmptyConcat(ts[..n], [ts[n]]);
      NonEmptyOne(ts[n]);
      if ts[n] == [] {
        assert NonEmpty(ts) == NonEmpty(ts[..n]);
      } else {
        ManagedAppend(NonEmpty(ts[..n]), ts[n], bits, six);
      }
    }
  }

  lemma NonEmptyOne(t: seq<string>)
    ensures NonEmpty([t]) == if t == [] then [] else [t]
  {}

  method FindAfterInet(fields: seq<string>) returns (text: Option<string>)
    ensures text == AfterInet(fields)
  {
    var index := 0;
    assert fields[0..] == fields;
    while index < |fields|
      invariant 0 <= index <= |fields|
      invariant AfterInet(fields) == AfterInet(fields[index..])
    {
      if fields[index] != "inet" || index + 1 >= |fields| {
        assert fields[index..][1..] == fields[index + 1..];
        index := index + 1;
        continue;
      }
      return Some(fields[index + 1]);
    }
    return None;
  }

  method ParseManagedInterfaceAddrs(output: string, bits: nat, six: string -> bool) returns (r: Result<seq<Addr>>)
    ensures r == ManagedOn(TokenLines(output), bits, six)
  {
    var lines := Split(TrimSpace(output), '\n');
    ghost var ts := FieldsOfLines(lines);
    ManagedSkipsBlank(ts, bits, six);
    TrimTokens(output);
    var addresses := [];
    for i := 0 to |lines|
      invariant ManagedOn(ts[..i], bits, six) == Ok(addresses)
    {
      var fields := Fields(lines[i]);
      Sorting.Take(ts, i);
      ManagedAppend(ts[..i], fields, bits, six);
      var text := FindAfterInet(fields);
      if text.Some? {
        var prefix := ParsePrefix(text.value);
        if prefix.None? && !six(text.value) {
          ManagedErrSticks(ts, i + 1, bits, six);
          return Err;
        }
        if prefix.Some? && prefix.value.bits == bits {
          addresses := addresses + [prefix.value.addr];
        }
      }
    }
    Sorting.TakeAll(ts);
    return Ok(addresses);
  }

  // ---------------------------------------------------------------- a listing of given prefixes

  lemma {:induction false} FieldsConcat(a: string, sp: char, b: string)
    requires IsSpace(sp)
    ensures Fields(a + [sp] + b) == Fields(a) + Fields(b)
  {
    var t := a + [sp] + b;
    if a == [] {
      assert t[1..] == b;
    } else {
      var r, q := Fields(a[1..]), Fields(b);
      FieldsConcat(a[1..], sp, b);
      assert t[0] == a[0] && t[1..] == a[1..] + [sp] + b;
      if IsSpace(a[0]) {
      } else if |a| == 1 {
        assert t[1] == sp;
        Sorting.Assoc([[a[0]]], r, q);
      } else {
        assert t[1] == a[1];
        if IsSpace(a[1]) {
          Sorting.Assoc([[a[0]]], r, q);
        } else {
          GrownHead(a[0], r, q);
        }
      }
    }
  }

  lemma {:induction false} FieldsWord(w: string)
    requires w != [] && forall i :: 0 <= i < |w| ==> !IsSpace(w[i])
    ensures Fields(w) == [w]
  {
    if |w| > 1 {
      FieldsWord(w[1..]);
      assert [w[0]] + w[1..] == w;
    } else {
      assert w == [w[0]] && w[1..] == [];
    }
  }

  /** One line of output: what precedes the address, the address, what follows it. */
  function ShowLine(header: string, p: Prefix, attributes: string): string {
    header + [' '] + ("inet" + [' '] + (FormatPrefix(p) + [' '] + attributes))
  }

  lemma PrefixIsWord(p: Prefix)
    ensures FormatPrefix(p) != [] && forall i :: 0 <= i < |FormatPrefix(p)| ==> !IsSpace(FormatPrefix(p)[i])
  {
    FormatShape(p.addr);
  }

  lemma TwoWords(a: string, b: string, rest: seq<string>)
    ensures [a] + ([b] + rest) == [a, b] + rest
  {}

  lemma FieldsAround(header: string, a: string, b: string, attributes: string)
    requires Fields(a) == [a] && Fields(b) == [b]
    ensures Fields(header + [' '] + (a + [' '] + (b + [' '] + attributes)))
         == Fields(header) + ([a, b] + Fields(attributes))
  {
    FieldsConcat(b, ' ', attributes);
    FieldsConcat(a, ' ', b + [' '] + attributes);
    FieldsConcat(header, ' ', a + [' '] + (b + [' '] + attributes));
    TwoWords(a, b, Fields(attributes));
  }

  lemma ShowLineShows(header: string, p: Prefix, attributes: string)
    requires "inet" !in Fields(header)
    ensures Shows(Fields(ShowLine(header, p, attributes)), p)
  {
    var inet, text := "inet", FormatPrefix(p);
    assert Fields(text) == [text] by {
      PrefixIsWord(p);
      FieldsWord(text);
    }
    assert Fields(inet) == [inet] by { FieldsWord(inet); }
    FieldsAround(header, inet, text, attributes);
    Sorting.Assoc(Fields(header), [inet, text], Fields(attributes));
  }

  lemma ShowLineIsLine(header: string, p: Prefix, attributes: string)
    requires '\n' !in header && '\n' !in attributes
    ensures '\n' !in ShowLine(header, p, attributes)
  {
    PrefixIsWord(p);
    assert '\n' !in FormatPrefix(p);
    assert '\n' !in "inet";
  }

  /** Printing one more line shows one more prefix. */
  lemma ListingAppend(text: string, prefixes: seq<Prefix>, line: string, p: Prefix)
    requires WellFormedListing(text, prefixes) && (text == [] || text[|text| - 1] == '\n')
    requires p.bits <= 32 && '\n' !in line && Shows(Fields(line), p)
    ensures WellFormedListing(text + (line + ['\n']), prefixes + [p])
  {
    var pre, post :| "inet" !in pre && Fields(line) == pre + ["inet", FormatPrefix(p)] + post;
    assert Fields(line) != [] by { assert |Fields(line)| >= 2; }
    TokensAppend(text, line);
  }

  lemma {:induction false} TokensAppend(text: string, line: string)
    requires text == [] || text[|text| - 1] == '\n'
    requires '\n' !in line && Fields(line) != []
    ensures TokenLines(text + (line + ['\n'])) == TokenLines(text) + [Fields(line)]
  {
    var tail := line + ['\n'];
    SplitCons(line, [], '\n');
    assert line + ['\n'] + [] == tail;
    assert Split(tail, '\n') == [line, []];
    if text == [] {
      assert text + tail == tail;
      TokensOfTwo(line);
      NoTokens();
    } else {
      var t := text[..|text| - 1];
      assert text == t + ['\n'];
      SplitTwo(t, tail);
      SplitTwo(t, []);
      assert t + ['\n'] + [] == text;
      assert text + tail == t + ['\n'] + tail;
      var r := Split(t, '\n');
      FieldsOfLinesConcat(r, [line, []]);
      NonEmptyConcat(FieldsOfLines(r), FieldsOfLines([line, []]));
      TokensOfTwo(line);
      FieldsOfLinesConcat(r, [[]]);
      NonEmptyConcat(FieldsOfLines(r), FieldsOfLines([[]]));
      NoTokens();
    }
  }

  lemma TokensOfTwo(line: string)
    requires Fields(line) != []
    ensures NonEmpty(FieldsOfLines([line, []])) == [Fields(line)]
  {
    var f := FieldsOfLines([line, []]);
    assert f == [Fields(line), []];
    assert f[1..] == [[]];
    NoTokens();
  }

  /** A listing in which the text after some line's "inet" is no prefix at all is refused. */
  lemma MalformedFails(output: string, i: nat, pre: seq<string>, text: string, post: seq<string>, bits: nat, six: string -> bool)
    requires i < |TokenLines(output)| && TokenLines(output)[i] == pre + ["inet", text] + post && "inet" !in pre
    requires ParsePrefix(text).None? && !six(text)
    ensures ManagedOn(TokenLines(output), bits, six).Err?
  {
    var ts := TokenLines(output);
    AfterInetFound(pre, text, post);
    Sorting.Take(ts, i);
    ManagedAppend(ts[..i], ts[i], bits, six);
    ManagedErrSticks(ts, i + 1, bits, six);
  }
}
