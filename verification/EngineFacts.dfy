/** What the loops of a transaction do to the interface. */
module EngineFacts {
  import opened Text
  import opened IPv4
  import opened Sorting
  import opened IPAttach
  import opened ExternalIPs
  import opened Engine

  function PrefixesOf(bits: nat, addrs: seq<Addr>): set<Prefix> {
    set a | a in addrs :: Prefix(a, bits)
  }

  lemma PrefixesOfMember(bits: nat, addrs: seq<Addr>, p: Prefix)
    ensures p in PrefixesOf(bits, addrs) <==> p.bits == bits && p.addr in addrs
  {}

  lemma PrefixesOfHead(bits: nat, addrs: seq<Addr>)
    requires addrs != []
    ensures PrefixesOf(bits, addrs) == {Prefix(addrs[0], bits)} + PrefixesOf(bits, addrs[1..])
  {}

  lemma PrefixesOfLast(bits: nat, addrs: seq<Addr>)
    requires addrs != []
    ensures PrefixesOf(bits, addrs) == {Prefix(addrs[|addrs| - 1], bits)} + PrefixesOf(bits, addrs[..|addrs| - 1])
  {}

  lemma PrefixesOfConcat(bits: nat, x: seq<Addr>, y: seq<Addr>)
    ensures PrefixesOf(bits, x + y) == PrefixesOf(bits, x) + PrefixesOf(bits, y)
  {}

  /** Every interface state in `nics` lies between `low` and `high`. */
  ghost predicate Between(low: set<Prefix>, nics: seq<set<Prefix>>, high: set<Prefix>) {
    forall i :: 0 <= i < |nics| ==> low <= nics[i] <= high
  }

  lemma BetweenHead(low: set<Prefix>, n: set<Prefix>, nics: seq<set<Prefix>>, high: set<Prefix>)
    requires low <= n <= high && Between(low, nics, high)
    ensures Between(low, [n] + nics, high)
  {}

  lemma BetweenWiden(low: set<Prefix>, low': set<Prefix>, nics: seq<set<Prefix>>, high': set<Prefix>, high: set<Prefix>)
    requires low <= low' && high' <= high && Between(low', nics, high')
    ensures Between(low, nics, high)
  {}

  // ---------------------------------------------------------------- attaching

  /** Attaching only adds, and only what was asked for. */
  lemma {:induction false} AttachGrows(mode: Mode, nic: set<Prefix>, todo: seq<Addr>, attached: seq<Addr>, f: Addr -> CallFaults)
    requires !mode.Noop?
    ensures var r := Attach(mode, nic, todo, attached, f); var high := nic + PrefixesOf(mode.bits, todo);
            nic <= r.nic <= high && Between(nic, r.nics, high)
    ensures var r := Attach(mode, nic, todo, attached, f);
            r.failed.None? ==> PrefixesOf(mode.bits, todo) <= r.nic
    decreases |todo|
  {
    if todo != [] {
      var c := Present(mode, nic, todo[0], f(todo[0]));
      var r := Attach(mode, nic, todo, attached, f);
      var high := nic + PrefixesOf(mode.bits, todo);
      PrefixesOfHead(mode.bits, todo);
      PerformMeansIt(mode, nic, EnsurePresent(todo[0], f(todo[0])));
      assert nic <= c.nic <= high;
      if !c.failed {
        var next := if c.changed then attached + [todo[0]] else attached;
        AttachGrows(mode, c.nic, todo[1..], next, f);
        var rest := Attach(mode, c.nic, todo[1..], next, f);
        BetweenWiden(nic, c.nic, rest.nics, c.nic + PrefixesOf(mode.bits, todo[1..]), high);
        BetweenHead(nic, c.nic, rest.nics, high);
      } else {
        assert r.nics == [c.nic];
      }
    }
  }

  /** What is remembered as attached was asked for, was absent before and is present after. */
  lemma {:induction false} AttachRemembers(mode: Mode, nic: set<Prefix>, todo: seq<Addr>, attached: seq<Addr>, f: Addr -> CallFaults)
    returns (added: seq<Addr>)
    requires !mode.Noop?
    ensures Attach(mode, nic, todo, attached, f).attached == attached + added
    ensures forall a :: a in added ==> a in todo && Prefix(a, mode.bits) !in nic
    ensures PrefixesOf(mode.bits, added) <= Attach(mode, nic, todo, attached, f).nic
    ensures (forall a :: f(a).op ==> !f(a).effect) ==>
            Attach(mode, nic, todo, attached, f).nic == nic + PrefixesOf(mode.bits, added)
    decreases |todo|
  {
    added := [];
    if todo == [] {
      assert attached + [] == attached;
    } else {
      var c := Present(mode, nic, todo[0], f(todo[0]));
      if c.failed {
        assert attached + [] == attached;
      } else {
        var next := if c.changed then attached + [todo[0]] else attached;
        var rest := AttachRemembers(mode, c.nic, todo[1..], next, f);
        AttachGrows(mode, c.nic, todo[1..], next, f);
        if c.changed {
          added := [todo[0]] + rest;
          Assoc(attached, [todo[0]], rest);
          PrefixesOfConcat(mode.bits, [todo[0]], rest);
          assert PrefixesOf(mode.bits, [todo[0]]) == {Prefix(todo[0], mode.bits)};
        } else {
          added := rest;
        }
      }
    }
  }

  // ---------------------------------------------------------------- detaching

  lemma {:induction false} RollbackShrinks(mode: Mode, nic: set<Prefix>, attached: seq<Addr>, f: Addr -> CallFaults)
    requires !mode.Noop?
    ensures var r := Rollback(mode, nic, attached, f); var low := nic - PrefixesOf(mode.bits, attached);
            low <= r.nic <= nic && Between(low, r.nics, nic) && (!r.failed ==> r.nic == low)
    decreases |attached|
  {
    if attached != [] {
      var n := |attached| - 1;
      var last := attached[n];
      var c := Absent(mode, nic, last, f(last));
      var low := nic - PrefixesOf(mode.bits, attached);
      PrefixesOfLast(mode.bits, attached);
      PerformMeansIt(mode, nic, EnsureAbsent(last, f(last)));
      RollbackShrinks(mode, c.nic, attached[..n], f);
      var rest := Rollback(mode, c.nic, attached[..n], f);
      assert low <= c.nic <= nic;
      BetweenWiden(low, c.nic - PrefixesOf(mode.bits, attached[..n]), rest.nics, c.nic, nic);
      BetweenHead(low, c.nic, rest.nics, nic);
    }
  }

  lemma {:induction false} DetachShrinks(mode: Mode, nic: set<Prefix>, todo: seq<Addr>, changed: bool, f: Addr -> CallFaults)
    requires !mode.Noop?
    ensures var r := Detach(mode, nic, todo, changed, f); var low := nic - PrefixesOf(mode.bits, todo);
            low <= r.nic <= nic && Between(low, r.nics, nic) && (r.failed.None? ==> r.nic == low)
    decreases |todo|
  {
    if todo != [] {
      var c := Absent(mode, nic, todo[0], f(todo[0]));
      var low := nic - PrefixesOf(mode.bits, todo);
      PrefixesOfHead(mode.bits, todo);
      PerformMeansIt(mode, nic, EnsureAbsent(todo[0], f(todo[0])));
      assert low <= c.nic <= nic;
      if !c.failed {
        DetachShrinks(mode, c.nic, todo[1..], changed || c.changed, f);
        var rest := Detach(mode, c.nic, todo[1..], changed || c.changed, f);
        BetweenWiden(low, c.nic - PrefixesOf(mode.bits, todo[1..]), rest.nics, c.nic, nic);
        BetweenHead(low, c.nic, rest.nics, nic);
      } else {
        assert Detach(mode, nic, todo, changed, f).nics == [c.nic];
      }
    }
  }

  // ---------------------------------------------------------------- current and desired addresses

  lemma ListedIs(mode: Mode, nic: set<Prefix>)
    requires !mode.Noop?
    ensures Distinct(ListedAddrs(mode, nic))
    ensures forall a :: a in ListedAddrs(mode, nic) <==> Prefix(a, mode.bits) in nic
    ensures PrefixesOf(mode.bits, ListedAddrs(mode, nic)) == set p | p in nic && p.bits == mode.bits
  {
    LeAddrOrder();
    InOrderProperties(LeAddr, Managed(mode.bits, nic));
    forall a ensures a in ListedAddrs(mode, nic) <==> Prefix(a, mode.bits) in nic { ManagedMember(mode.bits, nic, a); }
    forall p ensures p in PrefixesOf(mode.bits, ListedAddrs(mode, nic)) <==> p in nic && p.bits == mode.bits {
      PrefixesOfMember(mode.bits, ListedAddrs(mode, nic), p);
      if p.bits == mode.bits { assert p == Prefix(p.addr, mode.bits); }
    }
  }

  lemma DifferencePrefixes(bits: nat, left: seq<Addr>, right: seq<Addr>)
    ensures PrefixesOf(bits, Difference(left, right)) == PrefixesOf(bits, left) - PrefixesOf(bits, right)
  {
    forall p ensures p in PrefixesOf(bits, Difference(left, right))
                     <==> p in PrefixesOf(bits, left) && p !in PrefixesOf(bits, right)
    {
      PrefixesOfMember(bits, left, p);
      PrefixesOfMember(bits, right, p);
      PrefixesOfMember(bits, Difference(left, right), p);
      DifferenceMembers(left, right, p.addr);
    }
  }
}
