/** Attaching and detaching external addresses on one host interface. */
module IPAttach {
  import opened Text
  import opened IPv4
  import opened Sorting
  import opened Listing

  /** How addresses are managed, and the prefix length that marks an address as managed. */
  datatype Mode = Noop | Netlink(bits: nat) | Exec(bits: nat)

  /** Which external calls of one manager operation fail, and whether a failed change took effect. */
  datatype CallFaults = CallFaults(list: bool, op: bool, effect: bool, recheck: bool)

  datatype Outcome = Outcome(nic: set<Prefix>, changed: bool, failed: bool)

  lemma LeAddrOrder()
    ensures TotalOrder(LeAddr)
  {}

  // ---------------------------------------------------------------- specification

  function Managed(bits: nat, nic: set<Prefix>): set<Addr> {
    set p | p in nic && p.bits == bits :: p.addr
  }

  lemma ManagedMember(bits: nat, nic: set<Prefix>, a: Addr)
    ensures a in Managed(bits, nic) <==> Prefix(a, bits) in nic
  {}

  /** The managed addresses in order; a disabled manager sees none. */
  ghost function ListedAddrs(mode: Mode, nic: set<Prefix>): seq<Addr> {
    if mode.Noop? then [] else InOrder(LeAddr, Managed(mode.bits, nic))
  }

  /** Making `a` present: look, add, and look again when the add reports an error. */
  function Present(mode: Mode, nic: set<Prefix>, a: Addr, f: CallFaults): Outcome {
    if mode.Noop? then Outcome(nic, false, false)
    else
      var p := Prefix(a, mode.bits);
      if f.list then Outcome(nic, false, true)
      else if p in nic then Outcome(nic, false, false)
      else if !f.op then Outcome(nic + {p}, true, false)
      else if f.effect then Outcome(nic + {p}, false, f.recheck)
      else Outcome(nic, false, true)
  }

  /** Making `a` absent, in the same way. */
  function Absent(mode: Mode, nic: set<Prefix>, a: Addr, f: CallFaults): Outcome {
    if mode.Noop? then Outcome(nic, false, false)
    else
      var p := Prefix(a, mode.bits);
      if f.list then Outcome(nic, false, true)
      else if p !in nic then Outcome(nic, false, false)
      else if !f.op then Outcome(nic - {p}, true, false)
      else if f.effect then Outcome(nic - {p}, false, f.recheck)
      else Outcome(nic, false, true)
  }

  // ---------------------------------------------------------------- runs of manager calls

  datatype Operation = EnsurePresent(addr: Addr, faults: CallFaults) | EnsureAbsent(addr: Addr, faults: CallFaults)

  function Perform(mode: Mode, nic: set<Prefix>, op: Operation): Outcome {
    match op
    case EnsurePresent(a, f) => Present(mode, nic, a, f)
    case EnsureAbsent(a, f) => Absent(mode, nic, a, f)
  }

  function PerformAll(mode: Mode, nic: set<Prefix>, ops: seq<Operation>): set<Prefix> {
    if ops == [] then nic
    else Perform(mode, PerformAll(mode, nic, ops[..|ops| - 1]), ops[|ops| - 1]).nic
  }

  /** No error means that what was asked for holds; an address is reported changed only if it was. */
  lemma PerformMeansIt(mode: Mode, nic: set<Prefix>, op: Operation)
    requires !mode.Noop?
    ensures var r := Perform(mode, nic, op); var p := Prefix(op.addr, mode.bits);
            && (!r.failed ==> (p in r.nic <==> op.EnsurePresent?))
            && (r.changed ==> !r.failed && r.nic != nic)
            && (r.nic == nic || (op.EnsurePresent? && p !in nic && r.nic == nic + {p})
                             || (op.EnsureAbsent? && p in nic && r.nic == nic - {p}))
  {}

  /** Over any run, addresses with another prefix length are neither added nor removed. */
  lemma {:induction false} OthersUntouched(mode: Mode, nic: set<Prefix>, ops: seq<Operation>, p: Prefix)
    requires !mode.Noop? && p.bits != mode.bits
    ensures p in PerformAll(mode, nic, ops) <==> p in nic
  {
    if ops != [] {
      OthersUntouched(mode, nic, ops[..|ops| - 1], p);
    }
  }

  /** What a run of calls without errors leaves: exactly the last request for each address. */
  lemma {:induction false} LastRequestHolds(mode: Mode, nic: set<Prefix>, ops: seq<Operation>, i: nat)
    requires !mode.Noop? && i < |ops|
    requires !Perform(mode, PerformAll(mode, nic, ops[..i]), ops[i]).failed
    requires forall j :: i < j < |ops| ==> ops[j].addr != ops[i].addr
    ensures Prefix(ops[i].addr, mode.bits) in PerformAll(mode, nic, ops) <==> ops[i].EnsurePresent?
    decreases |ops|
  {
    var n := |ops| - 1;
    if i == n {
      PerformMeansIt(mode, PerformAll(mode, nic, ops[..n]), ops[n]);
    } else {
      assert ops[..n][..i] == ops[..i];
      LastRequestHolds(mode, nic, ops[..n], i);
    }
  }

  // ---------------------------------------------------------------- the managers

  lemma {:induction false} WithBitsMembers(prefixes: seq<Prefix>, bits: nat, a: Addr)
    ensures a in WithBits(prefixes, bits) <==> Prefix(a, bits) in prefixes
  {
    if prefixes != [] {
      var n := |prefixes| - 1;
      WithBitsMembers(prefixes[..n], bits, a);
      assert prefixes == prefixes[..n] + [prefixes[n]];
    }
  }

  lemma {:induction false} WithBitsDistinct(prefixes: seq<Prefix>, bits: nat)
    requires Distinct(prefixes)
    ensures Distinct(WithBits(prefixes, bits))
  {
    if prefixes != [] {
      var n := |prefixes| - 1;
      WithBitsDistinct(prefixes[..n], bits);
      WithBitsMembers(prefixes[..n], bits, prefixes[n].addr);
      if prefixes[n].bits == bits {
        assert prefixes[n] == Prefix(prefixes[n].addr, bits);
        assert prefixes[n] !in prefixes[..n];
      }
    }
  }

  /** Filtering any enumeration of the interface and sorting gives the managed addresses in order. */
  lemma SortedListing(prefixes: seq<Prefix>, nic: set<Prefix>, bits: nat)
    requires Distinct(prefixes) && forall p :: p in prefixes <==> p in nic
    ensures Sort(LeAddr, WithBits(prefixes, bits)) == InOrder(LeAddr, Managed(bits, nic))
  {
    var found := WithBits(prefixes, bits);
    LeAddrOrder();
    WithBitsDistinct(prefixes, bits);
    forall a ensures a in found <==> a in Managed(bits, nic) {
      WithBitsMembers(prefixes, bits, a);
      ManagedMember(bits, nic, a);
    }
    SortedEnumeration(LeAddr, found, Managed(bits, nic));
  }

  /** One interface and the manager configured for it. */
  class Manager {
    const mode: Mode
    const header: string
    const attributes: string
    /** Which texts are IPv6 prefixes. */
    const six: string -> bool
    var nic: set<Prefix>

    /** Addresses are IPv4 prefixes, and the words printed around them are not addresses. */
    ghost predicate Valid()
      reads this
    {
      && (forall p :: p in nic ==> p.bits <= 32)
      && (!mode.Noop? ==> mode.bits <= 32)
      && '\n' !in header && '\n' !in attributes && "inet" !in Fields(header)
    }

    constructor (mode: Mode, nic: set<Prefix>, header: string, attributes: string, six: string -> bool)
      requires (forall p :: p in nic ==> p.bits <= 32) && (!mode.Noop? ==> mode.bits <= 32)
      requires '\n' !in header && '\n' !in attributes && "inet" !in Fields(header)
      ensures Valid() && this.mode == mode && this.nic == nic
    {
      this.mode := mode;
      this.nic := nic;
      this.header := header;
      this.attributes := attributes;
      this.six := six;
    }

    /** The kernel enumerates the interface in some order. */
    method KernelAddrs() returns (prefixes: seq<Prefix>)
      ensures Distinct(prefixes) && forall p :: p in prefixes <==> p in nic
    {
      prefixes := Enumerate(nic);
    }

    /** What `ip -4 -o addr show` prints for the same enumeration. */
    method ShowAddrs() returns (output: string, ghost prefixes: seq<Prefix>)
      requires Valid()
      ensures WellFormedListing(output, prefixes)
      ensures Distinct(prefixes) && forall p :: p in prefixes <==> p in nic
    {
      var all := KernelAddrs();
      output := "";
      assert TokenLines("") == [] by { NoTokens(); }
      assert all[..0] == [];
      for i := 0 to |all|
        invariant output == [] || output[|output| - 1] == '\n'
        invariant WellFormedListing(output, all[..i])
      {
        var line := ShowLine(header, all[i], attributes);
        assert all[i] in nic by { assert all[i] in all; }
        ShowLineShows(header, all[i], attributes);
        ShowLineIsLine(header, all[i], attributes);
        ListingAppend(output, all[..i], line, all[i]);
        Take(all, i);
        output := output + (line + ['\n']);
      }
      TakeAll(all);
      prefixes := all;
    }

    method NetlinkList(bits: nat) returns (addresses: seq<Addr>)
      ensures addresses == InOrder(LeAddr, Managed(bits, nic))
    {
      var prefixes := KernelAddrs();
      addresses := [];
      assert prefixes[..0] == [];
      for i := 0 to |prefixes|
        invariant addresses == WithBits(prefixes[..i], bits)
      {
        assert prefixes[..i + 1][..i] == prefixes[..i];
        if prefixes[i].bits == bits {
          addresses := addresses + [prefixes[i].addr];
        }
      }
      TakeAll(prefixes);
      SortedListing(prefixes, nic, bits);
      addresses := Sort(LeAddr, addresses);
    }

    method ExecList(bits: nat) returns (r: Result<seq<Addr>>)
      requires Valid()
      ensures r == Ok(InOrder(LeAddr, Managed(bits, nic)))
    {
      var output, prefixes := ShowAddrs();
      var parsed := ParseManagedInterfaceAddrs(output, bits, six);
      ListingParsed(output, prefixes, bits, six);
      SortedListing(prefixes, nic, bits);
      return Ok(Sort(LeAddr, parsed.value));
    }

    method List(fails: bool) returns (r: Result<seq<Addr>>)
      requires Valid()
      ensures r == if fails && !mode.Noop? then Err else Ok(ListedAddrs(mode, nic))
    {
      match mode
      case Noop => return Ok([]);
      case Netlink(bits) =>
        if fails { return Err; }
        var addresses := NetlinkList(bits);
        return Ok(addresses);
      case Exec(bits) =>
        if fails { return Err; }
        r := ExecList(bits);
    }

    lemma ListedContains(a: Addr)
      requires !mode.Noop?
      ensures a in ListedAddrs(mode, nic) <==> Prefix(a, mode.bits) in nic
    {
      LeAddrOrder();
      InOrderProperties(LeAddr, Managed(mode.bits, nic));
      ManagedMember(mode.bits, nic, a);
    }

    /** Whether the state asked for holds although the command reported an error. */
    method StateAfterFailure(a: Addr, wantPresent: bool, recheckFails: bool) returns (failed: bool)
      requires Valid() && !mode.Noop?
      ensures failed <==> recheckFails || (Prefix(a, mode.bits) in nic) != wantPresent
    {
      var current := List(recheckFails);
      ListedContains(a);
      failed := !(current.Ok? && (a in current.value) == wantPresent);
    }

    method MakePresent(a: Addr, f: CallFaults) returns (changed: bool, failed: bool)
      requires Valid()
      modifies this`nic
      ensures Valid() && Outcome(nic, changed, failed) == Present(mode, old(nic), a, f)
    {
      if mode.Noop? {
        return false, false;
      }
      var current := List(f.list);
      if current.Err? {
        return false, true;
      }
      ListedContains(a);
      if a in current.value {
        return false, false;
      }
      var prefix := Prefix(a, mode.bits);
      if !f.op || f.effect {
        nic := nic + {prefix};
      }
      if f.op {
        var stillFailed := StateAfterFailure(a, true, f.recheck);
        return false, stillFailed;
      }
      return true, false;
    }

    method MakeAbsent(a: Addr, f: CallFaults) returns (changed: bool, failed: bool)
      requires Valid()
      modifies this`nic
      ensures Valid() && Outcome(nic, changed, failed) == Absent(mode, old(nic), a, f)
    {
      if mode.Noop? {
        return false, false;
      }
      var current := List(f.list);
      if current.Err? {
        return false, true;
      }
      ListedContains(a);
      if a !in current.value {
        return false, false;
      }
      var prefix := Prefix(a, mode.bits);
      if !f.op || f.effect {
        nic := nic - {prefix};
      }
      if f.op {
        var stillFailed := StateAfterFailure(a, false, f.recheck);
        return false, stillFailed;
      }
      return true, false;
    }
  }
}
