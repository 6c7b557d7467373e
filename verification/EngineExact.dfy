/** Exactly when each part of a transaction fails and what it leaves behind, in terms of what was there
    before and of which calls fail. */
module EngineExact {
  import opened Text
  import opened IPv4
  import opened Sorting
  import opened Apply
  import opened IPAttach
  import opened ExternalIPs
  import opened Engine
  import opened EngineFacts
  import opened EngineSafety
  import Runs = ApplyRuns

  /** A change that is needed ends without error: it goes through, or a second look shows that it did. */
  predicate Works(f: CallFaults) { !f.list && (f.op ==> f.effect && !f.recheck) }

  /** An address that should be detached stays attached. */
  predicate Stays(f: CallFaults) { f.list || (f.op && !f.effect) }

  // ---------------------------------------------------------------- the loops

  /** Attaching completes exactly when each address is there already or can be added. */
  lemma {:induction false} AttachCompletesIff(mode: Mode, nic: set<Prefix>, todo: seq<Addr>, attached: seq<Addr>, f: Addr -> CallFaults)
    requires !mode.Noop?
    ensures Attach(mode, nic, todo, attached, f).failed.None? <==>
            forall a :: a in todo ==> !f(a).list && (Prefix(a, mode.bits) in nic || Works(f(a)))
    decreases |todo|
  {
    if todo != [] {
      var c := Present(mode, nic, todo[0], f(todo[0]));
      if c.failed {
        assert todo[0] in todo;
      } else {
        assert c.nic == nic + {Prefix(todo[0], mode.bits)};
        AttachCompletesIff(mode, c.nic, todo[1..], if c.changed then attached + [todo[0]] else attached, f);
        assert forall a :: a in todo <==> a == todo[0] || a in todo[1..];
      }
    }
  }

  /** What a complete attach phase remembers: the addresses that were absent and whose add reported success. */
  lemma {:induction false} RememberedIff(mode: Mode, nic: set<Prefix>, todo: seq<Addr>, attached: seq<Addr>, f: Addr -> CallFaults, a: Addr)
    requires !mode.Noop? && Attach(mode, nic, todo, attached, f).failed.None?
    ensures a in Attach(mode, nic, todo, attached, f).attached <==>
            a in attached || (a in todo && Prefix(a, mode.bits) !in nic && !f(a).op)
    decreases |todo|
  {
    if todo != [] {
      var c := Present(mode, nic, todo[0], f(todo[0]));
      assert c.nic == nic + {Prefix(todo[0], mode.bits)};
      RememberedIff(mode, c.nic, todo[1..], if c.changed then attached + [todo[0]] else attached, f, a);
      assert a in todo <==> a == todo[0] || a in todo[1..];
    }
  }

  /** What a rollback leaves: everything else, and what a failing call left in place. */
  lemma {:induction false} RollbackLeavesIff(mode: Mode, nic: set<Prefix>, attached: seq<Addr>, f: Addr -> CallFaults, a: Addr)
    requires !mode.Noop?
    ensures Prefix(a, mode.bits) in Rollback(mode, nic, attached, f).nic <==>
            Prefix(a, mode.bits) in nic && (a in attached ==> Stays(f(a)))
    decreases |attached|
  {
    if attached != [] {
      var n := |attached| - 1;
      var c := Absent(mode, nic, attached[n], f(attached[n]));
      RollbackLeavesIff(mode, c.nic, attached[..n], f, a);
      assert a in attached <==> a == attached[n] || a in attached[..n];
    }
  }

  /** A rollback makes one call for each remembered address, the last one first: after call `i` the addresses
      remembered before are as they were, and the others are gone unless their call left them. */
  lemma {:induction false} RollbackInReverse(mode: Mode, nic: set<Prefix>, attached: seq<Addr>, f: Addr -> CallFaults, i: nat, k: nat)
    requires !mode.Noop? && Distinct(attached) && i < |attached| && k < |attached|
    ensures var r := Rollback(mode, nic, attached, f);
            && |r.nics| == |attached|
            && (Prefix(attached[k], mode.bits) in r.nics[i] <==>
                Prefix(attached[k], mode.bits) in nic && (k >= |attached| - 1 - i ==> Stays(f(attached[k]))))
    decreases |attached|
  {
    var n := |attached| - 1;
    var init := attached[..n];
    var c := Absent(mode, nic, attached[n], f(attached[n]));
    RollbackCalls(mode, c.nic, init, f);
    if i > 0 {
      if k < n {
        assert init[k] == attached[k] && attached[k] != attached[n];
        RollbackInReverse(mode, c.nic, init, f, i - 1, k);
      } else {
        RollbackOthers(mode, c.nic, init, f, attached[n], i - 1);
      }
    } else if k < n {
      assert attached[k] != attached[n];
    }
  }

  lemma {:induction false} RollbackCalls(mode: Mode, nic: set<Prefix>, attached: seq<Addr>, f: Addr -> CallFaults)
    ensures |Rollback(mode, nic, attached, f).nics| == |attached|
    decreases |attached|
  {
    if attached != [] {
      var n := |attached| - 1;
      RollbackCalls(mode, Absent(mode, nic, attached[n], f(attached[n])).nic, attached[..n], f);
    }
  }

  lemma {:induction false} RollbackOthers(mode: Mode, nic: set<Prefix>, attached: seq<Addr>, f: Addr -> CallFaults, a: Addr, i: nat)
    requires !mode.Noop? && a !in attached && i < |Rollback(mode, nic, attached, f).nics|
    ensures Prefix(a, mode.bits) in Rollback(mode, nic, attached, f).nics[i] <==> Prefix(a, mode.bits) in nic
    decreases |attached|
  {
    var n := |attached| - 1;
    var c := Absent(mode, nic, attached[n], f(attached[n]));
    assert attached[n] in attached;
    if i > 0 { RollbackOthers(mode, c.nic, attached[..n], f, a, i - 1); }
  }

  /** Detaching completes exactly when each address can be removed. */
  lemma {:induction false} DetachCompletesIff(mode: Mode, nic: set<Prefix>, todo: seq<Addr>, changed: bool, f: Addr -> CallFaults)
    requires !mode.Noop? && Distinct(todo) && forall a :: a in todo ==> Prefix(a, mode.bits) in nic
    ensures Detach(mode, nic, todo, changed, f).failed.None? <==> forall a :: a in todo ==> Works(f(a))
    decreases |todo|
  {
    if todo != [] {
      var c := Absent(mode, nic, todo[0], f(todo[0]));
      assert todo[0] in todo;
      if !c.failed {
        DistinctTail(todo);
        DetachCompletesIff(mode, c.nic, todo[1..], changed || c.changed, f);
        assert forall a :: a in todo <==> a == todo[0] || a in todo[1..];
      }
    }
  }

  lemma DistinctTail(s: seq<Addr>)
    requires s != [] && Distinct(s)
    ensures Distinct(s[1..]) && s[0] !in s[1..]
  {}

  /** An address that should be detached is left exactly when its own call left it or an earlier one failed. */
  lemma {:induction false} DetachLeavesIff(mode: Mode, nic: set<Prefix>, todo: seq<Addr>, changed: bool, f: Addr -> CallFaults, k: nat)
    requires !mode.Noop? && Distinct(todo) && k < |todo| && forall a :: a in todo ==> Prefix(a, mode.bits) in nic
    ensures Prefix(todo[k], mode.bits) in Detach(mode, nic, todo, changed, f).nic <==>
            Stays(f(todo[k])) || exists j :: 0 <= j < k && !Works(f(todo[j]))
    decreases |todo|
  {
    var c := Absent(mode, nic, todo[0], f(todo[0]));
    var rest := todo[1..];
    DistinctTail(todo);
    if c.failed {
      assert !Works(f(todo[0]));
      assert k > 0 ==> todo[k] == rest[k - 1] && todo[k] != todo[0];
    } else {
      DetachShrinks(mode, c.nic, rest, changed || c.changed, f);
      if k == 0 {
        assert Prefix(todo[0], mode.bits) !in c.nic;
      } else {
        DetachLeavesIff(mode, c.nic, rest, changed || c.changed, f, k - 1);
        assert forall j :: 0 <= j < k - 1 ==> rest[j] == todo[j + 1];
        assert (exists j :: 0 <= j < k && !Works(f(todo[j]))) <==> (exists j :: 0 <= j < k - 1 && !Works(f(rest[j]))) by {
          if j :| 0 <= j < k && !Works(f(todo[j])) { assert rest[j - 1] == todo[j]; }
        }
      }
    }
  }

  /** The address reported by a detach loop that stopped is the first whose call fails. */
  lemma {:induction false} DetachStopsAt(mode: Mode, nic: set<Prefix>, todo: seq<Addr>, changed: bool, f: Addr -> CallFaults)
    returns (k: nat)
    requires !mode.Noop? && Distinct(todo) && forall a :: a in todo ==> Prefix(a, mode.bits) in nic
    requires Detach(mode, nic, todo, changed, f).failed.Some?
    ensures k < |todo| && Detach(mode, nic, todo, changed, f).failed == Some(todo[k])
    ensures !Works(f(todo[k])) && forall j :: 0 <= j < k ==> Works(f(todo[j]))
    decreases |todo|
  {
    var c := Absent(mode, nic, todo[0], f(todo[0]));
    k := 0;
    if !c.failed {
      DistinctTail(todo);
      k := DetachStopsAt(mode, c.nic, todo[1..], changed || c.changed, f);
      k := k + 1;
    }
  }

  // ---------------------------------------------------------------- the outcome of a transaction

  ghost function Todo(mode: Mode, w: World, p: Plan): seq<Addr>
    requires p.desired.Ok?
  {
    Difference(p.desired.value, ListedAddrs(mode, w.nic))
  }

  ghost function Stale(mode: Mode, w: World, p: Plan): seq<Addr>
    requires p.desired.Ok?
  {
    Difference(ListedAddrs(mode, w.nic), p.desired.value)
  }

  /** Listing works, and every address that is wanted and missing can be attached. */
  ghost predicate Attaches(mode: Mode, w: World, p: Plan, s: Schedule)
    requires !mode.Noop? && p.desired.Ok?
  {
    !s.list && forall a :: a in p.desired.value ==> Prefix(a, mode.bits) in w.nic || Works(s.attach(a))
  }

  /** The text is in place already or can be put in place and reloaded. */
  predicate Applies(d: Disk, text: Result<string>, f: ApplyFaults) {
    text.Ok? && !f.read &&
    (d.active == Some(text.value) || !(f.NotCreated() || f.NotWritten() || f.validate || f.rename || f.dirSync || f.reload))
  }

  ghost predicate Commits(mode: Mode, w: World, p: Plan, s: Schedule)
    requires !mode.Noop? && p.desired.Ok?
  {
    Attaches(mode, w, p, s) && Applies(w.disk, p.text, s.apply)
  }

  /** The new file is put in place, and the directory sync or the reload after it fails. */
  ghost predicate FailsPostRename(mode: Mode, w: World, p: Plan, s: Schedule)
    requires !mode.Noop? && p.desired.Ok?
  {
    var c := Runs.ApplyCall(p.text, s.apply);
    Attaches(mode, w, p, s) && Runs.Installs(w.disk, c) && Runs.FailsAfterRename(c)
  }

  lemma AppliesIff(d: Disk, text: Result<string>, f: ApplyFaults)
    ensures ApplyRendering(d, text, f).error.None? <==> Applies(d, text, f)
  {}

  lemma TodoIs(mode: Mode, w: World, p: Plan)
    requires !mode.Noop? && p.desired.Ok?
    ensures forall a :: a in Todo(mode, w, p) <==> a in p.desired.value && Prefix(a, mode.bits) !in w.nic
    ensures forall a :: a in Stale(mode, w, p) <==> a !in p.desired.value && Prefix(a, mode.bits) in w.nic
    ensures Distinct(Stale(mode, w, p))
  {
    var current := ListedAddrs(mode, w.nic);
    ListedIs(mode, w.nic);
    DifferenceDistinct(current, p.desired.value);
    forall a ensures a in Todo(mode, w, p) <==> a in p.desired.value && a !in current { DifferenceMembers(p.desired.value, current, a); }
    forall a ensures a in Stale(mode, w, p) <==> a !in p.desired.value && a in current { DifferenceMembers(current, p.desired.value, a); }
  }

  lemma AttachPhaseIff(mode: Mode, w: World, p: Plan, f: Addr -> CallFaults)
    requires !mode.Noop? && p.desired.Ok?
    ensures Attach(mode, w.nic, Todo(mode, w, p), [], f).failed.None? <==>
            forall a :: a in p.desired.value ==> Prefix(a, mode.bits) in w.nic || Works(f(a))
  {
    TodoIs(mode, w, p);
    AttachCompletesIff(mode, w.nic, Todo(mode, w, p), [], f);
  }

  lemma StaleStillThere(mode: Mode, w: World, p: Plan, f: Addr -> CallFaults)
    requires !mode.Noop? && p.desired.Ok?
    ensures var a := Attach(mode, w.nic, Todo(mode, w, p), [], f);
            Distinct(Stale(mode, w, p)) && forall x :: x in Stale(mode, w, p) ==> Prefix(x, mode.bits) in a.nic
  {
    TodoIs(mode, w, p);
    AttachGrows(mode, w.nic, Todo(mode, w, p), [], f);
  }

  /** Which way a transaction ends, from what was there and what fails. */
  lemma OutcomeIff(mode: Mode, w: World, p: Plan, s: Schedule)
    requires !mode.Noop? && p.desired.Ok?
    ensures var t := Reconcile(mode, w, p, s);
            && (t.error.None? || t.error.value.AfterCommit() <==> Commits(mode, w, p, s))
            && (t.error.Some? && t.error.value.PostRename() <==> FailsPostRename(mode, w, p, s))
            && (t.error.None? <==> Commits(mode, w, p, s) && forall a :: a in Stale(mode, w, p) ==> Works(s.detach(a)))
  {
    var a := Attach(mode, w.nic, Todo(mode, w, p), [], s.attach);
    var ap := ApplyRendering(w.disk, p.text, s.apply);
    AttachPhaseIff(mode, w, p, s.attach);
    AppliesIff(w.disk, p.text, s.apply);
    Runs.PostRenameIff(w.disk, Runs.ApplyCall(p.text, s.apply));
    StaleStillThere(mode, w, p, s.attach);
    DetachCompletesIff(mode, a.nic, Stale(mode, w, p), ap.changed || |a.attached| > 0, s.detach);
  }

  // ---------------------------------------------------------------- failed applies

  /** What is attached after a failed apply, address by address. */
  lemma ApplyFailureLeavesIff(mode: Mode, w: World, p: Plan, s: Schedule, a: Addr)
    requires !mode.Noop? && p.desired.Ok? && a in p.desired.value
    requires Attaches(mode, w, p, s) && !Applies(w.disk, p.text, s.apply)
    ensures Prefix(a, mode.bits) in Reconcile(mode, w, p, s).world.nic <==>
            Prefix(a, mode.bits) in w.nic || s.attach(a).op || Stays(s.rollback(a))
  {
    var todo := Todo(mode, w, p);
    var at := Attach(mode, w.nic, todo, [], s.attach);
    OutcomeIff(mode, w, p, s);
    AbandonEnds(mode, w, p, p.desired.value, ListedAddrs(mode, w.nic), s);
    AttachPhaseIff(mode, w, p, s.attach);
    TodoIs(mode, w, p);
    AttachGrows(mode, w.nic, todo, [], s.attach);
    PrefixesOfMember(mode.bits, todo, Prefix(a, mode.bits));
    RememberedIff(mode, w.nic, todo, [], s.attach, a);
    RollbackLeavesIff(mode, at.nic, at.attached, s.rollback, a);
  }

  /** After a failed apply the interface is as before exactly when every missing address was added without an
      error and could be removed again. */
  lemma ApplyFailureRestoresIff(mode: Mode, w: World, p: Plan, s: Schedule)
    requires !mode.Noop? && p.desired.Ok? && Attaches(mode, w, p, s) && !Applies(w.disk, p.text, s.apply)
    ensures Reconcile(mode, w, p, s).world.nic == w.nic <==>
            forall a :: a in p.desired.value && Prefix(a, mode.bits) !in w.nic ==> !s.attach(a).op && !Stays(s.rollback(a))
  {
    var v := Reconcile(mode, w, p, s).world;
    OutcomeIff(mode, w, p, s);
    ReconcileGuarantee(mode, w, p, s);
    forall a | a in p.desired.value
      ensures Prefix(a, mode.bits) in v.nic <==> Prefix(a, mode.bits) in w.nic || s.attach(a).op || Stays(s.rollback(a))
    {
      ApplyFailureLeavesIff(mode, w, p, s, a);
    }
    forall q | q in v.nic && q !in w.nic ensures q == Prefix(q.addr, mode.bits) && q.addr in p.desired.value {
      PrefixesOfMember(mode.bits, p.desired.value, q);
    }
  }

  /** A failure past the rename leaves every bound address attached exactly when each one was there before,
      or its add reported an error although it took effect, or the rollback could not remove it. */
  lemma PostRenameBreaksIff(mode: Mode, w: World, p: Plan, s: Schedule)
    requires !mode.Noop? && Sound(p) && FailsPostRename(mode, w, p, s)
    ensures var v := Reconcile(mode, w, p, s).world;
            && v.disk.active == Some(p.text.value)
            && (Covered(mode, v) <==>
                forall a :: a in Bound(Some(p.text.value)) ==>
                  Prefix(a, mode.bits) in w.nic || s.attach(a).op || Stays(s.rollback(a)))
  {
    OutcomeIff(mode, w, p, s);
    ApplyActive(w.disk, p.text.value, s.apply);
    ReconcileGuarantee(mode, w, p, s);
    forall a | a in Bound(Some(p.text.value))
      ensures Prefix(a, mode.bits) in Reconcile(mode, w, p, s).world.nic <==>
              Prefix(a, mode.bits) in w.nic || s.attach(a).op || Stays(s.rollback(a))
    {
      ApplyFailureLeavesIff(mode, w, p, s, a);
    }
  }

  /** In particular, when adds report the truth and the rollback works: exactly when nothing bound was missing. */
  lemma CleanPostRenameBreaksIff(mode: Mode, w: World, p: Plan, s: Schedule)
    requires !mode.Noop? && Sound(p) && FailsPostRename(mode, w, p, s)
    requires forall a :: !s.attach(a).op && !Stays(s.rollback(a))
    ensures Covered(mode, Reconcile(mode, w, p, s).world) <==>
            forall a :: a in Bound(Some(p.text.value)) ==> Prefix(a, mode.bits) in w.nic
  {
    PostRenameBreaksIff(mode, w, p, s);
  }

  /** A transaction from a covered world ends uncovered exactly when it fails past the rename and some bound
      address was missing, was added without an error, and is taken away again by the rollback. */
  lemma UncoversIff(mode: Mode, w: World, p: Plan, s: Schedule)
    requires !mode.Noop? && Sound(p) && Covered(mode, w)
    ensures !Covered(mode, Reconcile(mode, w, p, s).world) <==>
            && FailsPostRename(mode, w, p, s)
            && exists a :: a in Bound(Some(p.text.value)) && Prefix(a, mode.bits) !in w.nic
                           && !s.attach(a).op && !Stays(s.rollback(a))
  {
    OutcomeIff(mode, w, p, s);
    if FailsPostRename(mode, w, p, s) {
      PostRenameBreaksIff(mode, w, p, s);
    } else {
      TransactionCovered(mode, w, p, s);
    }
  }

  /** A rollback only takes away. */
  lemma {:induction false} RollbackAbove(mode: Mode, nic: set<Prefix>, attached: seq<Addr>, f: Addr -> CallFaults)
    requires !mode.Noop?
    ensures var r := Rollback(mode, nic, attached, f); r.nic <= nic && Between(r.nic, r.nics, nic)
    decreases |attached|
  {
    if attached != [] {
      var n := |attached| - 1;
      var c := Absent(mode, nic, attached[n], f(attached[n]));
      var rest := Rollback(mode, c.nic, attached[..n], f);
      RollbackAbove(mode, c.nic, attached[..n], f);
      BetweenWiden(rest.nic, rest.nic, rest.nics, c.nic, nic);
      BetweenHead(rest.nic, c.nic, rest.nics, nic);
    }
  }

  /** The worlds of a transaction that fails past the rename: the old file with what was attached at the start,
      or the new file with what is attached in the end. */
  lemma PostRenamePasses(mode: Mode, w: World, p: Plan, s: Schedule)
    requires !mode.Noop? && p.desired.Ok? && FailsPostRename(mode, w, p, s)
    ensures var t := Reconcile(mode, w, p, s);
            forall i :: 0 <= i < |t.visited| ==>
              var v := t.visited[i]; (v.disk == w.disk && w.nic <= v.nic) || (v.disk == t.world.disk && t.world.nic <= v.nic)
  {
    var a := Attach(mode, w.nic, Todo(mode, w, p), [], s.attach);
    var ap := ApplyRendering(w.disk, p.text, s.apply);
    OutcomeIff(mode, w, p, s);
    AttachPhaseIff(mode, w, p, s.attach);
    AttachGrows(mode, w.nic, Todo(mode, w, p), [], s.attach);
    RollbackAbove(mode, a.nic, a.attached, s.rollback);
    assert ap.error.Some?;
  }

  /** One transaction from a covered world keeps every bound address attached at each step exactly when it
      does not end uncovered. */
  lemma StepsCoveredIff(mode: Mode, w: World, p: Plan, s: Schedule)
    requires !mode.Noop? && Sound(p) && Covered(mode, w)
    ensures var t := Reconcile(mode, w, p, s);
            (forall i :: 0 <= i < |t.visited| ==> Covered(mode, t.visited[i])) || !Covered(mode, t.world)
  {
    var t := Reconcile(mode, w, p, s);
    OutcomeIff(mode, w, p, s);
    if !FailsPostRename(mode, w, p, s) {
      TransactionCovered(mode, w, p, s);
    } else if Covered(mode, t.world) {
      PostRenamePasses(mode, w, p, s);
      forall i | 0 <= i < |t.visited| ensures Covered(mode, t.visited[i]) {
        var v := t.visited[i];
        assert (v.disk == w.disk && w.nic <= v.nic) || (v.disk == t.world.disk && t.world.nic <= v.nic);
      }
    }
  }

  // ---------------------------------------------------------------- stale addresses

  /** Call `j` of the detach loop fails, and it or a later one leaves its address attached. */
  ghost predicate StuckAt(stale: seq<Addr>, f: Addr -> CallFaults, j: nat)
    requires j < |stale|
  {
    !Works(f(stale[j])) && (Stays(f(stale[j])) || j + 1 < |stale|)
  }

  lemma DetachedFrom(mode: Mode, w: World, p: Plan, s: Schedule)
    requires !mode.Noop? && p.desired.Ok? && Commits(mode, w, p, s)
    ensures var a := Attach(mode, w.nic, Todo(mode, w, p), [], s.attach);
            var changed := ApplyRendering(w.disk, p.text, s.apply).changed || |a.attached| > 0;
            Reconcile(mode, w, p, s).world.nic == Detach(mode, a.nic, Stale(mode, w, p), changed, s.detach).nic
  {
    AttachPhaseIff(mode, w, p, s.attach);
    AppliesIff(w.disk, p.text, s.apply);
  }

  /** After a commit, stale address `k` is left exactly when its own call left it or an earlier one failed. */
  lemma StaleLeftIff(mode: Mode, w: World, p: Plan, s: Schedule, k: nat)
    requires !mode.Noop? && p.desired.Ok? && Commits(mode, w, p, s) && k < |Stale(mode, w, p)|
    ensures var stale := Stale(mode, w, p);
            Prefix(stale[k], mode.bits) in Reconcile(mode, w, p, s).world.nic <==>
            Stays(s.detach(stale[k])) || exists j :: 0 <= j < k && !Works(s.detach(stale[j]))
  {
    var a := Attach(mode, w.nic, Todo(mode, w, p), [], s.attach);
    DetachedFrom(mode, w, p, s);
    StaleStillThere(mode, w, p, s.attach);
    DetachLeavesIff(mode, a.nic, Stale(mode, w, p),
                    ApplyRendering(w.disk, p.text, s.apply).changed || |a.attached| > 0, s.detach, k);
  }

  /** An unwanted managed address after a commit was stale before. */
  lemma UnwantedWasStale(mode: Mode, w: World, p: Plan, s: Schedule, a: Addr)
    requires !mode.Noop? && p.desired.Ok? && Commits(mode, w, p, s)
    requires Prefix(a, mode.bits) in Reconcile(mode, w, p, s).world.nic && a !in p.desired.value
    ensures a in Stale(mode, w, p)
  {
    OutcomeIff(mode, w, p, s);
    ReconcileGuarantee(mode, w, p, s);
    PrefixesOfMember(mode.bits, p.desired.value, Prefix(a, mode.bits));
    TodoIs(mode, w, p);
  }

  /** A committed transaction leaves an unwanted address attached exactly when the detach loop gets stuck on
      an address that stays or that is not the last. */
  lemma UnwantedLeftIff(mode: Mode, w: World, p: Plan, s: Schedule)
    requires !mode.Noop? && p.desired.Ok? && Commits(mode, w, p, s)
    ensures var stale := Stale(mode, w, p);
            (exists a :: Prefix(a, mode.bits) in Reconcile(mode, w, p, s).world.nic && a !in p.desired.value)
            <==> exists j :: 0 <= j < |stale| && StuckAt(stale, s.detach, j)
  {
    var stale, v := Stale(mode, w, p), Reconcile(mode, w, p, s).world;
    TodoIs(mode, w, p);
    if a :| Prefix(a, mode.bits) in v.nic && a !in p.desired.value {
      UnwantedWasStale(mode, w, p, s, a);
      var k :| 0 <= k < |stale| && stale[k] == a;
      StaleLeftIff(mode, w, p, s, k);
      if Stays(s.detach(a)) {
        assert StuckAt(stale, s.detach, k);
      } else {
        var j :| 0 <= j < k && !Works(s.detach(stale[j]));
        assert StuckAt(stale, s.detach, j);
      }
    }
    if j :| 0 <= j < |stale| && StuckAt(stale, s.detach, j) {
      var k := if Stays(s.detach(stale[j])) then j else j + 1;
      StaleLeftIff(mode, w, p, s, k);
      assert stale[k] in stale;
    }
  }

  /** The same with the wanted addresses as a set. */
  lemma CommitLeavesIff(mode: Mode, w: World, p: Plan, wanted: set<Addr>, s: Schedule)
    requires !mode.Noop? && p.desired.Ok? && Commits(mode, w, p, s) && forall a :: a in p.desired.value <==> a in wanted
    ensures var v := Reconcile(mode, w, p, s).world; var stale := Stale(mode, w, p);
            && v.store == p.store
            && ((exists a :: Prefix(a, mode.bits) in v.nic && a !in wanted)
                <==> exists j :: 0 <= j < |stale| && StuckAt(stale, s.detach, j))
  {
    OutcomeIff(mode, w, p, s);
    ReconcileGuarantee(mode, w, p, s);
    UnwantedLeftIff(mode, w, p, s);
  }

  /** A commit after which the call for one stale address leaves it in place. */
  lemma CommitLeaves(mode: Mode, w: World, p: Plan, s: Schedule, a: Addr)
    requires !mode.Noop? && p.desired.Ok? && Commits(mode, w, p, s)
    requires Prefix(a, mode.bits) in w.nic && a !in p.desired.value && Stays(s.detach(a))
    ensures var v := Reconcile(mode, w, p, s).world; v.store == p.store && Prefix(a, mode.bits) in v.nic
  {
    OutcomeIff(mode, w, p, s);
    ReconcileGuarantee(mode, w, p, s);
    TodoIs(mode, w, p);
    var k :| 0 <= k < |Stale(mode, w, p)| && Stale(mode, w, p)[k] == a;
    StaleLeftIff(mode, w, p, s, k);
  }

  /** When no attach and no apply call fails, the plan is committed. */
  lemma QuietCommits(mode: Mode, w: World, p: Plan, s: Schedule)
    requires !mode.Noop? && p.desired.Ok? && p.text.Ok?
    requires !s.list && s.apply == NO_FAULTS && forall a :: Works(s.attach(a))
    ensures Commits(mode, w, p, s)
  {}

  /** When only the directory sync or the reload fails and the text is new, the failure is past the rename. */
  lemma OnlyLateFaults(mode: Mode, w: World, p: Plan, s: Schedule)
    requires !mode.Noop? && p.desired.Ok? && p.text.Ok? && w.disk.active != Some(p.text.value)
    requires !s.list && forall a :: Works(s.attach(a))
    requires s.apply == NO_FAULTS.(reload := true) || s.apply == NO_FAULTS.(dirSync := true)
    ensures FailsPostRename(mode, w, p, s)
  {}

  /** A transaction stuck while detaching has committed. The address it reports was stale, and it is still
      attached exactly when its call left it in place. */
  lemma DetachFailureLeavesStale(mode: Mode, w: World, p: Plan, s: Schedule)
    requires !mode.Noop? && p.desired.Ok?
    requires var t := Reconcile(mode, w, p, s); t.error.Some? && t.error.value.DetachFailed?
    ensures var t := Reconcile(mode, w, p, s); var a := t.error.value.addr;
            && t.world.store == p.store && a in Stale(mode, w, p) && a !in p.desired.value
            && (Prefix(a, mode.bits) in t.world.nic <==> Stays(s.detach(a)))
  {
    var at := Attach(mode, w.nic, Todo(mode, w, p), [], s.attach);
    var changed := ApplyRendering(w.disk, p.text, s.apply).changed || |at.attached| > 0;
    OutcomeIff(mode, w, p, s);
    ReconcileGuarantee(mode, w, p, s);
    StaleStillThere(mode, w, p, s.attach);
    TodoIs(mode, w, p);
    var k := DetachStopsAt(mode, at.nic, Stale(mode, w, p), changed, s.detach);
    StaleLeftIff(mode, w, p, s, k);
  }

  // ---------------------------------------------------------------- what is reported

  /** A complete detach loop reports a change exactly when there was one before or a removal reported success. */
  lemma {:induction false} DetachChangesIff(mode: Mode, nic: set<Prefix>, todo: seq<Addr>, changed: bool, f: Addr -> CallFaults)
    requires !mode.Noop? && Distinct(todo) && forall a :: a in todo ==> Prefix(a, mode.bits) in nic
    requires Detach(mode, nic, todo, changed, f).failed.None?
    ensures Detach(mode, nic, todo, changed, f).changed <==> changed || exists a :: a in todo && !f(a).op
    decreases |todo|
  {
    if todo != [] {
      var c := Absent(mode, nic, todo[0], f(todo[0]));
      DistinctTail(todo);
      DetachChangesIff(mode, c.nic, todo[1..], changed || c.changed, f);
      assert forall a :: a in todo <==> a == todo[0] || a in todo[1..];
    }
  }

  /** A complete attach loop remembers something exactly when an add reported success. */
  lemma AttachChangesIff(mode: Mode, w: World, p: Plan, f: Addr -> CallFaults)
    requires !mode.Noop? && p.desired.Ok? && Attach(mode, w.nic, Todo(mode, w, p), [], f).failed.None?
    ensures |Attach(mode, w.nic, Todo(mode, w, p), [], f).attached| > 0 <==>
            exists a :: a in p.desired.value && Prefix(a, mode.bits) !in w.nic && !f(a).op
  {
    var at := Attach(mode, w.nic, Todo(mode, w, p), [], f).attached;
    TodoIs(mode, w, p);
    forall a ensures a in at <==> a in p.desired.value && Prefix(a, mode.bits) !in w.nic && !f(a).op {
      RememberedIff(mode, w.nic, Todo(mode, w, p), [], f, a);
    }
    assert |at| > 0 <==> exists a :: a in at by { if |at| > 0 { assert at[0] in at; } }
  }

  lemma ApplyChangesIff(d: Disk, text: Result<string>, f: ApplyFaults)
    ensures var r := ApplyRendering(d, text, f);
            r.changed <==> r.error.None? && text.Ok? && d.active != Some(text.value)
  {}

  /** The file was not current, or a missing address was added, or a stale one removed, with a call that
      reported success. */
  ghost predicate Changes(mode: Mode, w: World, p: Plan, s: Schedule)
    requires !mode.Noop? && p.desired.Ok?
  {
    || (p.text.Ok? && w.disk.active != Some(p.text.value))
    || (exists a :: a in p.desired.value && Prefix(a, mode.bits) !in w.nic && !s.attach(a).op)
    || (exists a :: a !in p.desired.value && Prefix(a, mode.bits) in w.nic && !s.detach(a).op)
  }

  /** A transaction reports a change exactly when it succeeds and one of its calls reported one. */
  lemma ChangedIff(mode: Mode, w: World, p: Plan, s: Schedule)
    requires !mode.Noop? && p.desired.Ok?
    ensures var t := Reconcile(mode, w, p, s); t.changed <==> t.error.None? && Changes(mode, w, p, s)
  {
    var t, stale := Reconcile(mode, w, p, s), Stale(mode, w, p);
    OutcomeIff(mode, w, p, s);
    if t.error.None? {
      var at := Attach(mode, w.nic, Todo(mode, w, p), [], s.attach);
      var ap := ApplyRendering(w.disk, p.text, s.apply);
      TodoIs(mode, w, p);
      AttachPhaseIff(mode, w, p, s.attach);
      AppliesIff(w.disk, p.text, s.apply);
      AttachChangesIff(mode, w, p, s.attach);
      ApplyChangesIff(w.disk, p.text, s.apply);
      StaleStillThere(mode, w, p, s.attach);
      DetachChangesIff(mode, at.nic, stale, ap.changed || |at.attached| > 0, s.detach);
      assert (exists a :: a in stale && !s.detach(a).op) <==>
             (exists a :: a !in p.desired.value && Prefix(a, mode.bits) in w.nic && !s.detach(a).op);
    }
  }

  /** Call `k` of a loop is the first that fails. */
  ghost predicate FirstFailure(todo: seq<Addr>, f: Addr -> CallFaults, k: nat) {
    k < |todo| && !Works(f(todo[k])) && forall j :: 0 <= j < k ==> Works(f(todo[j]))
  }

  /** Where an attach loop over missing addresses stops, and what it remembers by then. */
  lemma {:induction false} AttachStopsAt(mode: Mode, nic: set<Prefix>, todo: seq<Addr>, attached: seq<Addr>, f: Addr -> CallFaults)
    returns (k: nat)
    requires !mode.Noop? && Distinct(todo) && forall a :: a in todo ==> Prefix(a, mode.bits) !in nic
    requires Attach(mode, nic, todo, attached, f).failed.Some?
    ensures FirstFailure(todo, f, k) && Attach(mode, nic, todo, attached, f).failed == Some(todo[k])
    ensures forall a :: a in Attach(mode, nic, todo, attached, f).attached <==> a in attached || (a in todo[..k] && !f(a).op)
    decreases |todo|
  {
    var c := Present(mode, nic, todo[0], f(todo[0]));
    k := 0;
    if !c.failed {
      var next := if c.changed then attached + [todo[0]] else attached;
      DistinctTail(todo);
      k := AttachStopsAt(mode, c.nic, todo[1..], next, f);
      assert todo[..k + 1] == [todo[0]] + todo[1..][..k];
      k := k + 1;
    }
  }

  /** What is remembered is attached, and remembered once. */
  lemma {:induction false} RememberedOnce(mode: Mode, nic: set<Prefix>, todo: seq<Addr>, attached: seq<Addr>, f: Addr -> CallFaults)
    requires !mode.Noop? && Distinct(attached) && forall a :: a in attached ==> Prefix(a, mode.bits) in nic
    ensures var r := Attach(mode, nic, todo, attached, f);
            Distinct(r.attached) && forall a :: a in r.attached ==> Prefix(a, mode.bits) in r.nic
    decreases |todo|
  {
    if todo != [] {
      var c := Present(mode, nic, todo[0], f(todo[0]));
      if !c.failed {
        RememberedOnce(mode, c.nic, todo[1..], if c.changed then attached + [todo[0]] else attached, f);
      }
    }
  }

  /** A rollback reports an error exactly when one of its calls does. */
  lemma {:induction false} RollbackFailsIff(mode: Mode, nic: set<Prefix>, attached: seq<Addr>, f: Addr -> CallFaults)
    requires !mode.Noop? && Distinct(attached) && forall a :: a in attached ==> Prefix(a, mode.bits) in nic
    ensures Rollback(mode, nic, attached, f).failed <==> exists a :: a in attached && !Works(f(a))
    decreases |attached|
  {
    if attached != [] {
      var n := |attached| - 1;
      var c := Absent(mode, nic, attached[n], f(attached[n]));
      assert attached[n] !in attached[..n];
      RollbackFailsIff(mode, c.nic, attached[..n], f);
      assert forall a :: a in attached <==> a == attached[n] || a in attached[..n];
    }
  }

  /** The first call that fails decides what an apply reports. */
  lemma ApplyErrorIs(d: Disk, text: Result<string>, f: ApplyFaults)
    ensures var e := ApplyRendering(d, text, f).error;
            && (e == Some(RenderFailed) <==> text.Err?)
            && (e == Some(ReadFailed) <==> text.Ok? && f.read)
            && (text.Ok? && !f.read && d.active != Some(text.value) ==>
                 && (e == Some(WriteFailed) <==> f.NotCreated() || f.NotWritten())
                 && (e == Some(ValidateFailed) <==> !f.NotCreated() && !f.NotWritten() && f.validate)
                 && (e == Some(RenameFailed) <==> !f.NotCreated() && !f.NotWritten() && !f.validate && f.rename)
                 && (e == Some(DirSyncFailed) <==>
                       !f.NotCreated() && !f.NotWritten() && !f.validate && !f.rename && f.dirSync)
                 && (e == Some(ReloadFailed) <==>
                       !f.NotCreated() && !f.NotWritten() && !f.validate && !f.rename && !f.dirSync && f.reload))
  {}

  /** Which error a transaction reports, with the address it names and whether the rollback failed. */
  ghost predicate Reports(mode: Mode, w: World, p: Plan, s: Schedule, e: EngineError)
    requires !mode.Noop? && p.desired.Ok?
  {
    var todo, stale := Todo(mode, w, p), Stale(mode, w, p);
    match e
    case InvalidService => false
    case BadAddress => false
    case ListFailed => s.list
    case AttachFailed(a, rollbackFailed) =>
      !s.list && (exists k: nat :: FirstFailure(todo, s.attach, k) && todo[k] == a
                    && (rollbackFailed <==> exists x :: x in todo[..k] && !s.attach(x).op && !Works(s.rollback(x))))
    case ApplyFailed(cause, rollbackFailed) =>
      Attaches(mode, w, p, s) && ApplyRendering(w.disk, p.text, s.apply).error == Some(cause)
        && (rollbackFailed <==> exists x :: x in todo && !s.attach(x).op && !Works(s.rollback(x)))
    case DetachFailed(a) =>
      Commits(mode, w, p, s) && exists k: nat :: FirstFailure(stale, s.detach, k) && stale[k] == a
  }

  lemma AttachErrorIs(mode: Mode, w: World, p: Plan, s: Schedule)
    requires !mode.Noop? && p.desired.Ok? && Distinct(p.desired.value) && !s.list
    requires Attach(mode, w.nic, Todo(mode, w, p), [], s.attach).failed.Some?
    ensures Reports(mode, w, p, s, Reconcile(mode, w, p, s).error.value)
  {
    var todo := Todo(mode, w, p);
    var at := Attach(mode, w.nic, todo, [], s.attach);
    TodoIs(mode, w, p);
    DifferenceDistinct(p.desired.value, ListedAddrs(mode, w.nic));
    var k := AttachStopsAt(mode, w.nic, todo, [], s.attach);
    RememberedOnce(mode, w.nic, todo, [], s.attach);
    RollbackFailsIff(mode, at.nic, at.attached, s.rollback);
  }

  lemma ApplyErrorReported(mode: Mode, w: World, p: Plan, s: Schedule)
    requires !mode.Noop? && p.desired.Ok? && Attaches(mode, w, p, s) && !Applies(w.disk, p.text, s.apply)
    ensures Reconcile(mode, w, p, s).error.Some? && Reports(mode, w, p, s, Reconcile(mode, w, p, s).error.value)
  {
    var todo := Todo(mode, w, p);
    var at := Attach(mode, w.nic, todo, [], s.attach);
    AttachPhaseIff(mode, w, p, s.attach);
    AppliesIff(w.disk, p.text, s.apply);
    TodoIs(mode, w, p);
    RememberedOnce(mode, w.nic, todo, [], s.attach);
    RollbackFailsIff(mode, at.nic, at.attached, s.rollback);
    forall x ensures x in at.attached <==> x in todo && !s.attach(x).op {
      RememberedIff(mode, w.nic, todo, [], s.attach, x);
    }
  }

  lemma DetachErrorIs(mode: Mode, w: World, p: Plan, s: Schedule)
    requires !mode.Noop? && p.desired.Ok? && Commits(mode, w, p, s) && Reconcile(mode, w, p, s).error.Some?
    ensures Reports(mode, w, p, s, Reconcile(mode, w, p, s).error.value)
  {
    var at := Attach(mode, w.nic, Todo(mode, w, p), [], s.attach);
    AttachPhaseIff(mode, w, p, s.attach);
    AppliesIff(w.disk, p.text, s.apply);
    StaleStillThere(mode, w, p, s.attach);
    var k := DetachStopsAt(mode, at.nic, Stale(mode, w, p),
                           ApplyRendering(w.disk, p.text, s.apply).changed || |at.attached| > 0, s.detach);
  }

  /** Every error names what went wrong first. */
  lemma ErrorIs(mode: Mode, w: World, p: Plan, s: Schedule)
    requires !mode.Noop? && p.desired.Ok? && Distinct(p.desired.value) && Reconcile(mode, w, p, s).error.Some?
    ensures Reports(mode, w, p, s, Reconcile(mode, w, p, s).error.value)
  {
    if !s.list {
      AttachPhaseIff(mode, w, p, s.attach);
      if !Attaches(mode, w, p, s) {
        AttachErrorIs(mode, w, p, s);
      } else if !Applies(w.disk, p.text, s.apply) {
        ApplyErrorReported(mode, w, p, s);
      } else {
        DetachErrorIs(mode, w, p, s);
      }
    }
  }
}
