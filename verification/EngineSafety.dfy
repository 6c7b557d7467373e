/** Safety of one transaction, whatever fails in it. */
module EngineSafety {
  import opened Text
  import opened IPv4
  import opened Sorting
  import opened Apply
  import opened IPAttach
  import opened ExternalIPs
  import opened ConfigParser
  import opened Engine
  import opened EngineFacts

  /** The service addresses that the given configuration makes HAProxy bind. */
  function Bound(active: Option<string>): set<Addr> {
    if active.None? || ParseConfig(active.value).None? then {}
    else set f | f in ParseConfig(active.value).value :: f.bind.addr
  }

  /** Make before break: every address the file binds is attached. */
  ghost predicate Covered(mode: Mode, w: World)
    requires !mode.Noop?
  {
    forall a :: a in Bound(w.disk.active) ==> Prefix(a, mode.bits) in w.nic
  }

  /** The plan can be carried out, and its text binds only addresses it wants attached. */
  ghost predicate Sound(p: Plan) {
    p.text.Ok? && p.desired.Ok? && forall a :: a in Bound(Some(p.text.value)) ==> a in p.desired.value
  }

  lemma ApplyActive(d: Disk, text: string, f: ApplyFaults)
    ensures var r := ApplyRendering(d, Ok(text), f);
            && (r.error.None? ==> r.disk.active == Some(text))
            && (r.error.Some? && r.error.value.PostRename() ==> r.disk.active == Some(text))
            && (r.error.Some? && !r.error.value.PostRename() ==> r.disk.active == d.active)
  {}

  // ---------------------------------------------------------------- where a transaction passes through

  /** Before the commit: the old store, and nothing that was attached at the start is lost. */
  ghost predicate BeforeCommit(mode: Mode, w: World, p: Plan, ap: Applied, v: World)
    requires !mode.Noop? && p.desired.Ok?
  {
    && v.store == w.store && w.nic <= v.nic <= w.nic + PrefixesOf(mode.bits, p.desired.value)
    && (v.disk == w.disk
        || (v.disk == ap.disk && (PrefixesOf(mode.bits, p.desired.value) <= v.nic || ap.error.Some?)))
  }

  /** After the commit: the new store and file, and everything they want is attached. */
  ghost predicate AfterCommit(mode: Mode, w: World, p: Plan, ap: Applied, v: World)
    requires !mode.Noop? && p.desired.Ok?
  {
    v.store == p.store && v.disk == ap.disk && ap.error.None?
    && PrefixesOf(mode.bits, p.desired.value) <= v.nic <= w.nic + PrefixesOf(mode.bits, p.desired.value)
  }

  ghost predicate Passes(mode: Mode, w: World, p: Plan, ap: Applied, v: World)
    requires !mode.Noop? && p.desired.Ok?
  {
    BeforeCommit(mode, w, p, ap, v) || AfterCommit(mode, w, p, ap, v)
  }

  ghost predicate AllPass(mode: Mode, w: World, p: Plan, ap: Applied, vs: seq<World>)
    requires !mode.Noop? && p.desired.Ok?
  {
    forall i :: 0 <= i < |vs| ==> Passes(mode, w, p, ap, vs[i])
  }

  lemma PassNics(mode: Mode, w: World, p: Plan, ap: Applied, v: World, nics: seq<set<Prefix>>)
    requires !mode.Noop? && p.desired.Ok?
    requires forall i :: 0 <= i < |nics| ==> Passes(mode, w, p, ap, v.(nic := nics[i]))
    ensures AllPass(mode, w, p, ap, AtNics(v, nics))
  {}

  lemma PassConcat(mode: Mode, w: World, p: Plan, ap: Applied, x: seq<World>, y: seq<World>)
    requires !mode.Noop? && p.desired.Ok?
    requires AllPass(mode, w, p, ap, x) && AllPass(mode, w, p, ap, y)
    ensures AllPass(mode, w, p, ap, x + y)
  {}

  /** The sets that the attach phase works with. */
  lemma AttachPhase(mode: Mode, w: World, desired: seq<Addr>, f: Addr -> CallFaults)
    returns (attached: seq<Addr>)
    requires !mode.Noop?
    ensures var a := Attach(mode, w.nic, Difference(desired, ListedAddrs(mode, w.nic)), [], f);
            var want := PrefixesOf(mode.bits, desired);
            && attached == a.attached
            && w.nic <= a.nic <= w.nic + want && Between(w.nic, a.nics, w.nic + want)
            && (a.failed.None? ==> want <= a.nic)
            && PrefixesOf(mode.bits, attached) !! w.nic
            && PrefixesOf(mode.bits, attached) <= a.nic
            && PrefixesOf(mode.bits, attached) <= want
            && ((forall x :: f(x).op ==> !f(x).effect) ==> a.nic == w.nic + PrefixesOf(mode.bits, attached))
  {
    var current := ListedAddrs(mode, w.nic);
    var todo := Difference(desired, current);
    var a := Attach(mode, w.nic, todo, [], f);
    AttachGrows(mode, w.nic, todo, [], f);
    DifferencePrefixes(mode.bits, desired, current);
    ListedIs(mode, w.nic);
    BetweenWiden(w.nic, w.nic, a.nics, w.nic + PrefixesOf(mode.bits, todo), w.nic + PrefixesOf(mode.bits, desired));
    attached := AttachRemembers(mode, w.nic, todo, [], f);
    assert [] + attached == attached;
    forall q | q in PrefixesOf(mode.bits, attached) ensures q !in w.nic && q in PrefixesOf(mode.bits, todo) {
      PrefixesOfMember(mode.bits, attached, q);
      PrefixesOfMember(mode.bits, todo, q);
      assert q == Prefix(q.addr, mode.bits);
    }
  }

  /** Rolling back takes away nothing that was attached at the start. */
  lemma RollbackPhase(mode: Mode, w: World, p: Plan, ap: Applied, v: World, a: Attached, f: Addr -> CallFaults)
    requires !mode.Noop? && p.desired.Ok?
    requires w.nic <= a.nic <= w.nic + PrefixesOf(mode.bits, p.desired.value)
    requires PrefixesOf(mode.bits, a.attached) !! w.nic
    requires v.store == w.store && (v.disk == w.disk || (v.disk == ap.disk && ap.error.Some?))
    ensures var rb := Rollback(mode, a.nic, a.attached, f);
            && AllPass(mode, w, p, ap, AtNics(v, rb.nics)) && BeforeCommit(mode, w, p, ap, v.(nic := rb.nic))
            && (!rb.failed ==> rb.nic == a.nic - PrefixesOf(mode.bits, a.attached))
  {
    RollbackShrinks(mode, a.nic, a.attached, f);
    var rb := Rollback(mode, a.nic, a.attached, f);
    forall i | 0 <= i < |rb.nics| ensures Passes(mode, w, p, ap, v.(nic := rb.nics[i])) {
      assert w.nic <= rb.nics[i] <= a.nic;
    }
    PassNics(mode, w, p, ap, v, rb.nics);
  }

  /** Detaching stale addresses takes away nothing that the new store wants. */
  lemma DetachPhase(mode: Mode, w: World, p: Plan, ap: Applied, v: World, changed: bool, f: Addr -> CallFaults)
    requires !mode.Noop? && p.desired.Ok? && AfterCommit(mode, w, p, ap, v) && w.nic <= v.nic
    ensures var stale := Difference(ListedAddrs(mode, w.nic), p.desired.value);
            var d := Detach(mode, v.nic, stale, changed, f);
            && AllPass(mode, w, p, ap, AtNics(v, d.nics)) && AfterCommit(mode, w, p, ap, v.(nic := d.nic))
            && (d.failed.None? ==> forall q :: q in d.nic && q.bits == mode.bits <==> q in PrefixesOf(mode.bits, p.desired.value))
  {
    var current := ListedAddrs(mode, w.nic);
    var stale := Difference(current, p.desired.value);
    var want := PrefixesOf(mode.bits, p.desired.value);
    DetachShrinks(mode, v.nic, stale, changed, f);
    DifferencePrefixes(mode.bits, current, p.desired.value);
    ListedIs(mode, w.nic);
    var d := Detach(mode, v.nic, stale, changed, f);
    forall i | 0 <= i < |d.nics| ensures Passes(mode, w, p, ap, v.(nic := d.nics[i])) {
      assert want <= d.nics[i] <= v.nic;
    }
    PassNics(mode, w, p, ap, v, d.nics);
    if d.failed.None? {
      forall q ensures q in d.nic && q.bits == mode.bits <==> q in want {
        PrefixesOfMember(mode.bits, p.desired.value, q);
      }
    }
  }

  /** Everything a transaction promises about where it passes through and where it ends. */
  ghost predicate Guarantee(mode: Mode, w: World, p: Plan, ap: Applied, t: Transaction)
    requires !mode.Noop? && p.desired.Ok?
  {
    && AllPass(mode, w, p, ap, t.visited)
    && (t.error.None? || t.error.value.AfterCommit() ==> AfterCommit(mode, w, p, ap, t.world))
    && (t.error.Some? && !t.error.value.AfterCommit() ==> BeforeCommit(mode, w, p, ap, t.world))
    && (t.error.None? ==> forall q :: q in t.world.nic && q.bits == mode.bits <==> q in PrefixesOf(mode.bits, p.desired.value))
    && (t.error.Some? && t.error.value.ApplyFailed? ==> ap.error == Some(t.error.value.cause) && t.world.disk == ap.disk)
    && (t.error.Some? && !t.error.value.ApplyFailed? && !t.error.value.AfterCommit() ==> t.world.disk == w.disk)
    && (t.error.Some? && t.error.value.AttachFailed? ==> forall i :: 0 <= i < |t.visited| ==> t.visited[i].disk == w.disk)
    && (t.error.None? ==> ap.error.None?)
  }

  lemma AttachFailureGuarantee(mode: Mode, w: World, p: Plan, s: Schedule)
    requires !mode.Noop? && p.desired.Ok?
    requires Attach(mode, w.nic, Difference(p.desired.value, ListedAddrs(mode, w.nic)), [], s.attach).failed.Some?
    ensures Guarantee(mode, w, p, ApplyRendering(w.disk, p.text, s.apply),
                      Execute(mode, w, p, p.desired.value, ListedAddrs(mode, w.nic), s))
  {
    var ap := ApplyRendering(w.disk, p.text, s.apply);
    var a := Attach(mode, w.nic, Difference(p.desired.value, ListedAddrs(mode, w.nic)), [], s.attach);
    var attached := AttachPhase(mode, w, p.desired.value, s.attach);
    AttachPasses(mode, w, p, ap, a.nics);
    RollbackPhase(mode, w, p, ap, w, a, s.rollback);
    PassConcat(mode, w, p, ap, AtNics(w, a.nics), AtNics(w, Rollback(mode, a.nic, a.attached, s.rollback).nics));
  }

  lemma AttachPasses(mode: Mode, w: World, p: Plan, ap: Applied, nics: seq<set<Prefix>>)
    requires !mode.Noop? && p.desired.Ok?
    requires forall i :: 0 <= i < |nics| ==> w.nic <= nics[i] <= w.nic + PrefixesOf(mode.bits, p.desired.value)
    ensures AllPass(mode, w, p, ap, AtNics(w, nics))
  {}

  lemma ExecuteGuarantee(mode: Mode, w: World, p: Plan, s: Schedule)
    requires !mode.Noop? && p.desired.Ok?
    ensures Guarantee(mode, w, p, ApplyRendering(w.disk, p.text, s.apply),
                      Execute(mode, w, p, p.desired.value, ListedAddrs(mode, w.nic), s))
  {
    var current := ListedAddrs(mode, w.nic);
    var ap := ApplyRendering(w.disk, p.text, s.apply);
    var a := Attach(mode, w.nic, Difference(p.desired.value, current), [], s.attach);
    if a.failed.Some? {
      AttachFailureGuarantee(mode, w, p, s);
    } else {
      var attached := AttachPhase(mode, w, p.desired.value, s.attach);
      var start, applied := AtNics(w, a.nics), World(w.store, ap.disk, a.nic);
      AttachPasses(mode, w, p, ap, a.nics);
      assert BeforeCommit(mode, w, p, ap, applied);
      PassConcat(mode, w, p, ap, start, [applied]);
      if ap.error.Some? {
        RollbackPhase(mode, w, p, ap, applied, a, s.rollback);
        PassConcat(mode, w, p, ap, start + [applied], AtNics(applied, Rollback(mode, a.nic, a.attached, s.rollback).nics));
      } else {
        var committed := applied.(store := p.store);
        assert AfterCommit(mode, w, p, ap, committed);
        PassConcat(mode, w, p, ap, start, [applied, committed]);
        var changed := ap.changed || |a.attached| > 0;
        DetachPhase(mode, w, p, ap, committed, changed, s.detach);
        PassConcat(mode, w, p, ap, start + [applied, committed],
                   AtNics(committed, Detach(mode, a.nic, Difference(current, p.desired.value), changed, s.detach).nics));
      }
    }
  }

  lemma ReconcileGuarantee(mode: Mode, w: World, p: Plan, s: Schedule)
    requires !mode.Noop? && p.desired.Ok?
    ensures Guarantee(mode, w, p, ApplyRendering(w.disk, p.text, s.apply), Reconcile(mode, w, p, s))
  {
    if !s.list { ExecuteGuarantee(mode, w, p, s); }
  }

  // ---------------------------------------------------------------- make before break

  lemma PassesCovered(mode: Mode, w: World, p: Plan, f: ApplyFaults, v: World)
    requires !mode.Noop? && Sound(p) && Covered(mode, w)
    requires Passes(mode, w, p, ApplyRendering(w.disk, p.text, f), v)
    requires var e := ApplyRendering(w.disk, p.text, f).error; e.Some? ==> !e.value.PostRename()
    ensures Covered(mode, v)
  {
    ApplyActive(w.disk, p.text.value, f);
    forall x | x in Bound(v.disk.active) ensures Prefix(x, mode.bits) in v.nic {
      if v.disk.active == Some(p.text.value) && x in p.desired.value {
        PrefixesOfMember(mode.bits, p.desired.value, Prefix(x, mode.bits));
      }
    }
  }

  /** Without a post-rename failure every world a transaction passes through is covered. */
  lemma TransactionCovered(mode: Mode, w: World, p: Plan, s: Schedule)
    requires !mode.Noop? && Sound(p) && Covered(mode, w)
    requires var t := Reconcile(mode, w, p, s); t.error.Some? ==> !t.error.value.PostRename()
    ensures var t := Reconcile(mode, w, p, s);
            Covered(mode, t.world) && forall i :: 0 <= i < |t.visited| ==> Covered(mode, t.visited[i])
  {
    var t := Reconcile(mode, w, p, s);
    var ap := ApplyRendering(w.disk, p.text, s.apply);
    ReconcileGuarantee(mode, w, p, s);
    if ap.error.Some? && ap.error.value.PostRename() {
      NotReached(mode, w, p, s);
    } else {
      forall i | 0 <= i < |t.visited| ensures Covered(mode, t.visited[i]) {
        PassesCovered(mode, w, p, s.apply, t.visited[i]);
      }
      PassesCovered(mode, w, p, s.apply, t.world);
    }
  }

  /** If the apply would have failed after its rename but the transaction did not report that, it
      stopped while attaching; the file was never touched. */
  lemma NotReached(mode: Mode, w: World, p: Plan, s: Schedule)
    requires !mode.Noop? && Sound(p) && Covered(mode, w)
    requires var e := ApplyRendering(w.disk, p.text, s.apply).error; e.Some? && e.value.PostRename()
    requires var t := Reconcile(mode, w, p, s); t.error.Some? ==> !t.error.value.PostRename()
    ensures var t := Reconcile(mode, w, p, s);
            Covered(mode, t.world) && forall i :: 0 <= i < |t.visited| ==> Covered(mode, t.visited[i])
  {
    var t := Reconcile(mode, w, p, s);
    ReconcileGuarantee(mode, w, p, s);
    forall i | 0 <= i < |t.visited| ensures Covered(mode, t.visited[i]) {
      assert t.visited[i].disk == w.disk && w.nic <= t.visited[i].nic;
    }
    assert t.world.disk == w.disk && w.nic <= t.world.nic;
  }

  // ---------------------------------------------------------------- failure before the commit

  /** A transaction given up before the commit ends on the interface that the rollback leaves. */
  lemma AbandonEnds(mode: Mode, w: World, p: Plan, desired: seq<Addr>, current: seq<Addr>, s: Schedule)
    requires var t := Execute(mode, w, p, desired, current, s); t.error.Some? && !t.error.value.AfterCommit()
    ensures var t := Execute(mode, w, p, desired, current, s);
            var a := Attach(mode, w.nic, Difference(desired, current), [], s.attach);
            var rb := Rollback(mode, a.nic, a.attached, s.rollback);
            && t.world.nic == rb.nic
            && (t.error.value.AttachFailed? || t.error.value.ApplyFailed?) && t.error.value.rollbackFailed == rb.failed
  {
    var t := Execute(mode, w, p, desired, current, s);
    var a := Attach(mode, w.nic, Difference(desired, current), [], s.attach);
    var ap := ApplyRendering(w.disk, p.text, s.apply);
    var rb := Rollback(mode, a.nic, a.attached, s.rollback);
    if a.failed.Some? {
      assert t.error == Some(AttachFailed(a.failed.value, rb.failed));
    } else if ap.error.Some? {
      assert t.error == Some(ApplyFailed(ap.error.value, rb.failed));
    }
  }

  /** Undoing every attachment of the attach phase gives back the interface, unless a call misbehaved. */
  lemma AbandonRestores(mode: Mode, w: World, desired: seq<Addr>, s: Schedule)
    requires !mode.Noop?
    ensures var a := Attach(mode, w.nic, Difference(desired, ListedAddrs(mode, w.nic)), [], s.attach);
            var rb := Rollback(mode, a.nic, a.attached, s.rollback);
            (forall a :: s.attach(a).op ==> !s.attach(a).effect) && !rb.failed ==> rb.nic == w.nic
  {
    var a := Attach(mode, w.nic, Difference(desired, ListedAddrs(mode, w.nic)), [], s.attach);
    var attached := AttachPhase(mode, w, desired, s.attach);
    RollbackShrinks(mode, a.nic, a.attached, s.rollback);
  }

  /** A failure before the commit keeps the store, loses no attached address and adds none that was
      not wanted. If failed changes had no effect and the rollback worked, nothing changed at all. */
  lemma FailureRollsBack(mode: Mode, w: World, p: Plan, s: Schedule)
    requires !mode.Noop? && p.desired.Ok?
    requires var t := Reconcile(mode, w, p, s); t.error.Some? && !t.error.value.AfterCommit()
    ensures var t := Reconcile(mode, w, p, s);
            && t.world.store == w.store
            && w.nic <= t.world.nic <= w.nic + PrefixesOf(mode.bits, p.desired.value)
    ensures var t := Reconcile(mode, w, p, s);
            && (forall a :: s.attach(a).op ==> !s.attach(a).effect)
            && (t.error.value.AttachFailed? || t.error.value.ApplyFailed? ==> !t.error.value.rollbackFailed)
            ==> t.world.nic == w.nic
  {
    var t := Reconcile(mode, w, p, s);
    assert BeforeCommit(mode, w, p, ApplyRendering(w.disk, p.text, s.apply), t.world) by {
      ReconcileGuarantee(mode, w, p, s);
    }
    if !s.list {
      AbandonEnds(mode, w, p, p.desired.value, ListedAddrs(mode, w.nic), s);
      AbandonRestores(mode, w, p.desired.value, s);
    }
  }

  /** The file is the old or the planned one throughout; without a post-rename failure it is the one that
      belongs to the store in the end. */
  lemma TransactionKeepsFile(mode: Mode, w: World, p: Plan, s: Schedule)
    requires !mode.Noop? && p.desired.Ok? && p.text.Ok?
    ensures var t := Reconcile(mode, w, p, s); var was, planned := w.disk.active, Some(p.text.value);
            && (forall i :: 0 <= i < |t.visited| ==> t.visited[i].disk.active == was || t.visited[i].disk.active == planned)
            && ((t.error.Some? ==> !t.error.value.PostRename()) ==>
                 (t.world.store == w.store && t.world.disk.active == was)
                 || (t.world.store == p.store && t.world.disk.active == planned))
  {
    var t := Reconcile(mode, w, p, s);
    ReconcileGuarantee(mode, w, p, s);
    forall i | 0 <= i < |t.visited|
      ensures t.visited[i].disk.active == w.disk.active || t.visited[i].disk.active == Some(p.text.value)
    {
      PassesFile(mode, w, p, s.apply, t.visited[i]);
    }
    ApplyActive(w.disk, p.text.value, s.apply);
  }

  lemma PassesFile(mode: Mode, w: World, p: Plan, f: ApplyFaults, v: World)
    requires !mode.Noop? && p.desired.Ok? && p.text.Ok? && Passes(mode, w, p, ApplyRendering(w.disk, p.text, f), v)
    ensures v.disk.active == w.disk.active || v.disk.active == Some(p.text.value)
  {
    ApplyActive(w.disk, p.text.value, f);
  }

  // ---------------------------------------------------------------- the addresses of the store in force

  ghost predicate AllAttached(mode: Mode, nic: set<Prefix>, addrs: set<Addr>)
    requires !mode.Noop?
  {
    forall a :: a in addrs ==> Prefix(a, mode.bits) in nic
  }

  lemma WantedAttached(mode: Mode, desired: seq<Addr>, wanted: set<Addr>, nic: set<Prefix>)
    requires !mode.Noop? && (forall a :: a in desired <==> a in wanted) && PrefixesOf(mode.bits, desired) <= nic
    ensures AllAttached(mode, nic, wanted)
  {}

  /** In every world a transaction passes through, the addresses of the store in force are attached. */
  ghost predicate InForce(mode: Mode, w: World, p: Plan, before: set<Addr>, wanted: set<Addr>, v: World)
    requires !mode.Noop?
  {
    (v.store == w.store && AllAttached(mode, v.nic, before)) || (v.store == p.store && AllAttached(mode, v.nic, wanted))
  }

  lemma TransactionInForce(mode: Mode, w: World, p: Plan, before: set<Addr>, wanted: set<Addr>, s: Schedule)
    requires !mode.Noop? && p.desired.Ok? && (forall a :: a in p.desired.value <==> a in wanted)
    requires AllAttached(mode, w.nic, before)
    ensures var t := Reconcile(mode, w, p, s);
            && InForce(mode, w, p, before, wanted, t.world)
            && forall i :: 0 <= i < |t.visited| ==> InForce(mode, w, p, before, wanted, t.visited[i])
  {
    var t := Reconcile(mode, w, p, s);
    var ap := ApplyRendering(w.disk, p.text, s.apply);
    ReconcileGuarantee(mode, w, p, s);
    forall v | Passes(mode, w, p, ap, v) ensures InForce(mode, w, p, before, wanted, v) {
      if AfterCommit(mode, w, p, ap, v) {
        WantedAttached(mode, p.desired.value, wanted, v.nic);
      }
    }
  }

  /** Success: the managed addresses are exactly the wanted ones, and the file is the new text. */
  lemma TransactionHeals(mode: Mode, w: World, p: Plan, wanted: set<Addr>, s: Schedule)
    requires !mode.Noop? && p.text.Ok? && p.desired.Ok? && (forall a :: a in p.desired.value <==> a in wanted)
    requires Reconcile(mode, w, p, s).error.None?
    ensures var v := Reconcile(mode, w, p, s).world;
            v.store == p.store && Managed(mode.bits, v.nic) == wanted && v.disk.active == Some(p.text.value)
  {
    var v := Reconcile(mode, w, p, s).world;
    ReconcileGuarantee(mode, w, p, s);
    ApplyActive(w.disk, p.text.value, s.apply);
    forall a ensures a in Managed(mode.bits, v.nic) <==> a in wanted {
      ManagedMember(mode.bits, v.nic, a);
      var q := Prefix(a, mode.bits);
      PrefixesOfMember(mode.bits, p.desired.value, q);
      assert q in v.nic && q.bits == mode.bits <==> q in PrefixesOf(mode.bits, p.desired.value);
    }
  }
}
