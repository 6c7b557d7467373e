/** What holds of the config path over any sequence of applies, whatever fails. */
module ApplyRuns {
  import opened Text
  import opened Render
  import opened Apply

  /** One call of Apply: what rendering its Services gave, and which external calls fail. */
  datatype ApplyCall = ApplyCall(text: Result<string>, faults: ApplyFaults)

  function Step(d: Disk, c: ApplyCall): Applied { ApplyRendering(d, c.text, c.faults) }

  function Run(d: Disk, calls: seq<ApplyCall>): Disk
    decreases |calls|
  {
    if calls == [] then d else Run(Step(d, calls[0]).disk, calls[1..])
  }

  /** `text` is the whole rendering made by one of the calls. */
  predicate RenderedBy(calls: seq<ApplyCall>, text: string) {
    exists c :: c in calls && c.text == Ok(text)
  }

  /** The earlier content, or a whole rendering; never anything in between. */
  ghost predicate Whole(earlier: Option<string>, calls: seq<ApplyCall>, active: Option<string>) {
    active == earlier || (active.Some? && RenderedBy(calls, active.value))
  }

  ghost predicate Extends(d: Disk, e: Disk) {
    |d.log| <= |e.log| && e.log[..|d.log|] == d.log
  }

  /** Each file put in place was validated by the call just before. */
  ghost predicate ValidatedFirst(log: seq<Moment>, start: nat) {
    forall i :: start <= i < |log| && log[i].call.Installed? ==>
      i > start && log[i - 1].call == Validated(log[i].call.text) && log[i].active == Some(log[i].call.text)
  }

  /** The content the last reload made HAProxy read. */
  function LastReloaded(log: seq<Moment>): Option<string> {
    if log == [] then None
    else if log[|log| - 1].call.Reloaded? then Some(log[|log| - 1].call.text)
    else LastReloaded(log[..|log| - 1])
  }

  ghost predicate NothingInstalled(log: seq<Moment>, start: nat) {
    forall i :: start <= i < |log| ==> !log[i].call.Installed?
  }

  /** Since position `start` nothing was installed, or HAProxy runs what the path holds. */
  ghost predicate InSync(d: Disk, start: nat) {
    NothingInstalled(d.log, start) || (d.active.Some? && LastReloaded(d.log) == d.active)
  }

  // ---------------------------------------------------------------- one call

  lemma LastReloadedAppend(log: seq<Moment>, m: Moment)
    ensures LastReloaded(log + [m]) == if m.call.Reloaded? then Some(m.call.text) else LastReloaded(log)
  {}

  /** The moments one call adds, spelled out by outcome. */
  function Added(d: Disk, text: string, reload: bool, f: ApplyFaults): seq<Moment> {
    var was, now := d.active, Some(text);
    var removed := if f.remove then [] else [Moment(Removed, was)];
    if f.read || was == now || f.NotCreated() then []
    else if f.NotWritten() || f.validate then [Moment(Wrote(f.Content(text)), was)] + removed
    else if f.rename then [Moment(Wrote(text), was), Moment(Validated(text), was)] + removed
    else
      [Moment(Wrote(text), was), Moment(Validated(text), was), Moment(Installed(text), now)]
      + (if f.dirSync then [] else [Moment(Synced, now)] + (if reload && !f.reload then [Moment(Reloaded(text), now)] else []))
  }

  lemma AddedIsAppended(d: Disk, text: string, reload: bool, f: ApplyFaults)
    ensures ApplyText(d, text, reload, f).disk.log == d.log + Added(d, text, reload, f)
  {}

  /** A call that installs nothing leaves the path and the reloaded content alone. */
  lemma StepActive(d: Disk, c: ApplyCall)
    ensures Whole(d.active, [c], Step(d, c).disk.active)
    ensures Extends(d, Step(d, c).disk)
    ensures forall i :: |d.log| <= i < |Step(d, c).disk.log| ==> Whole(d.active, [c], Step(d, c).disk.log[i].active)
  {
    var t := c.text;
    if t.Ok? {
      AddedIsAppended(d, t.value, true, c.faults);
      assert c in [c];
    }
  }

  lemma StepValidatedFirst(d: Disk, c: ApplyCall, start: nat)
    requires start <= |d.log| && ValidatedFirst(d.log, start)
    ensures ValidatedFirst(Step(d, c).disk.log, start)
  {
    var t := c.text;
    if t.Ok? {
      AddedIsAppended(d, t.value, true, c.faults);
      var log, added := Step(d, c).disk.log, Added(d, t.value, true, c.faults);
      forall i | start <= i < |log| && log[i].call.Installed?
        ensures i > start && log[i - 1].call == Validated(log[i].call.text) && log[i].active == Some(log[i].call.text)
      {
        if i >= |d.log| {
          assert log[i] == added[i - |d.log|];
          assert log[i - 1] == added[i - |d.log| - 1];
        }
      }
    }
  }

  lemma StepTemps(d: Disk, c: ApplyCall)
    requires d.Valid()
    ensures Step(d, c).disk.Valid()
    ensures !c.faults.remove ==> Step(d, c).disk.temps == d.temps
    ensures d.temps.Keys <= Step(d, c).disk.temps.Keys <= d.temps.Keys + {d.nextTemp}
  {}

  lemma ReloadEnds(log: seq<Moment>, added: seq<Moment>, text: string)
    requires added != [] && added[|added| - 1].call == Reloaded(text)
    ensures LastReloaded(log + added) == Some(text)
  {}

  lemma NothingAdded(log: seq<Moment>, added: seq<Moment>, start: nat)
    requires start <= |log| && NothingInstalled(log, start) && NothingInstalled(added, 0)
    ensures NothingInstalled(log + added, start)
  {}

  lemma AddedEnds(d: Disk, text: string, f: ApplyFaults)
    requires !f.read && d.active != Some(text) && !f.NotCreated() && !f.NotWritten() && !f.validate && !f.rename
    requires !f.dirSync && !f.reload
    ensures var added := Added(d, text, true, f); added != [] && added[|added| - 1].call == Reloaded(text)
  {}

  /** The call puts its text in place: nothing fails up to the rename, and the file is not current already. */
  predicate Installs(d: Disk, c: ApplyCall) {
    var f := c.faults;
    c.text.Ok? && !f.read && d.active != Some(c.text.value) && !f.NotCreated() && !f.NotWritten() && !f.validate && !f.rename
  }

  predicate FailsAfterRename(c: ApplyCall) { c.faults.dirSync || c.faults.reload }

  /** Failing after the rename, in terms of what was asked. */
  lemma PostRenameIff(d: Disk, c: ApplyCall)
    ensures var e := Step(d, c).error;
            e.Some? && e.value.PostRename() <==> Installs(d, c) && FailsAfterRename(c)
  {}

  lemma QuietInSync(d: Disk, added: seq<Moment>, start: nat)
    requires start <= |d.log|
    requires forall i :: 0 <= i < |added| ==> !added[i].call.Reloaded? && !added[i].call.Installed?
    ensures InSync(d.(log := d.log + added), start) <==> InSync(d, start)
  {
    var log := d.log + added;
    QuietMoments(d.log, added);
    if NothingInstalled(d.log, start) {
      NothingAdded(d.log, added, start);
    } else {
      var i :| start <= i < |d.log| && d.log[i].call.Installed?;
      assert log[i].call.Installed?;
    }
  }

  /** A call that installs nothing changes nothing about being in sync. */
  lemma QuietStep(d: Disk, c: ApplyCall, start: nat)
    requires start <= |d.log| && !Installs(d, c)
    ensures InSync(Step(d, c).disk, start) <==> InSync(d, start)
  {
    if c.text.Ok? {
      AddedIsAppended(d, c.text.value, true, c.faults);
      QuietInSync(d, Added(d, c.text.value, true, c.faults), start);
    }
  }

  /** A call that installs its text and reloads leaves the two in sync. */
  lemma InstallInSync(d: Disk, c: ApplyCall, start: nat)
    requires Installs(d, c) && !FailsAfterRename(c)
    ensures InSync(Step(d, c).disk, start)
  {
    AddedIsAppended(d, c.text.value, true, c.faults);
    AddedEnds(d, c.text.value, c.faults);
    ReloadEnds(d.log, Added(d, c.text.value, true, c.faults), c.text.value);
  }

  lemma {:induction false} QuietMoments(log: seq<Moment>, added: seq<Moment>)
    requires forall i :: 0 <= i < |added| ==> !added[i].call.Reloaded?
    ensures LastReloaded(log + added) == LastReloaded(log)
  {
    if added == [] {
      assert log + added == log;
    } else {
      var n := |added| - 1;
      QuietMoments(log, added[..n]);
      assert log + added == log + added[..n] + [added[n]];
      LastReloadedAppend(log + added[..n], added[n]);
    }
  }

  // ---------------------------------------------------------------- whole runs

  lemma WholeWeaken(earlier: Option<string>, mid: Option<string>, c: ApplyCall, calls: seq<ApplyCall>, active: Option<string>)
    requires Whole(earlier, [c], mid) && Whole(mid, calls, active)
    ensures Whole(earlier, [c] + calls, active)
  {}

  lemma WholeMore(earlier: Option<string>, c: ApplyCall, calls: seq<ApplyCall>, active: Option<string>)
    requires Whole(earlier, [c], active)
    ensures Whole(earlier, [c] + calls, active)
  {}

  /** At every moment of every run the config path holds its earlier content or a whole rendering. */
  lemma {:induction false} PathAlwaysWhole(d: Disk, calls: seq<ApplyCall>)
    ensures Extends(d, Run(d, calls)) && Whole(d.active, calls, Run(d, calls).active)
    ensures forall i :: |d.log| <= i < |Run(d, calls).log| ==> Whole(d.active, calls, Run(d, calls).log[i].active)
    decreases |calls|
  {
    if calls != [] {
      var c, rest := calls[0], calls[1..];
      var mid, end := Step(d, c).disk, Run(d, calls);
      assert calls == [c] + rest;
      StepActive(d, c);
      PathAlwaysWhole(mid, rest);
      WholeWeaken(d.active, mid.active, c, rest, end.active);
      forall i | |d.log| <= i < |end.log| ensures Whole(d.active, calls, end.log[i].active) {
        if i < |mid.log| {
          assert end.log[i] == mid.log[i];
          WholeMore(d.active, c, rest, end.log[i].active);
        } else {
          WholeWeaken(d.active, mid.active, c, rest, end.log[i].active);
        }
      }
    }
  }

  /** In every run, whatever is put in place passed validation in the call just before. */
  lemma {:induction false} InstalledWasValidated(d: Disk, calls: seq<ApplyCall>, start: nat)
    requires start <= |d.log| && ValidatedFirst(d.log, start)
    ensures ValidatedFirst(Run(d, calls).log, start)
    decreases |calls|
  {
    if calls != [] {
      StepActive(d, calls[0]);
      StepValidatedFirst(d, calls[0], start);
      InstalledWasValidated(Step(d, calls[0]).disk, calls[1..], start);
    }
  }

  /** If removing files never fails, no candidate file outlives the call that made it. */
  lemma {:induction false} NoCandidateLeft(d: Disk, calls: seq<ApplyCall>)
    requires d.Valid() && forall i :: 0 <= i < |calls| ==> !calls[i].faults.remove
    ensures Run(d, calls).temps == d.temps
    decreases |calls|
  {
    if calls != [] {
      StepTemps(d, calls[0]);
      NoCandidateLeft(Step(d, calls[0]).disk, calls[1..]);
    }
  }

  // ---------------------------------------------------------------- what HAProxy runs

  /** After a failed directory sync or reload HAProxy runs what the path holds exactly when it already did. */
  lemma LostReload(d: Disk, c: ApplyCall, start: nat)
    requires start <= |d.log|
    requires var e := Step(d, c).error; e.Some? && e.value.PostRename()
    ensures Step(d, c).disk.active == Some(c.text.value)
    ensures LastReloaded(Step(d, c).disk.log) == LastReloaded(d.log)
    ensures InSync(Step(d, c).disk, start) <==> LastReloaded(d.log) == Some(c.text.value)
  {
    var e, text, f := Step(d, c).disk, c.text.value, c.faults;
    AddedIsAppended(d, text, true, f);
    QuietMoments(d.log, Added(d, text, true, f));
    assert e.log[|d.log| + 2] == Added(d, text, true, f)[2];
  }

  /** Such a failure is never made up for: however often the text is applied again, with whatever faults,
      nothing happens and nothing is reloaded. */
  lemma {:induction false} ReloadIsNotRetried(d: Disk, text: string, retries: seq<ApplyFaults>)
    requires d.active == Some(text)
    ensures Run(d, Retries(text, retries)) == d
    ensures forall f: ApplyFaults :: !f.read ==> Step(d, ApplyCall(Ok(text), f)) == Applied(d, false, None)
    decreases |retries|
  {
    if retries != [] {
      assert Retries(text, retries)[1..] == Retries(text, retries[1..]);
      ReloadIsNotRetried(d, text, retries[1..]);
    }
  }

  function Retries(text: string, faults: seq<ApplyFaults>): (r: seq<ApplyCall>)
    ensures |r| == |faults|
  {
    seq(|faults|, i requires 0 <= i < |faults| => ApplyCall(Ok(text), faults[i]))
  }

  lemma {:induction false} RunLast(d: Disk, calls: seq<ApplyCall>)
    requires calls != []
    ensures Run(d, calls) == Step(Run(d, calls[..|calls| - 1]), calls[|calls| - 1]).disk
    decreases |calls|
  {
    var n := |calls| - 1;
    if n > 0 {
      RunLast(Step(d, calls[0]).disk, calls[1..]);
      assert calls[1..][..n - 1] == calls[..n][1..];
    }
  }

  ghost predicate InstallsAt(d: Disk, calls: seq<ApplyCall>, i: nat)
    requires i < |calls|
  {
    Installs(Run(d, calls[..i]), calls[i])
  }

  /** Call `i` was the last to install, failed after its rename, and HAProxy did not run its text already. */
  ghost predicate LosesReload(d: Disk, calls: seq<ApplyCall>, i: nat)
    requires i < |calls|
  {
    && InstallsAt(d, calls, i) && FailsAfterRename(calls[i])
    && LastReloaded(Run(d, calls[..i]).log) != Some(calls[i].text.value)
    && forall j :: i < j < |calls| ==> !InstallsAt(d, calls, j)
  }

  lemma InstallsAtPrefix(d: Disk, calls: seq<ApplyCall>, n: nat, i: nat)
    requires i < n <= |calls|
    ensures InstallsAt(d, calls[..n], i) == InstallsAt(d, calls, i)
    ensures calls[..n][..i] == calls[..i]
  {
    assert calls[..n][..i] == calls[..i];
  }

  lemma LosesReloadPrefix(d: Disk, calls: seq<ApplyCall>, i: nat)
    requires i < |calls| - 1 && !InstallsAt(d, calls, |calls| - 1)
    ensures LosesReload(d, calls[..|calls| - 1], i) <==> LosesReload(d, calls, i)
  {
    var n := |calls| - 1;
    forall j | i <= j < n ensures InstallsAt(d, calls[..n], j) == InstallsAt(d, calls, j) && calls[..n][..j] == calls[..j] {
      InstallsAtPrefix(d, calls, n, j);
    }
  }

  /** After any run HAProxy does not run what the path holds exactly when the last call that installed
      something failed after its rename and its text was not the one reloaded last before. */
  lemma {:induction false} OutOfSyncIff(d: Disk, calls: seq<ApplyCall>)
    ensures InSync(Run(d, calls), |d.log|) <==> !exists i :: 0 <= i < |calls| && LosesReload(d, calls, i)
    decreases |calls|
  {
    if calls != [] {
      var n := |calls| - 1;
      var init, c := calls[..n], calls[n];
      var e := Run(d, init);
      RunLast(d, calls);
      PathAlwaysWhole(d, init);
      OutOfSyncIff(d, init);
      if !Installs(e, c) {
        QuietStep(e, c, |d.log|);
        forall i | 0 <= i < n ensures LosesReload(d, init, i) <==> LosesReload(d, calls, i) {
          LosesReloadPrefix(d, calls, i);
        }
      } else {
        forall i | 0 <= i < n ensures !LosesReload(d, calls, i) { assert InstallsAt(d, calls, n); }
        PostRenameIff(e, c);
        if FailsAfterRename(c) {
          LostReload(e, c, |d.log|);
          assert LosesReload(d, calls, n) <==> LastReloaded(e.log) != Some(c.text.value);
        } else {
          InstallInSync(e, c, |d.log|);
        }
      }
    }
  }

  /** No call of the run fails after its rename. */
  predicate NoPostRenameFailure(d: Disk, calls: seq<ApplyCall>)
    decreases |calls|
  {
    calls == [] ||
    (var r := Step(d, calls[0]);
     (r.error.Some? ==> !r.error.value.PostRename()) && NoPostRenameFailure(r.disk, calls[1..]))
  }

  lemma {:induction false} NoFailureAt(d: Disk, calls: seq<ApplyCall>, i: nat)
    requires i < |calls| && NoPostRenameFailure(d, calls)
    ensures !(InstallsAt(d, calls, i) && FailsAfterRename(calls[i]))
    decreases |calls|
  {
    PostRenameIff(d, calls[0]);
    if i > 0 {
      NoFailureAt(Step(d, calls[0]).disk, calls[1..], i - 1);
      assert calls[1..][..i - 1] == calls[..i][1..];
    }
  }

  /** Without post-rename failures, since the first install HAProxy runs what the path holds. */
  lemma ReloadedIsActive(d: Disk, calls: seq<ApplyCall>)
    requires NoPostRenameFailure(d, calls)
    ensures InSync(Run(d, calls), |d.log|)
  {
    OutOfSyncIff(d, calls);
    forall i | 0 <= i < |calls| ensures !LosesReload(d, calls, i) { NoFailureAt(d, calls, i); }
  }

  /** An input: a fresh text, and a reload that fails. The path then holds what HAProxy never read. */
  lemma FailedReloadLosesSync(d: Disk, text: string, f: ApplyFaults, retries: seq<ApplyFaults>)
    requires d.active != Some(text) && LastReloaded(d.log) != Some(text)
    requires f == NO_FAULTS.(reload := true) || f == NO_FAULTS.(dirSync := true)
    ensures var e := Step(d, ApplyCall(Ok(text), f)).disk;
            e.active == Some(text) && !InSync(Run(e, Retries(text, retries)), |d.log|)
  {
    var c := ApplyCall(Ok(text), f);
    PostRenameIff(d, c);
    LostReload(d, c, |d.log|);
    ReloadIsNotRetried(Step(d, c).disk, text, retries);
  }

  /** Bootstrap installs the empty configuration unless it is there already, and it reloads exactly when it
      installs something, a reload command and a pid file are configured, and the pid file is there and is not a
      directory. */
  lemma BootstrapReloadsIff(d: Disk, reloadCommand: string, pidPath: string, found: PidFile, f: ApplyFaults)
    requires ApplyText(d, EMPTY_CONFIG, ShouldReloadOnBootstrap(reloadCommand, pidPath, found), f).error.None?
    ensures var e := ApplyText(d, EMPTY_CONFIG, ShouldReloadOnBootstrap(reloadCommand, pidPath, found), f).disk;
            && e.active == Some(EMPTY_CONFIG)
            && ((|e.log| > |d.log| && e.log[|e.log| - 1].call == Reloaded(EMPTY_CONFIG)) <==>
                d.active != Some(EMPTY_CONFIG) && !Blank(reloadCommand) && !Blank(pidPath) && found == PidRegular)
  {
    TrimSpaceBlank(reloadCommand);
    TrimSpaceBlank(pidPath);
    var reload := ShouldReloadOnBootstrap(reloadCommand, pidPath, found);
    AddedIsAppended(d, EMPTY_CONFIG, reload, f);
  }
}
