/** Installing a configuration: compare, write a candidate, validate, rename, sync, reload. */
module Apply {
  import opened Text
  import opened Model
  import opened DesiredStore
  import opened Render

  /** An external call that went through and touched the disk or the running HAProxy. */
  datatype Call = Wrote(text: string) | Removed | Validated(text: string) | Installed(text: string) | Synced | Reloaded(text: string)

  /** A call, and what the config path held right after it. */
  datatype Moment = Moment(call: Call, active: Option<string>)

  /** The config path, the candidate files beside it, and the history of calls. */
  datatype Disk = Disk(active: Option<string>, temps: map<nat, string>, nextTemp: nat, log: seq<Moment>) {
    /** Candidate names handed out later are new. */
    ghost predicate Valid() { forall n :: n in temps ==> n < nextTemp }

    function Record(call: Call): Disk { this.(log := log + [Moment(call, active)]) }
  }

  /** Which external calls of one apply fail; a failed write leaves the given part of the text behind. */
  datatype ApplyFaults = ApplyFaults(
    read: bool, mkdir: bool, create: bool, write: Option<string>, sync: bool, close: bool,
    validate: bool, rename: bool, dirSync: bool, reload: bool, remove: bool)
  {
    predicate NotCreated() { mkdir || create }

    predicate NotWritten() { write.Some? || sync || close }

    function Content(text: string): string { if write.Some? then write.value else text }
  }

  const NO_FAULTS := ApplyFaults(false, false, false, None, false, false, false, false, false, false, false)

  datatype ApplyError =
    RenderFailed | ReadFailed | WriteFailed | ValidateFailed | RenameFailed | DirSyncFailed | ReloadFailed
  {
    /** The new file is in place although an error is reported. */
    predicate PostRename() { DirSyncFailed? || ReloadFailed? }
  }

  datatype Applied = Applied(disk: Disk, changed: bool, error: Option<ApplyError>)

  // ---------------------------------------------------------------- one call

  function Cleanup(d: Disk, name: nat, f: ApplyFaults): Disk {
    if f.remove then d else d.(temps := d.temps - {name}).Record(Removed)
  }

  /** A new candidate file with the given content. */
  function Candidate(d: Disk, content: string): Disk {
    d.(temps := d.temps[d.nextTemp := content], nextTemp := d.nextTemp + 1).Record(Wrote(content))
  }

  function Rename(d: Disk, name: nat, text: string): Disk {
    d.(active := Some(text), temps := d.temps - {name}).Record(Installed(text))
  }

  /** The effect of installing `text`, given what fails. */
  function ApplyText(d: Disk, text: string, reload: bool, f: ApplyFaults): Applied {
    if f.read then Applied(d, false, Some(ReadFailed))
    else if d.active == Some(text) then Applied(d, false, None)
    else if f.NotCreated() then Applied(d, false, Some(WriteFailed))
    else
      var name := d.nextTemp;
      var d1 := Candidate(d, f.Content(text));
      if f.NotWritten() then Applied(Cleanup(d1, name, f), false, Some(WriteFailed))
      else if f.validate then Applied(Cleanup(d1, name, f), false, Some(ValidateFailed))
      else
        var d2 := d1.Record(Validated(text));
        if f.rename then Applied(Cleanup(d2, name, f), false, Some(RenameFailed))
        else
          var d3 := Rename(d2, name, text);
          if f.dirSync then Applied(d3, false, Some(DirSyncFailed))
          else
            var d4 := d3.Record(Synced);
            if !reload then Applied(d4, true, None)
            else if f.reload then Applied(d4, false, Some(ReloadFailed))
            else Applied(d4.Record(Reloaded(text)), true, None)
  }

  /** One call of Apply, given what rendering the Services produced. */
  function ApplyRendering(d: Disk, text: Result<string>, f: ApplyFaults): Applied {
    if text.Err? then Applied(d, false, Some(RenderFailed)) else ApplyText(d, text.value, true, f)
  }

  datatype PidFile = NoPidFile | PidDirectory | PidRegular

  /** Bootstrap reloads only a process that seems to be running already. */
  predicate ShouldReloadOnBootstrap(reloadCommand: string, pidPath: string, found: PidFile) {
    TrimSpace(reloadCommand) != "" && TrimSpace(pidPath) != "" && found.PidRegular?
  }

  class Applier {
    const reloadCommand: string
    const pidPath: string
    var disk: Disk

    constructor (initial: Disk, reloadCommand: string, pidPath: string)
      ensures disk == initial && this.reloadCommand == reloadCommand && this.pidPath == pidPath
    {
      disk := initial;
      this.reloadCommand := reloadCommand;
      this.pidPath := pidPath;
    }

    method ReadActive(fails: bool) returns (r: Result<Option<string>>)
      ensures r == if fails then Err else Ok(disk.active)
    {
      if fails { return Err; }
      return Ok(disk.active);
    }

    method RemoveCandidate(name: nat, f: ApplyFaults)
      modifies this`disk
      ensures disk == Cleanup(old(disk), name, f)
    {
      if !f.remove {
        disk := disk.(temps := disk.temps - {name});
        disk := disk.Record(Removed);
      }
    }

    /** Creates, fills, syncs and closes a new candidate file; cleans up after itself. */
    method WriteCandidateFile(text: string, f: ApplyFaults) returns (r: Result<nat>)
      modifies this`disk
      ensures r == if f.NotCreated() || f.NotWritten() then Err else Ok(old(disk).nextTemp)
      ensures disk == if f.NotCreated() then old(disk)
                      else if f.NotWritten() then Cleanup(Candidate(old(disk), f.Content(text)), old(disk).nextTemp, f)
                      else Candidate(old(disk), text)
    {
      if f.mkdir {
        return Err;
      }
      if f.create {
        return Err;
      }
      var name := disk.nextTemp;
      disk := disk.(temps := disk.temps[name := f.Content(text)], nextTemp := name + 1);
      disk := disk.Record(Wrote(f.Content(text)));
      if f.write.Some? {
        RemoveCandidate(name, f);
        return Err;
      }
      if f.sync {
        RemoveCandidate(name, f);
        return Err;
      }
      if f.close {
        RemoveCandidate(name, f);
        return Err;
      }
      return Ok(name);
    }

    method ApplyRenderedConfig(text: string, reload: bool, f: ApplyFaults)
      returns (changed: bool, error: Option<ApplyError>)
      modifies this`disk
      ensures Applied(disk, changed, error) == ApplyText(old(disk), text, reload, f)
    {
      var current := ReadActive(f.read);
      if current.Err? {
        return false, Some(ReadFailed);
      }
      if current.value == Some(text) {
        return false, None;
      }
      var candidate := WriteCandidateFile(text, f);
      if candidate.Err? {
        return false, Some(WriteFailed);
      }
      var applied := false;
      if f.validate {
        error := Some(ValidateFailed);
      } else {
        disk := disk.Record(Validated(text));
        if f.rename {
          error := Some(RenameFailed);
        } else {
          disk := disk.(active := Some(text), temps := disk.temps - {candidate.value});
          disk := disk.Record(Installed(text));
          applied := true;
          if f.dirSync {
            error := Some(DirSyncFailed);
          } else {
            disk := disk.Record(Synced);
            error := None;
            if reload {
              if f.reload {
                error := Some(ReloadFailed);
              } else {
                disk := disk.Record(Reloaded(text));
              }
            }
          }
        }
      }
      if !applied {
        RemoveCandidate(candidate.value, f);
      }
      changed := error.None?;
    }

    method Apply(services: seq<Service>, f: ApplyFaults) returns (changed: bool, error: Option<ApplyError>)
      modifies this`disk
      ensures Applied(disk, changed, error) == ApplyRendering(old(disk), Rendered(services), f)
    {
      var rendered := RenderConfig(services);
      if rendered.Err? {
        return false, Some(RenderFailed);
      }
      changed, error := ApplyRenderedConfig(rendered.value, true, f);
    }

    method Bootstrap(found: PidFile, f: ApplyFaults) returns (error: Option<ApplyError>)
      modifies this`disk
      ensures var r := ApplyText(old(disk), EMPTY_CONFIG, ShouldReloadOnBootstrap(reloadCommand, pidPath, found), f);
              disk == r.disk && error == r.error
    {
      var rendered := RenderConfig([]);
      var _, e := ApplyRenderedConfig(rendered.value, ShouldReloadOnBootstrap(reloadCommand, pidPath, found), f);
      return e;
    }
  }
}
