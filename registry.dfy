/** The SSR runtime registry: which server-rendered themes are installed in
    the themes directory and which of them has a running Node.js process,
    with the port it listens on. Process control is reduced to its effect on
    the registry; the outcome of spawning a process or downloading a package
    is a parameter. */
module Registry {
  import opened Wrappers
  import opened Text

  /** The port the activation flow starts themes on. */
  const BasePort := 3000

  /** `waitForReady`'s timings, in milliseconds. */
  const ReadyTimeoutMs := 30000
  const ProbeIntervalMs := 1000
  const ProbeTimeoutMs := 2000

  /** A registry entry: the process handle (reduced to an identity and
      whether it holds a started process), its port and its start time. */
  datatype Entry = Entry(port: int, hasProcess: bool, startedAt: int, proc: nat)

  /** A theme directory on disk: whether `server.js` is present and the
      content of `version.txt`, when it can be read. */
  datatype ThemeDir = ThemeDir(hasServerJs: bool, versionFile: Option<string>)

  datatype Status = StatusNotInstalled | StatusInstalled | StatusRunning | StatusError

  datatype ThemeInfo = ThemeInfo(name: string, version: string, status: Status, port: int, startedAt: Option<int>)

  datatype ManagerError =
    | AlreadyInstalled
    | DownloadFailed
    | DownloadStatus(code: int)
    | ExtractFailed
    | AlreadyRunning
    | NotInstalled
    | StartFailed
    | NotRunning
    | RemoveFailed
    | ReadDirFailed

  /** What fetching a theme package gives: no response at all, or a status
      code and, for a 200 answer, the directory the archive extracts to
      (None when extraction fails). */
  datatype Download = Unreachable | Fetched(status: int, extracted: Option<ThemeDir>)

  /** What `exec.Cmd.Start` gives: an error, or a process and its start time. */
  datatype Spawn = SpawnFails | Spawned(proc: nat, at: int)

  /** The registry's test for a running theme: an entry that holds a process. */
  predicate IsLive(processes: map<string, Entry>, name: string) {
    name in processes && processes[name].hasProcess
  }

  /** The exit handler as written: whatever entry the name holds now goes. */
  function ReapByName(processes: map<string, Entry>, name: string): map<string, Entry> {
    processes - {name}
  }

  /** The exit handler as intended: only the entry of the process that
      exited goes. */
  function ReapOwnEntry(processes: map<string, Entry>, name: string, proc: nat): map<string, Entry> {
    if name in processes && processes[name].proc == proc then processes - {name} else processes
  }

  ghost predicate Distinct(names: seq<string>) {
    forall i, j :: 0 <= i < j < |names| ==> names[i] != names[j]
  }

  class Manager {
    /** Running themes by name. */
    var processes: map<string, Entry>
    /** The themes directory: one entry per installed theme directory. */
    var themes: map<string, ThemeDir>

    /** Every entry holds a started process, and only installed themes run. */
    ghost predicate Valid()
      reads this
    {
      (forall name :: name in processes ==> processes[name].hasProcess)
      && processes.Keys <= themes.Keys
    }

    constructor(disk: map<string, ThemeDir>)
      ensures Valid()
      ensures processes == map[] && themes == disk
    {
      processes := map[];
      themes := disk;
    }

    /** `IsRunning`: the name has an entry and that entry's process is
      live. */
    function IsRunning(name: string): (b: bool)
      reads this
      ensures b ==> name in processes
      ensures b <==> name in processes && processes[name].hasProcess
    {
      IsLive(processes, name)
    }

    /** `GetPort`: the port of a running theme, 0 otherwise. */
    function GetPort(name: string): (port: int)
      reads this
    {
      if IsRunning(name) then processes[name].port else 0
    }

    /** `GetStatus` (and `getStatusUnlocked`, which is the same rule). */
    function GetStatus(name: string): (info: ThemeInfo)
      reads this
      ensures info.name == name && info.status != StatusError
      ensures info.status == StatusNotInstalled <==> name !in themes
      ensures info.status == StatusRunning <==> name in themes && IsRunning(name)
      ensures info.status == StatusRunning ==>
        info.port == GetPort(name) && info.startedAt == Some(processes[name].startedAt)
      ensures info.status != StatusRunning ==> info.port == 0 && info.startedAt == None
      ensures name in themes && themes[name].versionFile.Some? ==>
        info.version == TrimSpace(themes[name].versionFile.value)
      ensures !(name in themes && themes[name].versionFile.Some?) ==> info.version == ""
    {
      if name !in themes then
        ThemeInfo(name, "", StatusNotInstalled, 0, None)
      else
        var version := match themes[name].versionFile
          case Some(text) => TrimSpace(text)
          case None => "";
        if IsRunning(name) then
          ThemeInfo(name, version, StatusRunning, processes[name].port, Some(processes[name].startedAt))
        else
          ThemeInfo(name, version, StatusInstalled, 0, None)
    }

    /** `Install`: refuses an existing directory, otherwise downloads and
      extracts; a failed extraction leaves no directory behind. */
    method Install(name: string, download: Download) returns (err: Option<ManagerError>)
      requires Valid()
      modifies this
      ensures Valid()
      ensures processes == old(processes)
      ensures name in old(themes) ==> err == Some(AlreadyInstalled)
      ensures err.None? <==>
        name !in old(themes) && download.Fetched? && download.status == 200 && download.extracted.Some?
      ensures err.None? ==> themes == old(themes)[name := download.extracted.value]
      ensures err.Some? ==> themes == old(themes)
    {
      if name in themes {
        return Some(AlreadyInstalled);
      }
      match download
      case Unreachable =>
        err := Some(DownloadFailed);
      case Fetched(status, extracted) =>
        if status != 200 {
          err := Some(DownloadStatus(status));
        } else if extracted.None? {
          err := Some(ExtractFailed);
        } else {
          themes := themes[name := extracted.value];
          err := None;
        }
    }

    /** `Uninstall`: stops the theme if it runs, then removes its directory. */
    method Uninstall(name: string, removeSucceeds: bool) returns (err: Option<ManagerError>)
      requires Valid()
      modifies this
      ensures Valid()
      ensures processes == old(processes) - {name}
      ensures removeSucceeds ==> err.None? && themes == old(themes) - {name}
      ensures !removeSucceeds ==> err == Some(RemoveFailed) && themes == old(themes)
    {
      if IsRunning(name) {
        processes := processes - {name};
      }
      if !removeSucceeds {
        return Some(RemoveFailed);
      }
      themes := themes - {name};
      err := None;
    }

    /** `Start`: refuses a running theme and one without `server.js`; a
      started process is registered under the name with its port. */
    method Start(name: string, port: int, spawn: Spawn) returns (err: Option<ManagerError>)
      requires Valid()
      modifies this
      ensures Valid()
      ensures themes == old(themes)
      ensures old(IsRunning(name)) ==> err == Some(AlreadyRunning)
      ensures !old(IsRunning(name)) && !(name in themes && themes[name].hasServerJs) ==> err == Some(NotInstalled)
      ensures !old(IsRunning(name)) && name in themes && themes[name].hasServerJs && spawn.SpawnFails? ==>
        err == Some(StartFailed)
      ensures err.Some? ==> processes == old(processes)
      ensures err.None? <==> !old(IsRunning(name)) && name in themes && themes[name].hasServerJs && spawn.Spawned?
      ensures err.None? ==> processes == old(processes)[name := Entry(port, true, spawn.at, spawn.proc)]
      ensures err.None? ==> IsRunning(name) && GetPort(name) == port
    {
      if IsRunning(name) {
        return Some(AlreadyRunning);
      }
      if !(name in themes && themes[name].hasServerJs) {
        return Some(NotInstalled);
      }
      match spawn
      case SpawnFails =>
        err := Some(StartFailed);
      case Spawned(proc, at) =>
        processes := processes[name := Entry(port, true, at, proc)];
        err := None;
    }

    /** The exit handler `Start` leaves behind, as written: it deletes the
      name's entry whatever process that entry now belongs to. */
    method OnExit(name: string)
      requires Valid()
      modifies this
      ensures Valid()
      ensures themes == old(themes)
      ensures processes == ReapByName(old(processes), name)
    {
      processes := processes - {name};
    }

    /** The exit handler as intended: the exit of process `proc` deletes the
      name's entry only while that entry still belongs to `proc`. */
    method OnProcessExit(name: string, proc: nat)
      requires Valid()
      modifies this
      ensures Valid()
      ensures themes == old(themes)
      ensures processes == ReapOwnEntry(old(processes), name, proc)
      ensures forall other :: other in old(processes) && (other != name || old(processes)[other].proc != proc)
                ==> other in processes && processes[other] == old(processes)[other]
    {
      if name in processes && processes[name].proc == proc {
        processes := processes - {name};
      }
    }

    /** `Stop`: refuses a theme that does not run; otherwise its entry goes. */
    method Stop(name: string) returns (err: Option<ManagerError>)
      requires Valid()
      modifies this
      ensures Valid()
      ensures themes == old(themes)
      ensures !old(IsRunning(name)) ==> err == Some(NotRunning) && processes == old(processes)
      ensures old(IsRunning(name)) ==> err.None? && processes == old(processes) - {name}
      ensures !IsRunning(name) && GetPort(name) == 0
    {
      if !IsRunning(name) {
        return Some(NotRunning);
      }
      processes := processes - {name};
      err := None;
    }

    /** `StopAll`: every process is stopped and the registry is emptied. */
    method StopAll() returns (err: Option<ManagerError>)
      requires Valid()
      modifies this
      ensures Valid()
      ensures themes == old(themes)
      ensures err.None? && processes == map[]
      ensures forall name :: !IsRunning(name)
    {
      processes := map[];
      err := None;
    }

    /** `ListRunning`: the names of all running themes, each once, in the
      map's iteration order. */
    method ListRunning() returns (names: seq<string>)
      ensures forall name :: name in names <==> IsRunning(name)
      ensures Distinct(names)
    {
      names := [];
      var pending := processes.Keys;
      while pending != {}
        invariant pending <= processes.Keys
        invariant forall name :: name in names <==> name in processes.Keys - pending && IsRunning(name)
        invariant Distinct(names)
        decreases |pending|
      {
        var name :| name in pending;
        if processes[name].hasProcess {
          assert name !in names;
          names := names + [name];
        }
        pending := pending - {name};
      }
    }

    /** `GetRunningTheme`: some running theme, in the map's iteration order,
      or None when nothing runs. */
    method GetRunningTheme() returns (info: Option<ThemeInfo>)
      ensures info.None? <==> forall name :: name in processes ==> !processes[name].hasProcess
      ensures info.Some? ==>
        var name := info.value.name;
        IsRunning(name)
        && info.value == ThemeInfo(name, "", StatusRunning, processes[name].port, Some(processes[name].startedAt))
    {
      var pending := processes.Keys;
      while pending != {}
        invariant pending <= processes.Keys
        invariant forall name :: name in processes.Keys - pending ==> !processes[name].hasProcess
        decreases |pending|
      {
        var name :| name in pending;
        var entry := processes[name];
        if entry.hasProcess {
          return Some(ThemeInfo(name, "", StatusRunning, entry.port, Some(entry.startedAt)));
        }
        pending := pending - {name};
      }
      info := None;
    }

    /** The names of the theme directories that hold a `server.js`. */
    ghost function InstalledNames(): set<string>
      reads this
    {
      set name | name in themes && themes[name].hasServerJs
    }

    /** The names among `done` whose directory holds a `server.js`. */
    ghost function ServerJsAmong(done: set<string>): set<string>
      reads this
    {
      set name | name in done && name in themes && themes[name].hasServerJs
    }

    /** What the listing loop keeps: exactly the `server.js` directories
      among the names seen so far, each once, with its status. */
    ghost predicate ListedSoFar(listed: seq<ThemeInfo>, done: set<string>)
      reads this
    {
      && Names(listed) == ServerJsAmong(done)
      && StatusesHold(listed)
      && NamesWithin(listed, done)
      && DistinctNames(listed)
    }

    /** Every entry of a listing is the status of its theme. */
    ghost predicate StatusesHold(listed: seq<ThemeInfo>)
      reads this
    {
      forall i :: 0 <= i < |listed| ==> listed[i] == GetStatus(listed[i].name)
    }

    lemma ListedStep(listed: seq<ThemeInfo>, done: set<string>, name: string)
      requires ListedSoFar(listed, done) && name in themes && name !in done
      ensures ListedSoFar(if themes[name].hasServerJs then listed + [GetStatus(name)] else listed, done + {name})
    {
      ServerJsAmongAdd(done, name);
      if themes[name].hasServerJs {
        var info := GetStatus(name);
        NamesAppend(listed, info);
        StatusesAppend(listed, info);
        NamesWithinAppend(listed, done, info);
        DistinctAppend(listed, done, info);
      } else {
        NamesWithinGrow(listed, done, name);
      }
    }

    lemma StatusesAppend(listed: seq<ThemeInfo>, info: ThemeInfo)
      requires StatusesHold(listed) && info == GetStatus(info.name)
      ensures StatusesHold(listed + [info])
    {
      var next := listed + [info];
      forall i | 0 <= i < |next|
        ensures next[i] == GetStatus(next[i].name)
      {
        if i < |listed| {
          assert next[i] == listed[i];
        }
      }
    }

    lemma ServerJsAmongAll()
      ensures ServerJsAmong(themes.Keys) == InstalledNames()
    {
    }

    lemma ServerJsAmongAdd(done: set<string>, name: string)
      requires name in themes
      ensures ServerJsAmong(done + {name}) ==
        ServerJsAmong(done) + (if themes[name].hasServerJs then {name} else {})
    {
    }

    /** `ListInstalled`: the status of every theme directory that holds a
      `server.js`, each once. */
    method ListInstalled(readDirFails: bool) returns (r: Result<seq<ThemeInfo>, ManagerError>)
      ensures readDirFails <==> r.Failure?
      ensures r.Failure? ==> r.error == ReadDirFailed
      ensures r.Success? ==> Names(r.value) == InstalledNames()
      ensures r.Success? ==> forall i :: 0 <= i < |r.value| ==> r.value[i] == GetStatus(r.value[i].name)
      ensures r.Success? ==> forall i, j :: 0 <= i < j < |r.value| ==> r.value[i].name != r.value[j].name
    {
      if readDirFails {
        return Failure(ReadDirFailed);
      }
      var listed: seq<ThemeInfo> := [];
      var pending := themes.Keys;
      ghost var done: set<string> := {};
      while pending != {}
        invariant done !! pending && done + pending == themes.Keys
        invariant ListedSoFar(listed, done)
        decreases |pending|
      {
        var name :| name in pending;
        var next := if themes[name].hasServerJs then listed + [GetStatus(name)] else listed;
        ListedStep(listed, done, name);
        listed := next;
        pending := pending - {name};
        done := done + {name};
      }
      assert done == themes.Keys;
      ServerJsAmongAll();
      r := Success(listed);
    }
  }

  /** The names a listing mentions. */
  ghost function Names(infos: seq<ThemeInfo>): set<string> {
    if infos == [] then {} else Names(infos[..|infos| - 1]) + {infos[|infos| - 1].name}
  }

  /** Every name a listing mentions is among `done`. */
  ghost predicate NamesWithin(listed: seq<ThemeInfo>, done: set<string>) {
    forall i :: 0 <= i < |listed| ==> listed[i].name in done
  }

  /** No name is listed twice. */
  ghost predicate DistinctNames(listed: seq<ThemeInfo>) {
    forall i, j :: 0 <= i < j < |listed| ==> listed[i].name != listed[j].name
  }

  lemma NamesWithinGrow(listed: seq<ThemeInfo>, done: set<string>, name: string)
    requires NamesWithin(listed, done)
    ensures NamesWithin(listed, done + {name})
  {
  }

  lemma NamesWithinAppend(listed: seq<ThemeInfo>, done: set<string>, info: ThemeInfo)
    requires NamesWithin(listed, done)
    ensures NamesWithin(listed + [info], done + {info.name})
  {
    var next := listed + [info];
    forall i | 0 <= i < |next|
      ensures next[i].name in done + {info.name}
    {
      if i < |listed| {
        assert next[i] == listed[i];
      }
    }
  }

  lemma DistinctAppend(listed: seq<ThemeInfo>, done: set<string>, info: ThemeInfo)
    requires DistinctNames(listed) && NamesWithin(listed, done) && info.name !in done
    ensures DistinctNames(listed + [info])
  {
    var next := listed + [info];
    forall i, j | 0 <= i < j < |next|
      ensures next[i].name != next[j].name
    {
      assert next[i] == listed[i];
      if j < |listed| {
        assert next[j] == listed[j];
      }
    }
  }

  lemma NamesAppend(infos: seq<ThemeInfo>, info: ThemeInfo)
    ensures Names(infos + [info]) == Names(infos) + {info.name}
  {
    assert (infos + [info])[..|infos|] == infos;
  }

  /** A stale exit notification removes a newer process: after Start, Stop
      and a second Start of the same name, the first process's exit handler
      deletes the entry of the second, live process; the intended handler
      keeps it. */
  lemma StaleExitDropsNewerProcess(processes: map<string, Entry>, name: string, port: int,
                                   first: nat, second: nat, t1: int, t2: int)
    requires first != second
    ensures var afterFirst := processes[name := Entry(port, true, t1, first)];
            var afterStop := afterFirst - {name};
            var afterSecond := afterStop[name := Entry(port, true, t2, second)];
            IsLive(afterSecond, name)
            && !IsLive(ReapByName(afterSecond, name), name)
            && ReapOwnEntry(afterSecond, name, first) == afterSecond
  {
  }

  // ---------------------------------------------------------------------
  // Health check
  // ---------------------------------------------------------------------

  /** What one round of `waitForReady` observes: whether the registry still
      holds the theme's process (the exit handler runs concurrently), whether
      the HTTP probe answered, and how long the probe took. */
  datatype Poll = Poll(live: bool, probeOk: bool, probeMs: nat)

  datatype Readiness = Ready | ProcessExited | TimedOut

  /** The time one unanswered round takes: the probe, cut off by the client
      timeout, and the pause before the next round. */
  function RoundMs(poll: Poll): (ms: nat)
    ensures ProbeIntervalMs <= ms <= ProbeTimeoutMs + ProbeIntervalMs
  {
    (if poll.probeMs < ProbeTimeoutMs then poll.probeMs else ProbeTimeoutMs) + ProbeIntervalMs
  }

  /** The time elapsed when round `round` starts. */
  function ElapsedBefore(observe: nat -> Poll, round: nat): (ms: nat)
    ensures ms >= 1000 * round
  {
    if round == 0 then 0 else ElapsedBefore(observe, round - 1) + RoundMs(observe(round - 1))
  }

  /** Round `i` went by without an answer, before the deadline and with the
      process still registered. */
  predicate Unanswered(observe: nat -> Poll, i: nat) {
    ElapsedBefore(observe, i) < ReadyTimeoutMs && observe(i).live && !observe(i).probeOk
  }

  /** `waitForReady`: polls until the probe answers, the process is gone or
      30 seconds have passed; it only reads the registry. `rounds` counts
      the rounds started. */
  method WaitForReady(observe: nat -> Poll) returns (outcome: Readiness, rounds: nat)
    ensures 1 <= rounds <= 31
    ensures forall i :: 0 <= i < rounds - 1 ==> Unanswered(observe, i)
    ensures outcome == TimedOut <==> ElapsedBefore(observe, rounds - 1) >= ReadyTimeoutMs
    ensures outcome == ProcessExited <==>
      ElapsedBefore(observe, rounds - 1) < ReadyTimeoutMs && !observe(rounds - 1).live
    ensures outcome == Ready <==>
      ElapsedBefore(observe, rounds - 1) < ReadyTimeoutMs && observe(rounds - 1).live && observe(rounds - 1).probeOk
  {
    var elapsed := 0;
    var round := 0;
    while true
      invariant round <= 30
      invariant elapsed == ElapsedBefore(observe, round)
      invariant forall i :: 0 <= i < round ==> Unanswered(observe, i)
      decreases 30 - round
    {
      if elapsed >= ReadyTimeoutMs {
        return TimedOut, round + 1;
      }
      var poll := observe(round);
      if !poll.live {
        return ProcessExited, round + 1;
      }
      if poll.probeOk {
        return Ready, round + 1;
      }
      assert Unanswered(observe, round);
      elapsed := elapsed + RoundMs(poll);
      round := round + 1;
    }
  }
}
