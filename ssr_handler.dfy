/** The SSR theme admin API: each handler sequences calls on the registry
    (files and processes) and on the theme service (records) for the fixed
    administrator user 1, and answers with a status and a payload. Request
    decoding is reduced to its outcome. */
module SsrHandler {
  import opened Wrappers
  import opened Registry
  import opened Catalog

  const AdminUser := 1
  const DefaultPort := 3000

  /** `InstallThemeRequest`; `themeName` and `downloadUrl` are required. */
  datatype InstallRequest = InstallRequest(themeName: string, downloadUrl: string, version: string, marketId: int)

  datatype Cause =
    | BadRequest
    | EmptyName
    | ManagerFailed(managerError: ManagerError)
    | ServiceFailed(serviceError: ServiceError)
    | RecordWriteFailed(recordError: ServiceError)

  /** A list entry: the registry's view plus the persisted flag. */
  datatype ThemeWithCurrent = ThemeWithCurrent(info: ThemeInfo, isCurrent: bool)

  datatype Payload =
    | NoData
    | PortData(port: int)
    | StatusData(status: ThemeInfo)
    | ListData(themes: seq<ThemeWithCurrent>)

  datatype Reply = Ok(data: Payload) | Fail(status: int, cause: Cause)

  const BadRequestStatus := 400
  const InternalErrorStatus := 500

  /** The flag a list entry shows: the map's value, false when absent. */
  function CurrentFlag(flags: map<string, bool>, name: string): (flag: bool)
    ensures flag ==> name in flags && flags[name]
    ensures name in flags && flags[name] ==> flag
  {
    name in flags && flags[name]
  }

  class SsrThemeHandler {
    const manager: Manager
    const themeService: ThemeService

    ghost predicate Valid()
      reads this, manager, themeService
    {
      manager.Valid() && themeService.Valid()
    }

    constructor(manager: Manager, themeService: ThemeService)
      ensures this.manager == manager && this.themeService == themeService
    {
      this.manager := manager;
      this.themeService := themeService;
    }

    /** `InstallTheme`: files first, then the record; a failed record write
      removes the files again. */
    method InstallTheme(request: Option<InstallRequest>, download: Download, fault: Fault, now: int, removeSucceeds: bool)
      returns (reply: Reply)
      requires Valid()
      modifies manager, themeService
      ensures Valid()
      ensures !(reply.Fail? && reply.cause.RecordWriteFailed?) ==> manager.processes == old(manager.processes)
      ensures request.None? || request.value.themeName == "" || request.value.downloadUrl == "" ==>
        reply == Fail(BadRequestStatus, BadRequest)
        && manager.themes == old(manager.themes) && themeService.records == old(themeService.records)
      ensures reply.Fail? && reply.cause.ManagerFailed? ==>
        reply.status == InternalErrorStatus && themeService.records == old(themeService.records)
        && manager.themes == old(manager.themes)
      ensures reply.Fail? && reply.cause.RecordWriteFailed? ==>
        reply.status == InternalErrorStatus && themeService.records == old(themeService.records)
        && request.Some? && manager.processes == old(manager.processes) - {request.value.themeName}
        && (removeSucceeds ==> manager.themes == old(manager.themes))
      ensures reply.Ok? ==>
        request.Some? && request.value.themeName in manager.themes
        && FindRecord(themeService.records, AdminUser, request.value.themeName).Some?
      ensures reply.Ok? ==>
        var req := request.value;
        download.Fetched? && download.extracted.Some? && req.themeName !in old(manager.themes)
        && manager.themes == old(manager.themes)[req.themeName := download.extracted.value]
      ensures reply.Ok? && FindRecord(old(themeService.records), AdminUser, request.value.themeName).Some? ==>
        var req := request.value;
        themeService.records == Refresh(old(themeService.records), AdminUser, req.themeName, req.version, now)
      ensures reply.Ok? && FindRecord(old(themeService.records), AdminUser, request.value.themeName).None? ==>
        var req := request.value;
        themeService.records == old(themeService.records) +
          [Record(old(themeService.nextId), AdminUser, req.themeName, Ssr, false,
                  if req.version != "" then Some(req.version) else None,
                  if req.marketId > 0 then Some(req.marketId) else None, now)]
    {
      if request.None? || request.value.themeName == "" || request.value.downloadUrl == "" {
        return Fail(BadRequestStatus, BadRequest);
      }
      var req := request.value;
      var installErr := manager.Install(req.themeName, download);
      if installErr.Some? {
        return Fail(InternalErrorStatus, ManagerFailed(installErr.value));
      }
      var recordErr := themeService.InstallSSRTheme(AdminUser, req.themeName, req.version, req.marketId, now, fault);
      if recordErr.Some? {
        var _ := manager.Uninstall(req.themeName, removeSucceeds);
        return Fail(InternalErrorStatus, RecordWriteFailed(recordErr.value));
      }
      reply := Ok(NoData);
    }

    /** `UninstallTheme`: the record first; the files only once the record is
      gone, and a file error still answers success. */
    method UninstallTheme(name: string, fault: Fault, removeSucceeds: bool) returns (reply: Reply)
      requires Valid()
      modifies manager, themeService
      ensures Valid()
      ensures name == "" ==> reply == Fail(BadRequestStatus, EmptyName)
      ensures reply.Fail? ==>
        manager.themes == old(manager.themes) && manager.processes == old(manager.processes)
        && themeService.records == old(themeService.records)
      ensures name != "" && fault != QueryFault && FindRecord(old(themeService.records), AdminUser, name).Some?
              && old(themeService.records)[FindRecord(old(themeService.records), AdminUser, name).value].isCurrent
              ==> reply == Fail(InternalErrorStatus, ServiceFailed(CurrentNotRemovable))
      ensures reply.Ok? ==>
        manager.processes == old(manager.processes) - {name}
        && (removeSucceeds ==> manager.themes == old(manager.themes) - {name})
        && (!removeSucceeds ==> manager.themes == old(manager.themes))
      ensures reply.Ok? ==>
        var found := FindRecord(old(themeService.records), AdminUser, name);
        themeService.records ==
          if found.None? then old(themeService.records)
          else DeleteId(old(themeService.records), old(themeService.records)[found.value].id)
      ensures name != "" && fault !in {QueryFault, DeleteFault} &&
              (FindRecord(old(themeService.records), AdminUser, name).None?
               || !old(themeService.records)[FindRecord(old(themeService.records), AdminUser, name).value].isCurrent)
              ==> reply == Ok(NoData)
    {
      if name == "" {
        return Fail(BadRequestStatus, EmptyName);
      }
      var recordErr := themeService.UninstallSSRTheme(AdminUser, name, fault);
      if recordErr.Some? {
        return Fail(InternalErrorStatus, ServiceFailed(recordErr.value));
      }
      var _ := manager.Uninstall(name, removeSucceeds);
      reply := Ok(NoData);
    }

    /** `StartTheme`: a missing or zero port becomes 3000 and is echoed back,
      while the switch it delegates to always starts the theme on 3000. */
    method StartTheme(name: string, requestedPort: int, fault: Fault, spawn: Spawn) returns (reply: Reply)
      requires Valid()
      modifies manager, themeService
      ensures Valid()
      ensures name == "" ==> reply == Fail(BadRequestStatus, EmptyName)
      ensures reply.Ok? ==> reply.data == PortData(if requestedPort == 0 then DefaultPort else requestedPort)
      ensures reply.Ok? ==> manager.IsRunning(name) && (forall other :: other in manager.processes ==> other == name)
      ensures reply.Ok? && !old(manager.IsRunning(name)) ==> manager.GetPort(name) == SwitchPort
      ensures reply.Ok? ==>
        FindRecord(old(themeService.records), AdminUser, name).Some?
        && themeService.records == Activate(old(themeService.records), AdminUser,
             old(themeService.records)[FindRecord(old(themeService.records), AdminUser, name).value].id)
      ensures reply.Fail? ==> themeService.records == old(themeService.records)
      ensures name != "" && fault == CommitFault && FindRecord(old(themeService.records), AdminUser, name).Some? ==>
        reply.Fail? && manager.processes == map[]
      ensures manager.themes == old(manager.themes)
      ensures reply.Ok? && old(manager.IsRunning(name)) ==> manager.processes[name] == old(manager.processes[name])
      ensures name == "" || fault == QueryFault || FindRecord(old(themeService.records), AdminUser, name).None? ==>
        manager.processes == old(manager.processes)
    {
      if name == "" {
        return Fail(BadRequestStatus, EmptyName);
      }
      var port := if requestedPort == 0 then DefaultPort else requestedPort;
      var err := themeService.SwitchToSSRTheme(AdminUser, name, manager, fault, spawn);
      if err.Some? {
        return Fail(InternalErrorStatus, ServiceFailed(err.value));
      }
      reply := Ok(PortData(port));
    }

    /** `StopTheme`. */
    method StopTheme(name: string) returns (reply: Reply)
      requires Valid()
      modifies manager
      ensures Valid()
      ensures manager.themes == old(manager.themes)
      ensures name == "" ==> reply == Fail(BadRequestStatus, EmptyName) && manager.processes == old(manager.processes)
      ensures name != "" && !old(manager.IsRunning(name)) ==>
        reply == Fail(InternalErrorStatus, ManagerFailed(NotRunning)) && manager.processes == old(manager.processes)
      ensures name != "" && old(manager.IsRunning(name)) ==>
        reply == Ok(NoData) && manager.processes == old(manager.processes) - {name}
    {
      if name == "" {
        return Fail(BadRequestStatus, EmptyName);
      }
      var err := manager.Stop(name);
      if err.Some? {
        return Fail(InternalErrorStatus, ManagerFailed(err.value));
      }
      reply := Ok(NoData);
    }

    /** `GetThemeStatus`. */
    method GetThemeStatus(name: string) returns (reply: Reply)
      ensures name == "" ==> reply == Fail(BadRequestStatus, EmptyName)
      ensures name != "" ==> reply == Ok(StatusData(manager.GetStatus(name)))
    {
      if name == "" {
        return Fail(BadRequestStatus, EmptyName);
      }
      reply := Ok(StatusData(manager.GetStatus(name)));
    }

    /** `ListInstalledThemes`: the registry's list, each entry with the
      persisted flag of its name; a failed flag lookup shows every entry as
      not current. */
    method ListInstalledThemes(readDirFails: bool, flagsQueryFails: bool) returns (reply: Reply)
      ensures readDirFails <==> reply.Fail?
      ensures reply.Fail? ==> reply == Fail(InternalErrorStatus, ManagerFailed(ReadDirFailed))
      ensures reply.Ok? ==> reply.data.ListData?
      ensures reply.Ok? ==> Names(InfosOf(reply.data.themes)) == manager.InstalledNames()
      ensures reply.Ok? ==> forall i :: 0 <= i < |reply.data.themes| ==>
        var entry := reply.data.themes[i];
        entry.info == manager.GetStatus(entry.info.name)
        && (entry.isCurrent <==>
              !flagsQueryFails && CurrentFlag(SsrCurrentMap(themeService.records, AdminUser), entry.info.name))
    {
      var listed := manager.ListInstalled(readDirFails);
      if listed.Failure? {
        return Fail(InternalErrorStatus, ManagerFailed(listed.error));
      }
      var themes := listed.value;
      var status := themeService.GetSSRThemeCurrentStatus(AdminUser, flagsQueryFails);
      var flags := if status.Success? then status.value else map[];
      var merged: seq<ThemeWithCurrent> := [];
      for i := 0 to |themes|
        invariant merged == Merged(themes[..i], flags)
      {
        assert themes[..i + 1] == themes[..i] + [themes[i]];
        merged := merged + [ThemeWithCurrent(themes[i], CurrentFlag(flags, themes[i].name))];
      }
      assert themes[..|themes|] == themes;
      reply := Ok(ListData(merged));
    }
  }

  /** Each registry entry with the flag of its name, in the registry's order. */
  function Merged(themes: seq<ThemeInfo>, flags: map<string, bool>): (entries: seq<ThemeWithCurrent>)
    ensures InfosOf(entries) == themes
    ensures forall i :: 0 <= i < |entries| ==> entries[i].isCurrent == CurrentFlag(flags, themes[i].name)
  {
    if themes == [] then []
    else
      var init := themes[..|themes| - 1];
      var last := themes[|themes| - 1];
      assert themes == init + [last];
      Merged(init, flags) + [ThemeWithCurrent(last, CurrentFlag(flags, last.name))]
  }

  /** The registry entries of a merged list. */
  function InfosOf(entries: seq<ThemeWithCurrent>): (infos: seq<ThemeInfo>)
    ensures |infos| == |entries|
    ensures forall i :: 0 <= i < |entries| ==> infos[i] == entries[i].info
  {
    seq(|entries|, i requires 0 <= i < |entries| => entries[i].info)
  }
}
