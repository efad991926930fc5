/** The persisted theme catalog (the `user_installed_theme` table) and the
    theme service's operations that change it: installing and uninstalling
    records, and the activation flows that keep the `is_current` flags and
    the SSR registry in step. The database is an in-memory sequence of
    records in id order; a transaction is a working copy that is either
    assigned back (commit) or dropped (rollback). Which database step fails,
    if any, is a parameter. */
module Catalog {
  import opened Wrappers
  import opened Registry
  import opened Text

  const OfficialThemeName := "theme-anheyu"

  /** The names that denote the built-in official theme. */
  const OfficialNames: seq<string> := [OfficialThemeName, "安和鱼官方主题", "安知鱼官方主题", "官方主题"]

  /** The port the activation flow starts an SSR theme on. */
  const SwitchPort := 3000

  datatype DeployType = Standard | Ssr

  datatype Record = Record(
    id: nat,
    user: nat,
    name: string,
    deployType: DeployType,
    isCurrent: bool,
    version: Option<string>,
    marketId: Option<int>,
    installTime: int)

  /** The one database call that fails in a run, if any. */
  datatype Fault =
    | NoFault
    | QueryFault    // a lookup (`First`, `All`)
    | ExistFault    // an existence check (`Exist`)
    | BeginFault    // opening a transaction
    | ClearFault    // clearing `is_current` inside a transaction
    | SetFault      // setting `is_current` on the target inside a transaction
    | CommitFault
    | UpdateFault   // an update outside a transaction
    | DeleteFault
    | CreateFault

  datatype ServiceError =
    | QueryFailed
    | SsrThemeNotInstalled(theme: string)
    | ThemeNotInstalled(theme: string)
    | BeginFailed
    | ClearFailed
    | SetCurrentFailed
    | SsrStartFailed(cause: ManagerError)
    | CommitFailed
    | UpdateFailed
    | OfficialNotRemovable
    | CurrentNotRemovable
    | DeleteFailed
    | CreateFailed
    | ThemeFilesIncomplete
    | BackupFailed
    | CopyFailed

  /** `isOfficialTheme`: the official theme's directory name or one of its
      display names, of which only the directory name looks like a theme
      directory. */
  function IsOfficialTheme(name: string): (b: bool)
    ensures b ==> name != "" && (HasPrefix(name, "theme-") <==> name == OfficialThemeName)
  {
    assert forall k :: 1 <= k < |OfficialNames| ==> OfficialNames[k][0] != 't';
    assert HasPrefix(OfficialThemeName, "theme-");
    name in OfficialNames
  }

  // ---------------------------------------------------------------------
  // Record-set operations
  // ---------------------------------------------------------------------

  predicate OwnedBy(r: Record, user: nat, name: string) {
    r.user == user && r.name == name
  }

  /** Records are kept in ascending id order, as the table hands them out. */
  ghost predicate IdsAscending(rs: seq<Record>) {
    forall i, j :: 0 <= i < j < |rs| ==> rs[i].id < rs[j].id
  }

  /** A `First` query for the user's record of that name, from position `from`. */
  function FindFrom(rs: seq<Record>, user: nat, name: string, from: nat): (r: Option<nat>)
    requires from <= |rs|
    ensures r.Some? ==> from <= r.value < |rs| && OwnedBy(rs[r.value], user, name)
    ensures r.Some? ==> forall k :: from <= k < r.value ==> !OwnedBy(rs[k], user, name)
    ensures r.None? ==> forall k :: from <= k < |rs| ==> !OwnedBy(rs[k], user, name)
    decreases |rs| - from
  {
    if from == |rs| then None
    else if OwnedBy(rs[from], user, name) then Some(from)
    else FindFrom(rs, user, name, from + 1)
  }

  /** The position of the first record of the user with that name. */
  function FindRecord(rs: seq<Record>, user: nat, name: string): (r: Option<nat>)
    ensures r.Some? ==> r.value < |rs| && OwnedBy(rs[r.value], user, name)
    ensures r.Some? ==> forall k :: 0 <= k < r.value ==> !OwnedBy(rs[k], user, name)
    ensures r.None? <==> forall k :: 0 <= k < |rs| ==> !OwnedBy(rs[k], user, name)
  {
    FindFrom(rs, user, name, 0)
  }

  /** `UPDATE … SET is_current = false WHERE user_id = user`. */
  function ClearUser(rs: seq<Record>, user: nat): (r: seq<Record>)
    ensures |r| == |rs|
    ensures forall k :: 0 <= k < |r| && r[k].user == user ==> !r[k].isCurrent
    ensures forall k :: 0 <= k < |r| && rs[k].user != user ==> r[k] == rs[k]
    ensures forall k :: 0 <= k < |r| ==> r[k] == rs[k].(isCurrent := r[k].isCurrent)
  {
    seq(|rs|, k requires 0 <= k < |rs| => if rs[k].user == user then rs[k].(isCurrent := false) else rs[k])
  }

  /** `UpdateOneID(id).SetIsCurrent(flag)`. */
  function SetFlag(rs: seq<Record>, id: nat, flag: bool): (r: seq<Record>)
    ensures |r| == |rs|
    ensures forall k :: 0 <= k < |r| && rs[k].id == id ==> r[k].isCurrent == flag
    ensures forall k :: 0 <= k < |r| && rs[k].id != id ==> r[k] == rs[k]
    ensures forall k :: 0 <= k < |r| ==> r[k] == rs[k].(isCurrent := r[k].isCurrent)
  {
    seq(|rs|, k requires 0 <= k < |rs| => if rs[k].id == id then rs[k].(isCurrent := flag) else rs[k])
  }

  /** `DeleteOneID(id)`. */
  function DeleteId(rs: seq<Record>, id: nat): (r: seq<Record>)
    ensures forall x :: x in r <==> x in rs && x.id != id
    ensures |r| <= |rs|
  {
    if rs == [] then []
    else (if rs[0].id == id then [] else [rs[0]]) + DeleteId(rs[1..], id)
  }

  lemma {:induction false} DeleteKeepsOrder(rs: seq<Record>, id: nat)
    requires IdsAscending(rs)
    ensures IdsAscending(DeleteId(rs, id))
  {
    if rs != [] {
      DeleteKeepsOrder(rs[1..], id);
      var rest := DeleteId(rs[1..], id);
      forall x | x in rest
        ensures rs[0].id < x.id
      {
        var k :| 0 <= k < |rs[1..]| && rs[1..][k] == x;
        assert rs[k + 1] == x;
      }
    }
  }

  /** Ascending ids, all below `next`: what every table state keeps. */
  ghost predicate Numbered(rs: seq<Record>, next: nat) {
    IdsAscending(rs) && forall k :: 0 <= k < |rs| ==> rs[k].id < next
  }

  /** An update that leaves every id in place keeps the numbering. */
  lemma SameIdsKeepNumbered(rs: seq<Record>, r: seq<Record>, next: nat)
    requires Numbered(rs, next) && |r| == |rs|
    requires forall k :: 0 <= k < |r| ==> r[k].id == rs[k].id
    ensures Numbered(r, next)
  {
  }

  lemma ActivateKeepsNumbered(rs: seq<Record>, user: nat, id: nat, next: nat)
    requires Numbered(rs, next)
    ensures Numbered(Activate(rs, user, id), next)
  {
    SameIdsKeepNumbered(rs, Activate(rs, user, id), next);
  }

  /** Deleting by id keeps the numbering. */
  lemma DeleteKeepsNumbered(rs: seq<Record>, id: nat, next: nat)
    requires Numbered(rs, next)
    ensures Numbered(DeleteId(rs, id), next)
  {
    DeleteKeepsOrder(rs, id);
    var r := DeleteId(rs, id);
    forall k | 0 <= k < |r| ensures r[k].id < next {
      assert r[k] in rs;
    }
  }

  /** The update of an existing SSR install: the user's records of that
      name get the new version and install time. */
  function Refresh(rs: seq<Record>, user: nat, name: string, version: string, now: int): (r: seq<Record>)
    ensures |r| == |rs|
    ensures forall k :: 0 <= k < |r| && OwnedBy(rs[k], user, name) ==>
      r[k] == rs[k].(version := Some(version), installTime := now)
    ensures forall k :: 0 <= k < |r| && !OwnedBy(rs[k], user, name) ==> r[k] == rs[k]
  {
    seq(|rs|, k requires 0 <= k < |rs| =>
      if OwnedBy(rs[k], user, name) then rs[k].(version := Some(version), installTime := now) else rs[k])
  }

  /** The records with the given id all become current and every other
      record of the user stops being current: activation inside the
      transaction. */
  function Activate(rs: seq<Record>, user: nat, id: nat): (r: seq<Record>)
    ensures |r| == |rs|
    ensures forall k :: 0 <= k < |r| ==> r[k] == rs[k].(isCurrent := r[k].isCurrent)
    ensures forall k :: 0 <= k < |r| ==>
      (r[k].isCurrent <==> rs[k].id == id || (rs[k].user != user && rs[k].isCurrent))
  {
    SetFlag(ClearUser(rs, user), id, true)
  }

  /** After an activation of one of the user's records, that record is the
      user's only current record; other users' records and every field
      other than the flag are untouched. */
  lemma ActivateMakesSoleCurrent(rs: seq<Record>, user: nat, target: nat)
    requires IdsAscending(rs)
    requires target < |rs| && rs[target].user == user
    ensures var r := Activate(rs, user, rs[target].id);
      |r| == |rs|
      && (forall k :: 0 <= k < |r| && r[k].user == user ==> (r[k].isCurrent <==> k == target))
      && (forall k :: 0 <= k < |r| && rs[k].user != user ==> r[k] == rs[k])
      && (forall k :: 0 <= k < |r| ==> r[k] == rs[k].(isCurrent := r[k].isCurrent))
  {
    var id := rs[target].id;
    var cleared := ClearUser(rs, user);
    forall k | 0 <= k < |rs| && k != target
      ensures rs[k].id != id
    {
      if k < target { assert rs[k].id < rs[target].id; } else { assert rs[target].id < rs[k].id; }
    }
  }

  // ---------------------------------------------------------------------
  // Demoting extra current records (`FixThemeCurrentStatus`)
  // ---------------------------------------------------------------------

  predicate CurrentOf(r: Record, user: nat) {
    r.user == user && r.isCurrent
  }

  /** The ids of the user's current records, in table order: the
      `All` query of the repair. */
  function CurrentIds(rs: seq<Record>, user: nat): (ids: seq<nat>)
    ensures forall id :: id in ids <==> exists k :: 0 <= k < |rs| && CurrentOf(rs[k], user) && rs[k].id == id
  {
    if rs == [] then []
    else
      var rest := CurrentIds(rs[1..], user);
      assert forall k :: 1 <= k < |rs| ==> rs[1..][k - 1] == rs[k];
      if CurrentOf(rs[0], user) then [rs[0].id] + rest else rest
  }

  /** The position of the user's first current record. */
  function FirstCurrent(rs: seq<Record>, user: nat): (r: Option<nat>)
    ensures r.Some? ==> r.value < |rs| && CurrentOf(rs[r.value], user)
    ensures r.Some? ==> forall k :: 0 <= k < r.value ==> !CurrentOf(rs[k], user)
    ensures r.None? ==> forall k :: 0 <= k < |rs| ==> !CurrentOf(rs[k], user)
  {
    if rs == [] then None
    else if CurrentOf(rs[0], user) then Some(0)
    else match FirstCurrent(rs[1..], user)
      case None => None
      case Some(i) => Some(i + 1)
  }

  /** A current record of the user is listed after the first position of
      `CurrentIds` exactly when it is not the first current record. */
  lemma {:induction false} CurrentIdsAfterFirst(rs: seq<Record>, user: nat, k: nat)
    requires IdsAscending(rs)
    requires k < |rs| && CurrentOf(rs[k], user)
    ensures CurrentIds(rs, user) != []
    ensures rs[k].id in CurrentIds(rs, user)[1..] <==> FirstCurrent(rs, user) != Some(k)
  {
    var ids := CurrentIds(rs, user);
    var tail := rs[1..];
    assert forall j :: 1 <= j < |rs| ==> tail[j - 1] == rs[j];
    if CurrentOf(rs[0], user) {
      assert ids[1..] == CurrentIds(tail, user);
      if k == 0 {
        forall j | 0 <= j < |tail|
          ensures tail[j].id != rs[0].id
        {
          assert rs[0].id < rs[j + 1].id;
        }
      } else {
        assert CurrentOf(tail[k - 1], user) && tail[k - 1].id == rs[k].id;
      }
    } else {
      assert k != 0;
      assert IdsAscending(tail);
      CurrentIdsAfterFirst(tail, user, k - 1);
      assert ids == CurrentIds(tail, user);
    }
  }

  /** The repair's effect on the table when the updates of the ids in
      `failing` fail: every current record of the user listed after the
      first loses its flag, unless its update fails. */
  function DemoteExtra(rs: seq<Record>, currents: seq<nat>, failing: set<nat>): (r: seq<Record>)
    ensures |r| == |rs|
    ensures forall k :: 0 <= k < |r| ==> r[k] == rs[k].(isCurrent := r[k].isCurrent)
    ensures forall k :: 0 <= k < |r| && r[k].isCurrent != rs[k].isCurrent ==> rs[k].id in currents && rs[k].isCurrent
  {
    seq(|rs|, k requires 0 <= k < |rs| =>
      if currents != [] && rs[k].id in currents[1..] && rs[k].id !in failing then rs[k].(isCurrent := false) else rs[k])
  }

  /** With every update succeeding, the repair leaves the user exactly one
      current record, the first one, when there was any. */
  lemma DemoteKeepsFirst(rs: seq<Record>, user: nat)
    requires IdsAscending(rs)
    ensures var r := DemoteExtra(rs, CurrentIds(rs, user), {});
      forall k :: 0 <= k < |r| && r[k].user == user ==> (r[k].isCurrent <==> FirstCurrent(rs, user) == Some(k))
  {
    var ids := CurrentIds(rs, user);
    var r := DemoteExtra(rs, ids, {});
    forall k | 0 <= k < |r| && r[k].user == user
      ensures r[k].isCurrent <==> FirstCurrent(rs, user) == Some(k)
    {
      if rs[k].isCurrent {
        CurrentIdsAfterFirst(rs, user, k);
      }
    }
  }

  // ---------------------------------------------------------------------
  // Read-only queries
  // ---------------------------------------------------------------------

  predicate SsrOf(r: Record, user: nat) {
    r.user == user && r.deployType == Ssr
  }

  /** `GetCurrentSSRThemeName`'s query: the first current SSR record of the
      user. */
  function CurrentSsr(rs: seq<Record>, user: nat): (r: Option<nat>)
    ensures r.Some? ==> r.value < |rs| && SsrOf(rs[r.value], user) && rs[r.value].isCurrent
    ensures r.Some? ==> forall k :: 0 <= k < r.value ==> !(SsrOf(rs[k], user) && rs[k].isCurrent)
    ensures r.None? <==> forall k :: 0 <= k < |rs| ==> !(SsrOf(rs[k], user) && rs[k].isCurrent)
  {
    if rs == [] then None
    else if SsrOf(rs[0], user) && rs[0].isCurrent then Some(0)
    else match CurrentSsr(rs[1..], user)
      case None =>
        assert forall k :: 1 <= k < |rs| ==> rs[1..][k - 1] == rs[k];
        None
      case Some(i) => Some(i + 1)
  }

  /** `GetSSRThemeCurrentStatus`'s map: each SSR theme name of the user to
      the flag of its last record in table order. */
  function SsrCurrentMap(rs: seq<Record>, user: nat): (m: map<string, bool>)
    ensures forall name :: name in m <==> exists k :: 0 <= k < |rs| && SsrOf(rs[k], user) && rs[k].name == name
  {
    if rs == [] then map[]
    else
      var init := rs[..|rs| - 1];
      var last := rs[|rs| - 1];
      var m := SsrCurrentMap(init, user);
      assert forall k :: 0 <= k < |init| ==> init[k] == rs[k];
      if SsrOf(last, user) then m[last.name := last.isCurrent] else m
  }

  /** Each name maps to the flag of the last of the user's SSR records of
      that name: `k` is that record's position. */
  lemma {:induction false} SsrCurrentMapLastWins(rs: seq<Record>, user: nat, name: string) returns (k: nat)
    requires name in SsrCurrentMap(rs, user)
    ensures k < |rs| && SsrOf(rs[k], user) && rs[k].name == name
    ensures rs[k].isCurrent == SsrCurrentMap(rs, user)[name]
    ensures forall j :: k < j < |rs| ==> !(SsrOf(rs[j], user) && rs[j].name == name)
  {
    var init := rs[..|rs| - 1];
    var last := rs[|rs| - 1];
    assert SsrCurrentMap(rs, user) == (var m := SsrCurrentMap(init, user); if SsrOf(last, user) then m[last.name := last.isCurrent] else m);
    if SsrOf(last, user) && last.name == name {
      k := |rs| - 1;
    } else {
      k := SsrCurrentMapLastWins(init, user, name);
      assert rs[k] == init[k];
      assert forall j :: k < j < |init| ==> rs[j] == init[j];
    }
  }

  // ---------------------------------------------------------------------
  // Stopping the running SSR themes
  // ---------------------------------------------------------------------

  /** The stop loops of the activation flows: `Stop` on every listed name
      except `keep`, ignoring each error. */
  method StopListed(mgr: Manager, names: seq<string>, keep: Option<string>)
    requires mgr.Valid()
    modifies mgr
    ensures mgr.Valid()
    ensures mgr.themes == old(mgr.themes)
    ensures forall n :: n in mgr.processes <==> n in old(mgr.processes) && (n !in names || keep == Some(n))
    ensures forall n :: n in mgr.processes ==> mgr.processes[n] == old(mgr.processes)[n]
  {
    var i := 0;
    while i < |names|
      invariant 0 <= i <= |names|
      invariant mgr.Valid()
      invariant mgr.themes == old(mgr.themes)
      invariant forall n :: n in mgr.processes <==> n in old(mgr.processes) && (n !in names[..i] || keep == Some(n))
      invariant forall n :: n in mgr.processes ==> mgr.processes[n] == old(mgr.processes)[n]
    {
      if keep != Some(names[i]) {
        var _ := mgr.Stop(names[i]);
      }
      assert names[..i + 1] == names[..i] + [names[i]];
      i := i + 1;
    }
    assert names[..i] == names;
  }

  // ---------------------------------------------------------------------
  // The service
  // ---------------------------------------------------------------------

  class ThemeService {
    /** The table, in id order. */
    var records: seq<Record>
    /** The id the next created record receives. */
    var nextId: nat

    ghost predicate Valid()
      reads this
    {
      Numbered(records, nextId)
    }

    constructor()
      ensures Valid() && records == [] && nextId == 0
    {
      records := [];
      nextId := 0;
    }

    /** `SwitchToSSRTheme`: looks the theme up, stops every other running
      theme, clears the user's flags and sets the target's inside a
      transaction, starts the target on port 3000 unless it runs, and
      commits; a failed commit stops the target. */
    method SwitchToSSRTheme(user: nat, name: string, mgr: Manager?, fault: Fault, spawn: Spawn)
      returns (err: Option<ServiceError>)
      requires Valid()
      requires mgr != null ==> mgr.Valid()
      modifies this, mgr
      ensures Valid()
      ensures mgr != null ==> mgr.Valid() && mgr.themes == old(mgr.themes)
      ensures nextId == old(nextId)
      ensures fault == QueryFault ==> err == Some(QueryFailed)
      ensures fault != QueryFault && FindRecord(old(records), user, name).None? ==> err == Some(SsrThemeNotInstalled(name))
      ensures FindRecord(old(records), user, name).None? || fault == QueryFault ==>
        mgr != null ==> mgr.processes == old(mgr.processes)
      ensures err.Some? ==> records == old(records)
      ensures err.None? ==> FindRecord(old(records), user, name).Some?
      ensures err.None? ==>
        records == Activate(old(records), user, old(records)[FindRecord(old(records), user, name).value].id)
      ensures fault != QueryFault && FindRecord(old(records), user, name).Some? && mgr != null ==>
        forall n :: n in mgr.processes ==> n == name
      ensures fault == CommitFault && FindRecord(old(records), user, name).Some? && mgr != null ==>
        err.Some? && mgr.processes == map[]
      ensures err.None? && mgr != null ==> mgr.IsRunning(name)
      ensures err.None? && mgr != null && !old(mgr.IsRunning(name)) ==> mgr.GetPort(name) == SwitchPort
      ensures err.None? && mgr != null && old(mgr.IsRunning(name)) ==> mgr.processes[name] == old(mgr.processes[name])
      ensures err.None? <==>
        fault !in {QueryFault, BeginFault, ClearFault, SetFault, CommitFault}
        && FindRecord(old(records), user, name).Some?
        && (mgr == null || old(mgr.IsRunning(name)) || (name in mgr.themes && mgr.themes[name].hasServerJs && spawn.Spawned?))
    {
      if fault == QueryFault {
        return Some(QueryFailed);
      }
      var found := FindRecord(records, user, name);
      if found.None? {
        return Some(SsrThemeNotInstalled(name));
      }
      var target := records[found.value];

      if mgr != null {
        var running := mgr.ListRunning();
        StopListed(mgr, running, Some(name));
      }

      if fault == BeginFault {
        return Some(BeginFailed);
      }
      if fault == ClearFault {
        return Some(ClearFailed);
      }
      var work := ClearUser(records, user);
      if fault == SetFault {
        return Some(SetCurrentFailed);
      }
      work := SetFlag(work, target.id, true);
      assert work == Activate(records, user, target.id);

      if mgr != null && !mgr.IsRunning(name) {
        var startErr := mgr.Start(name, SwitchPort, spawn);
        if startErr.Some? {
          return Some(SsrStartFailed(startErr.value));
        }
      }

      if fault == CommitFault {
        if mgr != null {
          var _ := mgr.Stop(name);
        }
        return Some(CommitFailed);
      }
      ActivateKeepsNumbered(records, user, target.id, nextId);
      records := work;
      err := None;
    }

    /** `SwitchToOfficial`: clears the user's flags first; only then stops
      every running theme, ignoring stop errors. */
    method SwitchToOfficial(user: nat, mgr: Manager?, fault: Fault) returns (err: Option<ServiceError>)
      requires Valid()
      requires mgr != null ==> mgr.Valid()
      modifies this, mgr
      ensures Valid()
      ensures mgr != null ==> mgr.Valid() && mgr.themes == old(mgr.themes)
      ensures nextId == old(nextId)
      ensures fault == UpdateFault ==> err == Some(UpdateFailed) && records == old(records)
      ensures fault == UpdateFault && mgr != null ==> mgr.processes == old(mgr.processes)
      ensures fault != UpdateFault ==> err.None? && records == ClearUser(old(records), user)
      ensures fault != UpdateFault && mgr != null ==> mgr.processes == map[]
    {
      if fault == UpdateFault {
        return Some(UpdateFailed);
      }
      records := ClearUser(records, user);
      if mgr != null {
        var running := mgr.ListRunning();
        StopListed(mgr, running, None);
      }
      err := None;
    }

    /** `SwitchToTheme`, the flag part: an official name goes to
      `SwitchToOfficial`; otherwise the theme's files are checked and copied
      into the static directory (outcomes given as parameters) and the
      flags are switched in a transaction. SSR processes are not stopped. */
    method SwitchToTheme(user: nat, name: string, mgr: Manager?, fault: Fault,
                         filesComplete: bool, staticMode: bool, backupOk: bool, copyOk: bool)
      returns (err: Option<ServiceError>)
      requires Valid()
      requires mgr != null ==> mgr.Valid()
      modifies this, mgr
      ensures Valid()
      ensures mgr != null ==> mgr.Valid() && mgr.themes == old(mgr.themes)
      ensures nextId == old(nextId)
      ensures IsOfficialTheme(name) ==>
        (fault == UpdateFault ==> err == Some(UpdateFailed) && records == old(records))
        && (fault != UpdateFault ==> err.None? && records == ClearUser(old(records), user))
      ensures !IsOfficialTheme(name) && mgr != null ==> mgr.processes == old(mgr.processes)
      ensures !IsOfficialTheme(name) && err.Some? ==> records == old(records)
      ensures !IsOfficialTheme(name) && err.None? ==>
        FindRecord(old(records), user, name).Some?
        && records == Activate(old(records), user, old(records)[FindRecord(old(records), user, name).value].id)
      ensures !IsOfficialTheme(name) ==>
        (err.None? <==>
          fault !in {QueryFault, BeginFault, ClearFault, SetFault, CommitFault}
          && FindRecord(old(records), user, name).Some?
          && filesComplete && (!staticMode || backupOk) && copyOk)
    {
      if IsOfficialTheme(name) {
        err := SwitchToOfficial(user, mgr, fault);
        return;
      }
      if fault == QueryFault {
        return Some(QueryFailed);
      }
      var found := FindRecord(records, user, name);
      if found.None? {
        return Some(ThemeNotInstalled(name));
      }
      if !filesComplete {
        return Some(ThemeFilesIncomplete);
      }
      if staticMode && !backupOk {
        return Some(BackupFailed);
      }
      if !copyOk {
        return Some(CopyFailed);
      }
      if fault == BeginFault {
        return Some(BeginFailed);
      }
      if fault == ClearFault {
        return Some(ClearFailed);
      }
      var work := ClearUser(records, user);
      if fault == SetFault {
        return Some(SetCurrentFailed);
      }
      work := SetFlag(work, records[found.value].id, true);
      if fault == CommitFault {
        return Some(CommitFailed);
      }
      ActivateKeepsNumbered(records, user, records[found.value].id, nextId);
      records := work;
      err := None;
    }

    /** `FixThemeCurrentStatus`: without static mode and without a current
      SSR record, clears every flag of the user; in static mode, demotes
      every current record after the first, one update at a time, logging
      (and skipping) each update that fails. */
    method FixThemeCurrentStatus(user: nat, staticMode: bool, fault: Fault, failing: set<nat>)
      returns (err: Option<ServiceError>)
      requires Valid()
      modifies this
      ensures Valid()
      ensures nextId == old(nextId)
      ensures !staticMode && (fault == ExistFault || CurrentSsr(old(records), user).None?) ==>
        if fault == UpdateFault then err == Some(UpdateFailed) && records == old(records)
        else err.None? && records == ClearUser(old(records), user)
      ensures staticMode ==>
        if fault == QueryFault then err == Some(QueryFailed) && records == old(records)
        else err.None? && records == DemoteExtra(old(records), CurrentIds(old(records), user), failing)
      ensures !staticMode && fault != ExistFault && CurrentSsr(old(records), user).Some? ==>
        err.None? && records == old(records)
    {
      var hasCurrentSsr := fault != ExistFault && CurrentSsr(records, user).Some?;
      if !staticMode && !hasCurrentSsr {
        if fault == UpdateFault {
          return Some(UpdateFailed);
        }
        records := ClearUser(records, user);
      } else if staticMode {
        if fault == QueryFault {
          return Some(QueryFailed);
        }
        var currents := CurrentIds(records, user);
        ghost var before := records;
        var i := 1;
        while i < |currents|
          invariant 1 <= i
          invariant i <= |currents| || currents == []
          invariant Valid() && nextId == old(nextId)
          invariant |records| == |before|
          invariant forall k :: 0 <= k < |records| ==>
            records[k] == (if currents != [] && before[k].id in currents[1..i] && before[k].id !in failing
                           then before[k].(isCurrent := false) else before[k])
        {
          if currents[i] !in failing {
            records := SetFlag(records, currents[i], false);
          }
          assert currents[1..i + 1] == currents[1..i] + [currents[i]];
          i := i + 1;
        }
        if currents != [] {
          assert currents[1..i] == currents[1..];
        }
      }
      err := None;
    }

    /** `UninstallTheme`: refuses the official theme, an unknown theme and
      the theme actually in use (in static mode, the current one; without
      static mode no record is in use, and a stale flag is cleared first,
      best effort); then deletes the record. Removing the theme's files is
      left out. */
    method UninstallTheme(user: nat, name: string, staticMode: bool, fault: Fault)
      returns (err: Option<ServiceError>)
      requires Valid()
      modifies this
      ensures Valid()
      ensures nextId == old(nextId)
      ensures IsOfficialTheme(name) ==> err == Some(OfficialNotRemovable) && records == old(records)
      ensures !IsOfficialTheme(name) && fault == QueryFault ==> err == Some(QueryFailed) && records == old(records)
      ensures !IsOfficialTheme(name) && fault != QueryFault && FindRecord(old(records), user, name).None? ==>
        err == Some(ThemeNotInstalled(name)) && records == old(records)
      ensures !IsOfficialTheme(name) && fault != QueryFault && FindRecord(old(records), user, name).Some? ==>
        var rec := old(records)[FindRecord(old(records), user, name).value];
        var corrected := if !staticMode && rec.isCurrent && fault != UpdateFault
                         then SetFlag(old(records), rec.id, false) else old(records);
        (staticMode && rec.isCurrent ==> err == Some(CurrentNotRemovable) && records == old(records))
        && (!(staticMode && rec.isCurrent) && fault == DeleteFault ==> err == Some(DeleteFailed) && records == corrected)
        && (!(staticMode && rec.isCurrent) && fault != DeleteFault ==> err.None? && records == DeleteId(corrected, rec.id))
    {
      if IsOfficialTheme(name) {
        return Some(OfficialNotRemovable);
      }
      if fault == QueryFault {
        return Some(QueryFailed);
      }
      var found := FindRecord(records, user, name);
      if found.None? {
        return Some(ThemeNotInstalled(name));
      }
      var rec := records[found.value];
      var reallyCurrent := false;
      if staticMode {
        reallyCurrent := rec.isCurrent;
      } else if rec.isCurrent && fault != UpdateFault {
        SameIdsKeepNumbered(records, SetFlag(records, rec.id, false), nextId);
        records := SetFlag(records, rec.id, false);
      }
      if reallyCurrent {
        return Some(CurrentNotRemovable);
      }
      if fault == DeleteFault {
        return Some(DeleteFailed);
      }
      DeleteKeepsNumbered(records, rec.id, nextId);
      records := DeleteId(records, rec.id);
      err := None;
    }

    /** `InstallSSRTheme`: refreshes the version and install time of an
      existing record of that name, otherwise creates a non-current SSR
      record. */
    method InstallSSRTheme(user: nat, name: string, version: string, marketId: int, now: int, fault: Fault)
      returns (err: Option<ServiceError>)
      requires Valid()
      modifies this
      ensures Valid()
      ensures fault == ExistFault ==> err == Some(QueryFailed) && records == old(records)
      ensures fault != ExistFault && FindRecord(old(records), user, name).Some? ==>
        nextId == old(nextId)
        && (fault == UpdateFault ==> err == Some(UpdateFailed) && records == old(records))
        && (fault != UpdateFault ==> err.None? && records == Refresh(old(records), user, name, version, now))
      ensures fault != ExistFault && FindRecord(old(records), user, name).None? ==>
        (fault == CreateFault ==> err == Some(CreateFailed) && records == old(records))
        && (fault != CreateFault ==>
              err.None?
              && records == old(records) + [Record(old(nextId), user, name, Ssr, false,
                                                   if version != "" then Some(version) else None,
                                                   if marketId > 0 then Some(marketId) else None, now)])
      ensures err.None? ==> FindRecord(records, user, name).Some?
    {
      if fault == ExistFault {
        return Some(QueryFailed);
      }
      var found := FindRecord(records, user, name);
      if found.Some? {
        if fault == UpdateFault {
          return Some(UpdateFailed);
        }
        records := Refresh(records, user, name, version, now);
        return None;
      }
      if fault == CreateFault {
        return Some(CreateFailed);
      }
      var rec := Record(nextId, user, name, Ssr, false,
                        if version != "" then Some(version) else None,
                        if marketId > 0 then Some(marketId) else None, now);
      records := records + [rec];
      nextId := nextId + 1;
      assert OwnedBy(records[|records| - 1], user, name);
      err := None;
    }

    /** `UninstallSSRTheme`: a theme without a record is a successful no-op;
      the current theme is refused; otherwise its record is deleted. */
    method UninstallSSRTheme(user: nat, name: string, fault: Fault) returns (err: Option<ServiceError>)
      requires Valid()
      modifies this
      ensures Valid()
      ensures nextId == old(nextId)
      ensures fault == QueryFault ==> err == Some(QueryFailed) && records == old(records)
      ensures fault != QueryFault && FindRecord(old(records), user, name).None? ==> err.None? && records == old(records)
      ensures fault != QueryFault && FindRecord(old(records), user, name).Some? ==>
        var rec := old(records)[FindRecord(old(records), user, name).value];
        (rec.isCurrent ==> err == Some(CurrentNotRemovable) && records == old(records))
        && (!rec.isCurrent && fault == DeleteFault ==> err == Some(DeleteFailed) && records == old(records))
        && (!rec.isCurrent && fault != DeleteFault ==> err.None? && records == DeleteId(old(records), rec.id))
      ensures err.None? && FindRecord(old(records), user, name).Some? ==>
        old(records)[FindRecord(old(records), user, name).value] !in records
    {
      if fault == QueryFault {
        return Some(QueryFailed);
      }
      var found := FindRecord(records, user, name);
      if found.None? {
        return None;
      }
      var rec := records[found.value];
      if rec.isCurrent {
        return Some(CurrentNotRemovable);
      }
      if fault == DeleteFault {
        return Some(DeleteFailed);
      }
      DeleteKeepsOrder(records, rec.id);
      records := DeleteId(records, rec.id);
      err := None;
    }

    /** `GetCurrentSSRThemeName`: the name of the user's first current SSR
      record; a failed query reads as "none". */
    method GetCurrentSSRThemeName(user: nat, queryFails: bool) returns (name: string, found: bool)
      ensures found <==> !queryFails && exists k :: 0 <= k < |records| && SsrOf(records[k], user) && records[k].isCurrent
      ensures found ==> exists k :: 0 <= k < |records| && SsrOf(records[k], user) && records[k].isCurrent && records[k].name == name
      ensures !found ==> name == ""
    {
      var first := CurrentSsr(records, user);
      if queryFails || first.None? {
        return "", false;
      }
      return records[first.value].name, true;
    }

    /** `GetSSRThemeCurrentStatus`. */
    method GetSSRThemeCurrentStatus(user: nat, queryFails: bool) returns (r: Result<map<string, bool>, ServiceError>)
      ensures queryFails <==> r.Failure?
      ensures r.Success? ==> r.value == SsrCurrentMap(records, user)
    {
      if queryFails {
        return Failure(QueryFailed);
      }
      return Success(SsrCurrentMap(records, user));
    }
  }
}
