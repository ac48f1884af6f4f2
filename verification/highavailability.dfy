/**
 * Enabling high availability, newer version (`pkg/addons2`).
 *
 * Eligibility is three guards checked in order: not already HA, no restore
 * in progress (the restore-state config map is absent), at least three
 * control-plane nodes. Enabling is a forward-only pipeline: in an airgap
 * cluster install SeaweedFS if its release is missing, migrate the registry
 * data and upgrade the registry to HA; then upgrade the admin console to HA;
 * finally re-read the installation and write it back with
 * `HighAvailability = true`. The Kubernetes and Helm calls are inputs: each
 * is given by the outcome it comes back with.
 */
module HighAvailability {
  import opened Wrappers
  import opened AddOns
  import opened Steps

  /** The outcome of a Kubernetes `Get` whose NotFound error is expected. */
  datatype GetOutcome = Found | NotFound | GetError(msg: string)

  /** The calls the HA code makes, with the descriptors they are made with. */
  datatype Action =
    | CheckReleaseExists(addon: AddOn)
    | InstallAddOn(addon: AddOn)
    | MigrateRegistry(addon: AddOn)
    | GetOperatorImage
    | RunMigrationJob
    | WaitForMigrationJob
    | UpgradeAddOn(addon: AddOn)
    | GetLatestInstallation
    | UpdateInstallation(written: Installation)

  /** What each external call of the newer `EnableHA` comes back with; a Go
      `error` is `Some(text)`, nil is `None`. */
  datatype World = World(
    seaweedExists: Result<bool>,
    seaweedInstall: Option<string>,
    registryMigrate: Option<string>,
    registryUpgrade: Option<string>,
    adminConsoleUpgrade: Option<string>,
    latest: Result<Installation>,
    update: Option<string>)

  function OutcomeOf(err: Option<string>): Outcome {
    if err.Some? then Failed(err.value) else Succeeded
  }

  function OutcomeOfResult<T>(r: Result<T>): Outcome {
    if r.Err? then Failed(r.msg) else Succeeded
  }

  const AdminConsoleContext := "enable admin console high availability: upgrade admin console"

  /** Whether HA can be enabled. A failing read of the installation, of the
      restore-state config map (other than NotFound) or of the node count is
      an error; otherwise the answer is false when HA is already on or a
      restore is in progress, and otherwise whether there are at least three
      control-plane nodes. */
  function CanEnableHA(latest: Result<Installation>, restoreState: GetOutcome, controlPlanes: Result<nat>): (r: Result<bool>)
    ensures latest.Ok? && latest.value.highAvailability ==> r == Ok(false)
    ensures latest.Ok? && !latest.value.highAvailability && restoreState.Found? ==> r == Ok(false)
    ensures r == Ok(true) <==>
              && latest.Ok? && !latest.value.highAvailability
              && restoreState.NotFound?
              && controlPlanes.Ok? && controlPlanes.value >= 3
    ensures r.Err? <==>
              || latest.Err?
              || (!latest.value.highAvailability && restoreState.GetError?)
              || (!latest.value.highAvailability && restoreState.NotFound? && controlPlanes.Err?)
    ensures latest.Err? ==> r == Err(Wrap("get latest installation", latest.msg))
    ensures latest.Ok? && !latest.value.highAvailability && restoreState.GetError? ==>
              r == Err(Wrap("get restore state configmap", restoreState.msg))
    ensures latest.Ok? && !latest.value.highAvailability && restoreState.NotFound? && controlPlanes.Err? ==>
              r == Err(Wrap("check control plane nodes", controlPlanes.msg))
  {
    if latest.Err? then Err(Wrap("get latest installation", latest.msg))
    else if latest.value.highAvailability then Ok(false)
    else
      match restoreState
      case Found => Ok(false)
      case GetError(e) => Err(Wrap("get restore state configmap", e))
      case NotFound =>
        if controlPlanes.Err? then Err(Wrap("check control plane nodes", controlPlanes.msg))
        else Ok(controlPlanes.value >= 3)
  }

  /** The admin console descriptor used when enabling HA. */
  function AdminConsoleHA(isAirgap: bool, serviceCIDR: string, proxy: Option<ProxySpec>): (ac: AddOn)
    ensures ac.AdminConsole? && ac.isHA
    ensures ac.isAirgap == isAirgap && ac.serviceCIDR == serviceCIDR && ac.proxy == proxy
  {
    AdminConsole(isAirgap, true, proxy, serviceCIDR)
  }

  /** `EnableAdminConsoleHA`: one upgrade of the admin console with HA on. */
  function EnableAdminConsoleHA(isAirgap: bool, serviceCIDR: string, proxy: Option<ProxySpec>, upgrade: Option<string>): (r: Run<Action>)
    ensures r.started == [UpgradeAddOn(AdminConsoleHA(isAirgap, serviceCIDR, proxy))]
    ensures r.status.Completed? <==> upgrade.None?
    ensures upgrade.Some? ==> r.status == Aborted("upgrade admin console: " + upgrade.value)
  {
    var step := Step(UpgradeAddOn(AdminConsoleHA(isAirgap, serviceCIDR, proxy)), "upgrade admin console", OutcomeOf(upgrade));
    RunCons(step, []);
    assert [step] + [] == [step];
    RunSteps([step])
  }

  /** The airgap-only first part: SeaweedFS (installed only when its release
      is missing), then the registry data migration, then the registry
      upgrade with HA on. */
  function AirgapSteps(serviceCIDR: string, w: World): seq<Step<Action>>
  {
    var sw := SeaweedFS(serviceCIDR);
    var reg := Registry(serviceCIDR, true);
    [Step(CheckReleaseExists(sw), "check if seaweedfs release exists", OutcomeOfResult(w.seaweedExists))]
    + (if w.seaweedExists == Ok(false) then [Step(InstallAddOn(sw), "install seaweedfs", OutcomeOf(w.seaweedInstall))] else [])
    + RegistrySteps(serviceCIDR, w)
  }

  /** The registry data migration, then the registry upgrade with HA on. */
  function RegistrySteps(serviceCIDR: string, w: World): seq<Step<Action>>
  {
    var reg := Registry(serviceCIDR, true);
    [Step(MigrateRegistry(reg), "migrate registry data", OutcomeOf(w.registryMigrate)),
     Step(UpgradeAddOn(reg), "upgrade registry", OutcomeOf(w.registryUpgrade))]
  }

  /** The part every cluster goes through: the admin console upgrade, then
      the read-modify-write of the installation record. */
  function RecordSteps(isAirgap: bool, serviceCIDR: string, proxy: Option<ProxySpec>, w: World): seq<Step<Action>>
  {
    [Step(UpgradeAddOn(AdminConsoleHA(isAirgap, serviceCIDR, proxy)), AdminConsoleContext, OutcomeOf(w.adminConsoleUpgrade)),
     Step(GetLatestInstallation, "get latest installation", OutcomeOfResult(w.latest))]
    + (if w.latest.Ok?
       then [Step(UpdateInstallation(w.latest.value.(highAvailability := true)), "update installation", OutcomeOf(w.update))]
       else [])
  }

  function EnableHASteps(isAirgap: bool, serviceCIDR: string, proxy: Option<ProxySpec>, w: World): seq<Step<Action>>
  {
    (if isAirgap then AirgapSteps(serviceCIDR, w) else []) + RecordSteps(isAirgap, serviceCIDR, proxy, w)
  }

  /** `EnableHA`: the calls it starts, in order, and how it ends. */
  function EnableHA(isAirgap: bool, serviceCIDR: string, proxy: Option<ProxySpec>, w: World): Run<Action>
  {
    RunSteps(EnableHASteps(isAirgap, serviceCIDR, proxy, w))
  }

  // ---------------------------------------------------------------------
  // Properties
  // ---------------------------------------------------------------------

  /** Every call of the airgap part comes back without error. */
  ghost predicate AirgapCallsSucceed(w: World) {
    && w.seaweedExists.Ok?
    && (!w.seaweedExists.value ==> w.seaweedInstall.None?)
    && w.registryMigrate.None?
    && w.registryUpgrade.None?
  }

  /** Every call before the installation write comes back without error. */
  ghost predicate EarlierCallsSucceed(isAirgap: bool, w: World) {
    && (isAirgap ==> AirgapCallsSucceed(w))
    && w.adminConsoleUpgrade.None?
    && w.latest.Ok?
  }

  predicate IsWrite(a: Action) {
    a.UpdateInstallation?
  }

  lemma AirgapStepsSucceed(serviceCIDR: string, w: World)
    ensures SucceededBefore(AirgapSteps(serviceCIDR, w), |AirgapSteps(serviceCIDR, w)|) <==> AirgapCallsSucceed(w)
  {
    var steps := AirgapSteps(serviceCIDR, w);
    if w.seaweedExists == Ok(false) {
      assert steps[1].outcome == OutcomeOf(w.seaweedInstall);
      assert steps[2].outcome == OutcomeOf(w.registryMigrate);
      assert steps[3].outcome == OutcomeOf(w.registryUpgrade);
    } else {
      assert steps[0].outcome == OutcomeOfResult(w.seaweedExists);
      assert steps[1].outcome == OutcomeOf(w.registryMigrate);
      assert steps[2].outcome == OutcomeOf(w.registryUpgrade);
    }
  }

  /** The run of the common part, spelled out case by case. */
  lemma RecordRun(isAirgap: bool, serviceCIDR: string, proxy: Option<ProxySpec>, w: World)
    ensures var ac := UpgradeAddOn(AdminConsoleHA(isAirgap, serviceCIDR, proxy));
      RunSteps(RecordSteps(isAirgap, serviceCIDR, proxy, w)) ==
        if w.adminConsoleUpgrade.Some? then Run([ac], Aborted(Wrap(AdminConsoleContext, w.adminConsoleUpgrade.value)))
        else if w.latest.Err? then Run([ac, GetLatestInstallation], Aborted(Wrap("get latest installation", w.latest.msg)))
        else
          var write := UpdateInstallation(w.latest.value.(highAvailability := true));
          if w.update.Some? then Run([ac, GetLatestInstallation, write], Aborted(Wrap("update installation", w.update.value)))
          else Run([ac, GetLatestInstallation, write], Completed)
  {
    var steps := RecordSteps(isAirgap, serviceCIDR, proxy, w);
    RunCons(steps[0], steps[1..]);
    assert steps == [steps[0]] + steps[1..];
    RunCons(steps[1], steps[2..]);
    assert steps[1..] == [steps[1]] + steps[2..];
    if w.latest.Ok? {
      RunCons(steps[2], []);
      assert steps[2..] == [steps[2]] + [];
    } else {
      assert steps[2..] == [];
    }
  }

  /** The run of the airgap part, spelled out case by case. */
  lemma AirgapRun(serviceCIDR: string, w: World)
    ensures var sw := SeaweedFS(serviceCIDR);
      var reg := Registry(serviceCIDR, true);
      var check := CheckReleaseExists(sw);
      RunSteps(AirgapSteps(serviceCIDR, w)) ==
        if w.seaweedExists.Err? then Run([check], Aborted(Wrap("check if seaweedfs release exists", w.seaweedExists.msg)))
        else if !w.seaweedExists.value && w.seaweedInstall.Some? then
          Run([check, InstallAddOn(sw)], Aborted(Wrap("install seaweedfs", w.seaweedInstall.value)))
        else
          var pre := if !w.seaweedExists.value then [check, InstallAddOn(sw)] else [check];
          if w.registryMigrate.Some? then
            Run(pre + [MigrateRegistry(reg)], Aborted(Wrap("migrate registry data", w.registryMigrate.value)))
          else if w.registryUpgrade.Some? then
            Run(pre + [MigrateRegistry(reg), UpgradeAddOn(reg)], Aborted(Wrap("upgrade registry", w.registryUpgrade.value)))
          else Run(pre + [MigrateRegistry(reg), UpgradeAddOn(reg)], Completed)
  {
    var steps := AirgapSteps(serviceCIDR, w);
    var tail := RegistrySteps(serviceCIDR, w);
    RegistryRun(serviceCIDR, w);
    if w.seaweedExists == Ok(false) {
      RunCons(steps[0], steps[1..]);
      RunCons(steps[1], steps[2..]);
      assert steps == [steps[0]] + steps[1..];
      assert steps[1..] == [steps[1]] + steps[2..];
      assert steps[2..] == tail;
    } else {
      RunCons(steps[0], steps[1..]);
      assert steps == [steps[0]] + steps[1..];
      assert steps[1..] == tail;
    }
  }

  /** The run of the registry part: the upgrade only after a successful
      migration. */
  lemma RegistryRun(serviceCIDR: string, w: World)
    ensures var reg := Registry(serviceCIDR, true);
      RunSteps(RegistrySteps(serviceCIDR, w)) ==
        if w.registryMigrate.Some? then Run([MigrateRegistry(reg)], Aborted(Wrap("migrate registry data", w.registryMigrate.value)))
        else if w.registryUpgrade.Some? then
          Run([MigrateRegistry(reg), UpgradeAddOn(reg)], Aborted(Wrap("upgrade registry", w.registryUpgrade.value)))
        else Run([MigrateRegistry(reg), UpgradeAddOn(reg)], Completed)
  {
    var tail := RegistrySteps(serviceCIDR, w);
    RunCons(tail[0], tail[1..]);
    RunCons(tail[1], []);
    assert tail == [tail[0]] + tail[1..] && tail[1..] == [tail[1]] + [];
  }

  /** The calls made before the common part: the airgap part completes
      exactly when all its calls succeed, and never writes. */
  lemma PrefixRun(isAirgap: bool, serviceCIDR: string, w: World)
    ensures var r1 := RunSteps(if isAirgap then AirgapSteps(serviceCIDR, w) else []);
      && (r1.status.Completed? <==> (isAirgap ==> AirgapCallsSucceed(w)))
      && (forall i :: 0 <= i < |r1.started| ==> !IsWrite(r1.started[i]))
  {
    if isAirgap {
      AirgapRun(serviceCIDR, w);
    } else {
      var none: seq<Step<Action>> := [];
      assert RunSteps(none) == Run([], Completed);
    }
  }

  /** HighAvailability = true is written exactly when every earlier call
      succeeded; the whole operation succeeds exactly when, in addition, the
      write succeeds; and the write is the last call made. A failing step
      stops everything after it. */
  lemma EnableHAWritesLast(isAirgap: bool, serviceCIDR: string, proxy: Option<ProxySpec>, w: World)
    ensures var r := EnableHA(isAirgap, serviceCIDR, proxy, w);
      && ((exists i :: 0 <= i < |r.started| && IsWrite(r.started[i])) <==> EarlierCallsSucceed(isAirgap, w))
      && (r.status.Completed? <==> EarlierCallsSucceed(isAirgap, w) && w.update.None?)
      && ((exists i :: 0 <= i < |r.started| && IsWrite(r.started[i])) ==>
            r.started[|r.started| - 1] == UpdateInstallation(w.latest.value.(highAvailability := true)))
  {
    var first := if isAirgap then AirgapSteps(serviceCIDR, w) else [];
    var second := RecordSteps(isAirgap, serviceCIDR, proxy, w);
    assert first + second == EnableHASteps(isAirgap, serviceCIDR, proxy, w);
    RunAppend(first, second);
    PrefixRun(isAirgap, serviceCIDR, w);
    var r1 := RunSteps(first);
    var r := EnableHA(isAirgap, serviceCIDR, proxy, w);
    if r1.status.Completed? {
      var r2 := RunSteps(second);
      assert r == Run(r1.started + r2.started, r2.status);
      RecordWrites(isAirgap, serviceCIDR, proxy, w);
      WriteInAppend(r1.started, r2.started);
      assert EarlierCallsSucceed(isAirgap, w) <==> w.adminConsoleUpgrade.None? && w.latest.Ok?;
      if w.adminConsoleUpgrade.None? && w.latest.Ok? {
        assert |r2.started| > 0;
      }
    } else {
      assert r == r1;
      assert !EarlierCallsSucceed(isAirgap, w);
    }
  }

  /** The recording part writes exactly when the admin console upgrade and
      the installation read succeed, the write is its last call, and it
      completes exactly when the write succeeds too. */
  lemma RecordWrites(isAirgap: bool, serviceCIDR: string, proxy: Option<ProxySpec>, w: World)
    ensures var r2 := RunSteps(RecordSteps(isAirgap, serviceCIDR, proxy, w));
      && ((exists i :: 0 <= i < |r2.started| && IsWrite(r2.started[i])) <==> w.adminConsoleUpgrade.None? && w.latest.Ok?)
      && (r2.status.Completed? <==> w.adminConsoleUpgrade.None? && w.latest.Ok? && w.update.None?)
      && ((exists i :: 0 <= i < |r2.started| && IsWrite(r2.started[i])) ==>
            r2.started[|r2.started| - 1] == UpdateInstallation(w.latest.value.(highAvailability := true)))
  {
    RecordRun(isAirgap, serviceCIDR, proxy, w);
    var r2 := RunSteps(RecordSteps(isAirgap, serviceCIDR, proxy, w));
    if w.adminConsoleUpgrade.None? && w.latest.Ok? {
      assert IsWrite(r2.started[2]);
    }
  }

  /** After calls that never write, a write is among all the calls exactly
      when it is among the later ones, and the last call is the later
      calls' last. */
  lemma WriteInAppend(a: seq<Action>, b: seq<Action>)
    requires forall i :: 0 <= i < |a| ==> !IsWrite(a[i])
    ensures (exists i :: 0 <= i < |a + b| && IsWrite((a + b)[i])) <==> (exists i :: 0 <= i < |b| && IsWrite(b[i]))
    ensures |b| > 0 ==> (a + b)[|a + b| - 1] == b[|b| - 1]
  {
    if exists i :: 0 <= i < |a + b| && IsWrite((a + b)[i]) {
      var i :| 0 <= i < |a + b| && IsWrite((a + b)[i]);
      assert (a + b)[i] == b[i - |a|];
    }
    if exists i :: 0 <= i < |b| && IsWrite(b[i]) {
      var i :| 0 <= i < |b| && IsWrite(b[i]);
      assert (a + b)[|a| + i] == b[i];
    }
  }

  /** Without airgap neither SeaweedFS nor the registry is touched: the
      only add-on call is the admin console upgrade, with HA on and the
      given airgap flag, proxy and service CIDR. */
  lemma OnlineEnableHATouchesOnlyAdminConsole(serviceCIDR: string, proxy: Option<ProxySpec>, w: World)
    ensures var r := EnableHA(false, serviceCIDR, proxy, w);
      && 1 <= |r.started|
      && r.started[0] == UpgradeAddOn(AdminConsole(false, true, proxy, serviceCIDR))
      && forall i :: 1 <= i < |r.started| ==> r.started[i].GetLatestInstallation? || r.started[i].UpdateInstallation?
  {
    var steps := EnableHASteps(false, serviceCIDR, proxy, w);
    assert steps == RecordSteps(false, serviceCIDR, proxy, w);
    RecordRun(false, serviceCIDR, proxy, w);
  }

  /** In an airgap cluster the started actions are those of the airgap part,
      then those of the recording part; the latter never touch the registry
      or install anything. */
  lemma AirgapStarted(serviceCIDR: string, proxy: Option<ProxySpec>, w: World, i: nat)
    requires i < |EnableHA(true, serviceCIDR, proxy, w).started|
    ensures var a := EnableHA(true, serviceCIDR, proxy, w).started[i];
      var r1 := RunSteps(AirgapSteps(serviceCIDR, w));
      && (i < |r1.started| ==> a == r1.started[i])
      && ((a.InstallAddOn? || a.MigrateRegistry? || (a.UpgradeAddOn? && a.addon.Registry?)) ==>
            i < |r1.started|)
  {
    var first := AirgapSteps(serviceCIDR, w);
    var second := RecordSteps(true, serviceCIDR, proxy, w);
    assert first + second == EnableHASteps(true, serviceCIDR, proxy, w);
    RunAppend(first, second);
    RecordRun(true, serviceCIDR, proxy, w);
  }

  /** In an airgap cluster the registry data is migrated before the registry
      is upgraded, and the upgrade uses the HA registry descriptor. */
  lemma AirgapMigratesBeforeUpgrade(serviceCIDR: string, proxy: Option<ProxySpec>, w: World)
    ensures var r := EnableHA(true, serviceCIDR, proxy, w);
      forall i :: 0 <= i < |r.started| && r.started[i].UpgradeAddOn? && r.started[i].addon.Registry? ==>
        && r.started[i].addon == Registry(serviceCIDR, true)
        && exists j :: 0 <= j < i && r.started[j] == MigrateRegistry(Registry(serviceCIDR, true))
  {
    var r := EnableHA(true, serviceCIDR, proxy, w);
    var r1 := RunSteps(AirgapSteps(serviceCIDR, w));
    AirgapRun(serviceCIDR, w);
    forall i | 0 <= i < |r.started| && r.started[i].UpgradeAddOn? && r.started[i].addon.Registry?
      ensures r.started[i].addon == Registry(serviceCIDR, true)
      ensures exists j :: 0 <= j < i && r.started[j] == MigrateRegistry(Registry(serviceCIDR, true))
    {
      AirgapStarted(serviceCIDR, proxy, w, i);
      var k := |r1.started|;
      assert i == k - 1;
      AirgapStarted(serviceCIDR, proxy, w, k - 2);
    }
  }

  /** In an airgap cluster SeaweedFS is installed exactly when the check
      finds its release missing; the install is then the second call. */
  lemma AirgapInstallsOnlyWhenMissing(serviceCIDR: string, proxy: Option<ProxySpec>, w: World)
    ensures var r := EnableHA(true, serviceCIDR, proxy, w);
      && ((exists i :: 0 <= i < |r.started| && r.started[i].InstallAddOn?) <==> w.seaweedExists == Ok(false))
      && (w.seaweedExists == Ok(false) ==> 2 <= |r.started| && r.started[1] == InstallAddOn(SeaweedFS(serviceCIDR)))
  {
    var r := EnableHA(true, serviceCIDR, proxy, w);
    AirgapRun(serviceCIDR, w);
    if exists i :: 0 <= i < |r.started| && r.started[i].InstallAddOn? {
      var i :| 0 <= i < |r.started| && r.started[i].InstallAddOn?;
      AirgapStarted(serviceCIDR, proxy, w, i);
    }
    if w.seaweedExists == Ok(false) {
      var r1 := RunSteps(AirgapSteps(serviceCIDR, w));
      assert |r1.started| >= 2 && r1.started[1] == InstallAddOn(SeaweedFS(serviceCIDR));
      AirgapCallOrder(serviceCIDR, proxy, w);
      assert r.started[1] == r1.started[1];
    }
  }

  /** In an airgap cluster the calls come in one fixed order: the release
      check, the install when the release is missing, the registry
      migration and upgrade, then the admin console upgrade, the read and
      the write of the installation. A run makes a prefix of these calls,
      and the admin console is reached only once the airgap part completed. */
  lemma AirgapCallOrder(serviceCIDR: string, proxy: Option<ProxySpec>, w: World)
    ensures var r := EnableHA(true, serviceCIDR, proxy, w);
      var plan := AirgapPlan(serviceCIDR, proxy, w);
      var r1 := RunSteps(AirgapSteps(serviceCIDR, w));
      && |r.started| <= |plan| && r.started == plan[..|r.started|]
      && r.started == r1.started + (if r1.status.Completed? then RunSteps(RecordSteps(true, serviceCIDR, proxy, w)).started else [])
  {
    var steps := EnableHASteps(true, serviceCIDR, proxy, w);
    var r := EnableHA(true, serviceCIDR, proxy, w);
    var plan := AirgapPlan(serviceCIDR, proxy, w);
    AirgapPlanActions(serviceCIDR, proxy, w);
    RunStepsSpec(steps);
    assert r.started == plan[..|r.started|];
    var first := AirgapSteps(serviceCIDR, w);
    var second := RecordSteps(true, serviceCIDR, proxy, w);
    assert first + second == steps;
    RunAppend(first, second);
  }

  /** The calls of an airgap run, in the order they are written. */
  function AirgapPlan(serviceCIDR: string, proxy: Option<ProxySpec>, w: World): seq<Action> {
    var sw := SeaweedFS(serviceCIDR);
    var reg := Registry(serviceCIDR, true);
    [CheckReleaseExists(sw)]
    + (if w.seaweedExists == Ok(false) then [InstallAddOn(sw)] else [])
    + [MigrateRegistry(reg), UpgradeAddOn(reg), UpgradeAddOn(AdminConsoleHA(true, serviceCIDR, proxy)), GetLatestInstallation]
    + (if w.latest.Ok? then [UpdateInstallation(w.latest.value.(highAvailability := true))] else [])
  }

  lemma AirgapPlanActions(serviceCIDR: string, proxy: Option<ProxySpec>, w: World)
    ensures var steps := EnableHASteps(true, serviceCIDR, proxy, w);
      var plan := AirgapPlan(serviceCIDR, proxy, w);
      |steps| == |plan| && forall i :: 0 <= i < |steps| ==> steps[i].action == plan[i]
  {
  }

  /** When the admin console upgrade fails, after the airgap part has
      completed in an airgap cluster, the error names both layers, the
      upgrade is the last call, and the installation is neither read nor
      written. */
  lemma AdminConsoleFailureStops(isAirgap: bool, serviceCIDR: string, proxy: Option<ProxySpec>, w: World)
    requires (isAirgap ==> AirgapCallsSucceed(w)) && w.adminConsoleUpgrade.Some?
    ensures var r := EnableHA(isAirgap, serviceCIDR, proxy, w);
      var r1 := RunSteps(if isAirgap then AirgapSteps(serviceCIDR, w) else []);
      && r.started == r1.started + [UpgradeAddOn(AdminConsoleHA(isAirgap, serviceCIDR, proxy))]
      && r.status == Aborted("enable admin console high availability: upgrade admin console: " + w.adminConsoleUpgrade.value)
      && forall i :: 0 <= i < |r.started| ==> !r.started[i].GetLatestInstallation? && !IsWrite(r.started[i])
  {
    var first := if isAirgap then AirgapSteps(serviceCIDR, w) else [];
    var second := RecordSteps(isAirgap, serviceCIDR, proxy, w);
    assert first + second == EnableHASteps(isAirgap, serviceCIDR, proxy, w);
    RunAppend(first, second);
    PrefixRun(isAirgap, serviceCIDR, w);
    RecordRun(isAirgap, serviceCIDR, proxy, w);
    if isAirgap {
      AirgapRun(serviceCIDR, w);
    }
  }
}
