/**
 * Enabling high availability, older version (`pkg/addons`).
 *
 * The same guards as the newer version, but a negative answer carries a
 * reason for the user. Enabling in an airgap cluster always installs
 * SeaweedFS (there is no existence check), re-reads the installation, looks
 * up the operator image, starts the registry data migration job and waits
 * for it, then upgrades the registry to HA; every cluster then upgrades the
 * admin console and writes the installation back with
 * `HighAvailability = true`.
 */
module LegacyHighAvailability {
  import opened Wrappers
  import opened AddOns
  import opened Steps
  import HA = HighAvailability

  const AlreadyEnabled := "already enabled"
  const RestoreInProgress := "a restore is in progress"
  const TooFewControlPlanes := "number of control plane nodes is less than 3"

  /** Whether HA can be enabled, and if not, why. An error carries no
      answer. */
  function CanEnableHA(latest: Result<Installation>, restoreState: HA.GetOutcome, controlPlanes: Result<nat>): (r: Result<(bool, string)>)
    ensures r.Ok? ==> (r.value.0 <==> r.value.1 == "")
    ensures r.Ok? && !r.value.0 ==>
              r.value.1 in {AlreadyEnabled, RestoreInProgress, TooFewControlPlanes}
    ensures latest.Ok? && latest.value.highAvailability ==> r == Ok((false, AlreadyEnabled))
    ensures r == Ok((false, RestoreInProgress)) <==>
              latest.Ok? && !latest.value.highAvailability && restoreState.Found?
    ensures r == Ok((false, TooFewControlPlanes)) <==>
              && latest.Ok? && !latest.value.highAvailability && restoreState.NotFound?
              && controlPlanes.Ok? && controlPlanes.value < 3
  {
    if latest.Err? then Err(Wrap("get latest installation", latest.msg))
    else if latest.value.highAvailability then Ok((false, AlreadyEnabled))
    else
      match restoreState
      case Found => Ok((false, RestoreInProgress))
      case GetError(e) => Err(Wrap("get restore state configmap", e))
      case NotFound =>
        if controlPlanes.Err? then Err(Wrap("check control plane nodes", controlPlanes.msg))
        else if controlPlanes.value < 3 then Ok((false, TooFewControlPlanes))
        else Ok((true, ""))
  }

  /** Both versions of the eligibility check agree: the same errors, and the
      same answer once the older version's reason is dropped. */
  lemma CanEnableHAVersionsAgree(latest: Result<Installation>, restoreState: HA.GetOutcome, controlPlanes: Result<nat>)
    ensures var old1 := CanEnableHA(latest, restoreState, controlPlanes);
      var new1 := HA.CanEnableHA(latest, restoreState, controlPlanes);
      && (old1.Err? <==> new1.Err?)
      && (old1.Err? ==> old1.msg == new1.msg)
      && (old1.Ok? ==> old1.value.0 == new1.value)
  {
  }

  // ---------------------------------------------------------------------
  // Waiting for the migration job
  // ---------------------------------------------------------------------

  /** What the migration job sends, in the order it is received: a progress
      message, or the value on its error channel (nil means done). */
  datatype Event = Progress(msg: string) | ErrorValue(err: Option<string>)

  /** `Returned` carries the value received on the error channel; in both
      cases `logged` are the progress messages reported before it. When no
      error value is ever received the wait never ends. */
  datatype Wait = Returned(err: Option<string>, logged: seq<string>) | StillWaiting(logged: seq<string>)

  /** `waitForJobAndLogProgress`: report progress until a value arrives on
      the error channel, and return that value. */
  function WaitForJob(events: seq<Event>): Wait
  {
    if |events| == 0 then StillWaiting([])
    else match events[0]
      case ErrorValue(e) => Returned(e, [])
      case Progress(m) =>
        match WaitForJob(events[1..])
        case Returned(e, logged) => Returned(e, [m] + logged)
        case StillWaiting(logged) => StillWaiting([m] + logged)
  }

  /** The wait returns exactly when some error value arrives, and then it
      returns the first one; everything before it was progress, and every
      progress message before it was reported, in order. */
  lemma {:induction false} WaitForJobSpec(events: seq<Event>)
    ensures var w := WaitForJob(events);
      && (w.Returned? <==> exists i :: 0 <= i < |events| && events[i].ErrorValue?)
      && (w.Returned? ==>
            && |w.logged| < |events|
            && events[|w.logged|] == ErrorValue(w.err)
            && forall k :: 0 <= k < |w.logged| ==> events[k] == Progress(w.logged[k]))
      && (w.StillWaiting? ==>
            && |w.logged| == |events|
            && forall k :: 0 <= k < |events| ==> events[k] == Progress(w.logged[k]))
    decreases |events|
  {
    if |events| > 0 && events[0].Progress? {
      WaitForJobSpec(events[1..]);
      var rest := WaitForJob(events[1..]);
      assert forall k :: 1 <= k < |events| ==> events[k] == events[1..][k - 1];
      if rest.Returned? {
        var i :| 0 <= i < |events[1..]| && events[1..][i].ErrorValue?;
        assert events[i + 1].ErrorValue?;
      } else {
        forall i | 0 <= i < |events| ensures events[i].Progress? {
          if i > 0 { assert events[i] == events[1..][i - 1]; }
        }
      }
    } else if |events| > 0 {
      assert events[0].ErrorValue?;
    }
  }

  /** How the wait looks as a pipeline step: a nil error is success, an
      error fails the step, and a wait that never ends blocks. */
  function WaitOutcome(w: Wait): (o: Outcome)
    ensures o == Succeeded <==> w == Returned(None, w.logged)
    ensures o.Blocks? <==> w.StillWaiting?
  {
    match w
    case Returned(None, _) => Succeeded
    case Returned(Some(e), _) => Failed(e)
    case StillWaiting(_) => Blocks
  }

  // ---------------------------------------------------------------------
  // EnableHA
  // ---------------------------------------------------------------------

  /** What each external call of the older `EnableHA` comes back with. */
  datatype World = World(
    seaweedInstall: Option<string>,
    migrationLatest: Result<Installation>,
    operatorImage: Result<string>,
    runJob: Option<string>,
    jobEvents: seq<Event>,
    registryUpgrade: Option<string>,
    adminConsoleUpgrade: Option<string>,
    latest: Result<Installation>,
    update: Option<string>)

  const RegistryContext := "enable registry high availability: upgrade registry"

  function AirgapSteps(serviceCIDR: string, w: World): seq<Step<HA.Action>>
  {
    [Step(HA.InstallAddOn(SeaweedFS(serviceCIDR)), "install seaweedfs", HA.OutcomeOf(w.seaweedInstall)),
     Step(HA.GetLatestInstallation, "get latest installation", HA.OutcomeOfResult(w.migrationLatest)),
     Step(HA.GetOperatorImage, "get operator image", HA.OutcomeOfResult(w.operatorImage)),
     Step(HA.RunMigrationJob, "run registry data migration job", HA.OutcomeOf(w.runJob)),
     Step(HA.WaitForMigrationJob, "registry data migration job failed", WaitOutcome(WaitForJob(w.jobEvents))),
     Step(HA.UpgradeAddOn(Registry(serviceCIDR, true)), RegistryContext, HA.OutcomeOf(w.registryUpgrade))]
  }

  /** The part shared with the newer version. */
  function RecordSteps(isAirgap: bool, serviceCIDR: string, proxy: Option<ProxySpec>, w: World): seq<Step<HA.Action>>
  {
    HA.RecordSteps(isAirgap, serviceCIDR, proxy, NewerWorld(w))
  }

  /** The outcomes of the shared calls, as the newer version's world. The
      airgap-only fields are irrelevant to `RecordSteps`. */
  function NewerWorld(w: World): HA.World
  {
    HA.World(Ok(true), None, None, None, w.adminConsoleUpgrade, w.latest, w.update)
  }

  function EnableHASteps(isAirgap: bool, serviceCIDR: string, proxy: Option<ProxySpec>, w: World): seq<Step<HA.Action>>
  {
    (if isAirgap then AirgapSteps(serviceCIDR, w) else []) + RecordSteps(isAirgap, serviceCIDR, proxy, w)
  }

  function EnableHA(isAirgap: bool, serviceCIDR: string, proxy: Option<ProxySpec>, w: World): Run<HA.Action>
  {
    RunSteps(EnableHASteps(isAirgap, serviceCIDR, proxy, w))
  }

  /** Every call of the airgap part comes back without error, and the
      migration job reports success. */
  ghost predicate AirgapCallsSucceed(w: World) {
    && w.seaweedInstall.None?
    && w.migrationLatest.Ok?
    && w.operatorImage.Ok?
    && w.runJob.None?
    && WaitForJob(w.jobEvents).Returned?
    && WaitForJob(w.jobEvents).err.None?
    && w.registryUpgrade.None?
  }

  /** Every call before the installation write comes back without error, and
      the migration job reports success. */
  ghost predicate EarlierCallsSucceed(isAirgap: bool, w: World) {
    && (isAirgap ==> AirgapCallsSucceed(w))
    && w.adminConsoleUpgrade.None?
    && w.latest.Ok?
  }

  lemma AirgapStepsSucceed(serviceCIDR: string, w: World)
    ensures var steps := AirgapSteps(serviceCIDR, w);
      SucceededBefore(steps, |steps|) <==> AirgapCallsSucceed(w)
  {
    var steps := AirgapSteps(serviceCIDR, w);
    assert steps[4].outcome == WaitOutcome(WaitForJob(w.jobEvents));
    if SucceededBefore(steps, |steps|) {
      assert steps[0].outcome == Succeeded && steps[1].outcome == Succeeded && steps[2].outcome == Succeeded;
      assert steps[3].outcome == Succeeded && steps[4].outcome == Succeeded && steps[5].outcome == Succeeded;
    }
  }

  /** Writes happen only in the shared part. */
  lemma AirgapStepsDoNotWrite(serviceCIDR: string, w: World)
    ensures var r1 := RunSteps(AirgapSteps(serviceCIDR, w));
      forall i :: 0 <= i < |r1.started| ==> !HA.IsWrite(r1.started[i])
  {
    RunStepsSpec(AirgapSteps(serviceCIDR, w));
  }

  /** The calls made before the shared part: the airgap part completes
      exactly when all its calls succeed, and never writes. */
  lemma PrefixRun(isAirgap: bool, serviceCIDR: string, w: World)
    ensures var r1 := RunSteps(if isAirgap then AirgapSteps(serviceCIDR, w) else []);
      && (r1.status.Completed? <==> (isAirgap ==> AirgapCallsSucceed(w)))
      && (forall i :: 0 <= i < |r1.started| ==> !HA.IsWrite(r1.started[i]))
  {
    if isAirgap {
      RunStepsSpec(AirgapSteps(serviceCIDR, w));
      AirgapStepsSucceed(serviceCIDR, w);
      AirgapStepsDoNotWrite(serviceCIDR, w);
    } else {
      var none: seq<Step<HA.Action>> := [];
      assert RunSteps(none) == Run([], Completed);
    }
  }

  /** HighAvailability = true is written exactly when every earlier call
      succeeded and the migration job reported success; the operation
      succeeds exactly when, in addition, the write succeeds; and the write
      is the last call made. */
  lemma EnableHAWritesLast(isAirgap: bool, serviceCIDR: string, proxy: Option<ProxySpec>, w: World)
    ensures var r := EnableHA(isAirgap, serviceCIDR, proxy, w);
      && ((exists i :: 0 <= i < |r.started| && HA.IsWrite(r.started[i])) <==> EarlierCallsSucceed(isAirgap, w))
      && (r.status.Completed? <==> EarlierCallsSucceed(isAirgap, w) && w.update.None?)
      && ((exists i :: 0 <= i < |r.started| && HA.IsWrite(r.started[i])) ==>
            r.started[|r.started| - 1] == HA.UpdateInstallation(w.latest.value.(highAvailability := true)))
  {
    var first := if isAirgap then AirgapSteps(serviceCIDR, w) else [];
    var second := RecordSteps(isAirgap, serviceCIDR, proxy, w);
    assert first + second == EnableHASteps(isAirgap, serviceCIDR, proxy, w);
    RunAppend(first, second);
    PrefixRun(isAirgap, serviceCIDR, w);
    var r1 := RunSteps(first);
    var r := EnableHA(isAirgap, serviceCIDR, proxy, w);
    if r1.status.Completed? {
      var r2 := RunSteps(second);
      assert r == Run(r1.started + r2.started, r2.status);
      HA.RecordWrites(isAirgap, serviceCIDR, proxy, NewerWorld(w));
      HA.WriteInAppend(r1.started, r2.started);
      assert EarlierCallsSucceed(isAirgap, w) <==> w.adminConsoleUpgrade.None? && w.latest.Ok?;
      if w.adminConsoleUpgrade.None? && w.latest.Ok? {
        assert |r2.started| > 0;
      }
    } else {
      assert r == r1;
      assert !EarlierCallsSucceed(isAirgap, w);
    }
  }

  /** A migration job that never reports on its error channel leaves the
      operation waiting for ever once it gets there: the registry, the admin
      console and the installation are never touched. */
  lemma SilentJobNeverReturns(serviceCIDR: string, proxy: Option<ProxySpec>, w: World)
    requires w.seaweedInstall.None? && w.migrationLatest.Ok? && w.operatorImage.Ok? && w.runJob.None?
    requires forall i :: 0 <= i < |w.jobEvents| ==> w.jobEvents[i].Progress?
    ensures var r := EnableHA(true, serviceCIDR, proxy, w);
      && r.status == NeverReturns
      && r.started == [HA.InstallAddOn(SeaweedFS(serviceCIDR)), HA.GetLatestInstallation, HA.GetOperatorImage,
                       HA.RunMigrationJob, HA.WaitForMigrationJob]
  {
    WaitForJobSpec(w.jobEvents);
    var first := AirgapSteps(serviceCIDR, w);
    var second := RecordSteps(true, serviceCIDR, proxy, w);
    assert first + second == EnableHASteps(true, serviceCIDR, proxy, w);
    RunAppend(first, second);
    assert first[4].outcome == Blocks;
    RunStopsAt(first, 4);
  }

  /** Without airgap both versions make the same calls with the same
      descriptors and end the same way. */
  lemma OnlineVersionsAgree(serviceCIDR: string, proxy: Option<ProxySpec>, w: World, nw: HA.World)
    requires nw.adminConsoleUpgrade == w.adminConsoleUpgrade && nw.latest == w.latest && nw.update == w.update
    ensures EnableHA(false, serviceCIDR, proxy, w) == HA.EnableHA(false, serviceCIDR, proxy, nw)
  {
    assert EnableHASteps(false, serviceCIDR, proxy, w) == RecordSteps(false, serviceCIDR, proxy, w);
    assert HA.EnableHASteps(false, serviceCIDR, proxy, nw) == HA.RecordSteps(false, serviceCIDR, proxy, nw);
    HA.RecordRun(false, serviceCIDR, proxy, nw);
    HA.RecordRun(false, serviceCIDR, proxy, NewerWorld(w));
  }

  /** In an airgap cluster SeaweedFS is always installed first, whatever
      state its release is in. */
  lemma AirgapAlwaysInstallsSeaweedFS(serviceCIDR: string, proxy: Option<ProxySpec>, w: World)
    ensures var r := EnableHA(true, serviceCIDR, proxy, w);
      |r.started| > 0 && r.started[0] == HA.InstallAddOn(SeaweedFS(serviceCIDR))
  {
    var steps := EnableHASteps(true, serviceCIDR, proxy, w);
    RunCons(steps[0], steps[1..]);
    assert steps == [steps[0]] + steps[1..];
  }
}
