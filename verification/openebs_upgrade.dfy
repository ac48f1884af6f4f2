/**
 * Upgrading the OpenEBS add-on (`pkg/addons2/openebs`): install the chart
 * when its release is missing, otherwise prepare the values and upgrade the
 * release in place, without forcing.
 */
module OpenEBSUpgrade {
  import opened Wrappers
  import opened Steps

  /** The release name of the chart, a package constant of the source. */
  const ReleaseName := "openebs"

  /** The options of the Helm upgrade call. */
  datatype UpgradeOptions = UpgradeOptions(
    releaseName: string,
    chartPath: string,
    chartVersion: string,
    namespace: string,
    force: bool)

  datatype Action =
    | CheckReleaseExists(namespace: string, releaseName: string)
    | Install
    | Prepare
    | UpgradeRelease(options: UpgradeOptions)

  /** What the calls come back with. */
  datatype World = World(releaseExists: Result<bool>, install: Option<string>, prepare: Option<string>, upgrade: Option<string>)

  function OutcomeOf(err: Option<string>): Outcome {
    if err.Some? then Failed(err.value) else Succeeded
  }

  /** The chart location and version come from the release metadata and
      the namespace from the add-on package; all three are parameters. */
  function UpgradeSteps(namespace: string, chartLocation: string, chartVersion: string, w: World): seq<Step<Action>>
  {
    [Step(CheckReleaseExists(namespace, ReleaseName), "check if release exists",
          if w.releaseExists.Err? then Failed(w.releaseExists.msg) else Succeeded)]
    + if w.releaseExists == Ok(false) then [Step(Install, "install", OutcomeOf(w.install))]
      else
        [Step(Prepare, "prepare", OutcomeOf(w.prepare)),
         Step(UpgradeRelease(UpgradeOptions(ReleaseName, chartLocation, chartVersion, namespace, false)),
              "upgrade", OutcomeOf(w.upgrade))]
  }

  function Upgrade(namespace: string, chartLocation: string, chartVersion: string, w: World): Run<Action>
  {
    RunSteps(UpgradeSteps(namespace, chartLocation, chartVersion, w))
  }

  /** The three routes: a failing existence check stops at once; a missing
      release is installed and nothing else; an existing release is
      prepared and then upgraded, never installed. The upgrade targets the
      same release and namespace that were checked, and does not force. */
  lemma UpgradeRoutes(namespace: string, chartLocation: string, chartVersion: string, w: World)
    ensures var r := Upgrade(namespace, chartLocation, chartVersion, w);
      var check := CheckReleaseExists(namespace, ReleaseName);
      var upgrade := UpgradeRelease(UpgradeOptions(ReleaseName, chartLocation, chartVersion, namespace, false));
      && (w.releaseExists.Err? ==> r == Run([check], Aborted(Wrap("check if release exists", w.releaseExists.msg))))
      && (w.releaseExists == Ok(false) ==>
            && r.started == [check, Install]
            && (r.status.Completed? <==> w.install.None?)
            && (w.install.Some? ==> r.status == Aborted(Wrap("install", w.install.value))))
      && (w.releaseExists == Ok(true) && w.prepare.Some? ==>
            r == Run([check, Prepare], Aborted(Wrap("prepare", w.prepare.value))))
      && (w.releaseExists == Ok(true) && w.prepare.None? ==>
            && r.started == [check, Prepare, upgrade]
            && (r.status.Completed? <==> w.upgrade.None?)
            && (w.upgrade.Some? ==> r.status == Aborted(Wrap("upgrade", w.upgrade.value))))
  {
    var steps := UpgradeSteps(namespace, chartLocation, chartVersion, w);
    RunCons(steps[0], steps[1..]);
    assert steps == [steps[0]] + steps[1..];
    RunCons(steps[1], steps[2..]);
    assert steps[1..] == [steps[1]] + steps[2..];
    if |steps| == 3 {
      RunCons(steps[2], []);
      assert steps[2..] == [steps[2]] + [];
    } else {
      assert steps[2..] == [];
    }
  }

  /** Install and upgrade are never both attempted, and the upgrade is
      attempted only on an existing release after a successful prepare. */
  lemma InstallXorUpgrade(namespace: string, chartLocation: string, chartVersion: string, w: World)
    ensures var r := Upgrade(namespace, chartLocation, chartVersion, w);
      && (Install in r.started ==> w.releaseExists == Ok(false))
      && (forall i :: 0 <= i < |r.started| && r.started[i].UpgradeRelease? ==>
            w.releaseExists == Ok(true) && w.prepare.None? && i > 0 && r.started[i - 1] == Prepare)
  {
    UpgradeRoutes(namespace, chartLocation, chartVersion, w);
    var r := Upgrade(namespace, chartLocation, chartVersion, w);
    if w.releaseExists.Err? {
      assert r.started == [CheckReleaseExists(namespace, ReleaseName)];
    } else if w.releaseExists.value {
      assert forall i :: 0 <= i < |r.started| ==> !r.started[i].Install?;
    } else {
      assert r.started == [CheckReleaseExists(namespace, ReleaseName), Install];
    }
  }
}
