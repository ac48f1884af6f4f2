/**
 * The Registry and OpenEBS add-ons of the older add-on code
 * (`pkg/addons`): the Helm chart and repository entries they contribute to
 * the k0s cluster configuration, their reported versions, and the steps the
 * registry runs once the cluster is up.
 *
 * The chart versions and the registry chart location are set at build time;
 * they are the `BuildVars` parameter. The Helm values are a fixed map
 * rendered to YAML; the rendering is a parameter that may fail.
 */
module LegacyAddOns {
  import opened Wrappers

  /** A Helm chart entry of the k0s configuration. */
  datatype Chart = Chart(name: string, chartName: string, version: string, targetNS: string, order: int, values: string)

  /** A Helm repository entry of the k0s configuration. */
  datatype Repository = Repository(name: string, url: string)

  /** The values the build links into the binary. */
  datatype BuildVars = BuildVars(chartURL: string, chartName: string, version: string, imageVersion: string)

  /** The entries an add-on contributes: a nil list is an empty one. */
  datatype HelmConfig = HelmConfig(charts: seq<Chart>, repositories: seq<Repository>)

  const MarshalContext := "unable to marshal helm values"

  // ---------------------------------------------------------------------
  // Registry
  // ---------------------------------------------------------------------

  const RegistryReleaseName := "registry"
  const RegistryNamespace := "registry"
  const RegistryAuthSecret := "registry-auth"

  datatype Registry = Registry(isAirgap: bool)

  function NewRegistry(isAirgap: bool): (r: Registry)
    ensures r.isAirgap == isAirgap
  {
    Registry(isAirgap)
  }

  function RegistryName(): string { "Registry" }

  /** The component name mapped to the chart version with a "v" in front. */
  function RegistryVersion(vars: BuildVars): (m: map<string, string>)
    ensures m.Keys == {"Registry"}
    ensures m["Registry"] == "v" + vars.version
  {
    map["Registry" := "v" + vars.version]
  }

  /** The registry chart has no protected fields. */
  function RegistryProtectedFields(): (m: map<string, seq<string>>)
    ensures m.Keys == {RegistryReleaseName} && m[RegistryReleaseName] == []
  {
    map[RegistryReleaseName := []]
  }

  /** The registry has no host preflights: the result is always nil. */
  function RegistryHostPreflights(): (r: Option<string>)
    ensures r.None?
  {
    None
  }

  /** Online installations need no registry and get no entries; airgap ones
      get the registry chart, third in install order, from the "twuni"
      repository. The `onlyDefaults` flag of the source is ignored there. */
  function RegistryHelmConfig(reg: Registry, vars: BuildVars, renderedValues: Result<string>): (r: Result<HelmConfig>)
    ensures !reg.isAirgap ==> r == Ok(HelmConfig([], []))
    ensures reg.isAirgap && renderedValues.Err? ==> r == Err(MarshalContext + ": " + renderedValues.msg)
    ensures reg.isAirgap && renderedValues.Ok? ==>
              && r.Ok? && |r.value.charts| == 1 && |r.value.repositories| == 1
              && r.value.charts[0].targetNS == RegistryNamespace
              && r.value.charts[0].name == RegistryReleaseName
              && r.value.charts[0].order == 3
              && r.value.charts[0].chartName == vars.chartName
              && r.value.charts[0].version == vars.version
              && r.value.charts[0].values == renderedValues.value
              && r.value.repositories[0] == Repository("twuni", vars.chartURL)
  {
    if !reg.isAirgap then Ok(HelmConfig([], []))
    else if renderedValues.Err? then Err(Wrap(MarshalContext, renderedValues.msg))
    else
      Ok(HelmConfig(
        [Chart(RegistryReleaseName, vars.chartName, vars.version, RegistryNamespace, 3, renderedValues.value)],
        [Repository("twuni", vars.chartURL)]))
  }

  /** The secret the registry's `Outro` creates. */
  datatype Secret = Secret(name: string, namespace: string, stringData: map<string, string>, secretType: string)

  function RegistryAuth(): Secret {
    Secret(RegistryAuthSecret, RegistryNamespace, map["htpasswd" := "TODO"], "Opaque")
  }

  datatype OutroAction = WaitForNamespace(namespace: string) | CreateSecret(secret: Secret) | WaitForDeployment(namespace: string, name: string)

  /** The registry's post-install steps, each given by the error it returns. */
  datatype OutroWorld = OutroWorld(namespaceWait: Option<string>, create: Option<string>, deploymentWait: Option<string>)

  /** The calls `Outro` makes, in order, and the error it returns. The two
      waits return their error unchanged; only the secret creation adds
      context. Online installations do nothing. */
  function RegistryOutro(reg: Registry, w: OutroWorld): (r: (seq<OutroAction>, Option<string>))
    ensures !reg.isAirgap ==> r == ([], None)
    ensures reg.isAirgap ==> |r.0| > 0 && r.0[0] == WaitForNamespace(RegistryNamespace)
    ensures r.1.None? <==> !reg.isAirgap || (w.namespaceWait.None? && w.create.None? && w.deploymentWait.None?)
    ensures r.1.None? && reg.isAirgap ==>
              r.0 == [WaitForNamespace(RegistryNamespace), CreateSecret(RegistryAuth()), WaitForDeployment(RegistryNamespace, "registry")]
    ensures CreateSecret(RegistryAuth()) in r.0 <==> reg.isAirgap && w.namespaceWait.None?
  {
    var waitNs := WaitForNamespace(RegistryNamespace);
    var create := CreateSecret(RegistryAuth());
    var waitDeploy := WaitForDeployment(RegistryNamespace, "registry");
    if !reg.isAirgap then ([], None)
    else if w.namespaceWait.Some? then ([waitNs], w.namespaceWait)
    else if w.create.Some? then ([waitNs, create], Some(Wrap("unable to create registry-auth secret", w.create.value)))
    else ([waitNs, create, waitDeploy], w.deploymentWait)
  }

  /** The error of a failed `Outro` is the error of the first failing call,
      with context only for the secret. */
  lemma RegistryOutroErrors(w: OutroWorld)
    ensures var r := RegistryOutro(Registry(true), w);
      && (w.namespaceWait.Some? ==> r.1 == w.namespaceWait)
      && (w.namespaceWait.None? && w.create.Some? ==>
            r.1 == Some("unable to create registry-auth secret: " + w.create.value))
      && (w.namespaceWait.None? && w.create.None? ==> r.1 == w.deploymentWait)
  {
    assert "unable to create registry-auth secret" + ": " == "unable to create registry-auth secret: ";
  }

  // ---------------------------------------------------------------------
  // OpenEBS
  // ---------------------------------------------------------------------

  const OpenEBSReleaseName := "openebs"

  datatype OpenEBS = OpenEBS(namespace: string)

  function NewOpenEBS(namespace: string): (o: OpenEBS)
    ensures o.namespace == namespace
  {
    OpenEBS(namespace)
  }

  function OpenEBSVersion(version: string): (m: map<string, string>)
    ensures m.Keys == {"OpenEBS"}
    ensures m["OpenEBS"] == "v" + version
  {
    map["OpenEBS" := "v" + version]
  }

  /** OpenEBS has no host preflights: the result is always nil. */
  function OpenEBSHostPreflights(): (r: Option<string>)
    ensures r.None?
  {
    None
  }

  /** OpenEBS always contributes its chart, into the namespace it was
      created for, with the default install order, and its public
      repository. */
  function OpenEBSHelmConfig(o: OpenEBS, version: string, renderedValues: Result<string>): (r: Result<HelmConfig>)
    ensures renderedValues.Err? ==> r == Err(MarshalContext + ": " + renderedValues.msg)
    ensures renderedValues.Ok? ==>
              && r.Ok? && |r.value.charts| == 1 && |r.value.repositories| == 1
              && r.value.charts[0].name == OpenEBSReleaseName
              && r.value.charts[0].chartName == "openebs/openebs"
              && r.value.charts[0].targetNS == o.namespace
              && r.value.charts[0].version == version
              && r.value.charts[0].order == 0
              && r.value.charts[0].values == renderedValues.value
              && r.value.repositories[0] == Repository("openebs", "https://openebs.github.io/charts")
  {
    if renderedValues.Err? then Err(Wrap(MarshalContext, renderedValues.msg))
    else
      Ok(HelmConfig(
        [Chart(OpenEBSReleaseName, "openebs/openebs", version, o.namespace, 0, renderedValues.value)],
        [Repository("openebs", "https://openebs.github.io/charts")]))
  }

  /** OpenEBS's chart is named through the repository it contributes:
      `<repository>/<release>`. */
  lemma OpenEBSChartFromItsRepository(o: OpenEBS, version: string, renderedValues: Result<string>)
    requires renderedValues.Ok?
    ensures var c := OpenEBSHelmConfig(o, version, renderedValues).value;
      c.charts[0].chartName == c.repositories[0].name + "/" + c.charts[0].name
  {
  }
}
