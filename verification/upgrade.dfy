/**
 * Choosing the add-ons to upgrade (`getAddOnsForUpgrade` in `pkg/addons2`).
 *
 * From the installation record and the release metadata the upgrade builds
 * the ordered list OpenEBS, embedded-cluster-operator, [Registry],
 * [SeaweedFS], [Velero], AdminConsole. The operator's chart and image are
 * looked up in the metadata; a missing chart or image is an error.
 */
module Upgrade {
  import opened Wrappers
  import opened Strings
  import opened AddOns

  const OperatorChartName := "embedded-cluster-operator"
  const OperatorImageName := "embedded-cluster-operator-image"
  const UtilsImageName := "ec-utils"

  const ChartNotFound := "no embedded-cluster-operator chart found"
  const ImageNotFound := "no embedded-cluster-operator-image found"

  /** The position of the first chart with the given name. */
  function FindChart(charts: seq<MetadataChart>, name: string): (r: Option<nat>)
    ensures r.Some? ==> r.value < |charts| && charts[r.value].name == name
    ensures r.Some? ==> forall j :: 0 <= j < r.value ==> charts[j].name != name
    ensures r.None? <==> forall j :: 0 <= j < |charts| ==> charts[j].name != name
  {
    if |charts| == 0 then None
    else if charts[0].name == name then Some(0)
    else
      match FindChart(charts[1..], name)
      case None => None
      case Some(k) => Some(k + 1)
  }

  /** The position of the first image reference containing `part`. */
  function FindImage(images: seq<string>, part: string): (r: Option<nat>)
    ensures r.Some? ==> r.value < |images| && Contains(images[r.value], part)
    ensures r.Some? ==> forall j :: 0 <= j < r.value ==> !Contains(images[j], part)
    ensures r.None? <==> forall j :: 0 <= j < |images| ==> !Contains(images[j], part)
  {
    if |images| == 0 then None
    else if ContainsComputed(images[0], part) then Some(0)
    else
      match FindImage(images[1..], part)
      case None => None
      case Some(k) => Some(k + 1)
  }

  /** Splits an image reference at its first ':' into repository and tag; a
      digest (`@sha256:...`) stays in the tag. */
  function SplitImage(image: string): (string, string)
  {
    match IndexOf(image, ":")
    case None => (image, "")
    case Some(i) => (image[..i], image[i + 1..])
  }

  /** The operator add-on built from the installation, the operator chart,
      the operator image and the utils image (or ""). */
  function OperatorAddOn(inst: Installation, chart: MetadataChart, image: string, utils: string): AddOn
  {
    var (repo, tag) := SplitImage(image);
    EmbeddedClusterOperator(
      inst.airGap, inst.proxy, chart.chartName, chart.version,
      inst.binaryName, repo, tag, utils)
  }

  /** The add-on list around a given operator add-on, filtered by the
      installation's airgap, HA and disaster-recovery settings. */
  function AddOnList(inst: Installation, eco: AddOn): seq<AddOn>
  {
    var cidr := inst.ServiceCIDR();
    [OpenEBS, eco]
    + (if inst.airGap then [Registry(cidr, inst.highAvailability)] else [])
    + (if inst.airGap && inst.highAvailability then [SeaweedFS(cidr)] else [])
    + (if inst.DisasterRecovery() then [Velero(inst.proxy)] else [])
    + [AdminConsole(inst.airGap, inst.highAvailability, inst.proxy, cidr)]
  }

  /** The first image reference mentioning the utils image, or "" when
      none does. */
  function UtilsImage(images: seq<string>): string
  {
    match FindImage(images, UtilsImageName)
    case Some(u) => images[u]
    case None => ""
  }

  function GetAddOnsForUpgrade(inst: Installation, meta: ReleaseMetadata): (r: Result<seq<AddOn>>)
    ensures r.Ok? ==> 3 <= |r.value| <= 6
  {
    match FindChart(meta.charts, OperatorChartName)
    case None => Err(ChartNotFound)
    case Some(c) =>
      match FindImage(meta.images, OperatorImageName)
      case None => Err(ImageNotFound)
      case Some(k) =>
        Ok(AddOnList(inst, OperatorAddOn(inst, meta.charts[c], meta.images[k], UtilsImage(meta.images))))
  }

  // ---------------------------------------------------------------------
  // Properties
  // ---------------------------------------------------------------------

  /** The operator image splits back into the reference it came from: the
      repository holds no ':' and repository ++ ":" ++ tag is the original. */
  lemma SplitImageRoundTrip(image: string)
    requires Contains(image, ":")
    ensures var (repo, tag) := SplitImage(image);
      && repo + ":" + tag == image
      && !Contains(repo, ":")
  {
    var i := IndexOf(image, ":").value;
    Around(image, i, ":");
    FirstPieceHasNoSep(image, ":", i);
  }

  /** A reference written as repository ":" tag, where the repository has no
      ':', splits into exactly that repository and tag, whatever the tag
      holds (a digest with its own ':' included). */
  lemma SplitImageOfReference(repo: string, tag: string)
    requires !Contains(repo, ":")
    ensures SplitImage(repo + ":" + tag) == (repo, tag)
  {
    var image := repo + ":" + tag;
    assert image[|repo|..|repo| + 1] == ":";
    assert OccursAt(image, ":", |repo|);
    var r := IndexOf(image, ":");
    assert r.Some?;
    if r.value < |repo| {
      assert image[r.value..r.value + 1] == repo[r.value..r.value + 1];
      assert OccursAt(repo, ":", r.value);
      assert false;
    }
    assert r.value == |repo|;
    assert image[..|repo|] == repo;
    assert image[|repo| + 1..] == tag;
  }

  /** The selection fails with the chart error exactly when no chart is named
      after the operator, and with the image error exactly when the chart is
      there but no image reference mentions the operator image; otherwise it
      succeeds. */
  lemma SelectionErrors(inst: Installation, meta: ReleaseMetadata)
    ensures var r := GetAddOnsForUpgrade(inst, meta);
      && (r == Err(ChartNotFound) <==>
            forall j :: 0 <= j < |meta.charts| ==> meta.charts[j].name != OperatorChartName)
      && (r == Err(ImageNotFound) <==>
            && (exists j :: 0 <= j < |meta.charts| && meta.charts[j].name == OperatorChartName)
            && (forall j :: 0 <= j < |meta.images| ==> !Contains(meta.images[j], OperatorImageName)))
      && (r.Ok? <==>
            && (exists j :: 0 <= j < |meta.charts| && meta.charts[j].name == OperatorChartName)
            && (exists j :: 0 <= j < |meta.images| && Contains(meta.images[j], OperatorImageName)))
  {
    var c := FindChart(meta.charts, OperatorChartName);
    var k := FindImage(meta.images, OperatorImageName);
    if c.Some? {
      assert meta.charts[c.value].name == OperatorChartName;
      if k.Some? {
        assert Contains(meta.images[k.value], OperatorImageName);
      }
    }
  }

  /** The shape of every successful selection: the add-ons are in rank order
      (so none appears twice), OpenEBS and the operator come first, the admin
      console comes last, and each optional add-on is present exactly when
      its condition holds. Rank order plus the three presence conditions fix
      the list of kinds completely. */
  lemma SelectionShape(inst: Installation, meta: ReleaseMetadata)
    requires GetAddOnsForUpgrade(inst, meta).Ok?
    ensures var addons := GetAddOnsForUpgrade(inst, meta).value;
      && InRankOrder(addons)
      && addons[0].OpenEBS?
      && addons[1].EmbeddedClusterOperator?
      && addons[|addons| - 1].AdminConsole?
      && (HasRank(addons, 2) <==> inst.airGap)
      && (HasRank(addons, 3) <==> inst.airGap && inst.highAvailability)
      && (HasRank(addons, 4) <==> inst.DisasterRecovery())
  {
    var addons := GetAddOnsForUpgrade(inst, meta).value;
    ListShape(inst, addons[1]);
  }

  lemma ListShape(inst: Installation, eco: AddOn)
    requires eco.EmbeddedClusterOperator?
    ensures var addons := AddOnList(inst, eco);
      && InRankOrder(addons)
      && addons[0].OpenEBS?
      && addons[1] == eco
      && addons[|addons| - 1].AdminConsole?
      && (HasRank(addons, 2) <==> inst.airGap)
      && (HasRank(addons, 3) <==> inst.airGap && inst.highAvailability)
      && (HasRank(addons, 4) <==> inst.DisasterRecovery())
  {
    ListOrder(inst, eco);
    ListPresence(inst, eco);
  }

  lemma ListOrder(inst: Installation, eco: AddOn)
    requires eco.EmbeddedClusterOperator?
    ensures InRankOrder(AddOnList(inst, eco))
  {
    var addons := AddOnList(inst, eco);
    ListRanks(inst, eco);
    var ranks := seq(|addons|, i requires 0 <= i < |addons| => addons[i].Rank());
    forall i, j | 0 <= i < j < |addons| ensures addons[i].Rank() < addons[j].Rank() {
      assert addons[i].Rank() == ranks[i] && addons[j].Rank() == ranks[j];
    }
  }

  lemma ListPresence(inst: Installation, eco: AddOn)
    requires eco.EmbeddedClusterOperator?
    ensures var addons := AddOnList(inst, eco);
      && (HasRank(addons, 2) <==> inst.airGap)
      && (HasRank(addons, 3) <==> inst.airGap && inst.highAvailability)
      && (HasRank(addons, 4) <==> inst.DisasterRecovery())
  {
    var addons := AddOnList(inst, eco);
    ListRanks(inst, eco);
    var ranks := seq(|addons|, i requires 0 <= i < |addons| => addons[i].Rank());
    assert forall i :: 0 <= i < |addons| ==> addons[i].Rank() == ranks[i];
    if inst.airGap {
      assert HasRank(addons, 2) by { assert addons[2].Rank() == 2; }
    }
    if inst.airGap && inst.highAvailability {
      assert HasRank(addons, 3) by { assert addons[3].Rank() == 3; }
    }
    if inst.DisasterRecovery() {
      assert HasRank(addons, 4) by { assert addons[|addons| - 2].Rank() == 4; }
    }
  }

  /** The ranks along the list, one case per combination of settings. */
  lemma ListRanks(inst: Installation, eco: AddOn)
    requires eco.EmbeddedClusterOperator?
    ensures var addons := AddOnList(inst, eco);
      var ranks := seq(|addons|, i requires 0 <= i < |addons| => addons[i].Rank());
      ranks == (if inst.airGap then
                  if inst.highAvailability then
                    if inst.DisasterRecovery() then [0, 1, 2, 3, 4, 5] else [0, 1, 2, 3, 5]
                  else if inst.DisasterRecovery() then [0, 1, 2, 4, 5] else [0, 1, 2, 5]
                else if inst.DisasterRecovery() then [0, 1, 4, 5] else [0, 1, 5])
  {
  }

  /** What each selected add-on other than the operator carries: the airgap
      and HA flags, the proxy and the service CIDR of the installation. */
  lemma SelectionFields(inst: Installation, meta: ReleaseMetadata)
    requires GetAddOnsForUpgrade(inst, meta).Ok?
    ensures var addons := GetAddOnsForUpgrade(inst, meta).value;
      forall i :: 0 <= i < |addons| ==>
        match addons[i]
        case Registry(cidr, isHA) => cidr == inst.ServiceCIDR() && isHA == inst.highAvailability
        case SeaweedFS(cidr) => cidr == inst.ServiceCIDR()
        case Velero(proxy) => proxy == inst.proxy
        case AdminConsole(airgap, isHA, proxy, cidr) =>
          && airgap == inst.airGap && isHA == inst.highAvailability
          && proxy == inst.proxy && cidr == inst.ServiceCIDR()
        case _ => true
  {
    var addons := GetAddOnsForUpgrade(inst, meta).value;
    ListFields(inst, addons[1]);
  }

  lemma ListFields(inst: Installation, eco: AddOn)
    requires eco.EmbeddedClusterOperator?
    ensures var addons := AddOnList(inst, eco);
      forall i :: 0 <= i < |addons| ==>
        match addons[i]
        case Registry(cidr, isHA) => cidr == inst.ServiceCIDR() && isHA == inst.highAvailability
        case SeaweedFS(cidr) => cidr == inst.ServiceCIDR()
        case Velero(proxy) => proxy == inst.proxy
        case AdminConsole(airgap, isHA, proxy, cidr) =>
          && airgap == inst.airGap && isHA == inst.highAvailability
          && proxy == inst.proxy && cidr == inst.ServiceCIDR()
        case _ => true
  {
  }

  /** The operator add-on (second in the list) carries the installation's
      airgap flag, proxy and binary name, the chart name and version of the
      metadata chart named after the operator, the operator image split into
      repository and tag, and the utils image when the metadata has one. */
  lemma OperatorFields(inst: Installation, meta: ReleaseMetadata)
    requires GetAddOnsForUpgrade(inst, meta).Ok?
    ensures var eco := GetAddOnsForUpgrade(inst, meta).value[1];
      && eco.EmbeddedClusterOperator?
      && eco.isAirgap == inst.airGap && eco.proxy == inst.proxy
      && eco.binaryNameOverride == inst.binaryName
      && (exists c :: 0 <= c < |meta.charts|
            && meta.charts[c].name == OperatorChartName
            && eco.chartLocationOverride == meta.charts[c].chartName
            && eco.chartVersionOverride == meta.charts[c].version)
      && (exists k :: 0 <= k < |meta.images|
            && Contains(meta.images[k], OperatorImageName)
            && (Contains(meta.images[k], ":") ==>
                  eco.imageRepoOverride + ":" + eco.imageTagOverride == meta.images[k]))
      && (eco.utilsImageOverride == "" || eco.utilsImageOverride in meta.images)
      && ((exists u :: 0 <= u < |meta.images| && Contains(meta.images[u], UtilsImageName))
            ==> Contains(eco.utilsImageOverride, UtilsImageName))
  {
    var c := FindChart(meta.charts, OperatorChartName).value;
    var k := FindImage(meta.images, OperatorImageName).value;
    SelectedOperator(inst, meta);
    OperatorAddOnFields(inst, meta.charts[c], meta.images[k], meta.images);
  }

  /** The second selected add-on is the operator built from the first
      operator chart, the first operator image and the utils image. */
  lemma SelectedOperator(inst: Installation, meta: ReleaseMetadata)
    requires GetAddOnsForUpgrade(inst, meta).Ok?
    ensures var c := FindChart(meta.charts, OperatorChartName);
      var k := FindImage(meta.images, OperatorImageName);
      && c.Some? && k.Some?
      && GetAddOnsForUpgrade(inst, meta).value[1] ==
           OperatorAddOn(inst, meta.charts[c.value], meta.images[k.value], UtilsImage(meta.images))
  {
  }

  /** What the operator add-on takes from the installation, the chart, the
      image and the images the utils image is looked up in. */
  lemma OperatorAddOnFields(inst: Installation, chart: MetadataChart, image: string, images: seq<string>)
    ensures var eco := OperatorAddOn(inst, chart, image, UtilsImage(images));
      && eco.EmbeddedClusterOperator?
      && eco.isAirgap == inst.airGap && eco.proxy == inst.proxy
      && eco.binaryNameOverride == inst.binaryName
      && eco.chartLocationOverride == chart.chartName
      && eco.chartVersionOverride == chart.version
      && (Contains(image, ":") ==> eco.imageRepoOverride + ":" + eco.imageTagOverride == image)
      && (eco.utilsImageOverride == "" || eco.utilsImageOverride in images)
      && ((exists u :: 0 <= u < |images| && Contains(images[u], UtilsImageName))
            ==> Contains(eco.utilsImageOverride, UtilsImageName))
  {
    if Contains(image, ":") {
      SplitImageRoundTrip(image);
    }
  }

  /** A successful selection is the add-on list around its second entry,
      the operator, which carries the installation's proxy. */
  lemma SelectionIsList(inst: Installation, meta: ReleaseMetadata)
    requires GetAddOnsForUpgrade(inst, meta).Ok?
    ensures var addons := GetAddOnsForUpgrade(inst, meta).value;
      && addons[1].EmbeddedClusterOperator? && addons[1].proxy == inst.proxy
      && addons == AddOnList(inst, addons[1])
  {
  }

  /** Online installation, no HA, no disaster recovery: exactly OpenEBS, the
      operator and a non-HA, non-airgap admin console. */
  lemma OnlineSelection(inst: Installation, meta: ReleaseMetadata)
    requires !inst.airGap && !inst.highAvailability && !inst.DisasterRecovery()
    requires GetAddOnsForUpgrade(inst, meta).Ok?
    ensures var addons := GetAddOnsForUpgrade(inst, meta).value;
      && |addons| == 3 && addons[0].OpenEBS? && addons[1].EmbeddedClusterOperator?
      && addons[2] == AdminConsole(false, false, inst.proxy, inst.ServiceCIDR())
  {
    SelectionIsList(inst, meta);
  }

  /** Airgap without HA: the registry comes third, carries the service CIDR
      and is not HA; no SeaweedFS. */
  lemma AirgapSelection(inst: Installation, meta: ReleaseMetadata)
    requires inst.airGap && !inst.highAvailability && !inst.DisasterRecovery()
    requires GetAddOnsForUpgrade(inst, meta).Ok?
    ensures var addons := GetAddOnsForUpgrade(inst, meta).value;
      && |addons| == 4
      && addons[2] == Registry(inst.ServiceCIDR(), false)
      && addons[3] == AdminConsole(true, false, inst.proxy, inst.ServiceCIDR())
  {
    SelectionIsList(inst, meta);
  }

  /** Disaster recovery without airgap: Velero sits third, right before the
      admin console, and carries the installation's proxy. */
  lemma DisasterRecoverySelection(inst: Installation, meta: ReleaseMetadata)
    requires !inst.airGap && inst.DisasterRecovery()
    requires GetAddOnsForUpgrade(inst, meta).Ok?
    ensures var addons := GetAddOnsForUpgrade(inst, meta).value;
      && |addons| == 4
      && addons[2] == Velero(inst.proxy)
      && addons[3].AdminConsole?
  {
    SelectionIsList(inst, meta);
  }

  /** Airgap, HA and disaster recovery: all six add-ons in the fixed order,
      the registry HA, SeaweedFS with the service CIDR, and the proxy copied
      to the operator, Velero and the admin console. */
  lemma FullSelection(inst: Installation, meta: ReleaseMetadata)
    requires inst.airGap && inst.highAvailability && inst.DisasterRecovery()
    requires GetAddOnsForUpgrade(inst, meta).Ok?
    ensures var addons := GetAddOnsForUpgrade(inst, meta).value;
      && |addons| == 6
      && addons[0].OpenEBS?
      && addons[1].EmbeddedClusterOperator? && addons[1].proxy == inst.proxy
      && addons[2] == Registry(inst.ServiceCIDR(), true)
      && addons[3] == SeaweedFS(inst.ServiceCIDR())
      && addons[4] == Velero(inst.proxy)
      && addons[5] == AdminConsole(true, true, inst.proxy, inst.ServiceCIDR())
  {
    SelectionIsList(inst, meta);
  }
}
