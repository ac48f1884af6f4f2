/**
 * The installation record, the release metadata and the add-on descriptors
 * of the newer add-on code (`pkg/addons2`).
 *
 * Go models the add-ons as separate structs behind one interface; the set of
 * add-ons is closed, so here it is one sum type.
 */
module AddOns {
  import opened Wrappers

  datatype ProxySpec = ProxySpec(httpProxy: string, httpsProxy: string, noProxy: string)

  datatype NetworkSpec = NetworkSpec(podCIDR: string, serviceCIDR: string, nodePortRange: string)

  datatype LicenseInfo = LicenseInfo(isDisasterRecoverySupported: bool)

  /** The fields of an installation's spec that the add-on code reads.
      Pointers that may be nil are `Option`s. */
  datatype Installation = Installation(
    airGap: bool,
    highAvailability: bool,
    network: Option<NetworkSpec>,
    proxy: Option<ProxySpec>,
    licenseInfo: Option<LicenseInfo>,
    binaryName: string)
  {
    /** The service CIDR, or "" when the installation has no network spec. */
    function ServiceCIDR(): string {
      if network.Some? then network.value.serviceCIDR else ""
    }

    /** A nil licence info means disaster recovery is not supported. */
    predicate DisasterRecovery() {
      licenseInfo.Some? && licenseInfo.value.isDisasterRecoverySupported
    }
  }

  /** A chart entry of the release metadata. */
  datatype MetadataChart = MetadataChart(name: string, chartName: string, version: string)

  /** The release metadata bundled with the binary: its charts and its image
      references (each `repo:tag@digest`). */
  datatype ReleaseMetadata = ReleaseMetadata(charts: seq<MetadataChart>, images: seq<string>)

  datatype AddOn =
    | OpenEBS
    | EmbeddedClusterOperator(
        isAirgap: bool,
        proxy: Option<ProxySpec>,
        chartLocationOverride: string,
        chartVersionOverride: string,
        binaryNameOverride: string,
        imageRepoOverride: string,
        imageTagOverride: string,
        utilsImageOverride: string)
    | Registry(serviceCIDR: string, isHA: bool)
    | SeaweedFS(serviceCIDR: string)
    | Velero(proxy: Option<ProxySpec>)
    | AdminConsole(isAirgap: bool, isHA: bool, proxy: Option<ProxySpec>, serviceCIDR: string)
  {
    /** The fixed position of each kind of add-on in every add-on list:
        storage first, the admin console last. */
    function Rank(): nat {
      match this
      case OpenEBS => 0
      case EmbeddedClusterOperator(_, _, _, _, _, _, _, _) => 1
      case Registry(_, _) => 2
      case SeaweedFS(_) => 3
      case Velero(_) => 4
      case AdminConsole(_, _, _, _) => 5
    }
  }

  /** The add-ons appear in strictly increasing rank, so no kind appears twice. */
  ghost predicate InRankOrder(addons: seq<AddOn>) {
    forall i, j :: 0 <= i < j < |addons| ==> addons[i].Rank() < addons[j].Rank()
  }

  /** Some add-on of the given rank is in the list. */
  ghost predicate HasRank(addons: seq<AddOn>, rank: nat) {
    exists i :: 0 <= i < |addons| && addons[i].Rank() == rank
  }
}
