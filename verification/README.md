# Embedded Cluster: installer and add-on decision logic in Dafny

This project models the decision and transformation rules of the Embedded
Cluster installer. Embedded Cluster ships a Kubernetes distribution (k0s)
together with its add-ons as a single installer binary. Every call into
Helm or Kubernetes becomes an input to the model: the outcome or answer
that the call came back with. The orchestration then becomes a pure,
forward-only pipeline of steps (`Steps.RunSteps`), and each pipeline stops
at the first call that fails.

The model covers the following.

- **Upgrade add-on selection.** The ordered add-on list built from the
  installation record and the release metadata, plus the lookup of the
  operator chart and image (`Upgrade`).
- **High availability in the newer add-on code.** The HA eligibility
  check and the enable-HA sequence (`HighAvailability`).
- **High availability in the older add-on code.** The same check and
  sequence, plus the migration-job wait (`LegacyHighAvailability`).
- **OpenEBS upgrade.** The install-or-upgrade routing (`OpenEBSUpgrade`).
- **Older Registry and OpenEBS add-ons.** Their Helm chart and repository
  descriptors, and the registry's post-install steps (`LegacyAddOns`).
- **k0sctl cluster configuration.** Host validation, configuration
  generation, and the attachment of bundle files (`ClusterConfig`).
- **k0s images.** The image list and the image overrides (`K0sImages`).
- **Waiting.** The back-off arithmetic, the readiness tests, and the
  chart and deployment waits (`KubeUtils`).
- **CIDR flags.** Validation of the pod and service CIDR flags against
  the three private blocks of section 3 of RFC 1918 (`Cidr`).
- **Release data.** The layout of the release data appended to the
  binary, and the round trip that reads it back (`Embed`). This uses the
  standard Base64 encoding of section 4 of RFC 4648 (`Base64`).
- **The `install` command's helpers.** The airgap flag, the
  channel-release gate, the admin console password, the preparation of
  the installation CRD, and the network spec (`Installer`).

Errors are strings. A wrapped error is `context + ": " + cause`, which is
the text both `errors.Wrap` and `fmt.Errorf("…: %w")` produce.

Some source files are not part of this model:

- the body of `getAddOnsForUpgrade`, known only through its table test;
- `validateCIDR`, known only through its table test;
- the embed package, known only through its test;
- `validateAdminConsolePassword`.

Where the model relies on one of these, it follows the behaviour the tests
assert.

## Model

| member | source | states |
|---|---|---|
| Wrappers.Wrap | pkg/addons/registry/registry.go:162 | A wrapped error starts with the context text and ends with the cause text, with exactly two characters between them. |
| Steps.RunStepsSpec | pkg/addons2/highavailability.go:56-95 | A run starts the actions of a prefix of the steps. It completes iff every step succeeds. Otherwise the last started step is the first one that did not succeed, and a failure is reported as that step's cause wrapped in its context. |
| Steps.StartedIffEarlierSucceeded | pkg/addons2/highavailability.go:56-95 | A call is made iff every earlier call succeeded: nothing runs after a failure, and nothing is skipped before one. |
| Steps.RunAppend | pkg/addons2/highavailability.go:56-95 | Running two step lists one after the other runs the second only when the first completed. |
| Steps.RunStopsAt | pkg/addons2/highavailability.go:56-95 | When every step before step k succeeds and step k does not, exactly the first k + 1 actions are started. The run then ends as step k did: it never returns if the call blocks, and otherwise reports that call's wrapped error. |
| Upgrade.FindChart | pkg/addons2/upgrade_test.go:20-28 | The chart found is the first metadata chart with the operator's name. It is absent iff no chart has that name. |
| Upgrade.FindImage | pkg/addons2/upgrade_test.go:30-33 | The image found is the first reference that mentions the given name. It is absent iff no reference mentions it. |
| Upgrade.SplitImage | pkg/addons2/upgrade_test.go:31 | Splits an image reference at its first ':'. Its behaviour is stated by Upgrade.SplitImageRoundTrip and SplitImageOfReference. |
| Upgrade.GetAddOnsForUpgrade | pkg/addons2/upgrade_test.go:268 | A successful selection has between three and six add-ons. |
| Upgrade.SelectionErrors | pkg/addons2/upgrade_test.go:235-263 | The selection fails with "no embedded-cluster-operator chart found" iff no chart is named after the operator. It fails with "no embedded-cluster-operator-image found" iff that chart exists but no image mentions the operator image. Otherwise it succeeds. |
| Upgrade.SelectionShape | pkg/addons2/upgrade_test.go:43-232 | The add-ons are in the fixed order with no kind twice: OpenEBS first, the operator second, the admin console last. The registry is present iff airgap; SeaweedFS iff airgap and HA; Velero iff the licence supports disaster recovery. |
| Upgrade.SelectionFields | pkg/addons2/upgrade_test.go:109-119 | The registry, SeaweedFS, Velero and the admin console carry the installation's airgap and HA flags, proxy and service CIDR. |
| Upgrade.OperatorFields | pkg/addons2/upgrade_test.go:59-68 | The operator carries the installation's airgap flag, proxy and binary name, and the operator chart's name and version. Its repository and tag join back with ':' into the operator image. Its utils image is either empty or one of the metadata images, and it mentions "ec-utils" whenever some image does. |
| Upgrade.SplitImageRoundTrip | pkg/addons2/upgrade_test.go:31 | Splitting an image reference at its first ':' gives a repository without ':'. The repository, a ':' and the tag join back into the reference. |
| Upgrade.SplitImageOfReference | pkg/addons2/upgrade_test.go:66-67 | A reference written as repository ':' tag splits into exactly that repository and tag, even when the tag holds a digest with its own ':'. |
| Upgrade.OnlineSelection | pkg/addons2/upgrade_test.go:43-76 | Online, without HA or disaster recovery, the list is exactly OpenEBS, the operator, and a non-airgap, non-HA admin console. |
| Upgrade.AirgapSelection | pkg/addons2/upgrade_test.go:79-120 | Airgap without HA gives four add-ons. The third is a non-HA registry with the service CIDR, and the last is an airgap admin console. |
| Upgrade.DisasterRecoverySelection | pkg/addons2/upgrade_test.go:123-166 | With disaster recovery and without airgap, Velero with the installation's proxy comes third, right before the admin console. |
| Upgrade.FullSelection | pkg/addons2/upgrade_test.go:169-232 | Airgap, HA and disaster recovery give all six add-ons in order: an HA registry, SeaweedFS with the service CIDR, and the proxy copied to the operator, Velero and the admin console. |
| HighAvailability.CanEnableHA | pkg/addons2/highavailability.go:22-42 | An installation already in HA, or an existing restore-state config map, gives false. Each failed read is passed on with its own context: "get latest installation", "get restore state configmap" (unless NotFound) or "check control plane nodes". Otherwise the answer is "at least three control-plane nodes". |
| HighAvailability.EnableHA | pkg/addons2/highavailability.go:45-98 | The calls of the newer enable-HA operation in order, stopping at the first failure. Its behaviour is stated by HighAvailability.EnableHAWritesLast, AirgapCallOrder, AirgapInstallsOnlyWhenMissing and AdminConsoleFailureStops. |
| HighAvailability.AdminConsoleHA | pkg/addons2/highavailability.go:104-109 | The admin console is always upgraded as HA, with the given airgap flag, service CIDR and proxy. |
| HighAvailability.EnableAdminConsoleHA | pkg/addons2/highavailability.go:102-115 | Exactly one call, the HA admin console upgrade. It succeeds iff that upgrade does, and otherwise fails with "upgrade admin console: " and the cause. |
| HighAvailability.AirgapStepsSucceed | pkg/addons2/highavailability.go:56-76 | The airgap part succeeds iff every call in it succeeds. |
| HighAvailability.PrefixRun | pkg/addons2/highavailability.go:49-76 | The calls before the admin console upgrade complete iff the cluster is online or every airgap call succeeds. None of them writes the installation. |
| HighAvailability.EnableHAWritesLast | pkg/addons2/highavailability.go:56-95 | HighAvailability=true is written iff every earlier call succeeded, and then it is the last call started. |
| HighAvailability.OnlineEnableHATouchesOnlyAdminConsole | pkg/addons2/highavailability.go:49-84 | Without airgap, neither SeaweedFS nor the registry is touched. The first call is the admin console upgrade. |
| HighAvailability.AirgapStarted | pkg/addons2/highavailability.go:49-95 | In an airgap cluster the actions of the airgap part are started first. Every SeaweedFS install, registry migration or registry upgrade lies within that part. |
| HighAvailability.AirgapCallOrder | pkg/addons2/highavailability.go:49-95 | In an airgap cluster a run makes a prefix of one fixed list of calls: the SeaweedFS release check, its install only when the release is missing, the registry migration, the HA registry upgrade, the admin console upgrade, then the installation read and write. The admin console is reached only once the airgap part has completed. |
| HighAvailability.AirgapMigratesBeforeUpgrade | pkg/addons2/highavailability.go:67-76 | The registry is migrated before it is upgraded, and the upgrade has HA on. |
| HighAvailability.AirgapInstallsOnlyWhenMissing | pkg/addons2/highavailability.go:56-65 | SeaweedFS is installed iff its release check succeeded and found no release. The install is then the second call. |
| HighAvailability.AdminConsoleFailureStops | pkg/addons2/highavailability.go:49-84 | When the admin console upgrade fails, online or after a completed airgap part, it is the last call: the installation is neither read nor written. The error names both layers. |
| HighAvailability.RecordRun | pkg/addons2/highavailability.go:79-95 | The shared tail is the admin console upgrade, the read of the latest installation, and the write with HA on. Each call is started only if the one before it succeeded, and each failure carries its own context. |
| HighAvailability.RecordWrites | pkg/addons2/highavailability.go:79-95 | The shared tail writes iff the admin console upgrade and the installation read both succeed. The write is its last call, and the tail completes iff the write succeeds as well. |
| HighAvailability.AirgapRun | pkg/addons2/highavailability.go:56-76 | The airgap part starts its calls in order, stops at the first failure, and carries each failure's context. |
| LegacyHighAvailability.CanEnableHA | pkg/addons/highavailability.go:25-48 | HA is possible iff the reason is empty. The reasons are "already enabled", then "a restore is in progress", then fewer than three control-plane nodes. They are checked in that order and the first that applies wins. |
| LegacyHighAvailability.EnableHA | pkg/addons/highavailability.go:51-126 | The calls of the older enable-HA operation in order, stopping at the first failure or at a job that never reports. Its behaviour is stated by LegacyHighAvailability.EnableHAWritesLast, SilentJobNeverReturns and AirgapAlwaysInstallsSeaweedFS. |
| LegacyHighAvailability.WaitForJob | pkg/addons/highavailability.go:158-168 | Reads the job's progress and error channels until an error value arrives. Its behaviour is stated by LegacyHighAvailability.WaitForJobSpec. |
| LegacyHighAvailability.CanEnableHAVersionsAgree | pkg/addons/highavailability.go:25-48 | The older and newer eligibility checks give the same errors and the same yes/no answer. |
| LegacyHighAvailability.WaitForJobSpec | pkg/addons/highavailability.go:158-168 | The wait returns iff some error value arrives. It then returns the first one, possibly nil, and logs exactly the progress messages received before it. Progress alone never ends the wait. |
| LegacyHighAvailability.WaitOutcome | pkg/addons/highavailability.go:81-99 | As a step, a nil error from the job is success and a job that never reports blocks forever. |
| LegacyHighAvailability.AirgapStepsSucceed | pkg/addons/highavailability.go:57-100 | The airgap part completes iff the SeaweedFS install, the reads, the job start and the registry upgrade succeed and the job reports nil. |
| LegacyHighAvailability.AirgapStepsDoNotWrite | pkg/addons/highavailability.go:57-100 | The airgap part never writes the installation. |
| LegacyHighAvailability.PrefixRun | pkg/addons/highavailability.go:57-100 | The calls before the admin console upgrade complete iff the cluster is online or every airgap call succeeds. None of them writes. |
| LegacyHighAvailability.EnableHAWritesLast | pkg/addons/highavailability.go:102-120 | HighAvailability=true is written iff every earlier call succeeded, and then it is the last call started. |
| LegacyHighAvailability.SilentJobNeverReturns | pkg/addons/highavailability.go:158-168 | A migration job that only ever reports progress leaves the enable-HA run hanging. The registry is not upgraded and the installation is not written. |
| LegacyHighAvailability.OnlineVersionsAgree | pkg/addons/highavailability.go:51-126 | Online, the older and newer enable-HA make the same calls and end the same way. |
| LegacyHighAvailability.AirgapAlwaysInstallsSeaweedFS | pkg/addons/highavailability.go:61-66 | In an airgap cluster the first call is always the SeaweedFS install. There is no existence check first. |
| OpenEBSUpgrade.UpgradeRoutes | pkg/addons2/openebs/upgrade.go:12-42 | A failing existence check stops at once, with a wrapped error. A missing release is installed. An existing one is prepared, and then upgraded with the fixed name and namespace and without force. Each failure is wrapped with its context. |
| OpenEBSUpgrade.Upgrade | pkg/addons2/openebs/upgrade.go:12-42 | Checks for the release, then installs it or prepares and upgrades it. Its behaviour is stated by OpenEBSUpgrade.UpgradeRoutes and InstallXorUpgrade. |
| OpenEBSUpgrade.InstallXorUpgrade | pkg/addons2/openebs/upgrade.go:17-36 | Install and upgrade are never both attempted. The install happens only when the release is missing, and the upgrade only on an existing release, directly after a successful prepare. |
| LegacyAddOns.NewRegistry | pkg/addons/registry/registry.go:176-178 | The new registry records the airgap flag. |
| LegacyAddOns.RegistryVersion | pkg/addons/registry/registry.go:83-85 | A single entry, "Registry" mapped to "v" followed by the chart version. |
| LegacyAddOns.RegistryProtectedFields | pkg/addons/registry/registry.go:99-102 | A single entry, "registry" mapped to an empty list. |
| LegacyAddOns.RegistryHostPreflights | pkg/addons/registry/registry.go:93-95 | Always nil. |
| LegacyAddOns.RegistryHelmConfig | pkg/addons/registry/registry.go:105-130 | Online gives no charts and no repositories. Airgap gives one chart ("registry" into namespace "registry", order 3, with the build's chart name and version and the rendered values) and one repository ("twuni" at the chart URL). A rendering failure is wrapped. |
| LegacyAddOns.RegistryOutro | pkg/addons/registry/registry.go:133-173 | Online does nothing. Airgap waits for the namespace, then creates the auth secret, then waits for the deployment, stopping at the first failure. It succeeds iff all three do, and the secret is created iff the namespace wait succeeded. |
| LegacyAddOns.RegistryOutroErrors | pkg/addons/registry/registry.go:140-170 | The error is that of the first failing call. Only the secret creation adds context. |
| LegacyAddOns.NewOpenEBS | pkg/addons/openebs/openebs.go:68-70 | The new add-on records its namespace. |
| LegacyAddOns.OpenEBSVersion | pkg/addons/openebs/openebs.go:36-38 | A single entry, "OpenEBS" mapped to "v" followed by the version. |
| LegacyAddOns.OpenEBSHostPreflights | pkg/addons/openebs/openebs.go:42-44 | Always nil. |
| LegacyAddOns.OpenEBSHelmConfig | pkg/addons/openebs/openebs.go:46-66 | Always one chart, "openebs" from "openebs/openebs" into the add-on's namespace with order 0 and the rendered values, and one repository, "openebs" at https://openebs.github.io/charts. A rendering failure is wrapped. |
| LegacyAddOns.OpenEBSChartFromItsRepository | pkg/addons/openebs/openebs.go:47-57 | The chart is named after the repository it contributes: repository name, '/', release name. |
| ClusterConfig.CountRolePositive | pkg/config/config.go:180-187 | A role count is positive iff some host's role mentions the role. |
| ClusterConfig.CountRoleAppend | pkg/config/config.go:180-187 | Adding a host adds one to a role count iff its role mentions that role. |
| ClusterConfig.CountRoles | pkg/config/config.go:180-187 | The counting loop returns the number of hosts mentioning "controller" and the number mentioning "worker". |
| ClusterConfig.ValidateHosts | pkg/config/config.go:174-195 | A valid list has at least one controller and at least one worker, and neither count exceeds the number of hosts. |
| ClusterConfig.ValidateHostsSpec | pkg/config/config.go:174-195 | The hosts are valid iff some host can be a controller and some a worker, so one "controller+worker" host is enough. The errors come in the order: no hosts, no controller, no worker. |
| ClusterConfig.GenerateConfigForHosts | pkg/config/config.go:275-305 | The hosts are kept unchanged and in order. Networking is Calico and telemetry is off. An external API address and SAN are set iff a load balancer was given, and they name it. |
| ClusterConfig.RenderSingleNodeConfig | pkg/config/config.go:309-322 | One local host with no load balancer, and that host list validates as one controller and one worker. |
| ClusterConfig.RenderMultiNodeConfig | pkg/config/config.go:247-272 | Failing to collect hosts interactively is reported as "unable to collect hosts" with the cause. |
| ClusterConfig.RenderMultiNodeConfigSpec | pkg/config/config.go:247-272 | Invalid hosts give "invalid hosts configuration" with the cause. With more than one controller, a failing load-balancer question gives "unable to ask for load balancer" with the cause, and an answer becomes the load balancer. A result keeps the valid hosts, and it has a load balancer iff there is more than one controller and the answer is not empty. With at most one controller the question's answer plays no part. |
| ClusterConfig.RenderClusterConfig | pkg/config/config.go:42-47 | Without the multi-node flag the result is always one local host that validates as one controller and one worker, with no load balancer. With it, failing to collect hosts is reported with the cause, and a result keeps the collected hosts, which are valid. |
| ClusterConfig.BundleFiles | pkg/config/config.go:344-355 | There are no more upload entries than directory entries. |
| ClusterConfig.BundleFilesSpec | pkg/config/config.go:344-355 | The upload entries are exactly the directory entries whose names contain ".tar". Each is uploaded from the bundle directory to the k0s image directory with mode 0755. |
| ClusterConfig.UpdateHostFiles | pkg/config/config.go:337-359 | Without a bundle, or for a host that is not a worker, the files are cleared. A failed directory read is wrapped. Nothing but the host's files changes. |
| ClusterConfig.UpdateHostFilesAppends | pkg/config/config.go:352-357 | The archives are appended to the files the host already lists. A second update lists them twice. |
| ClusterConfig.UpdateHostsFiles | pkg/config/config.go:327-334 | The walk returns one host for each host given. Each worker reads the bundle directory for itself. |
| ClusterConfig.UpdateHostsFilesError | pkg/config/config.go:327-359 | The walk fails iff a bundle is given and the directory read of some worker fails. |
| ClusterConfig.UpdateHostsFilesSuccess | pkg/config/config.go:327-334 | After a successful walk each host is its own update. |
| ClusterConfig.UpdateHostsFilesFailure | pkg/config/config.go:327-359 | When host f's read is the first to fail, the error is that read's error wrapped in both contexts. Every earlier host keeps its own update, so earlier workers already have their archives appended. Host f and every later host are left as they were. |
| K0sImages.ImageName | pkg/config/images.go:93-95 | The image name is the proxy prefix followed by the component name. |
| K0sImages.ImageNameInjective | pkg/config/images.go:93-95 | Different components get different image names. |
| K0sImages.ListK0sImages | pkg/config/images.go:29-48 | The loop computes the bundle image list. |
| K0sImages.BundleImagesSpec | pkg/config/images.go:29-48 | An image is in the list iff it is what some listed image contributes: the image itself, or the pause URI for a pause image. The Kube-router CNI, CNI installer and Konnectivity images contribute nothing. |
| K0sImages.BundleImagesExcludes | pkg/config/images.go:33-41 | Every entry other than the pause URI is a listed image that is neither skipped nor a pause image. |
| K0sImages.BundleImagesAppend | pkg/config/images.go:31-46 | The listed images are handled one at a time, in order. |
| K0sImages.OverrideK0sImages | pkg/config/images.go:50-91 | Each of the seven components gets its proxied image at the version the metadata gives for it, or "" when there is none. A missing image section is created, and other settings are kept. |
| K0sImages.OverrideIdempotent | pkg/config/images.go:50-91 | Overriding twice is overriding once. |
| K0sImages.OverriddenImagesDistinct | pkg/config/images.go:55-74 | The seven components end up with seven different images. |
| KubeUtils.BackOffToDuration | pkg/kubeutils/kubeutils.go:16-24 | The loop returns 0 when there are no steps, and otherwise the sum of the first `steps` waits of the schedule. |
| KubeUtils.ConstantBackoffTotal | pkg/kubeutils/kubeutils.go:16-24 | With factor 1 every wait is the initial one, and the total is steps times the initial wait. |
| KubeUtils.ZeroFactorTotal | pkg/kubeutils/kubeutils.go:16-24 | With factor 0 only the first wait counts. |
| KubeUtils.WaitBackoffTotal | pkg/kubeutils/kubeutils.go:30 | The back-off the waits use, 60 steps of 5 s with factor 1, adds up to 300 s, the figure BackOffToDuration reports for it. |
| KubeUtils.IsReady | pkg/kubeutils/kubeutils.go:62-85 | The shared readiness test: ready iff the desired count is set and equals the ready count. A failed read is passed on unchanged. |
| KubeUtils.IsDeploymentReady | pkg/kubeutils/kubeutils.go:62-72 | A deployment is ready iff its desired replica count is set and equals its ready count. A failed read is passed on unchanged. |
| KubeUtils.IsStatefulSetReady | pkg/kubeutils/kubeutils.go:75-85 | A stateful set is ready iff its desired replica count is set and equals its ready count. A failed read is passed on unchanged. |
| KubeUtils.BackoffFromSpec | pkg/kubeutils/kubeutils.go:31-41 | The back-off succeeds iff the condition holds at some attempt within budget after being false at every earlier one. It fails with the condition's error when that comes first, and times out when the condition is false throughout. |
| KubeUtils.ExponentialBackoff | pkg/kubeutils/kubeutils.go:32-41 | The retry loop the waits run: the condition is polled until it is done, returns an error, or the step budget runs out. Its behaviour is stated by KubeUtils.BackoffFromSpec. |
| KubeUtils.WaitForChart | pkg/kubeutils/kubeutils.go:29-42 | Every failure is reported as "timed out waiting for chart <name>: " and a cause. |
| KubeUtils.WaitForChartSpec | pkg/kubeutils/kubeutils.go:29-42 | The chart wait succeeds iff the chart reports a release name within 60 attempts, every earlier read having succeeded without one. A read error ends it at once. |
| KubeUtils.WaitForDeployment | pkg/kubeutils/kubeutils.go:44-59 | The deployment wait, which remembers the last read error. Its behaviour is stated by KubeUtils.DeploymentFromSpec and WaitForDeploymentSpec. |
| KubeUtils.DeploymentFromSpec | pkg/kubeutils/kubeutils.go:45-59 | From any attempt on, the wait succeeds iff the deployment is ready at a later attempt within 60. A time-out reports the last read error, or "<nil>". |
| KubeUtils.WaitForDeploymentSpec | pkg/kubeutils/kubeutils.go:45-59 | The deployment wait succeeds iff the deployment is ready at one of its 60 attempts. Read errors never end it early. On time-out it reports the last read error, or "<nil>". |
| Cidr.Decimal | cmd/embedded-cluster/network_test.go:17 | A decimal writing has at least one digit and only digits. |
| Cidr.DecimalRoundTrip | cmd/embedded-cluster/network_test.go:15-46 | Reading a written number gives it back. The writing has no leading zero, and a number up to 255 takes at most three digits. |
| Cidr.ParseOctet | cmd/embedded-cluster/network_test.go:24-28 | An accepted address field is at most 255. |
| Cidr.OctetRoundTrip | cmd/embedded-cluster/network_test.go:15-46 | Every number up to 255, written in decimal, is accepted as an address field. |
| Cidr.AddressRoundTrip | cmd/embedded-cluster/network_test.go:15-46 | Four octets written with dots parse back to the same four octets. |
| Cidr.ParseCIDR | cmd/embedded-cluster/network_test.go:24-28 | A rejected CIDR gives "invalid CIDR address: " followed by the input. An accepted one has octets up to 255 and a prefix up to 32. |
| Cidr.ParseFormat | cmd/embedded-cluster/network_test.go:15-46 | Parsing the canonical writing of a block gives the block back. |
| Cidr.FormatValidation | cmd/embedded-cluster/network_test.go:15-46 | Validating the canonical writing of a block decides by the block alone. A prefix longer than 16 is too small. Otherwise the block passes iff it lies in a private range. |
| Cidr.BadFirstOctet | cmd/embedded-cluster/network_test.go:26 | A dotted address whose first field is not an octet does not parse. |
| Cidr.BadAddress | cmd/embedded-cluster/network_test.go:24-28 | A CIDR whose address does not parse is rejected as a whole, with "invalid CIDR address". |
| Cidr.ValidateCIDR | cmd/embedded-cluster/network_test.go:19-33 | A parse error is reported as is. A prefix longer than /16 is rejected with "cidr needs to be at least a /16". |
| Cidr.ValidateCIDRSpec | cmd/embedded-cluster/network_test.go:15-46 | A CIDR is accepted iff it parses, its prefix is at most /16 and the whole block lies inside one of the RFC 1918 blocks. It is rejected as not private iff it parses with prefix at most /16 but lies outside them. |
| Cidr.PrivateByOctetsIsContainment | cmd/embedded-cluster/network_test.go:34-46 | The octet test (a long enough prefix on an address of 10/8, 172.16/12 or 192.168/16) is exactly containment in one of those blocks. |
| Cidr.InsideTen | cmd/embedded-cluster/network_test.go:15-18 | A block lies inside 10.0.0.0/8 iff its prefix is at least 8 and its first octet is 10. |
| Cidr.InsideOneSevenTwo | cmd/embedded-cluster/network_test.go:43-46 | A block lies inside 172.16.0.0/12 iff its prefix is at least 12, its first octet is 172 and its second is 16 to 31. |
| Cidr.InsideOneNineTwo | cmd/embedded-cluster/network_test.go:39-42 | A block of prefix at most 16 lies inside 192.168.0.0/16 iff it is exactly that block. |
| Cidr.ValidExample | cmd/embedded-cluster/network_test.go:15-18 | 10.0.0.0/16 is accepted. |
| Cidr.SmallExample | cmd/embedded-cluster/network_test.go:19-23 | 10.0.0.0/24 is rejected as too small. |
| Cidr.OutOfRangeExample | cmd/embedded-cluster/network_test.go:24-28 | 500.0.0.0/16 is rejected as an invalid CIDR address. |
| Cidr.HostExample | cmd/embedded-cluster/network_test.go:29-33 | 10.0.0.0/32 is rejected as too small. |
| Cidr.PublicExample | cmd/embedded-cluster/network_test.go:34-38 | 100.0.0.0/16 is rejected as not private. |
| Cidr.WholeBlockExample | cmd/embedded-cluster/network_test.go:39-42 | 192.168.0.0/16 is accepted. |
| Cidr.WholeTwelveExample | cmd/embedded-cluster/network_test.go:43-46 | 172.16.0.0/12 is accepted. |
| Base64.Digit | pkg/embed/embed_test.go:38 | No sextet is written as the padding character. |
| Base64.SextetOf | pkg/embed/embed_test.go:38 | A character's value is below 64, and padding has none. |
| Base64.Encode | pkg/embed/embed_test.go:38 | Padded standard Base64 of the bytes. Its behaviour is stated by Base64.EncodeLength, EncodeAlphabet, DecodeEncode and TestVectors. |
| Base64.Decode | pkg/embed/embed_test.go:56-59 | Decodes padded standard Base64, failing on corrupt input. Its behaviour is stated by Base64.DecodeEncode. |
| Base64.DigitBijection | pkg/embed/embed_test.go:38 | The alphabet is a bijection between 0..63 and its 64 characters. |
| Base64.EncodeLength | pkg/embed/embed_test.go:51-53 | The encoding has four characters for every started group of three bytes. |
| Base64.EncodeAlphabet | pkg/embed/embed_test.go:38 | The encoding is alphabet characters, with padding only in the last two positions. |
| Base64.GroupRoundTrip | pkg/embed/embed_test.go:56-59 | Decoding one full group gives its three bytes back. |
| Base64.OneByteRoundTrip | pkg/embed/embed_test.go:56-59 | Decoding a final group padded with "==" gives its one byte back. |
| Base64.TwoBytesRoundTrip | pkg/embed/embed_test.go:56-59 | Decoding a final group padded with "=" gives its two bytes back. |
| Base64.DecodeEncode | pkg/embed/embed_test.go:56-59 | Decoding an encoding gives the original bytes. |
| Base64.TestVectors | pkg/embed/embed_test.go:38 | "f", "fo" and "foo" encode as "Zg==", "Zm8=" and "Zm9v", the test vectors of RFC 4648. |
| Embed.EmbedRelease | pkg/embed/embed_test.go:44-46 | Appends the begin delimiter, the encoded release and the end delimiter to the binary. Its behaviour is stated by Embed.EmbedLayout. |
| Embed.ExtractRelease | pkg/embed/embed_test.go:56-59 | Decodes what lies between the first begin delimiter and the first end delimiter after it. Its behaviour is stated by Embed.ExtractEmbed. |
| Embed.EmbedLayout | pkg/embed/embed_test.go:44-53 | The output is the binary unchanged, then the begin delimiter, then the encoded release, then the end delimiter. Its length is the sum of theirs. |
| Embed.BeginFound | pkg/embed/embed_test.go:56 | The first begin delimiter in the output is the one that was appended. |
| Embed.EndFound | pkg/embed/embed_test.go:56 | The first end delimiter after the encoded data is the one that was appended. |
| Embed.ExtractEmbed | pkg/embed/embed_test.go:56-59 | Extracting from an embedded binary gives the release back, for delimiters the binary and the encoding cannot imitate. |
| Installer.IsAirgap | cmd/installer/cli/install2.go:206 | An install is an airgap install exactly when a bundle path is given. Installer.BundleNeverAsked states what that means for the channel-release gate. |
| Installer.VerifyChannelRelease | cmd/installer/cli/install2.go:426-440 | A read failure gives "unable to read channel release data: " and the cause. The install stops quietly iff the question is asked and declined. In every other case it proceeds. |
| Installer.BundleNeverAsked | cmd/installer/cli/install2.go:432 | An install given an airgap bundle is never asked to go online, so it never stops at the gate. |
| Installer.AnswerIgnoredUnlessAsked | cmd/installer/cli/install2.go:432-438 | The user's answer changes nothing unless the question is asked. |
| Installer.PromptFrom | cmd/installer/cli/install2.go:406-416 | The prompt loop asks for at most three pairs. |
| Installer.PromptFromSpec | cmd/installer/cli/install2.go:406-416 | The loop stops at the first accepted pair and takes its password. If all three pairs are rejected, it asks all three and keeps no password. |
| Installer.OnlyThreeTries | cmd/installer/cli/install2.go:406-407 | Only the first three answer pairs are ever looked at. |
| Installer.ResolvePassword | cmd/installer/cli/install2.go:395-421 | A resolved password is never empty. At most three pairs are asked for, and none when a password was given. |
| Installer.ResolvePasswordSpec | cmd/installer/cli/install2.go:395-421 | A given password is used iff it validates against itself, and otherwise refused. Without one, `--yes` picks "password". Otherwise the first accepted pair decides. Three rejections, or an empty accepted password, give "no admin console password". |
| Installer.HelmOwned | cmd/installer/cli/install2.go:673-682 | The CRD gets managed-by=Helm and the operator's release name and namespace annotations. Missing maps are created. Every other label and annotation is kept. |
| Installer.HelmOwnedIdempotent | cmd/installer/cli/install2.go:673-682 | Marking twice is marking once. |
| Installer.WaitEstablishedSpec | cmd/installer/cli/install2.go:689-705 | The readiness wait succeeds iff the CRD is seen established within 600 attempts, a failed read counting as not yet established. Otherwise it times out. |
| Installer.ApplyCrds | cmd/installer/cli/install2.go:667-706 | No more CRDs are submitted than there are documents. |
| Installer.ApplyCrdsSubmits | cmd/installer/cli/install2.go:667-687 | Each submitted CRD is the Helm-marked decoding of its document, in document order. |
| Installer.ApplyCrdsSucceeds | cmd/installer/cli/install2.go:667-708 | Applying succeeds iff every document decodes, is created and becomes established. Every document is then submitted. |
| Installer.CrdDocuments | cmd/installer/cli/install2.go:665 | The CRD documents contain no separator, and joined back with it they are the whole file. |
| Installer.CreateInstallationCrd | cmd/installer/cli/install2.go:663-709 | Splits the embedded CRD file into documents and applies them in order. Its behaviour is stated by Installer.CrdDocuments, ApplyCrdsSubmits and ApplyCrdsSucceeds. |
| Installer.AsWrittenPanicsWithoutSpec | cmd/installer/cli/install2.go:719 | The network spec as written fails on a configuration without a spec. |
| Installer.NetworkSpecAsWritten | cmd/installer/cli/install2.go:711-726 | The network spec as written, where a missing spec is a failure. Its behaviour is stated by Installer.AsWrittenPanicsWithoutSpec and NetworkSpecFields. |
| Installer.NetworkSpecFromK0sConfig | cmd/installer/cli/install2.go:711-726 | The network spec with the spec's presence checked first. Its behaviour is stated by Installer.NetworkSpecFields. |
| Installer.NetworkSpecFields | cmd/installer/cli/install2.go:711-726 | The CIDRs are copied iff both the spec and its network section exist. The node-port range is taken iff the API's extra arguments have the key. The guarded version never fails, and agrees with the version as written wherever that one returns. |
| Strings.IndexOf | pkg/addons2/upgrade_test.go:31 | The position found is the first occurrence. There is none iff the text does not contain the search text. |
| Strings.ContainsComputed | pkg/config/images.go:38 | The computed substring test agrees with the substring relation. |
| Strings.SplitPiecesHaveNoSep | cmd/installer/cli/install2.go:665 | No piece of a split contains the separator. |
| Strings.JoinSplit | cmd/installer/cli/install2.go:665 | Joining the pieces of a split with the separator gives the text back. |
| Strings.SplitJoin | cmd/installer/cli/install2.go:665 | Splitting a join on a one-character separator that no piece contains gives the pieces back. |

## Left out

- Helm and Kubernetes calls, the migration job, the CRD decoder, directory reads and the user's prompts are not executed. Each is given by the outcome or answer it produces.
- Goroutines and channels in `waitForJobAndLogProgress` become a finite, ordered list of events. Timing and the select between channels are not modelled.
- Sleeps, jitter and wall-clock time in the back-off loops are not modelled. Attempt `i` sees `probe(i)`.
- Installer.WaitEstablishedSpec: cancellation of the command's context is not modelled. `wait.ExponentialBackoffWithContext` at cmd/installer/cli/install2.go:689 would then return the context's error, a third outcome besides success and time-out.
- KubeUtils.BackOffToDuration: takes a whole growth factor instead of Go's `float64`, and durations are unbounded integers, so there is no `int64` overflow.
- Helm values are rendered to YAML outside the model. The rendered text or the rendering error is an input.
- The OpenEBS namespace and the registry chart URL, name and version are set at build time. They are parameters.
- OpenEBSUpgrade.Upgrade: the package constant `releaseName` of the OpenEBS add-on is not part of this model. It is taken to be "openebs", and every check, install and upgrade uses that one name.
- The Kubernetes NotFound check is an input: a Get outcome is Found, NotFound or an error.
- Upgrade.GetAddOnsForUpgrade: its body is known only through its table test. The chart lookup is taken to come before the image lookup, and the image reference is split at its first ':'.
- Cidr.ValidateCIDR: `validateCIDR` is not part of this model. Its behaviour follows its table test: IPv4 with Go's `net.ParseCIDR` reading of octets, containment in the three private blocks, and error texts that contain the tested messages. IPv6 is not modelled.
- Embed.ExtractRelease: the embed package is not part of this model. The extraction is a reference definition: the first begin delimiter, then the first end delimiter, then decoding. The delimiter texts are parameters, and the round trip is stated for delimiters that the binary and the encoding cannot imitate.
- Base64.Decode: newline skipping and the strict mode of Go's decoder are not modelled.
- Installer.ResolvePassword: `validateAdminConsolePassword` is not part of this model. It is a parameter.
- Printing, logging, spinners, metrics reporting and the success message are left out.
- `ReadConfigFile`, SSH-key listing, the interactive host and load-balancer questions, and `collectHostConfig` are left out. Only their results enter `RenderMultiNodeConfig`.
- The generated deep-copy code, the end-to-end tests, embedded-file extraction, running k0s, the UI and CLI wiring, and public-IP discovery are left out. They carry no decision logic of the core.

## Findings

| source | as written | input that shows it | evidently intended | confidence | as-written member | corrected member |
|---|---|---|---|---|---|---|
| cmd/installer/cli/install2.go:719 | `networkSpecFromK0sConfig` reads `Spec.API` without checking that `Spec` is set. The network section just above it is guarded. | A k0s configuration whose `Spec` is nil: the dereference panics. | The API section is read only when the spec exists, as the network section is. | not executed | Installer.AsWrittenPanicsWithoutSpec | Installer.NetworkSpecFields |
