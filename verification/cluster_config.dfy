/**
 * Generation of the k0sctl cluster configuration (`pkg/config`): checking a
 * host list, building the configuration for a list of hosts, the
 * single-node and multi-node variants, and attaching the image bundle files
 * to worker hosts.
 *
 * Interactive questions and directory listings are inputs: each is given by
 * the answer or error it produces.
 */
module ClusterConfig {
  import opened Wrappers
  import opened Strings

  /** A file k0sctl uploads to a host. */
  datatype UploadFile = UploadFile(source: string, destinationDir: string, permMode: string)

  /** The parts of a k0sctl host this code reads or writes. */
  datatype Host = Host(
    role: string,
    files: seq<UploadFile>,
    uploadBinary: bool,
    noTaints: bool,
    installFlags: seq<string>,
    localhost: bool)

  datatype Api = Api(externalAddress: string, sans: seq<string>)

  /** The k0s configuration embedded in the k0sctl configuration. */
  datatype K0sConfig = K0sConfig(
    apiVersion: string,
    kind: string,
    name: string,
    networkProvider: string,
    telemetryEnabled: bool,
    api: Option<Api>)

  datatype Cluster = Cluster(
    apiVersion: string,
    kind: string,
    name: string,
    hosts: seq<Host>,
    k0sVersion: string,
    k0s: K0sConfig)

  /** The binary name and the k0s version the build was made with. */
  datatype Defaults = Defaults(binaryName: string, k0sVersion: string)

  // ---------------------------------------------------------------------
  // validateHosts
  // ---------------------------------------------------------------------

  /** The number of hosts whose role mentions `role`. */
  function CountRole(hosts: seq<Host>, role: string): (n: nat)
    ensures n <= |hosts|
  {
    if |hosts| == 0 then 0
    else (if Contains(hosts[0].role, role) then 1 else 0) + CountRole(hosts[1..], role)
  }

  /** Some host has a role that mentions `role`. */
  ghost predicate SomeHasRole(hosts: seq<Host>, role: string) {
    exists i :: 0 <= i < |hosts| && Contains(hosts[i].role, role)
  }

  /** A count is positive exactly when some host has the role. */
  lemma {:induction false} CountRolePositive(hosts: seq<Host>, role: string)
    ensures CountRole(hosts, role) > 0 <==> SomeHasRole(hosts, role)
  {
    if |hosts| > 0 {
      CountRolePositive(hosts[1..], role);
      if SomeHasRole(hosts[1..], role) {
        var i :| 0 <= i < |hosts[1..]| && Contains(hosts[1..][i].role, role);
        assert Contains(hosts[i + 1].role, role);
      }
      if SomeHasRole(hosts, role) && !Contains(hosts[0].role, role) {
        var i :| 0 <= i < |hosts| && Contains(hosts[i].role, role);
        assert hosts[1..][i - 1] == hosts[i];
      }
    }
  }

  lemma CountRoleAppend(hosts: seq<Host>, h: Host, role: string)
    ensures CountRole(hosts + [h], role) == CountRole(hosts, role) + (if Contains(h.role, role) then 1 else 0)
    decreases |hosts|
  {
    if |hosts| > 0 {
      assert (hosts + [h])[1..] == hosts[1..] + [h];
      CountRoleAppend(hosts[1..], h, role);
    }
  }

  /** The counting loop of `validateHosts`. */
  method CountRoles(hosts: seq<Host>) returns (controllers: nat, workers: nat)
    ensures controllers == CountRole(hosts, "controller")
    ensures workers == CountRole(hosts, "worker")
  {
    controllers, workers := 0, 0;
    var i := 0;
    while i < |hosts|
      invariant i <= |hosts|
      invariant controllers == CountRole(hosts[..i], "controller")
      invariant workers == CountRole(hosts[..i], "worker")
    {
      CountRoleAppend(hosts[..i], hosts[i], "worker");
      CountRoleAppend(hosts[..i], hosts[i], "controller");
      assert hosts[..i + 1] == hosts[..i] + [hosts[i]];
      if ContainsComputed(hosts[i].role, "worker") {
        workers := workers + 1;
      }
      if ContainsComputed(hosts[i].role, "controller") {
        controllers := controllers + 1;
      }
      i := i + 1;
    }
    assert hosts[..i] == hosts;
  }

  const NoHosts := "no hosts configured"
  const NoController := "at least one controller is required"
  const NoWorker := "at least one worker is required"

  /** `validateHosts`: the number of controllers and workers of a valid
      host list. */
  function ValidateHosts(hosts: seq<Host>): (r: Result<(nat, nat)>)
    ensures r.Ok? ==> 1 <= r.value.0 <= |hosts| && 1 <= r.value.1 <= |hosts|
  {
    if |hosts| == 0 then Err(NoHosts)
    else
      var controllers := CountRole(hosts, "controller");
      var workers := CountRole(hosts, "worker");
      if controllers == 0 then Err(NoController)
      else if workers == 0 then Err(NoWorker)
      else Ok((controllers, workers))
  }

  /** A host list is valid exactly when some host can act as a controller
      and some host as a worker (one "controller+worker" host is enough);
      the errors are reported in the order: no hosts, no controller, no
      worker. */
  lemma ValidateHostsSpec(hosts: seq<Host>)
    ensures ValidateHosts(hosts).Ok? <==> SomeHasRole(hosts, "controller") && SomeHasRole(hosts, "worker")
    ensures ValidateHosts(hosts) == Err(NoHosts) <==> |hosts| == 0
    ensures ValidateHosts(hosts) == Err(NoController) <==> |hosts| > 0 && !SomeHasRole(hosts, "controller")
    ensures ValidateHosts(hosts) == Err(NoWorker) <==>
              SomeHasRole(hosts, "controller") && !SomeHasRole(hosts, "worker")
  {
    CountRolePositive(hosts, "controller");
    CountRolePositive(hosts, "worker");
  }

  // ---------------------------------------------------------------------
  // Building the configuration
  // ---------------------------------------------------------------------

  /** `generateConfigForHosts`: Calico networking, telemetry off, and an
      external API address only when a load balancer was given. */
  function GenerateConfigForHosts(lb: string, hosts: seq<Host>, d: Defaults): (c: Cluster)
    ensures c.hosts == hosts
    ensures c.name == d.binaryName && c.k0s.name == d.binaryName && c.k0sVersion == d.k0sVersion
    ensures c.k0s.networkProvider == "calico" && !c.k0s.telemetryEnabled
    ensures c.k0s.api.Some? <==> lb != ""
    ensures c.k0s.api.Some? ==> c.k0s.api.value.externalAddress == lb && c.k0s.api.value.sans == [lb]
  {
    var api := if lb != "" then Some(Api(lb, [lb])) else None;
    Cluster(
      "k0sctl.k0sproject.io/v1beta1", "Cluster", d.binaryName, hosts, d.k0sVersion,
      K0sConfig("k0s.k0sproject.io/v1beta1", "ClusterConfig", d.binaryName, "calico", false, api))
  }

  /** The one host of a single-node installation: this machine, as both
      controller and worker. */
  function LocalHost(): Host {
    Host("controller+worker", [], true, true, ["--disable-components konnectivity-server"], true)
  }

  /** `renderSingleNodeConfig`: one local host and no load balancer. */
  function RenderSingleNodeConfig(d: Defaults): (c: Cluster)
    ensures |c.hosts| == 1 && c.hosts[0].localhost && c.k0s.api.None?
    ensures ValidateHosts(c.hosts) == Ok((1, 1))
  {
    var h := LocalHost();
    assert Contains(h.role, "controller") by { assert OccursAt(h.role, "controller", 0); }
    assert Contains(h.role, "worker") by { assert OccursAt(h.role, "worker", 11); }
    assert CountRole([h], "controller") == 1 by { assert [h][1..] == []; }
    assert CountRole([h], "worker") == 1 by { assert [h][1..] == []; }
    GenerateConfigForHosts("", [h], d)
  }

  /** `renderMultiNodeConfig`. The hosts come from the given nodes, or from
      the interactive questions when there are none; the load-balancer
      question is asked only when there is more than one controller. */
  function RenderMultiNodeConfig(nodeHosts: seq<Host>, interactive: Result<seq<Host>>, askLoadBalancer: Result<string>, d: Defaults): (r: Result<Cluster>)
    ensures |nodeHosts| == 0 && interactive.Err? ==> r == Err(Wrap("unable to collect hosts", interactive.msg))
  {
    var hosts :- if |nodeHosts| == 0 then
                   (if interactive.Err? then Err(Wrap("unable to collect hosts", interactive.msg)) else interactive)
                 else Ok(nodeHosts);
    var counts := ValidateHosts(hosts);
    if counts.Err? then Err(Wrap("invalid hosts configuration", counts.msg))
    else if counts.value.0 > 1 && askLoadBalancer.Err? then Err(Wrap("unable to ask for load balancer", askLoadBalancer.msg))
    else
      var lb := if counts.value.0 > 1 then askLoadBalancer.value else "";
      Ok(GenerateConfigForHosts(lb, hosts, d))
  }

  /** A multi-node configuration keeps the collected hosts, which form a
      valid cluster; it has a load balancer exactly when there is more than
      one controller and the answer to the question is not empty; the
      answer matters only then. */
  lemma RenderMultiNodeConfigSpec(nodeHosts: seq<Host>, interactive: Result<seq<Host>>, askLoadBalancer: Result<string>, d: Defaults)
    requires |nodeHosts| > 0 || interactive.Ok?
    ensures var hosts := if |nodeHosts| > 0 then nodeHosts else interactive.value;
      var r := RenderMultiNodeConfig(nodeHosts, interactive, askLoadBalancer, d);
      && (ValidateHosts(hosts).Err? ==> r == Err(Wrap("invalid hosts configuration", ValidateHosts(hosts).msg)))
      && (r.Ok? ==> r.value.hosts == hosts && ValidateHosts(hosts).Ok?)
      && (r.Ok? ==> (r.value.k0s.api.Some? <==> CountRole(hosts, "controller") > 1 && askLoadBalancer.value != ""))
      && (ValidateHosts(hosts).Ok? && CountRole(hosts, "controller") <= 1 ==>
            r == Ok(GenerateConfigForHosts("", hosts, d)))
      && (ValidateHosts(hosts).Ok? && CountRole(hosts, "controller") > 1 && askLoadBalancer.Err? ==>
            r == Err(Wrap("unable to ask for load balancer", askLoadBalancer.msg)))
      && (ValidateHosts(hosts).Ok? && CountRole(hosts, "controller") > 1 && askLoadBalancer.Ok? ==>
            r == Ok(GenerateConfigForHosts(askLoadBalancer.value, hosts, d)))
  {
  }

  /** `RenderClusterConfig`: a single-node configuration always succeeds
      with one local controller and worker and no load balancer; a
      multi-node one fails when the hosts cannot be collected or are
      invalid, and otherwise keeps the collected hosts. */
  function RenderClusterConfig(multi: bool, nodeHosts: seq<Host>, interactive: Result<seq<Host>>, askLoadBalancer: Result<string>, d: Defaults): (r: Result<Cluster>)
    ensures !multi ==> r.Ok? && |r.value.hosts| == 1 && r.value.hosts[0].localhost
                       && ValidateHosts(r.value.hosts) == Ok((1, 1)) && r.value.k0s.api.None?
    ensures multi && |nodeHosts| == 0 && interactive.Err? ==>
              r == Err(Wrap("unable to collect hosts", interactive.msg))
    ensures multi && r.Ok? ==>
              && (|nodeHosts| > 0 || interactive.Ok?)
              && r.value.hosts == (if |nodeHosts| > 0 then nodeHosts else interactive.value)
              && ValidateHosts(r.value.hosts).Ok?
  {
    if multi then RenderMultiNodeConfig(nodeHosts, interactive, askLoadBalancer, d)
    else Ok(RenderSingleNodeConfig(d))
  }

  // ---------------------------------------------------------------------
  // Attaching the image bundle
  // ---------------------------------------------------------------------

  const ImagesDir := "/var/lib/k0s/images"

  /** The upload entry for one archive of the bundle directory. */
  function ArchiveFile(bundleDir: string, name: string): UploadFile {
    UploadFile(bundleDir + "/" + name, ImagesDir, "0755")
  }

  /** The upload entries for the bundle's archives: every directory entry
      whose name contains ".tar", in directory order. */
  function BundleFiles(bundleDir: string, entries: seq<string>): (files: seq<UploadFile>)
    ensures |files| <= |entries|
  {
    if |entries| == 0 then []
    else
      var rest := BundleFiles(bundleDir, entries[1..]);
      if Contains(entries[0], ".tar") then [ArchiveFile(bundleDir, entries[0])] + rest
      else rest
  }

  /** `f` is the upload entry of some archive among `entries`. */
  ghost predicate IsArchiveFile(f: UploadFile, bundleDir: string, entries: seq<string>) {
    exists k :: 0 <= k < |entries| && Contains(entries[k], ".tar") && f == ArchiveFile(bundleDir, entries[k])
  }

  /** The bundle entries are exactly the archives of the directory, each
      uploaded from inside the bundle directory to the k0s image directory
      with mode 0755. */
  lemma {:induction false} BundleFilesSpec(bundleDir: string, entries: seq<string>)
    ensures forall f :: f in BundleFiles(bundleDir, entries) <==> IsArchiveFile(f, bundleDir, entries)
  {
    if |entries| > 0 {
      BundleFilesSpec(bundleDir, entries[1..]);
      var rest := BundleFiles(bundleDir, entries[1..]);
      var head := if Contains(entries[0], ".tar") then [ArchiveFile(bundleDir, entries[0])] else [];
      assert BundleFiles(bundleDir, entries) == head + rest;
      forall f ensures f in head + rest <==> IsArchiveFile(f, bundleDir, entries)
      {
        if IsArchiveFile(f, bundleDir, entries) {
          var k :| 0 <= k < |entries| && Contains(entries[k], ".tar") && f == ArchiveFile(bundleDir, entries[k]);
          if k > 0 {
            assert entries[1..][k - 1] == entries[k];
            assert IsArchiveFile(f, bundleDir, entries[1..]);
          }
        }
        if f in rest {
          assert IsArchiveFile(f, bundleDir, entries[1..]);
          var k :| 0 <= k < |entries[1..]| && Contains(entries[1..][k], ".tar") && f == ArchiveFile(bundleDir, entries[1..][k]);
          assert entries[k + 1] == entries[1..][k];
        }
      }
    }
  }

  /** `updateHostFiles`. Without a bundle, or for a host that is not a
      worker, the files are cleared; otherwise the bundle's archives are
      appended to whatever files the host already has. */
  function UpdateHostFiles(host: Host, bundleDir: string, readDir: Result<seq<string>>): (r: Result<Host>)
    ensures bundleDir == "" || !Contains(host.role, "worker") ==> r == Ok(host.(files := []))
    ensures bundleDir != "" && Contains(host.role, "worker") && readDir.Err? ==>
              r == Err(Wrap("unable to read bundle directory", readDir.msg))
    ensures r.Ok? ==> r.value == host.(files := r.value.files)
  {
    if |bundleDir| == 0 || !ContainsComputed(host.role, "worker") then Ok(host.(files := []))
    else if readDir.Err? then Err(Wrap("unable to read bundle directory", readDir.msg))
    else Ok(host.(files := host.files + BundleFiles(bundleDir, readDir.value)))
  }

  /** The bundle's archives are appended, not substituted: updating a
      worker twice lists every archive twice. */
  lemma UpdateHostFilesAppends(host: Host, bundleDir: string, entries: seq<string>)
    requires bundleDir != "" && Contains(host.role, "worker")
    ensures var once := UpdateHostFiles(host, bundleDir, Ok(entries)).value;
      && once.files == host.files + BundleFiles(bundleDir, entries)
      && UpdateHostFiles(once, bundleDir, Ok(entries)).value.files ==
           host.files + BundleFiles(bundleDir, entries) + BundleFiles(bundleDir, entries)
  {
  }

  /** `UpdateHostsFiles`: the hosts are updated in order and the first
      failure stops the walk. Each worker reads the bundle directory afresh:
      `listings[i]` is what that read gives for host `i` (it is not consulted
      for other hosts). The Go code updates the hosts in place, so the hosts
      before the failing one keep their update; the result carries the hosts
      as they are left, and the error. */
  function UpdateHostsFiles(hosts: seq<Host>, bundleDir: string, listings: seq<Result<seq<string>>>): (r: (seq<Host>, Option<string>))
    requires |listings| == |hosts|
    ensures |r.0| == |hosts|
  {
    if |hosts| == 0 then ([], None)
    else match UpdateHostFiles(hosts[0], bundleDir, listings[0])
      case Err(e) => (hosts, Some(Wrap("unable to update host file", e)))
      case Ok(h) =>
        var rest := UpdateHostsFiles(hosts[1..], bundleDir, listings[1..]);
        ([h] + rest.0, rest.1)
  }

  /** Host `i` is a worker, a bundle is given, and its read of the bundle
      directory fails. */
  ghost predicate ReadFailsAt(hosts: seq<Host>, bundleDir: string, listings: seq<Result<seq<string>>>, i: nat)
    requires |listings| == |hosts|
  {
    i < |hosts| && bundleDir != "" && Contains(hosts[i].role, "worker") && listings[i].Err?
  }

  /** Host `f` is the first whose read fails. */
  ghost predicate FirstReadFailure(hosts: seq<Host>, bundleDir: string, listings: seq<Result<seq<string>>>, f: nat)
    requires |listings| == |hosts|
  {
    ReadFailsAt(hosts, bundleDir, listings, f) && forall j: nat :: j < f ==> !ReadFailsAt(hosts, bundleDir, listings, j)
  }

  lemma ReadFailsAtTail(hosts: seq<Host>, bundleDir: string, listings: seq<Result<seq<string>>>, j: nat)
    requires |listings| == |hosts| > 0
    ensures ReadFailsAt(hosts[1..], bundleDir, listings[1..], j) <==> ReadFailsAt(hosts, bundleDir, listings, j + 1)
  {
    if j + 1 < |hosts| {
      assert hosts[1..][j] == hosts[j + 1] && listings[1..][j] == listings[j + 1];
    }
  }

  /** The directory is read only by workers and only when a bundle is
      given, so the walk fails exactly when the read of some worker fails. */
  lemma {:induction false} UpdateHostsFilesError(hosts: seq<Host>, bundleDir: string, listings: seq<Result<seq<string>>>)
    requires |listings| == |hosts|
    ensures UpdateHostsFiles(hosts, bundleDir, listings).1.Some? <==>
      exists i: nat :: i < |hosts| && ReadFailsAt(hosts, bundleDir, listings, i)
    decreases |hosts|
  {
    if |hosts| > 0 {
      var first := UpdateHostFiles(hosts[0], bundleDir, listings[0]);
      if first.Err? {
        assert ReadFailsAt(hosts, bundleDir, listings, 0);
      } else {
        UpdateHostsFilesError(hosts[1..], bundleDir, listings[1..]);
        if exists i: nat :: i < |hosts| && ReadFailsAt(hosts, bundleDir, listings, i) {
          var i: nat :| i < |hosts| && ReadFailsAt(hosts, bundleDir, listings, i);
          assert i > 0;
          ReadFailsAtTail(hosts, bundleDir, listings, i - 1);
        }
        if exists i: nat :: i < |hosts| - 1 && ReadFailsAt(hosts[1..], bundleDir, listings[1..], i) {
          var i: nat :| i < |hosts| - 1 && ReadFailsAt(hosts[1..], bundleDir, listings[1..], i);
          ReadFailsAtTail(hosts, bundleDir, listings, i);
        }
      }
    }
  }

  /** When the walk succeeds every host gets its own update. */
  lemma {:induction false} UpdateHostsFilesSuccess(hosts: seq<Host>, bundleDir: string, listings: seq<Result<seq<string>>>)
    requires |listings| == |hosts|
    ensures var r := UpdateHostsFiles(hosts, bundleDir, listings);
      r.1.None? ==> forall i :: 0 <= i < |hosts| ==> UpdateHostFiles(hosts[i], bundleDir, listings[i]) == Ok(r.0[i])
    decreases |hosts|
  {
    if |hosts| > 0 {
      UpdateHostsFilesSuccess(hosts[1..], bundleDir, listings[1..]);
      var r := UpdateHostsFiles(hosts, bundleDir, listings);
      var rest := UpdateHostsFiles(hosts[1..], bundleDir, listings[1..]);
      if r.1.None? {
        var first := UpdateHostFiles(hosts[0], bundleDir, listings[0]);
        assert first.Ok? && r == ([first.value] + rest.0, rest.1);
        forall i | 0 <= i < |hosts| ensures UpdateHostFiles(hosts[i], bundleDir, listings[i]) == Ok(r.0[i]) {
          if i > 0 {
            assert r.0[i] == rest.0[i - 1];
            assert hosts[1..][i - 1] == hosts[i] && listings[1..][i - 1] == listings[i];
          }
        }
      }
    }
  }

  /** When the read of host `f` is the first to fail, the walk fails with
      that read's error wrapped twice; every host before `f` keeps its own
      update (earlier workers have their archives appended), and host `f`
      and everything after it are left as they were. */
  lemma {:induction false} UpdateHostsFilesFailure(hosts: seq<Host>, bundleDir: string, listings: seq<Result<seq<string>>>, f: nat)
    requires |listings| == |hosts| && FirstReadFailure(hosts, bundleDir, listings, f)
    ensures var r := UpdateHostsFiles(hosts, bundleDir, listings);
      && r.1 == Some(Wrap("unable to update host file", Wrap("unable to read bundle directory", listings[f].msg)))
      && (forall i :: 0 <= i < f ==> UpdateHostFiles(hosts[i], bundleDir, listings[i]) == Ok(r.0[i]))
      && (forall i :: f <= i < |hosts| ==> r.0[i] == hosts[i])
    decreases |hosts|
  {
    var r := UpdateHostsFiles(hosts, bundleDir, listings);
    if f > 0 {
      assert !ReadFailsAt(hosts, bundleDir, listings, 0);
      var first := UpdateHostFiles(hosts[0], bundleDir, listings[0]);
      var rest := UpdateHostsFiles(hosts[1..], bundleDir, listings[1..]);
      assert first.Ok? && r == ([first.value] + rest.0, rest.1);
      ReadFailsAtTail(hosts, bundleDir, listings, f - 1);
      forall j: nat | j < f - 1 ensures !ReadFailsAt(hosts[1..], bundleDir, listings[1..], j) {
        ReadFailsAtTail(hosts, bundleDir, listings, j);
      }
      UpdateHostsFilesFailure(hosts[1..], bundleDir, listings[1..], f - 1);
      forall i | 0 < i < |hosts| ensures r.0[i] == rest.0[i - 1] && hosts[i] == hosts[1..][i - 1] && listings[i] == listings[1..][i - 1] {
      }
    }
  }

  lemma SomeHasRoleCons(hosts: seq<Host>, role: string)
    requires |hosts| > 0 && !Contains(hosts[0].role, role)
    ensures SomeHasRole(hosts, role) <==> SomeHasRole(hosts[1..], role)
  {
    if SomeHasRole(hosts, role) {
      var i :| 0 <= i < |hosts| && Contains(hosts[i].role, role);
      assert hosts[1..][i - 1] == hosts[i];
    }
    if SomeHasRole(hosts[1..], role) {
      var i :| 0 <= i < |hosts[1..]| && Contains(hosts[1..][i].role, role);
      assert hosts[i + 1] == hosts[1..][i];
    }
  }
}
