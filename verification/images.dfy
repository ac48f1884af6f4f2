/**
 * The k0s images of an installation (`pkg/config/images.go`): the list of
 * images an airgap bundle must carry, and the rewrite of the k0s image
 * settings to the vendor's proxy registry.
 */
module K0sImages {
  import opened Wrappers
  import opened Strings

  const ProxyPrefix := "proxy.replicated.com/anonymous/replicated/ec-"

  /** `getImageName`: where a component's image is pulled from. */
  function ImageName(component: string): (name: string)
    ensures |name| == |ProxyPrefix| + |component|
    ensures name[..|ProxyPrefix|] == ProxyPrefix && name[|ProxyPrefix|..] == component
  {
    ProxyPrefix + component
  }

  /** Different components get different images. */
  lemma ImageNameInjective(a: string, b: string)
    requires ImageName(a) == ImageName(b)
    ensures a == b
  {
    assert a == ImageName(a)[|ProxyPrefix|..];
  }

  // ---------------------------------------------------------------------
  // ListK0sImages
  // ---------------------------------------------------------------------

  /** The URIs `ListK0sImages` consults besides the image list itself: the
      three it leaves out (the kube-router CNI and CNI installer, and
      konnectivity), the name that identifies the pause image, and the
      configured pause image. */
  datatype ImageConfig = ImageConfig(
    kubeRouterCNI: string,
    kubeRouterCNIInstaller: string,
    konnectivity: string,
    pauseName: string,
    pause: string)

  predicate Skipped(image: string, c: ImageConfig) {
    image == c.kubeRouterCNI || image == c.kubeRouterCNIInstaller || image == c.konnectivity
  }

  /** What one listed image contributes. */
  function Entry(image: string, c: ImageConfig): string
    requires !Skipped(image, c)
  {
    if ContainsComputed(image, c.pauseName) then c.pause else image
  }

  /** The bundle's image list, by recursion on the listed images. */
  function BundleImages(images: seq<string>, c: ImageConfig): (r: seq<string>)
    ensures |r| <= |images|
  {
    if |images| == 0 then []
    else
      var rest := BundleImages(images[1..], c);
      if Skipped(images[0], c) then rest else [Entry(images[0], c)] + rest
  }

  lemma BundleImagesAppend(images: seq<string>, image: string, c: ImageConfig)
    ensures BundleImages(images + [image], c) ==
              BundleImages(images, c) + (if Skipped(image, c) then [] else [Entry(image, c)])
    decreases |images|
  {
    if |images| > 0 {
      assert (images + [image])[1..] == images[1..] + [image];
      BundleImagesAppend(images[1..], image, c);
    }
  }

  /** `ListK0sImages`: walk the images k0s reports, leave out the three
      skipped ones, and replace every pause image with the configured one. */
  method ListK0sImages(images: seq<string>, c: ImageConfig) returns (r: seq<string>)
    ensures r == BundleImages(images, c)
  {
    r := [];
    var i := 0;
    while i < |images|
      invariant i <= |images|
      invariant r == BundleImages(images[..i], c)
    {
      BundleImagesAppend(images[..i], images[i], c);
      assert images[..i + 1] == images[..i] + [images[i]];
      var image := images[i];
      if image == c.kubeRouterCNI || image == c.kubeRouterCNIInstaller || image == c.konnectivity {
      } else if ContainsComputed(image, c.pauseName) {
        r := r + [c.pause];
      } else {
        r := r + [image];
      }
      i := i + 1;
    }
    assert images[..i] == images;
  }

  /** What the bundle list contains: every image that is neither skipped nor
      a pause image is kept as is; the configured pause image stands for
      every pause image; and nothing else is listed. */
  lemma {:induction false} BundleImagesSpec(images: seq<string>, c: ImageConfig)
    ensures forall x :: x in BundleImages(images, c) <==>
      exists k :: 0 <= k < |images| && !Skipped(images[k], c) && x == Entry(images[k], c)
    decreases |images|
  {
    if |images| > 0 {
      BundleImagesSpec(images[1..], c);
      var rest := BundleImages(images[1..], c);
      var head := if Skipped(images[0], c) then [] else [Entry(images[0], c)];
      assert BundleImages(images, c) == head + rest;
      forall x | x in head + rest
        ensures exists k :: 0 <= k < |images| && !Skipped(images[k], c) && x == Entry(images[k], c)
      {
        if x in rest {
          var k :| 0 <= k < |images[1..]| && !Skipped(images[1..][k], c) && x == Entry(images[1..][k], c);
          assert images[k + 1] == images[1..][k];
        }
      }
      forall x | exists k :: 0 <= k < |images| && !Skipped(images[k], c) && x == Entry(images[k], c)
        ensures x in head + rest
      {
        var k :| 0 <= k < |images| && !Skipped(images[k], c) && x == Entry(images[k], c);
        if k > 0 { assert images[1..][k - 1] == images[k]; }
      }
    }
  }

  /** No skipped image survives unless it is also the configured pause
      image, and no pause image other than the configured one survives. */
  lemma BundleImagesExcludes(images: seq<string>, c: ImageConfig, x: string)
    requires x in BundleImages(images, c) && x != c.pause
    ensures !Skipped(x, c) && !Contains(x, c.pauseName) && x in images
  {
    BundleImagesSpec(images, c);
  }

  // ---------------------------------------------------------------------
  // overrideK0sImages
  // ---------------------------------------------------------------------

  datatype ImageSpec = ImageSpec(image: string, version: string)

  /** The image settings of the k0s configuration. `others` stands for the
      settings this code does not touch (konnectivity, kube-router, ...). */
  datatype ClusterImages = ClusterImages(
    coreDNS: ImageSpec,
    calicoNode: ImageSpec,
    calicoCNI: ImageSpec,
    calicoKubeControllers: ImageSpec,
    metricsServer: ImageSpec,
    kubeProxy: ImageSpec,
    pause: ImageSpec,
    others: seq<ImageSpec>)

  function EmptyImages(): ClusterImages {
    var none := ImageSpec("", "");
    ClusterImages(none, none, none, none, none, none, none, [])
  }

  /** A Go map lookup: a missing key reads as "". */
  function Lookup(m: map<string, string>, key: string): string {
    if key in m then m[key] else ""
  }

  /** The setting for one component: the proxied image, at the version the
      bundled metadata lists for it. */
  function Pinned(component: string, versions: map<string, string>): ImageSpec {
    ImageSpec(ImageName(component), Lookup(versions, component))
  }

  /** `overrideK0sImages`: create the image settings if there are none and
      pin the seven components. */
  function OverrideK0sImages(images: Option<ClusterImages>, versions: map<string, string>): (r: ClusterImages)
    ensures r.coreDNS == Pinned("coredns", versions)
    ensures r.calicoNode == Pinned("calico-node", versions)
    ensures r.calicoCNI == Pinned("calico-cni", versions)
    ensures r.calicoKubeControllers == Pinned("calico-kube-controllers", versions)
    ensures r.metricsServer == Pinned("metrics-server", versions)
    ensures r.kubeProxy == Pinned("kube-proxy", versions)
    ensures r.pause == Pinned("pause", versions)
    ensures r.others == (if images.Some? then images.value.others else [])
  {
    var base := images.GetOr(EmptyImages());
    base.(
      coreDNS := Pinned("coredns", versions),
      calicoNode := Pinned("calico-node", versions),
      calicoCNI := Pinned("calico-cni", versions),
      calicoKubeControllers := Pinned("calico-kube-controllers", versions),
      metricsServer := Pinned("metrics-server", versions),
      kubeProxy := Pinned("kube-proxy", versions),
      pause := Pinned("pause", versions))
  }

  /** Overriding twice is overriding once. */
  lemma OverrideIdempotent(images: Option<ClusterImages>, versions: map<string, string>)
    ensures OverrideK0sImages(Some(OverrideK0sImages(images, versions)), versions) == OverrideK0sImages(images, versions)
  {
  }

  /** The seven components end up with seven different images, so no two
      of them share a setting. */
  lemma OverriddenImagesDistinct(images: Option<ClusterImages>, versions: map<string, string>)
    ensures var r := OverrideK0sImages(images, versions);
      var names := [r.coreDNS.image, r.calicoNode.image, r.calicoCNI.image, r.calicoKubeControllers.image,
                    r.metricsServer.image, r.kubeProxy.image, r.pause.image];
      forall i, j :: 0 <= i < j < |names| ==> names[i] != names[j]
  {
  }
}
