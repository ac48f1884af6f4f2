/**
 * Decision helpers of the `install` command (`cmd/installer/cli/install2.go`):
 * the airgap flag, the channel-release confirmation gate, the admin console
 * password, the installation CRD preparation and the network spec recorded
 * from the k0s configuration.
 *
 * The user's answers to prompts, the channel release embedded in the binary,
 * the CRD decoder and the cluster's replies are parameters.
 */
module Installer {
  import opened Wrappers
  import opened Strings
  import opened AddOns
  import KubeUtils

  // ---------------------------------------------------------------------
  // Airgap flag and channel-release gate
  // ---------------------------------------------------------------------

  /** The install is an airgap install exactly when a bundle path is given. */
  function IsAirgap(airgapBundle: string): bool {
    airgapBundle != ""
  }

  /** The part of the embedded channel release the gate reads. */
  datatype ChannelRelease = ChannelRelease(airgap: bool)

  /** How the gate ends: go on, stop quietly because the user declined
      (`ErrNothingElseToAdd`), or fail. */
  datatype Gate = Proceed | NothingElseToAdd | GateError(err: string)

  /** Whether the "proceed with an online installation?" question is
      asked: the release is an airgap release, yet no bundle was given and
      the user did not pre-approve. */
  predicate AsksToProceedOnline(release: Result<Option<ChannelRelease>>, isAirgap: bool, assumeYes: bool) {
    release.Ok? && release.value.Some? && release.value.value.airgap && !isAirgap && !assumeYes
  }

  /** `verifyChannelRelease`. `release` is the channel release read from
      the binary (none when it has no embedded release) or the read error;
      `confirms` is the user's answer should the question be asked. */
  function VerifyChannelRelease(release: Result<Option<ChannelRelease>>, isAirgap: bool, assumeYes: bool, confirms: bool): (g: Gate)
    ensures release.Err? <==> g.GateError?
    ensures g.GateError? ==> g.err == Wrap("unable to read channel release data", release.msg)
    ensures g == NothingElseToAdd <==> AsksToProceedOnline(release, isAirgap, assumeYes) && !confirms
    ensures !AsksToProceedOnline(release, isAirgap, assumeYes) && release.Ok? ==> g == Proceed
  {
    if release.Err? then GateError(Wrap("unable to read channel release data", release.msg))
    else if release.value.Some? && release.value.value.airgap && !isAirgap && !assumeYes then
      if !confirms then NothingElseToAdd else Proceed
    else Proceed
  }

  /** An install given an airgap bundle is never asked to go online, and
      so never stops at the gate, whatever the release says. */
  lemma BundleNeverAsked(airgapBundle: string, release: Result<Option<ChannelRelease>>, assumeYes: bool, confirms: bool)
    requires airgapBundle != ""
    ensures !AsksToProceedOnline(release, IsAirgap(airgapBundle), assumeYes)
    ensures VerifyChannelRelease(release, IsAirgap(airgapBundle), assumeYes, confirms) != NothingElseToAdd
  {
  }

  /** The answer only matters when the question is asked. */
  lemma AnswerIgnoredUnlessAsked(release: Result<Option<ChannelRelease>>, isAirgap: bool, assumeYes: bool)
    requires !AsksToProceedOnline(release, isAirgap, assumeYes)
    ensures VerifyChannelRelease(release, isAirgap, assumeYes, true) == VerifyChannelRelease(release, isAirgap, assumeYes, false)
  {
  }

  // ---------------------------------------------------------------------
  // Admin console password
  // ---------------------------------------------------------------------

  const MaxTries := 3
  const DefaultPassword := "password"
  const InvalidPassword := "unable to set the Admin Console password"
  const NoPassword := "no admin console password"

  /** The prompt loop from try `i` on: the first answer pair (password,
      confirmation) that passes validation gives the password; after the
      last try the password stays empty. Also returns how many pairs were
      asked for in all. */
  function PromptFrom(answers: nat -> (string, string), valid: (string, string) -> bool, i: nat): (r: (string, nat))
    requires i <= MaxTries
    ensures i <= r.1 <= MaxTries
    decreases MaxTries - i
  {
    if i == MaxTries then ("", i)
    else if valid(answers(i).0, answers(i).1) then (answers(i).0, i + 1)
    else PromptFrom(answers, valid, i + 1)
  }

  /** The answer pairs from `i` up to `n` all fail validation. */
  ghost predicate AllRejected(answers: nat -> (string, string), valid: (string, string) -> bool, i: nat, n: nat) {
    forall j: nat :: i <= j < n ==> !valid(answers(j).0, answers(j).1)
  }

  /** The loop stops at the first accepted pair, asking no more; if none of
      the three is accepted it asks all three and ends without a
      password. */
  lemma {:induction false} PromptFromSpec(answers: nat -> (string, string), valid: (string, string) -> bool, i: nat)
    requires i <= MaxTries
    ensures var r := PromptFrom(answers, valid, i);
      && (AllRejected(answers, valid, i, MaxTries) ==> r == ("", MaxTries))
      && (!AllRejected(answers, valid, i, MaxTries) ==>
            && i < r.1
            && valid(answers(r.1 - 1).0, answers(r.1 - 1).1)
            && AllRejected(answers, valid, i, r.1 - 1)
            && r.0 == answers(r.1 - 1).0)
    decreases MaxTries - i
  {
    if i < MaxTries && !valid(answers(i).0, answers(i).1) {
      PromptFromSpec(answers, valid, i + 1);
    }
  }

  /** The password the installation goes on with, or the error, and how
      many prompt pairs were shown. `valid` is the password validation,
      applied to a password and its confirmation. */
  function ResolvePassword(provided: string, assumeYes: bool, answers: nat -> (string, string), valid: (string, string) -> bool): (r: (Result<string>, nat))
    ensures r.1 <= MaxTries
    ensures r.0.Ok? ==> r.0.value != ""
    ensures provided != "" ==> r.1 == 0
  {
    if provided != "" then
      if !valid(provided, provided) then (Err(InvalidPassword), 0) else (Ok(provided), 0)
    else if assumeYes then (Ok(DefaultPassword), 0)
    else
      var (password, asked) := PromptFrom(answers, valid, 0);
      if password == "" then (Err(NoPassword), asked) else (Ok(password), asked)
  }

  /** A password given on the command line is used when it validates against
      itself and refused otherwise; without one, `--yes` picks the default;
      otherwise the first accepted prompt pair gives it, and three rejected
      pairs (or an empty accepted one) leave the installation without a
      password. */
  lemma ResolvePasswordSpec(provided: string, assumeYes: bool, answers: nat -> (string, string), valid: (string, string) -> bool)
    ensures var r := ResolvePassword(provided, assumeYes, answers, valid);
      && (provided != "" ==> r.0 == (if valid(provided, provided) then Ok(provided) else Err(InvalidPassword)))
      && (provided == "" && assumeYes ==> r == (Ok(DefaultPassword), 0))
      && (provided == "" && !assumeYes && AllRejected(answers, valid, 0, MaxTries) ==> r == (Err(NoPassword), MaxTries))
      && (provided == "" && !assumeYes && !AllRejected(answers, valid, 0, MaxTries) ==>
            && 1 <= r.1
            && valid(answers(r.1 - 1).0, answers(r.1 - 1).1)
            && AllRejected(answers, valid, 0, r.1 - 1)
            && (r.0 == Ok(answers(r.1 - 1).0) || (answers(r.1 - 1).0 == "" && r.0 == Err(NoPassword))))
  {
    PromptFromSpec(answers, valid, 0);
  }

  /** Only the first three answer pairs are ever looked at. */
  lemma {:induction false} OnlyThreeTries(answers: nat -> (string, string), other: nat -> (string, string), valid: (string, string) -> bool, i: nat)
    requires i <= MaxTries
    requires forall j: nat :: j < MaxTries ==> answers(j) == other(j)
    ensures PromptFrom(answers, valid, i) == PromptFrom(other, valid, i)
    decreases MaxTries - i
  {
    if i < MaxTries {
      assert answers(i) == other(i);
      OnlyThreeTries(answers, other, valid, i + 1);
    }
  }

  // ---------------------------------------------------------------------
  // Installation CRD
  // ---------------------------------------------------------------------

  const DocumentSeparator := "\n---\n"
  const ManagedBy := "app.kubernetes.io/managed-by"
  const ReleaseNameKey := "meta.helm.sh/release-name"
  const ReleaseNamespaceKey := "meta.helm.sh/release-namespace"
  const OperatorRelease := "embedded-cluster-operator"
  const OperatorNamespace := "embedded-cluster"

  /** The metadata of a custom resource definition that the preparation
      touches; nil maps are `None`. */
  datatype Crd = Crd(name: string, labels: Option<map<string, string>>, annotations: Option<map<string, string>>)

  /** Marks a CRD as belonging to the operator's Helm release, so that Helm
      can adopt it later. Missing maps are created first. */
  function HelmOwned(crd: Crd): (r: Crd)
    ensures r.name == crd.name
    ensures r.labels.Some? && r.annotations.Some?
    ensures var labels := r.labels.value;
      && ManagedBy in labels && labels[ManagedBy] == "Helm"
      && labels.Keys == crd.labels.GetOr(map[]).Keys + {ManagedBy}
      && forall k :: k in crd.labels.GetOr(map[]) && k != ManagedBy ==> k in labels && labels[k] == crd.labels.GetOr(map[])[k]
    ensures var notes := r.annotations.value;
      && ReleaseNameKey in notes && notes[ReleaseNameKey] == OperatorRelease
      && ReleaseNamespaceKey in notes && notes[ReleaseNamespaceKey] == OperatorNamespace
      && notes.Keys == crd.annotations.GetOr(map[]).Keys + {ReleaseNameKey, ReleaseNamespaceKey}
      && forall k :: k in crd.annotations.GetOr(map[]) && k != ReleaseNameKey && k != ReleaseNamespaceKey ==>
           k in notes && notes[k] == crd.annotations.GetOr(map[])[k]
  {
    var labels := crd.labels.GetOr(map[]);
    var notes := crd.annotations.GetOr(map[]);
    Crd(crd.name,
        Some(labels[ManagedBy := "Helm"]),
        Some(notes[ReleaseNameKey := OperatorRelease][ReleaseNamespaceKey := OperatorNamespace]))
  }

  /** Marking twice is marking once. */
  lemma HelmOwnedIdempotent(crd: Crd)
    ensures HelmOwned(HelmOwned(crd)) == HelmOwned(crd)
  {
    var once := HelmOwned(crd);
    assert once.labels.value[ManagedBy := "Helm"] == once.labels.value;
    assert once.annotations.value[ReleaseNameKey := OperatorRelease][ReleaseNamespaceKey := OperatorNamespace] == once.annotations.value;
  }

  /** The number of attempts of the readiness wait (one every 100ms). */
  const EstablishedSteps := 600

  /** The readiness condition: a failed read counts as not ready yet, and
      the CRD is ready once its Established condition is true. */
  function EstablishedPoll(established: nat -> bool): nat -> KubeUtils.Poll {
    (i: nat) => if established(i) then KubeUtils.Done else KubeUtils.NotYet
  }

  /** The readiness wait. `established(i)` says whether the CRD was read and
      found established at attempt `i`. */
  function WaitEstablished(established: nat -> bool): Option<string> {
    KubeUtils.ExponentialBackoff(EstablishedPoll(established), EstablishedSteps)
  }

  /** The readiness condition never reports an error, so the wait can only
      succeed or time out. */
  lemma WaitEstablishedNoError(established: nat -> bool)
    ensures WaitEstablished(established).Some? ==> WaitEstablished(established) == Some(KubeUtils.WaitTimeout)
  {
    var poll := EstablishedPoll(established);
    KubeUtils.BackoffFromSpec(poll, 0, EstablishedSteps);
    assert forall n: nat :: poll(n) == KubeUtils.Done || poll(n) == KubeUtils.NotYet;
  }

  /** The wait succeeds when the CRD is established at some attempt and not
      at any earlier one. */
  lemma WaitEstablishedAt(established: nat -> bool, n: nat)
    requires n < EstablishedSteps && established(n)
    requires forall j: nat :: j < n ==> !established(j)
    ensures WaitEstablished(established).None?
  {
    var poll := EstablishedPoll(established);
    KubeUtils.BackoffFromSpec(poll, 0, EstablishedSteps);
    assert poll(n) == KubeUtils.Done;
    assert KubeUtils.NotYetBefore(poll, n);
  }

  /** The wait times out when the CRD is never seen established. */
  lemma WaitEstablishedNever(established: nat -> bool)
    requires forall j: nat :: j < EstablishedSteps ==> !established(j)
    ensures WaitEstablished(established) == Some(KubeUtils.WaitTimeout)
  {
    var poll := EstablishedPoll(established);
    KubeUtils.BackoffFromSpec(poll, 0, EstablishedSteps);
    assert KubeUtils.NotYetBefore(poll, EstablishedSteps);
  }

  /** The wait succeeds exactly when the CRD is seen established within 600
      attempts; otherwise it times out. A failed read only counts as not
      established yet. */
  lemma WaitEstablishedSpec(established: nat -> bool)
    ensures WaitEstablished(established).None? <==> exists n: nat :: n < EstablishedSteps && established(n)
    ensures WaitEstablished(established).Some? ==> WaitEstablished(established) == Some(KubeUtils.WaitTimeout)
  {
    WaitEstablishedNoError(established);
    if exists n: nat :: n < EstablishedSteps && established(n) {
      var m: nat :| m < EstablishedSteps && established(m);
      FirstTrue(established, m);
      var n: nat :| n <= m && established(n) && forall j: nat :: j < n ==> !established(j);
      WaitEstablishedAt(established, n);
    } else {
      WaitEstablishedNever(established);
    }
  }

  lemma {:induction false} FirstTrue(p: nat -> bool, n: nat)
    requires p(n)
    ensures exists m: nat :: m <= n && p(m) && forall j: nat :: j < m ==> !p(j)
    decreases n
  {
    if exists j: nat :: j < n && p(j) {
      var j: nat :| j < n && p(j);
      FirstTrue(p, j);
    }
  }

  /** What the cluster and the decoder answer while the CRDs are applied. */
  datatype CrdWorld = CrdWorld(
    decode: string -> Result<Crd>,
    create: Crd -> Option<string>,
    established: string -> (nat -> bool))

  /** One document after the other: decode, mark, create, wait until
      established. Returns the CRDs submitted for creation, in order, and
      the first error. */
  function ApplyCrds(docs: seq<string>, w: CrdWorld): (r: (seq<Crd>, Option<string>))
    ensures |r.0| <= |docs|
    decreases |docs|
  {
    if |docs| == 0 then ([], None)
    else match w.decode(docs[0])
      case Err(e) => ([], Some(Wrap("unmarshal installation CRD", e)))
      case Ok(crd) =>
        var owned := HelmOwned(crd);
        if w.create(owned).Some? then ([owned], Some(Wrap("apply installation CRD", w.create(owned).value)))
        else match WaitEstablished(w.established(owned.name))
          case Some(e) => ([owned], Some(Wrap("wait for installation CRD to be ready", e)))
          case None =>
            var rest := ApplyCrds(docs[1..], w);
            ([owned] + rest.0, rest.1)
  }

  /** Document `k` decodes, its CRD is created and becomes established. */
  ghost predicate DocumentSucceeds(doc: string, w: CrdWorld) {
    && w.decode(doc).Ok?
    && w.create(HelmOwned(w.decode(doc).value)).None?
    && exists n: nat :: n < EstablishedSteps && w.established(w.decode(doc).value.name)(n)
  }

  /** Each submitted CRD is the marked decoding of its document, in
      document order. */
  lemma {:induction false} ApplyCrdsSubmits(docs: seq<string>, w: CrdWorld)
    ensures var r := ApplyCrds(docs, w);
      forall k :: 0 <= k < |r.0| ==> w.decode(docs[k]).Ok? && r.0[k] == HelmOwned(w.decode(docs[k]).value)
    decreases |docs|
  {
    if |docs| > 0 && w.decode(docs[0]).Ok? {
      var owned := HelmOwned(w.decode(docs[0]).value);
      var r := ApplyCrds(docs, w);
      var rest := ApplyCrds(docs[1..], w);
      ApplyCrdsSubmits(docs[1..], w);
      assert r.0 == [owned] || r.0 == [owned] + rest.0;
      forall k | 0 <= k < |r.0| ensures w.decode(docs[k]).Ok? && r.0[k] == HelmOwned(w.decode(docs[k]).value) {
        if k > 0 {
          assert r.0[k] == rest.0[k - 1];
          assert docs[k] == docs[1..][k - 1];
        }
      }
    }
  }

  /** All documents are applied exactly when each of them succeeds, and
      then every one of them was submitted. */
  lemma {:induction false} ApplyCrdsSucceeds(docs: seq<string>, w: CrdWorld)
    ensures var r := ApplyCrds(docs, w);
      && (r.1.None? <==> forall k :: 0 <= k < |docs| ==> DocumentSucceeds(docs[k], w))
      && (r.1.None? ==> |r.0| == |docs|)
    decreases |docs|
  {
    if |docs| > 0 {
      DocumentStep(docs[0], w);
      if DocumentSucceeds(docs[0], w) {
        ApplyCrdsSucceeds(docs[1..], w);
        var rest := ApplyCrds(docs[1..], w);
        if rest.1.None? {
          forall k | 0 <= k < |docs| ensures DocumentSucceeds(docs[k], w) {
            if k > 0 { assert docs[k] == docs[1..][k - 1]; }
          }
        } else {
          var j :| 0 <= j < |docs[1..]| && !DocumentSucceeds(docs[1..][j], w);
          assert !DocumentSucceeds(docs[j + 1], w);
        }
      }
    }
  }

  /** One document: it succeeds exactly when the run goes on to the next. */
  lemma DocumentStep(doc: string, w: CrdWorld)
    ensures DocumentSucceeds(doc, w) <==>
      && w.decode(doc).Ok?
      && w.create(HelmOwned(w.decode(doc).value)).None?
      && WaitEstablished(w.established(HelmOwned(w.decode(doc).value).name)).None?
  {
    if w.decode(doc).Ok? {
      WaitEstablishedSpec(w.established(HelmOwned(w.decode(doc).value).name));
    }
  }

  /** `createInstallationCRD` on the CRD file embedded in the binary. */
  function CreateInstallationCrd(file: string, w: CrdWorld): (r: (seq<Crd>, Option<string>)) {
    ApplyCrds(Split(file, DocumentSeparator), w)
  }

  /** The documents are the pieces between separators: none contains the
      separator, and joined back with it they are the whole file. */
  lemma CrdDocuments(file: string)
    ensures var docs := Split(file, DocumentSeparator);
      && Join(docs, DocumentSeparator) == file
      && forall k :: 0 <= k < |docs| ==> !Contains(docs[k], DocumentSeparator)
  {
    JoinSplit(file, DocumentSeparator);
    SplitPiecesHaveNoSep(file, DocumentSeparator);
  }

  // ---------------------------------------------------------------------
  // Network spec from the k0s configuration
  // ---------------------------------------------------------------------

  datatype K0sNetwork = K0sNetwork(podCIDR: string, serviceCIDR: string)

  datatype K0sApi = K0sApi(extraArgs: map<string, string>)

  /** The k0s cluster configuration; each nil pointer is `None`. */
  datatype K0sSpec = K0sSpec(network: Option<K0sNetwork>, api: Option<K0sApi>)

  datatype K0sConfig = K0sConfig(spec: Option<K0sSpec>)

  const NodePortRangeArg := "service-node-port-range"

  /** `networkSpecFromK0sConfig` as written: the API section is read
      without checking that the spec exists, so a config without a spec
      dereferences nil. `None` stands for that panic. */
  function NetworkSpecAsWritten(cfg: K0sConfig): Option<NetworkSpec> {
    var cidrs := if cfg.spec.Some? && cfg.spec.value.network.Some?
      then (cfg.spec.value.network.value.podCIDR, cfg.spec.value.network.value.serviceCIDR) else ("", "");
    if cfg.spec.None? then None
    else
      var api := cfg.spec.value.api;
      var range := if api.Some? && NodePortRangeArg in api.value.extraArgs then api.value.extraArgs[NodePortRangeArg] else "";
      Some(NetworkSpec(cidrs.0, cidrs.1, range))
  }

  /** A configuration without a spec makes the function as written fail. */
  lemma AsWrittenPanicsWithoutSpec()
    ensures NetworkSpecAsWritten(K0sConfig(None)).None?
  {
  }

  /** The network spec with the spec's presence checked before the API is
      read. */
  function NetworkSpecFromK0sConfig(cfg: K0sConfig): NetworkSpec {
    if cfg.spec.None? then NetworkSpec("", "", "")
    else
      var spec := cfg.spec.value;
      var cidrs := if spec.network.Some? then (spec.network.value.podCIDR, spec.network.value.serviceCIDR) else ("", "");
      var range := if spec.api.Some? && NodePortRangeArg in spec.api.value.extraArgs then spec.api.value.extraArgs[NodePortRangeArg] else "";
      NetworkSpec(cidrs.0, cidrs.1, range)
  }

  /** The CIDRs are copied only when both the spec and its network section
      exist; the node-port range is taken exactly when the API's extra
      arguments have the key; the corrected function never fails and
      agrees with the function as written wherever that one returns. */
  lemma NetworkSpecFields(cfg: K0sConfig)
    ensures var n := NetworkSpecFromK0sConfig(cfg);
      var hasNetwork := cfg.spec.Some? && cfg.spec.value.network.Some?;
      var hasRange := cfg.spec.Some? && cfg.spec.value.api.Some? && NodePortRangeArg in cfg.spec.value.api.value.extraArgs;
      && n.podCIDR == (if hasNetwork then cfg.spec.value.network.value.podCIDR else "")
      && n.serviceCIDR == (if hasNetwork then cfg.spec.value.network.value.serviceCIDR else "")
      && n.nodePortRange == (if hasRange then cfg.spec.value.api.value.extraArgs[NodePortRangeArg] else "")
      && (NetworkSpecAsWritten(cfg).Some? <==> cfg.spec.Some?)
      && (NetworkSpecAsWritten(cfg).Some? ==> NetworkSpecAsWritten(cfg).value == n)
  {
  }
}
