/**
 * Waiting on cluster objects (`pkg/kubeutils`): the back-off schedule, the
 * readiness tests of deployments and stateful sets, and the two waits built
 * on the Kubernetes exponential back-off.
 *
 * Durations are integers (nanoseconds, like Go's `time.Duration`). The
 * sleeps between attempts and their jitter are not modelled; what the
 * cluster answers at attempt `i` is the parameter `probe(i)`.
 */
module KubeUtils {
  import opened Wrappers

  // ---------------------------------------------------------------------
  // BackOffToDuration
  // ---------------------------------------------------------------------

  /** A back-off with a whole growth factor. */
  datatype Backoff = Backoff(duration: int, factor: int, steps: int)

  /** The wait before attempt `k + 1`. */
  function DurationAt(b: Backoff, k: nat): int
  {
    if k == 0 then b.duration else DurationAt(b, k - 1) * b.factor
  }

  /** The sum of the first `n` waits. */
  function TotalOf(b: Backoff, n: nat): int
  {
    if n == 0 then 0 else TotalOf(b, n - 1) + DurationAt(b, n - 1)
  }

  /** `BackOffToDuration`: the longest a back-off can wait in total. */
  method BackOffToDuration(b: Backoff) returns (total: int)
    ensures b.steps <= 0 ==> total == 0
    ensures b.steps > 0 ==> total == TotalOf(b, b.steps)
  {
    total := 0;
    var duration := b.duration;
    var i := 0;
    while i < b.steps
      invariant 0 <= i && (b.steps > 0 ==> i <= b.steps) && (b.steps <= 0 ==> i == 0)
      invariant duration == DurationAt(b, i)
      invariant total == TotalOf(b, i)
    {
      total := total + duration;
      duration := duration * b.factor;
      i := i + 1;
    }
  }

  /** With a factor of one every wait is the initial one, so the total is
      the number of steps times the initial wait. */
  lemma {:induction false} ConstantBackoffTotal(b: Backoff, n: nat)
    requires b.factor == 1
    ensures DurationAt(b, n) == b.duration
    ensures TotalOf(b, n) == n * b.duration
  {
    if n > 0 {
      ConstantBackoffTotal(b, n - 1);
      assert (n - 1) * b.duration + b.duration == n * b.duration;
    }
  }

  /** With a factor of zero only the first wait counts. */
  lemma {:induction false} ZeroFactorTotal(b: Backoff, n: nat)
    requires b.factor == 0 && n >= 1
    ensures TotalOf(b, n) == b.duration
  {
    if n > 1 {
      ZeroFactorTotal(b, n - 1);
      assert DurationAt(b, n - 1) == DurationAt(b, n - 2) * 0;
    }
  }

  /** The back-off both waits use: 60 steps of 5 seconds, factor 1. */
  const WaitBackoff := Backoff(5_000_000_000, 1, 60)

  /** The back-off both waits use adds up to five minutes of waiting, the
      figure `BackOffToDuration` reports. The real sleeps are longer: each
      is stretched by up to 10% of jitter, which is not modelled. */
  lemma WaitBackoffTotal()
    ensures TotalOf(WaitBackoff, 60) == 300_000_000_000
  {
    ConstantBackoffTotal(WaitBackoff, 60);
  }

  // ---------------------------------------------------------------------
  // Readiness
  // ---------------------------------------------------------------------

  /** The replica counts of a deployment or stateful set; the desired count
      is a pointer that may be nil. */
  datatype Replicas = Replicas(desired: Option<int>, ready: int)

  /** An object is ready when its desired replica count is set and all of
      them are ready; a failing `Get` is passed on. */
  function IsReady(get: Result<Replicas>): (r: Result<bool>)
    ensures r.Err? <==> get.Err?
    ensures get.Err? ==> r.msg == get.msg
    ensures r == Ok(true) <==> get.Ok? && get.value.desired == Some(get.value.ready)
  {
    if get.Err? then Err(get.msg)
    else if get.value.desired.None? then Ok(false)
    else Ok(get.value.ready == get.value.desired.value)
  }

  /** `IsDeploymentReady`: a deployment is ready when its desired replica
      count is set and every desired replica is ready; a failed read is
      passed on. */
  function IsDeploymentReady(get: Result<Replicas>): (r: Result<bool>)
    ensures r.Err? <==> get.Err?
    ensures get.Err? ==> r.msg == get.msg
    ensures r == Ok(true) <==> get.Ok? && get.value.desired == Some(get.value.ready)
  {
    IsReady(get)
  }

  /** `IsStatefulSetReady`: the same test on a stateful set. */
  function IsStatefulSetReady(get: Result<Replicas>): (r: Result<bool>)
    ensures r.Err? <==> get.Err?
    ensures get.Err? ==> r.msg == get.msg
    ensures r == Ok(true) <==> get.Ok? && get.value.desired == Some(get.value.ready)
  {
    IsReady(get)
  }

  // ---------------------------------------------------------------------
  // Exponential back-off
  // ---------------------------------------------------------------------

  /** What one evaluation of a wait condition returns. */
  datatype Poll = Done | NotYet | PollError(msg: string)

  const WaitTimeout := "timed out waiting for the condition"

  /** The Kubernetes exponential back-off, from attempt `i` on: evaluate the
      condition at most `steps` times in all; stop with its error, or with
      nil once it holds; give up with the time-out error. */
  function BackoffFrom(poll: nat -> Poll, i: nat, steps: int): Option<string>
    decreases steps - i
  {
    if i >= steps then Some(WaitTimeout)
    else match poll(i)
      case Done => None
      case PollError(e) => Some(e)
      case NotYet => BackoffFrom(poll, i + 1, steps)
  }

  function ExponentialBackoff(poll: nat -> Poll, steps: int): Option<string> {
    BackoffFrom(poll, 0, steps)
  }

  /** The condition was still false at every attempt before `n`. */
  ghost predicate NotYetBefore(poll: nat -> Poll, n: nat) {
    forall j: nat :: j < n ==> poll(j) == NotYet
  }

  /** The back-off succeeds exactly when the condition holds at some attempt
      within the budget after being false at every earlier one; it fails with
      the condition's error when that comes first; otherwise it times out. */
  lemma {:induction false} BackoffFromSpec(poll: nat -> Poll, i: nat, steps: int)
    requires NotYetBefore(poll, i)
    ensures var r := BackoffFrom(poll, i, steps);
      && (r.None? <==> exists n: nat :: n < steps && poll(n) == Done && NotYetBefore(poll, n))
      && (r.Some? && r.value != WaitTimeout ==>
            exists n: nat :: n < steps && poll(n) == PollError(r.value) && NotYetBefore(poll, n))
      && (NotYetBefore(poll, if steps < 0 then 0 else steps) ==> r == Some(WaitTimeout))
    decreases steps - i
  {
    if i < steps && poll(i) == NotYet {
      BackoffFromSpec(poll, i + 1, steps);
      var r := BackoffFrom(poll, i, steps);
      if exists n: nat :: n < steps && poll(n) == Done && NotYetBefore(poll, n) {
        var n: nat :| n < steps && poll(n) == Done && NotYetBefore(poll, n);
        assert n > i;
      }
    } else if i < steps && poll(i).PollError? {
      assert forall n: nat :: NotYetBefore(poll, n) ==> n <= i;
    }
  }

  // ---------------------------------------------------------------------
  // WaitForChart
  // ---------------------------------------------------------------------

  /** The chart condition: a failing `Get` stops the wait; otherwise the
      chart is applied once it reports a release name. */
  function ChartPoll(probe: nat -> Result<string>): nat -> Poll {
    (i: nat) => if probe(i).Err? then PollError(probe(i).msg) else if probe(i).value != "" then Done else NotYet
  }

  /** `WaitForChart`. `probe(i)` is the chart's release name as read at
      attempt `i`, or the read error. */
  function WaitForChart(name: string, probe: nat -> Result<string>): (r: Option<string>)
    ensures r.Some? ==> exists cause :: r.value == "timed out waiting for chart " + name + ": " + cause
  {
    match ExponentialBackoff(ChartPoll(probe), WaitBackoff.steps)
    case None => None
    case Some(e) => Some("timed out waiting for chart " + name + ": " + e)
  }

  /** The chart was read without error at every attempt before `n`, and
      had no release name yet. */
  ghost predicate NoReleaseBefore(probe: nat -> Result<string>, n: nat) {
    forall j: nat :: j < n ==> probe(j) == Ok("")
  }

  /** The chart condition is false exactly while the chart is read without
      a release name. */
  lemma ChartNotYetBefore(probe: nat -> Result<string>, n: nat)
    ensures NotYetBefore(ChartPoll(probe), n) <==> NoReleaseBefore(probe, n)
  {
    var poll := ChartPoll(probe);
    assert forall j: nat :: poll(j) == NotYet <==> probe(j) == Ok("");
  }

  /** The chart wait returns nil exactly when the chart reports a release
      name within 60 attempts, every earlier read having succeeded without
      one. Any read error ends the wait at once. */
  lemma WaitForChartSpec(name: string, probe: nat -> Result<string>)
    ensures WaitForChart(name, probe).None? <==>
      exists n: nat :: n < 60 && probe(n).Ok? && probe(n).value != "" && NoReleaseBefore(probe, n)
  {
    var poll := ChartPoll(probe);
    BackoffFromSpec(poll, 0, 60);
    if exists n: nat :: n < 60 && probe(n).Ok? && probe(n).value != "" && NoReleaseBefore(probe, n) {
      var n: nat :| n < 60 && probe(n).Ok? && probe(n).value != "" && NoReleaseBefore(probe, n);
      ChartNotYetBefore(probe, n);
      assert poll(n) == Done;
    }
    if WaitForChart(name, probe).None? {
      var n: nat :| n < 60 && poll(n) == Done && NotYetBefore(poll, n);
      ChartNotYetBefore(probe, n);
    }
  }

  // ---------------------------------------------------------------------
  // WaitForDeployment
  // ---------------------------------------------------------------------

  /** The deployment wait from attempt `i` on. A failing read never stops
      it: the error is remembered and the condition counts as false. On time
      out the last remembered error is reported, or `<nil>` if none. */
  function DeploymentFrom(name: string, probe: nat -> Result<Replicas>, i: nat, lastErr: Option<string>): Option<string>
    decreases WaitBackoff.steps - i
  {
    if i >= WaitBackoff.steps then
      Some("timed out waiting for deploy " + name + ": " + lastErr.GetOr("<nil>"))
    else match IsDeploymentReady(probe(i))
      case Ok(true) => None
      case Ok(false) => DeploymentFrom(name, probe, i + 1, lastErr)
      case Err(e) => DeploymentFrom(name, probe, i + 1, Some("unable to get deploy " + name + " status: " + e))
  }

  /** `WaitForDeployment`. */
  function WaitForDeployment(name: string, probe: nat -> Result<Replicas>): Option<string> {
    DeploymentFrom(name, probe, 0, None)
  }

  /** The last read error before attempt `n`, as the wait remembers it. */
  function LastErrorBefore(name: string, probe: nat -> Result<Replicas>, n: nat): Option<string>
  {
    if n == 0 then None
    else if probe(n - 1).Err? then Some("unable to get deploy " + name + " status: " + probe(n - 1).msg)
    else LastErrorBefore(name, probe, n - 1)
  }

  /** The deployment wait returns nil exactly when the deployment is ready
      at one of the 60 attempts; read errors never end it early. When it
      times out it reports the last read error of all 60 attempts. */
  lemma {:induction false} DeploymentFromSpec(name: string, probe: nat -> Result<Replicas>, i: nat, lastErr: Option<string>)
    requires i <= 60
    requires lastErr == LastErrorBefore(name, probe, i)
    ensures DeploymentFrom(name, probe, i, lastErr).None? <==>
              exists n: nat :: i <= n < 60 && IsDeploymentReady(probe(n)) == Ok(true)
    ensures DeploymentFrom(name, probe, i, lastErr).Some? ==>
              DeploymentFrom(name, probe, i, lastErr).value ==
                "timed out waiting for deploy " + name + ": " + LastErrorBefore(name, probe, 60).GetOr("<nil>")
    decreases 60 - i
  {
    if i < 60 {
      if IsDeploymentReady(probe(i)) != Ok(true) {
        var next := if probe(i).Err? then Some("unable to get deploy " + name + " status: " + probe(i).msg) else lastErr;
        assert next == LastErrorBefore(name, probe, i + 1);
        DeploymentFromSpec(name, probe, i + 1, next);
        if exists n: nat :: i <= n < 60 && IsDeploymentReady(probe(n)) == Ok(true) {
          var n: nat :| i <= n < 60 && IsDeploymentReady(probe(n)) == Ok(true);
          assert n > i;
        }
      }
    }
  }

  lemma WaitForDeploymentSpec(name: string, probe: nat -> Result<Replicas>)
    ensures WaitForDeployment(name, probe).None? <==>
              exists n: nat :: n < 60 && IsDeploymentReady(probe(n)) == Ok(true)
    ensures WaitForDeployment(name, probe).Some? ==>
              WaitForDeployment(name, probe).value ==
                "timed out waiting for deploy " + name + ": " + LastErrorBefore(name, probe, 60).GetOr("<nil>")
  {
    DeploymentFromSpec(name, probe, 0, None);
  }
}
