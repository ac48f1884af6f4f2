/**
 * Forward-only step pipelines.
 *
 * The orchestration code in this system is written as a straight sequence
 * of calls into Helm and Kubernetes, each followed by
 * `if err != nil { return errors.Wrap(err, "<context>") }`. Nothing is ever
 * undone. A `Step` pairs the action a call performs with the outcome the
 * outside world gives it; `Run` executes the steps in order and stops at the
 * first one that does not succeed. A call can also never return (a loop
 * waiting on a channel that nobody writes to); the pipeline then stops too,
 * without an error.
 */
module Steps {
  import opened Wrappers

  /** What one external call came back with. */
  datatype Outcome = Succeeded | Failed(cause: string) | Blocks

  /** One call: the action it performs, the context its error is wrapped
      with, and what it came back with. */
  datatype Step<A> = Step(action: A, context: string, outcome: Outcome)

  datatype Status = Completed | Aborted(err: string) | NeverReturns

  /** The actions that were started, in order, and how the run ended. */
  datatype Run<A> = Run(started: seq<A>, status: Status)

  /** Every step before `n` succeeded. */
  ghost predicate SucceededBefore<A>(steps: seq<Step<A>>, n: nat)
    requires n <= |steps|
  {
    forall i :: 0 <= i < n ==> steps[i].outcome == Succeeded
  }

  /** `started` lists the actions of the first `|started|` steps. */
  ghost predicate StartsWith<A>(steps: seq<Step<A>>, started: seq<A>)
  {
    |started| <= |steps| && forall i :: 0 <= i < |started| ==> started[i] == steps[i].action
  }

  /** Runs the steps in order until one fails or blocks. */
  function RunSteps<A>(steps: seq<Step<A>>): (r: Run<A>)
    ensures |r.started| <= |steps|
  {
    if |steps| == 0 then Run([], Completed)
    else
      var s := steps[0];
      match s.outcome
      case Failed(cause) => Run([s.action], Aborted(Wrap(s.context, cause)))
      case Blocks => Run([s.action], NeverReturns)
      case Succeeded =>
        var rest := RunSteps(steps[1..]);
        Run([s.action] + rest.started, rest.status)
  }

  /** What a run means: the started actions are those of a prefix of the
      steps; the run completes exactly when every step succeeds; otherwise the
      last started step is the first one that did not succeed, and its error
      is reported wrapped with its context. */
  lemma {:induction false} RunStepsSpec<A>(steps: seq<Step<A>>)
    ensures var r := RunSteps(steps);
      && StartsWith(steps, r.started)
      && (r.status.Completed? <==> SucceededBefore(steps, |steps|))
      && (r.status.Completed? ==> |r.started| == |steps|)
      && (!r.status.Completed? ==>
            && |r.started| > 0
            && SucceededBefore(steps, |r.started| - 1)
            && steps[|r.started| - 1].outcome != Succeeded)
      && (r.status.Aborted? ==>
            var last := steps[|r.started| - 1];
            last.outcome.Failed? && r.status.err == Wrap(last.context, last.outcome.cause))
      && (r.status.NeverReturns? ==> steps[|r.started| - 1].outcome.Blocks?)
    decreases |steps|
  {
    if |steps| > 0 && steps[0].outcome.Succeeded? {
      RunStepsSpec(steps[1..]);
      var rest := RunSteps(steps[1..]);
      assert RunSteps(steps).started == [steps[0].action] + rest.started;
      if !rest.status.Completed? {
        assert steps[|rest.started|] == steps[1..][|rest.started| - 1];
      }
    }
  }

  /** A run stops at the first step that does not succeed: it started
      exactly the actions up to that step and ends as that step did. */
  lemma RunStopsAt<A>(steps: seq<Step<A>>, k: nat)
    requires k < |steps| && SucceededBefore(steps, k) && !steps[k].outcome.Succeeded?
    ensures var r := RunSteps(steps);
      && |r.started| == k + 1
      && StartsWith(steps, r.started)
      && (steps[k].outcome.Blocks? ==> r.status == NeverReturns)
      && (steps[k].outcome.Failed? ==> r.status == Aborted(Wrap(steps[k].context, steps[k].outcome.cause)))
  {
    RunStepsSpec(steps);
    var r := RunSteps(steps);
    assert !SucceededBefore(steps, |steps|);
    var m := |r.started| - 1;
    assert SucceededBefore(steps, m) && steps[m].outcome != Succeeded;
    assert steps[k].outcome != Succeeded;
    assert m == k;
  }

  /** One unfolding of a run: the first step decides whether the rest runs. */
  lemma RunCons<A>(s: Step<A>, rest: seq<Step<A>>)
    ensures RunSteps([s] + rest) ==
      match s.outcome
      case Failed(cause) => Run([s.action], Aborted(Wrap(s.context, cause)))
      case Blocks => Run([s.action], NeverReturns)
      case Succeeded => Run([s.action] + RunSteps(rest).started, RunSteps(rest).status)
  {
    assert ([s] + rest)[1..] == rest;
  }

  /** The action of step `k` is started exactly when every earlier step
      succeeded: nothing is attempted after a failure, and nothing is skipped
      before one. */
  lemma StartedIffEarlierSucceeded<A>(steps: seq<Step<A>>, k: nat)
    requires k < |steps|
    ensures k < |RunSteps(steps).started| <==> SucceededBefore(steps, k)
  {
    RunStepsSpec(steps);
  }

  /** Running a concatenation runs the first part, and the second part only
      if the first completed. */
  lemma {:induction false} RunAppend<A>(first: seq<Step<A>>, second: seq<Step<A>>)
    ensures RunSteps(first + second) ==
              var r1 := RunSteps(first);
              if r1.status.Completed? then
                var r2 := RunSteps(second);
                Run(r1.started + r2.started, r2.status)
              else r1
    decreases |first|
  {
    if |first| == 0 {
      assert first + second == second;
    } else {
      var all := first + second;
      assert all[0] == first[0];
      assert all[1..] == first[1..] + second;
      var s := first[0];
      match s.outcome
      case Failed(cause) =>
        assert RunSteps(all) == Run([s.action], Aborted(Wrap(s.context, cause)));
        assert RunSteps(first) == Run([s.action], Aborted(Wrap(s.context, cause)));
      case Blocks =>
        assert RunSteps(all) == Run([s.action], NeverReturns);
        assert RunSteps(first) == Run([s.action], NeverReturns);
      case Succeeded =>
        RunAppend(first[1..], second);
        var r1 := RunSteps(first[1..]);
        assert RunSteps(first) == Run([s.action] + r1.started, r1.status);
        var ra := RunSteps(all[1..]);
        assert RunSteps(all) == Run([s.action] + ra.started, ra.status);
        if r1.status.Completed? {
          var r2 := RunSteps(second);
          assert ra == Run(r1.started + r2.started, r2.status);
          assert [s.action] + (r1.started + r2.started) == ([s.action] + r1.started) + r2.started;
        }
    }
  }
}
