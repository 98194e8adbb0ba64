/** The PUT workers over the objects they share: the byte throttle and the progress counters. */
module Workers {
  import opened Common
  import opened Throttle
  import Upload

  // The shared objects hold what the state says they do.
  ghost predicate Agrees(throttle: BytesInFlightThrottle, progress: Upload.FanoutProgress, s: State)
    reads throttle, progress
  {
    && throttle.inFlight == s.inFlight && progress.putsInFlight == s.putsInFlight
    && progress.putsCompleted == s.putsCompleted && progress.putsFailed == s.putsFailed
  }

  /** One step of one worker. A worker that asks for bytes goes on exactly when the throttle admits it,
      and its PUT is counted; one that stops sending gives its bytes back, and its PUT is counted off. */
  method Perform(throttle: BytesInFlightThrottle, progress: Upload.FanoutProgress, s: State, step: Step, limits: Limits)
    returns (next: Option<State>)
    requires Agrees(throttle, progress, s) && throttle.maxBytes == limits.maxBytes
    modifies throttle, progress
    ensures next == Apply(s, step, limits)
    ensures Agrees(throttle, progress, if next.Some? then next.value else s)
  {
    if step.i >= |s.workers| || s.workers[step.i].node !in s.nodeFree {
      return None;
    }
    hide Started;
    var w := s.workers[step.i];
    if step.TakeBytes? && w.phase.HasNode? {
      var admitted := throttle.TryAcquire(w.size);
      if !admitted {
        return None;
      }
      progress.PutStarted();
    }
    if (step.Finish? || step.Cancel?) && w.phase.Running? && !w.metadata {
      progress.PutFinished(step.Finish? && step.ok);
      throttle.Release(w.size);
    }
    next := Apply(s, step, limits);
  }

  /** Any schedule of the workers, over a throttle and counters made for the fan-out. The bytes the
      throttle holds are those of the PUTs being sent, within the limit unless one is alone; the
      counters account for every PUT started; and when nobody can go on all is given back. */
  method RunWorkers(s: State, steps: seq<Step>, limits: Limits)
    returns (throttle: BytesInFlightThrottle, progress: Upload.FanoutProgress, end: Option<State>)
    requires Initial(s, limits) && s.putsCompleted == s.putsFailed == 0
    ensures end == Execute(s, steps, limits)
    ensures end.Some? ==>
              && throttle.inFlight == Total(end.value.workers, Reserved)
              && (throttle.inFlight <= limits.maxBytes || Lone(end.value.workers))
              && progress.putsInFlight == Total(end.value.workers, Putting)
              && progress.putsInFlight + progress.putsCompleted + progress.putsFailed == Starts(steps)
    ensures end.Some? && Stuck(end.value, limits) && limits.permits >= 1 && limits.nodeConnections >= 1 ==>
              throttle.inFlight == 0 && progress.putsInFlight == 0
  {
    throttle := new BytesInFlightThrottle(limits.maxBytes);
    progress := new Upload.FanoutProgress();
    end := Some(s);
    hide *;
    InitialAgrees(throttle, progress, s, limits);
    for k := 0 to |steps|
      invariant throttle.maxBytes == limits.maxBytes
      invariant end.Some? && Agrees(throttle, progress, end.value)
      invariant Execute(s, steps, limits) == Execute(end.value, steps[k..], limits)
    {
      Unrolled(end.value, steps, k, limits);
      end := Perform(throttle, progress, end.value, steps[k], limits);
      if end.None? {
        return;
      }
    }
    Concluded(throttle, progress, s, steps, limits, end.value);
  }

  lemma InitialAgrees(throttle: BytesInFlightThrottle, progress: Upload.FanoutProgress, s: State, limits: Limits)
    requires Initial(s, limits) && s.putsCompleted == s.putsFailed == 0
    requires throttle.inFlight == 0 && progress.putsInFlight == 0 && progress.putsCompleted == progress.putsFailed == 0
    ensures Agrees(throttle, progress, s)
  {
  }

  lemma Unrolled(s: State, steps: seq<Step>, k: nat, limits: Limits)
    requires k < |steps|
    ensures Execute(s, steps[k..], limits)
         == match Apply(s, steps[k], limits)
            case None => None
            case Some(next) => Execute(next, steps[k + 1..], limits)
  {
    assert steps[k..][1..] == steps[k + 1..];
  }

  lemma Concluded(throttle: BytesInFlightThrottle, progress: Upload.FanoutProgress, s: State, steps: seq<Step>,
                  limits: Limits, end: State)
    requires Initial(s, limits) && s.putsCompleted == s.putsFailed == 0
    requires Agrees(throttle, progress, end) && Execute(s, steps, limits) == Execute(end, steps[|steps|..], limits)
    ensures Execute(s, steps, limits) == Some(end)
    ensures throttle.inFlight == Total(end.workers, Reserved)
    ensures throttle.inFlight <= limits.maxBytes || Lone(end.workers)
    ensures progress.putsInFlight == Total(end.workers, Putting)
    ensures progress.putsInFlight + progress.putsCompleted + progress.putsFailed == Starts(steps)
    ensures Stuck(end, limits) && limits.permits >= 1 && limits.nodeConnections >= 1 ==>
              throttle.inFlight == 0 && progress.putsInFlight == 0
  {
    assert steps[|steps|..] == [];
    InitialHolds(s, limits);
    RunKeeps(s, steps, limits);
    PutsPaired(s, steps, limits);
    hide Total, Lone, Execute, Apply, Starts, Stuck;
    if Stuck(end, limits) && limits.permits >= 1 && limits.nodeConnections >= 1 {
      EveryRunCompletes(s, steps, limits);
    }
  }
}
