/** The byte throttle and the two semaphores around it, under every interleaving of the PUT workers. */
module Throttle {
  import opened Common

  predicate MustWait(inFlight: int, size: int, maxBytes: int) {
    inFlight > 0 && inFlight + size > maxBytes
  }

  // Bounds the payload bytes in flight; a lone payload of any size is let through.
  class BytesInFlightThrottle {
    const maxBytes: int
    var inFlight: int

    constructor (maxBytes: int)
      ensures this.maxBytes == maxBytes && inFlight == 0
    {
      this.maxBytes := maxBytes;
      inFlight := 0;
    }

    // One look at the condition that an acquire re-checks each time it is woken.
    method TryAcquire(size: nat) returns (admitted: bool)
      modifies this
      ensures admitted <==> !MustWait(old(inFlight), size, maxBytes)
      ensures inFlight == if admitted then old(inFlight) + size else old(inFlight)
    {
      if inFlight > 0 && inFlight + size > maxBytes {
        return false;
      }
      inFlight := inFlight + size;
      return true;
    }

    method Release(size: nat)
      modifies this
      ensures inFlight == old(inFlight) - size
    {
      inFlight := inFlight - size;
    }
  }

  // The number of PUTs let past the global semaphore.
  function EffectivePermits(maxConcurrentWrites: int, maxBytes: int, sliverSize: nat): (r: int)
    ensures r >= 1
    ensures r > 1 ==> r <= maxConcurrentWrites && r * sliverSize <= maxBytes
  {
    var divisor := if sliverSize > 1 then sliverSize else 1;
    var budget := maxBytes / divisor;
    var least := if maxConcurrentWrites < budget then maxConcurrentWrites else budget;
    if least > 1 then
      BudgetFits(least, divisor, sliverSize, maxBytes);
      least
    else 1
  }

  // As many PUTs as both limits allow, an empty sliver counting for one byte, but at least one.
  lemma PermitsGreatest(maxConcurrentWrites: int, maxBytes: int, sliverSize: nat, count: int)
    requires 1 <= count <= maxConcurrentWrites && count * (if sliverSize > 1 then sliverSize else 1) <= maxBytes
    ensures count <= EffectivePermits(maxConcurrentWrites, maxBytes, sliverSize)
  {
    var divisor := if sliverSize > 1 then sliverSize else 1;
    var budget := maxBytes / divisor;
    assert maxBytes == budget * divisor + maxBytes % divisor;
    assert (budget + 1) * divisor == budget * divisor + divisor;
    if count > budget {
      Times(budget + 1, count, divisor);
      assert false;
    }
  }

  lemma Times(a: int, b: int, c: nat)
    requires a <= b
    ensures a * c <= b * c
  {
  }

  lemma BudgetFits(permits: int, divisor: nat, sliverSize: nat, maxBytes: int)
    requires divisor == if sliverSize > 1 then sliverSize else 1
    requires 1 < permits <= maxBytes / divisor
    ensures permits * sliverSize <= maxBytes
  {
    assert (maxBytes / divisor) * divisor <= maxBytes;
    assert permits * divisor <= (maxBytes / divisor) * divisor;
    assert permits * sliverSize <= permits * divisor;
  }

  // ----- The workers -----

  datatype Phase = Waiting | HasGlobal | HasNode | Running | Backoff | Ended

  // One metadata or sliver PUT, retried until it succeeds or runs out of attempts.
  datatype Worker = Worker(node: Text, size: nat, metadata: bool, attempt: nat, phase: Phase)

  datatype Limits = Limits(maxBytes: int, permits: int, nodeConnections: int, maxRetries: int)

  datatype State = State(workers: seq<Worker>, globalFree: int, nodeFree: map<Text, int>, inFlight: int,
                         putsInFlight: int, putsCompleted: int, putsFailed: int)

  datatype Step = TakeGlobal(i: nat) | TakeNode(i: nat) | TakeBytes(i: nat) | Finish(i: nat, ok: bool) | Wake(i: nat)
                | Cancel(i: nat)

  function HoldsGlobal(w: Worker): nat { if w.phase in {HasGlobal, HasNode, Running} then 1 else 0 }

  function HoldsNode(w: Worker, node: Text): nat { if w.node == node && w.phase in {HasNode, Running} then 1 else 0 }

  function HeldAt(node: Text): Worker -> nat { w => HoldsNode(w, node) }

  function Reserved(w: Worker): nat { if w.phase.Running? && !w.metadata then w.size else 0 }

  function Putting(w: Worker): nat { if w.phase.Running? && !w.metadata then 1 else 0 }

  // A node's slivers are sent only after its metadata PUT is over.
  predicate Started(workers: seq<Worker>, i: nat)
    requires i < |workers|
  {
    workers[i].metadata
    || forall j :: 0 <= j < |workers| && workers[j].metadata && workers[j].node == workers[i].node ==>
                     workers[j].phase.Ended?
  }

  // What a worker gives back when it finishes or is cancelled.
  function Release(s: State, i: nat, w: Worker, ok: bool): State
    requires i < |s.workers| && s.workers[i].node in s.nodeFree
  {
    var before := s.workers[i];
    s.(workers := s.workers[i := w],
       globalFree := s.globalFree + HoldsGlobal(before),
       nodeFree := s.nodeFree[before.node := s.nodeFree[before.node] + HoldsNode(before, before.node)],
       inFlight := s.inFlight - Reserved(before),
       putsInFlight := s.putsInFlight - Putting(before),
       putsCompleted := s.putsCompleted + if ok then Putting(before) else 0,
       putsFailed := s.putsFailed + if ok then 0 else Putting(before))
  }

  // The state after a step, or None when the step has to wait.
  function Apply(s: State, step: Step, limits: Limits): Option<State> {
    if step.i >= |s.workers| || s.workers[step.i].node !in s.nodeFree then None else
    var i, w := step.i, s.workers[step.i];
    match step
    case TakeGlobal(_) =>
      if w.phase.Waiting? && Started(s.workers, i) && s.globalFree > 0 then
        Some(s.(workers := s.workers[i := w.(phase := HasGlobal)], globalFree := s.globalFree - 1))
      else None
    case TakeNode(_) =>
      if w.phase.HasGlobal? && s.nodeFree[w.node] > 0 then
        Some(s.(workers := s.workers[i := w.(phase := if w.metadata then Running else HasNode)],
                nodeFree := s.nodeFree[w.node := s.nodeFree[w.node] - 1]))
      else None
    case TakeBytes(_) =>
      if w.phase.HasNode? && !MustWait(s.inFlight, w.size, limits.maxBytes) then
        Some(s.(workers := s.workers[i := w.(phase := Running)], inFlight := s.inFlight + w.size,
                putsInFlight := s.putsInFlight + 1))
      else None
    case Finish(_, ok) =>
      if w.phase.Running? then
        Some(Release(s, i, w.(phase := if ok || w.attempt >= limits.maxRetries then Ended else Backoff), ok))
      else None
    case Wake(_) =>
      if w.phase.Backoff? then
        Some(s.(workers := s.workers[i := w.(phase := Waiting, attempt := w.attempt + 1)]))
      else None
    case Cancel(_) =>
      if w.phase.Ended? then None else Some(Release(s, i, w.(phase := Ended), false))
  }

  function Execute(s: State, steps: seq<Step>, limits: Limits): Option<State>
    decreases |steps|
  {
    if steps == [] then Some(s)
    else match Apply(s, steps[0], limits)
      case None => None
      case Some(next) => Execute(next, steps[1..], limits)
  }

  // ----- Totals over the workers -----

  ghost function Total(workers: seq<Worker>, f: Worker -> nat): nat {
    if workers == [] then 0 else f(workers[0]) + Total(workers[1..], f)
  }

  lemma {:induction false} TotalUpdate(workers: seq<Worker>, i: nat, w: Worker, f: Worker -> nat)
    requires i < |workers|
    ensures Total(workers[i := w], f) == Total(workers, f) - f(workers[i]) + f(w)
    ensures f(workers[i]) <= Total(workers, f)
  {
    if i == 0 {
      assert workers[i := w][1..] == workers[1..];
    } else {
      assert workers[i := w][1..] == workers[1..][i - 1 := w];
      TotalUpdate(workers[1..], i - 1, w, f);
    }
  }

  lemma {:induction false} TotalZero(workers: seq<Worker>, f: Worker -> nat)
    ensures Total(workers, f) == 0 <==> forall i :: 0 <= i < |workers| ==> f(workers[i]) == 0
  {
    if workers != [] {
      TotalZero(workers[1..], f);
      assert forall i :: 0 <= i < |workers| - 1 ==> workers[1..][i] == workers[i + 1];
      if forall i :: 0 <= i < |workers[1..]| ==> f(workers[1..][i]) == 0 {
        forall i | 1 <= i < |workers| ensures f(workers[i]) == 0 {
          assert workers[i] == workers[1..][i - 1];
        }
      }
    }
  }

  lemma {:induction false} ReservedWithin(workers: seq<Worker>, sliverSize: nat)
    requires forall i :: 0 <= i < |workers| && !workers[i].metadata ==> workers[i].size <= sliverSize
    ensures Total(workers, Reserved) <= Total(workers, HoldsGlobal) * sliverSize
  {
    if workers != [] {
      ReservedWithin(workers[1..], sliverSize);
      assert Total(workers, HoldsGlobal) * sliverSize
          == HoldsGlobal(workers[0]) * sliverSize + Total(workers[1..], HoldsGlobal) * sliverSize;
    }
  }

  // ----- The invariant -----

  ghost predicate Lone(workers: seq<Worker>) {
    forall i, j :: 0 <= i < j < |workers| ==> Reserved(workers[i]) == 0 || Reserved(workers[j]) == 0
  }

  // A metadata PUT never asks for bytes, and only a worker with attempts left backs off.
  ghost predicate WellPhased(workers: seq<Worker>, limits: Limits) {
    forall i :: 0 <= i < |workers| ==>
      (workers[i].metadata ==> !workers[i].phase.HasNode?)
      && (workers[i].phase.Backoff? ==> workers[i].attempt < limits.maxRetries)
  }

  ghost predicate NodesAccounted(s: State, limits: Limits) {
    forall node :: node in s.nodeFree ==>
      s.nodeFree[node] >= 0 && s.nodeFree[node] + Total(s.workers, HeldAt(node)) == limits.nodeConnections
  }

  ghost predicate Inv(s: State, limits: Limits) {
    && (forall i :: 0 <= i < |s.workers| ==> s.workers[i].node in s.nodeFree)
    && WellPhased(s.workers, limits)
    && s.globalFree >= 0 && s.globalFree + Total(s.workers, HoldsGlobal) == limits.permits
    && NodesAccounted(s, limits)
    && s.inFlight == Total(s.workers, Reserved)
    && (s.inFlight <= limits.maxBytes || Lone(s.workers))
    && s.putsInFlight == Total(s.workers, Putting)
  }

  // The bytes in flight never pass the limit, unless one payload is the only one in flight that has any.
  ghost predicate WithinLimit(s: State, limits: Limits) {
    s.inFlight <= limits.maxBytes || Lone(s.workers)
  }

  lemma StepIsUpdate(s: State, step: Step, limits: Limits, next: State)
    requires Apply(s, step, limits) == Some(next)
    ensures step.i < |s.workers| == |next.workers|
    ensures next.workers == s.workers[step.i := next.workers[step.i]]
    ensures next.workers[step.i].node == s.workers[step.i].node
    ensures next.workers[step.i].metadata == s.workers[step.i].metadata
    ensures next.workers[step.i].size == s.workers[step.i].size
  {
  }

  lemma CountsKept(s: State, step: Step, limits: Limits, next: State)
    requires Inv(s, limits) && Apply(s, step, limits) == Some(next)
    ensures next.globalFree >= 0 && next.globalFree + Total(next.workers, HoldsGlobal) == limits.permits
    ensures next.inFlight == Total(next.workers, Reserved)
    ensures next.putsInFlight == Total(next.workers, Putting)
  {
    StepIsUpdate(s, step, limits, next);
    var w := next.workers[step.i];
    TotalUpdate(s.workers, step.i, w, HoldsGlobal);
    TotalUpdate(s.workers, step.i, w, Reserved);
    TotalUpdate(s.workers, step.i, w, Putting);
    hide Total, NodesAccounted, Lone, Started;
  }

  lemma NodeKept(s: State, step: Step, limits: Limits, next: State, node: Text)
    requires NodesAccounted(s, limits) && Apply(s, step, limits) == Some(next) && node in s.nodeFree
    ensures node in next.nodeFree && next.nodeFree[node] >= 0
    ensures next.nodeFree[node] + Total(next.workers, HeldAt(node)) == limits.nodeConnections
  {
    StepIsUpdate(s, step, limits, next);
    TotalUpdate(s.workers, step.i, next.workers[step.i], HeldAt(node));
    assert s.nodeFree[node] + Total(s.workers, HeldAt(node)) == limits.nodeConnections;
    hide Total, Started, NodesAccounted, MustWait;
  }

  lemma NodesKept(s: State, step: Step, limits: Limits, next: State)
    requires NodesAccounted(s, limits) && Apply(s, step, limits) == Some(next)
    ensures NodesAccounted(next, limits) && next.nodeFree.Keys == s.nodeFree.Keys
  {
    forall node | node in s.nodeFree {
      NodeKept(s, step, limits, next, node);
    }
  }

  lemma LimitKept(s: State, step: Step, limits: Limits, next: State)
    requires Inv(s, limits) && Apply(s, step, limits) == Some(next)
    ensures WithinLimit(next, limits)
  {
    StepIsUpdate(s, step, limits, next);
    TotalZero(s.workers, Reserved);
    TotalUpdate(s.workers, step.i, next.workers[step.i], Reserved);
    hide Total, NodesAccounted, Started;
  }

  lemma StepKeeps(s: State, step: Step, limits: Limits, next: State)
    requires Inv(s, limits) && Apply(s, step, limits) == Some(next)
    ensures Inv(next, limits)
  {
    StepIsUpdate(s, step, limits, next);
    CountsKept(s, step, limits, next);
    NodesKept(s, step, limits, next);
    LimitKept(s, step, limits, next);
    PhasesKept(s, step, limits, next);
    hide Total, NodesAccounted, Lone, Apply;
  }

  lemma PhasesKept(s: State, step: Step, limits: Limits, next: State)
    requires Apply(s, step, limits) == Some(next) && WellPhased(s.workers, limits)
    ensures WellPhased(next.workers, limits)
  {
    hide Started, MustWait;
  }

  // ----- Every run -----

  ghost predicate Initial(s: State, limits: Limits) {
    && (forall i :: 0 <= i < |s.workers| ==> s.workers[i].phase.Waiting? && s.workers[i].node in s.nodeFree)
    && s.globalFree == limits.permits >= 0 && limits.nodeConnections >= 0
    && (forall node :: node in s.nodeFree ==> s.nodeFree[node] == limits.nodeConnections)
    && s.inFlight == s.putsInFlight == 0
  }

  lemma InitialHolds(s: State, limits: Limits)
    requires Initial(s, limits)
    ensures Inv(s, limits)
  {
    TotalZero(s.workers, HoldsGlobal);
    TotalZero(s.workers, Reserved);
    TotalZero(s.workers, Putting);
    forall node | node in s.nodeFree ensures Total(s.workers, HeldAt(node)) == 0 {
      TotalZero(s.workers, HeldAt(node));
    }
  }

  /** Whatever the interleaving: permits and reservations are accounted for exactly, the bytes in
      flight are the sum of the reservations held, and they stay within the limit unless one
      reservation is the only non-zero one. */
  lemma {:induction false} RunKeeps(s: State, steps: seq<Step>, limits: Limits)
    requires Inv(s, limits) && Execute(s, steps, limits).Some?
    ensures Inv(Execute(s, steps, limits).value, limits)
    decreases |steps|
  {
    hide Inv;
    if steps != [] {
      var next := Apply(s, steps[0], limits).value;
      StepKeeps(s, steps[0], limits, next);
      RunKeeps(next, steps[1..], limits);
    }
  }

  // While a sliver worker is past waiting, the metadata of its node is over.
  ghost predicate MetadataFirst(workers: seq<Worker>) {
    forall i, j :: 0 <= i < |workers| && 0 <= j < |workers| && workers[i].node == workers[j].node
                   && !workers[i].metadata && workers[j].metadata
                   && workers[i].phase in {HasGlobal, HasNode, Running, Backoff} ==>
      workers[j].phase.Ended?
  }

  lemma StepKeepsOrder(s: State, step: Step, limits: Limits, next: State)
    requires MetadataFirst(s.workers) && Apply(s, step, limits) == Some(next)
    ensures MetadataFirst(next.workers)
  {
    StepIsUpdate(s, step, limits, next);
    hide MustWait;
  }

  /** No interleaving sends a sliver to a node before its metadata is over. */
  lemma {:induction false} SliversAfterMetadata(s: State, steps: seq<Step>, limits: Limits)
    requires Initial(s, limits) || MetadataFirst(s.workers)
    requires Execute(s, steps, limits).Some?
    ensures MetadataFirst(Execute(s, steps, limits).value.workers)
    decreases |steps|
  {
    assert MetadataFirst(s.workers);
    hide MetadataFirst;
    if steps != [] {
      var next := Apply(s, steps[0], limits).value;
      StepKeepsOrder(s, steps[0], limits, next);
      SliversAfterMetadata(next, steps[1..], limits);
    }
  }

  /** With the permits the fan-out computes, and no sliver above the size they were computed from, a
      worker that has its permits never waits for bytes. */
  lemma NeverWaits(s: State, limits: Limits, maxConcurrentWrites: int, sliverSize: nat, i: nat)
    requires Inv(s, limits) && limits.permits == EffectivePermits(maxConcurrentWrites, limits.maxBytes, sliverSize)
    requires forall k :: 0 <= k < |s.workers| && !s.workers[k].metadata ==> s.workers[k].size <= sliverSize
    requires i < |s.workers| && s.workers[i].phase.HasNode?
    ensures !MustWait(s.inFlight, s.workers[i].size, limits.maxBytes)
    ensures Apply(s, TakeBytes(i), limits).Some?
  {
    var without := s.workers[i := s.workers[i].(phase := Ended)];
    TotalUpdate(s.workers, i, without[i], HoldsGlobal);
    TotalUpdate(s.workers, i, without[i], Reserved);
    ReservedWithin(without, sliverSize);
    var others := Total(without, HoldsGlobal);
    assert others <= limits.permits - 1 && s.inFlight <= others * sliverSize;
    hide *;
    PermitsCover(others, limits.permits, sliverSize);
  }

  lemma PermitsCover(others: nat, permits: int, sliverSize: nat)
    requires others <= permits - 1
    ensures others * sliverSize + sliverSize <= permits * sliverSize
  {
    assert others * sliverSize <= (permits - 1) * sliverSize;
  }

  ghost predicate Stuck(s: State, limits: Limits) {
    forall step: Step :: !step.Cancel? ==> Apply(s, step, limits).None?
  }

  lemma CanGo(s: State, step: Step, limits: Limits)
    requires !step.Cancel? && Apply(s, step, limits).Some?
    ensures !Stuck(s, limits)
  {
  }

  lemma BytesCanGo(s: State, limits: Limits, k: nat)
    requires Inv(s, limits) && k < |s.workers| && s.workers[k].phase.HasNode?
    requires forall i :: 0 <= i < |s.workers| ==> !s.workers[i].phase.Running?
    ensures Apply(s, TakeBytes(k), limits).Some?
  {
    TotalZero(s.workers, Reserved);
  }

  lemma NodeCanGo(s: State, limits: Limits, k: nat)
    requires Inv(s, limits) && limits.nodeConnections >= 1
    requires k < |s.workers| && s.workers[k].phase.HasGlobal?
    requires forall i :: 0 <= i < |s.workers| ==> !s.workers[i].phase.Running? && !s.workers[i].phase.HasNode?
    ensures Apply(s, TakeNode(k), limits).Some?
  {
    TotalZero(s.workers, HeldAt(s.workers[k].node));
  }

  // The worker itself, or while its node's metadata is still to be sent, the metadata's.
  lemma GlobalCanGo(s: State, limits: Limits, i: nat) returns (k: nat)
    requires Inv(s, limits) && limits.permits >= 1
    requires i < |s.workers| && s.workers[i].phase.Waiting?
    requires forall i :: 0 <= i < |s.workers| ==> s.workers[i].phase.Waiting? || s.workers[i].phase.Ended?
    ensures Apply(s, TakeGlobal(k), limits).Some?
  {
    TotalZero(s.workers, HoldsGlobal);
    k := i;
    if !Started(s.workers, i) {
      k :| k < |s.workers| && s.workers[k].metadata && !s.workers[k].phase.Ended?;
    }
  }

  /** No deadlock: short of every worker having ended, some worker can go on without any being cancelled. */
  lemma NotStuck(s: State, limits: Limits, i: nat)
    requires Inv(s, limits) && limits.permits >= 1 && limits.nodeConnections >= 1
    requires i < |s.workers| && !s.workers[i].phase.Ended?
    ensures !Stuck(s, limits)
  {
    var workers := s.workers;
    if k :| 0 <= k < |workers| && workers[k].phase.Running? {
      CanGo(s, Finish(k, true), limits);
    } else if k :| 0 <= k < |workers| && workers[k].phase.Backoff? {
      CanGo(s, Wake(k), limits);
    } else if k :| 0 <= k < |workers| && workers[k].phase.HasNode? {
      BytesCanGo(s, limits, k);
      CanGo(s, TakeBytes(k), limits);
    } else if k :| 0 <= k < |workers| && workers[k].phase.HasGlobal? {
      NodeCanGo(s, limits, k);
      CanGo(s, TakeNode(k), limits);
    } else {
      var k := GlobalCanGo(s, limits, i);
      CanGo(s, TakeGlobal(k), limits);
    }
  }

  /** The other way round, a fan-out allowed no connection to a node sends nothing at all. */
  lemma NoConnectionsNothingSent(s: State, limits: Limits, i: nat)
    requires Inv(s, limits) && limits.nodeConnections == 0 && i < |s.workers|
    ensures !s.workers[i].phase.HasNode? && !s.workers[i].phase.Running?
  {
    TotalZero(s.workers, HeldAt(s.workers[i].node));
    assert HeldAt(s.workers[i].node)(s.workers[i]) == 0;
  }

  // ----- Runs are finite -----

  function Remaining(maxRetries: int): Worker -> nat {
    (w: Worker) =>
      var again := if maxRetries > w.attempt then 6 * (maxRetries - w.attempt) else 0;
      match w.phase
      case Waiting => again + 4
      case HasGlobal => again + 3
      case HasNode => again + 2
      case Running => again + 1
      case Backoff => again
      case Ended => 0
  }

  lemma StepLessens(s: State, step: Step, limits: Limits, next: State)
    requires Inv(s, limits) && Apply(s, step, limits) == Some(next)
    ensures Total(next.workers, Remaining(limits.maxRetries)) < Total(s.workers, Remaining(limits.maxRetries))
  {
    StepIsUpdate(s, step, limits, next);
    TotalUpdate(s.workers, step.i, next.workers[step.i], Remaining(limits.maxRetries));
    assert WellPhased(s.workers, limits);
    hide Total, Lone, NodesAccounted, Started, MustWait;
  }

  /** Every run is finite: no interleaving, retries included, takes more steps than the workers have left. */
  lemma {:induction false} RunsEnd(s: State, steps: seq<Step>, limits: Limits)
    requires Inv(s, limits) && Execute(s, steps, limits).Some?
    ensures |steps| <= Total(s.workers, Remaining(limits.maxRetries))
    decreases |steps|
  {
    hide Inv;
    if steps != [] {
      var next := Apply(s, steps[0], limits).value;
      StepKeeps(s, steps[0], limits, next);
      StepLessens(s, steps[0], limits, next);
      RunsEnd(next, steps[1..], limits);
    }
  }

  function Starts(steps: seq<Step>): nat {
    if steps == [] then 0 else (if steps[0].TakeBytes? then 1 else 0) + Starts(steps[1..])
  }

  /** Each PUT started is counted once more when it finishes: nothing drifts, however it finishes. */
  lemma {:induction false} PutsPaired(s: State, steps: seq<Step>, limits: Limits)
    requires Execute(s, steps, limits).Some?
    ensures var end := Execute(s, steps, limits).value;
            end.putsInFlight + end.putsCompleted + end.putsFailed
            == s.putsInFlight + s.putsCompleted + s.putsFailed + Starts(steps)
    decreases |steps|
  {
    if steps != [] {
      PutsPaired(Apply(s, steps[0], limits).value, steps[1..], limits);
    }
  }

  /** A run that can go no further has ended every worker and given back all it took. */
  lemma EveryRunCompletes(s: State, steps: seq<Step>, limits: Limits)
    requires Initial(s, limits) && limits.permits >= 1 && limits.nodeConnections >= 1
    requires Execute(s, steps, limits).Some? && Stuck(Execute(s, steps, limits).value, limits)
    ensures var end := Execute(s, steps, limits).value;
            && (forall i :: 0 <= i < |end.workers| ==> end.workers[i].phase.Ended?)
            && end.inFlight == end.putsInFlight == 0 && end.globalFree == limits.permits
            && (forall node :: node in end.nodeFree ==> end.nodeFree[node] == limits.nodeConnections)
  {
    var end := Execute(s, steps, limits).value;
    InitialHolds(s, limits);
    RunKeeps(s, steps, limits);
    forall i | 0 <= i < |end.workers| ensures end.workers[i].phase.Ended? {
      if !end.workers[i].phase.Ended? { NotStuck(end, limits, i); }
    }
    TotalZero(end.workers, HoldsGlobal);
    TotalZero(end.workers, Reserved);
    TotalZero(end.workers, Putting);
    forall node | node in end.nodeFree ensures Total(end.workers, HeldAt(node)) == 0 {
      TotalZero(end.workers, HeldAt(node));
    }
  }
}
