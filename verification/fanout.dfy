/** The dispatch, wait, threshold, grace and cancel protocol that every committee-wide operation runs. */
module FanOut {

  // What a caller's callbacks are told, in order. Everything a caller accumulates is a function of this.
  datatype Report = Completed(task: nat) | Cancelled(task: nat) | ThresholdReached

  // One run that returned: what each wait delivered, what the grace window delivered, and the rest.
  datatype Run = Run(batches: seq<seq<nat>>, grace: seq<nat>, stragglers: seq<nat>)

  function Flatten(batches: seq<seq<nat>>): seq<nat> {
    if batches == [] then [] else Flatten(batches[..|batches| - 1]) + batches[|batches| - 1]
  }

  function AllCompleted(tasks: seq<nat>): (r: seq<Report>)
    ensures |r| == |tasks| && forall i :: 0 <= i < |r| ==> r[i] == Completed(tasks[i])
  {
    seq(|tasks|, i requires 0 <= i < |tasks| => Completed(tasks[i]))
  }

  function AllCancelled(tasks: seq<nat>): (r: seq<Report>)
    ensures |r| == |tasks| && forall i :: 0 <= i < |r| ==> r[i] == Cancelled(tasks[i])
  {
    seq(|tasks|, i requires 0 <= i < |tasks| => Cancelled(tasks[i]))
  }

  function MainLog(run: Run): seq<Report> { AllCompleted(Flatten(run.batches)) }

  function Threshold(run: Run, shouldStop: seq<Report> -> bool, notify: bool): seq<Report> {
    if notify && shouldStop(MainLog(run)) then [ThresholdReached] else []
  }

  function Log(run: Run, shouldStop: seq<Report> -> bool, notify: bool): seq<Report> {
    MainLog(run) + Threshold(run, shouldStop, notify) + AllCompleted(run.grace) + AllCancelled(run.stragglers)
  }

  ghost predicate EachOnce(tasks: seq<nat>, n: nat) {
    forall t: nat :: multiset(tasks)[t] == if t < n then 1 else 0
  }

  // The tasks reported as completed, in order.
  function Delivered(run: Run): seq<nat> { Flatten(run.batches) + run.grace }

  function Tasks(run: Run): seq<nat> { Delivered(run) + run.stragglers }

  // Nothing but non-empty batches, and no threshold met by fewer than `end` of them.
  ghost predicate UnmetBefore(batches: seq<seq<nat>>, end: int, shouldStop: seq<Report> -> bool)
    requires end <= |batches| + 1
  {
    && (forall k :: 0 <= k < |batches| ==> batches[k] != [])
    && (forall k :: 0 < k < end ==> !shouldStop(AllCompleted(Flatten(batches[..k]))))
  }

  // Every wait delivers something, waiting stops at the first batch that meets the threshold, and
  // nothing is left for the grace window otherwise.
  ghost predicate ValidRun(run: Run, n: nat, shouldStop: seq<Report> -> bool) {
    && EachOnce(Tasks(run), n)
    && UnmetBefore(run.batches, |run.batches|, shouldStop)
    && (run.grace + run.stragglers != [] ==> run.batches != [] && shouldStop(MainLog(run)))
  }

  // ----- What every run keeps -----

  /** A run that returns reports each task exactly once, as completed or as cancelled. */
  lemma ReportedOnce(run: Run, n: nat, shouldStop: seq<Report> -> bool, notify: bool, t: nat)
    requires ValidRun(run, n, shouldStop)
    ensures var log := multiset(Log(run, shouldStop, notify));
            log[Completed(t)] + log[Cancelled(t)] == if t < n then 1 else 0
    ensures multiset(Log(run, shouldStop, notify))[ThresholdReached] <= 1
  {
    CountReports(Flatten(run.batches), Threshold(run, shouldStop, notify), run.grace, run.stragglers, t);
    assert multiset(Tasks(run)) == multiset(Flatten(run.batches)) + multiset(run.grace) + multiset(run.stragglers);
    assert multiset(Tasks(run))[t] == if t < n then 1 else 0;
  }

  lemma CountReports(main: seq<nat>, note: seq<Report>, grace: seq<nat>, stragglers: seq<nat>, t: nat)
    requires note == [] || note == [ThresholdReached]
    ensures var log := multiset(AllCompleted(main) + note + AllCompleted(grace) + AllCancelled(stragglers));
            && log[Completed(t)] == multiset(main)[t] + multiset(grace)[t]
            && log[Cancelled(t)] == multiset(stragglers)[t] && log[ThresholdReached] <= 1
  {
    CountCompleted(main, t);
    CountCompleted(grace, t);
    CountCancelled(stragglers, t);
    var a, b, c, d := AllCompleted(main), note, AllCompleted(grace), AllCancelled(stragglers);
    assert multiset(a + b + c + d) == multiset(a) + multiset(b) + multiset(c) + multiset(d);
    assert multiset(b)[Completed(t)] == 0 && multiset(b)[Cancelled(t)] == 0 && multiset(b)[ThresholdReached] <= 1;
  }

  lemma {:induction false} CountCompleted(tasks: seq<nat>, t: nat)
    ensures var log := multiset(AllCompleted(tasks));
            log[Completed(t)] == multiset(tasks)[t] && log[Cancelled(t)] == 0 && log[ThresholdReached] == 0
  {
    if tasks == [] {
      assert AllCompleted(tasks) == [];
    } else {
      var n := |tasks| - 1;
      CountCompleted(tasks[..n], t);
      assert tasks == tasks[..n] + [tasks[n]];
      assert AllCompleted(tasks) == AllCompleted(tasks[..n]) + [Completed(tasks[n])];
    }
  }

  lemma {:induction false} CountCancelled(tasks: seq<nat>, t: nat)
    ensures var log := multiset(AllCancelled(tasks));
            log[Cancelled(t)] == multiset(tasks)[t] && log[Completed(t)] == 0 && log[ThresholdReached] == 0
  {
    if tasks == [] {
      assert AllCancelled(tasks) == [];
    } else {
      var n := |tasks| - 1;
      CountCancelled(tasks[..n], t);
      assert tasks == tasks[..n] + [tasks[n]];
      assert AllCancelled(tasks) == AllCancelled(tasks[..n]) + [Cancelled(tasks[n])];
    }
  }

  /** A cancellation is reported only after the threshold held over what had completed by then. */
  lemma CancelledAfterThreshold(run: Run, n: nat, shouldStop: seq<Report> -> bool, notify: bool, i: nat)
    requires ValidRun(run, n, shouldStop)
    requires var log := Log(run, shouldStop, notify); i < |log| && log[i].Cancelled?
    ensures exists j :: 0 < j <= i && shouldStop(Log(run, shouldStop, notify)[..j])
                        && forall k :: 0 <= k < j ==> Log(run, shouldStop, notify)[k].Completed?
  {
    var log, j := Log(run, shouldStop, notify), |MainLog(run)|;
    assert log[..j] == MainLog(run);
    assert run.stragglers != [];
    var last := |run.batches| - 1;
    assert run.batches[last] != [];
  }

  /** When the threshold never holds every task completes and none is cancelled. */
  lemma NoThresholdCompletesAll(run: Run, n: nat, shouldStop: seq<Report> -> bool, notify: bool, t: nat)
    requires ValidRun(run, n, shouldStop) && !shouldStop(MainLog(run))
    ensures Log(run, shouldStop, notify) == MainLog(run)
    ensures t < n <==> Completed(t) in Log(run, shouldStop, notify)
    ensures Cancelled(t) !in Log(run, shouldStop, notify)
  {
    assert run.grace == [] && run.stragglers == [];
    assert Log(run, shouldStop, notify) == MainLog(run);
    ReportedOnce(run, n, shouldStop, notify, t);
    CountCompleted(Flatten(run.batches), t);
  }

  ghost predicate AtMostOnce(ts: seq<nat>) {
    forall i, j :: 0 <= i < j < |ts| ==> ts[i] != ts[j]
  }

  lemma OnceEach(order: seq<nat>, n: nat, i: nat, j: nat)
    requires EachOnce(order, n) && i < j < |order|
    ensures order[i] != order[j]
  {
    var a, b := order[..i + 1], order[i + 1..];
    assert order == a + b && order[i] == a[i] && order[j] == b[j - i - 1];
    assert order[i] in multiset(a) && order[j] in multiset(b);
    assert multiset(order)[order[i]] == multiset(a)[order[i]] + multiset(b)[order[i]];
    assert multiset(order)[order[i]] <= 1;
  }

  lemma RunTasks(run: Run, n: nat)
    requires EachOnce(Tasks(run), n)
    ensures AtMostOnce(Delivered(run))
    ensures forall t :: t in Delivered(run) ==> t < n
  {
    var all := Tasks(run);
    forall i | 0 <= i < |Delivered(run)| ensures Delivered(run)[i] == all[i] < n {
      assert multiset(all)[all[i]] > 0;
    }
    forall i, j | 0 <= i < j < |Delivered(run)| ensures Delivered(run)[i] != Delivered(run)[j] {
      OnceEach(all, n, i, j);
    }
  }

  // ----- What a caller gathers from its callbacks -----

  function Gather<T>(log: seq<Report>, record: Report -> seq<T>): seq<T> {
    if log == [] then [] else Gather(log[..|log| - 1], record) + record(log[|log| - 1])
  }

  lemma {:induction false} GatherConcat<T>(a: seq<Report>, b: seq<Report>, record: Report -> seq<T>)
    ensures Gather(a + b, record) == Gather(a, record) + Gather(b, record)
    decreases |b|
  {
    if b == [] {
      assert a + b == a;
    } else {
      var n := |b| - 1;
      assert (a + b)[..|a + b| - 1] == a + b[..n];
      GatherConcat(a, b[..n], record);
      assert Gather(a, record) + (Gather(b[..n], record) + record(b[n]))
          == Gather(a, record) + Gather(b[..n], record) + record(b[n]);
    }
  }

  // The threshold report aside, a run's log gathers what completed and then what was cancelled.
  lemma GatherLog<T>(run: Run, shouldStop: seq<Report> -> bool, notify: bool, record: Report -> seq<T>)
    requires record(ThresholdReached) == []
    ensures Gather(Log(run, shouldStop, notify), record)
         == Gather(AllCompleted(Delivered(run)), record) + Gather(AllCancelled(run.stragglers), record)
  {
    var a, note, b, c := MainLog(run), Threshold(run, shouldStop, notify), AllCompleted(run.grace), AllCancelled(run.stragglers);
    assert note == [] || (note == [ThresholdReached] && note[..0] == []);
    assert Gather(note, record) == [];
    assert Log(run, shouldStop, notify) == a + note + b + c;
    assert AllCompleted(Delivered(run)) == a + b;
    GatherParts(a, note, b, c, record);
  }

  lemma GatherParts<T>(a: seq<Report>, note: seq<Report>, b: seq<Report>, c: seq<Report>, record: Report -> seq<T>)
    requires Gather(note, record) == []
    ensures Gather(a + note + b + c, record) == Gather(a + b, record) + Gather(c, record)
  {
    hide Gather;
    GatherConcat(a + note + b, c, record);
    GatherConcat(a + note, b, record);
    GatherConcat(a, note, record);
    GatherConcat(a, b, record);
    assert Gather(a, record) + [] == Gather(a, record);
  }

  // One item per report, in the same order.
  lemma {:induction false} GatherEach<T>(log: seq<Report>, record: Report -> seq<T>)
    requires forall i :: 0 <= i < |log| ==> |record(log[i])| == 1
    ensures |Gather(log, record)| == |log|
    ensures forall i :: 0 <= i < |log| ==> Gather(log, record)[i] == record(log[i])[0]
    decreases |log|
  {
    if log != [] {
      GatherEach(log[..|log| - 1], record);
    }
  }

  // ----- The driver -----

  function Without(pending: seq<nat>, done: seq<nat>): (r: seq<nat>)
    ensures forall t :: t in r <==> t in pending && t !in done
  {
    if pending == [] then []
    else
      var rest := Without(pending[1..], done);
      assert pending == [pending[0]] + pending[1..];
      if pending[0] in done then rest else [pending[0]] + rest
  }

  lemma {:induction false} WithoutCounts(pending: seq<nat>, done: seq<nat>, t: nat)
    ensures multiset(Without(pending, done))[t] == if t in done then 0 else multiset(pending)[t]
  {
    if pending != [] {
      WithoutCounts(pending[1..], done, t);
      assert pending == [pending[0]] + pending[1..];
    }
  }

  // Any selection of the pending tasks, in any order.
  predicate Among(done: seq<nat>, pending: seq<nat>) {
    forall t :: t in done ==> multiset(done)[t] <= multiset(pending)[t]
  }

  // The tasks of a run in progress: those delivered so far and those still pending.
  ghost predicate Underway(batches: seq<seq<nat>>, pending: seq<nat>, n: nat) {
    forall t: nat :: multiset(Flatten(batches))[t] + multiset(pending)[t] == if t < n then 1 else 0
  }

  lemma Deliver(batches: seq<seq<nat>>, pending: seq<nat>, done: seq<nat>, n: nat)
    requires Underway(batches, pending, n) && Among(done, pending)
    ensures Underway(batches + [done], Without(pending, done), n)
  {
    assert (batches + [done])[..|batches|] == batches;
    assert Flatten(batches + [done]) == Flatten(batches) + done;
    hide Without, Among, Flatten;
    forall t: nat
      ensures multiset(Flatten(batches + [done]))[t] + multiset(Without(pending, done))[t] == if t < n then 1 else 0
    {
      DeliverAt(Flatten(batches), pending, done, t);
    }
  }

  lemma DeliverAt(delivered: seq<nat>, pending: seq<nat>, done: seq<nat>, t: nat)
    requires Among(done, pending) && multiset(delivered)[t] + multiset(pending)[t] <= 1
    ensures multiset(delivered + done)[t] + multiset(Without(pending, done))[t]
         == multiset(delivered)[t] + multiset(pending)[t]
  {
    WithoutCounts(pending, done, t);
    assert t in done <==> multiset(done)[t] > 0;
  }

  lemma SomeBatch(pending: seq<nat>)
    requires pending != []
    ensures [pending[0]] != [] && Among([pending[0]], pending)
  {
    assert pending[0] in multiset(pending);
  }

  // Waits until the threshold holds or nothing is pending. The environment picks what each wait
  // delivers, and where exceptions are possible may interrupt any of them.
  method Wait(n: nat, shouldStop: seq<Report> -> bool, interruptible: bool)
    returns (batches: seq<seq<nat>>, pending: seq<nat>, interrupted: bool)
    ensures Underway(batches, pending, n)
    ensures UnmetBefore(batches, |batches|, shouldStop)
    ensures !interrupted && pending != [] ==> batches != [] && shouldStop(AllCompleted(Flatten(batches)))
    ensures interrupted ==> interruptible && pending != [] && UnmetBefore(batches, |batches| + 1, shouldStop)
  {
    hide *;
    batches, pending := [], AllTasks(n);
    UnmetStep([], [], shouldStop);
    while pending != []
      invariant Underway(batches, pending, n) && UnmetBefore(batches, |batches| + 1, shouldStop)
      decreases |pending|
    {
      UnmetStep(batches, [], shouldStop);
      var stopped: bool := *;
      if interruptible && stopped {
        return batches, pending, true;
      }
      SomeBatch(pending);
      var done: seq<nat> :| done != [] && Among(done, pending);
      Deliver(batches, pending, done, n);
      Shrinks(pending, done);
      UnmetStep(batches, done, shouldStop);
      batches, pending := batches + [done], Without(pending, done);
      if shouldStop(AllCompleted(Flatten(batches))) {
        return batches, pending, false;
      }
    }
    UnmetStep(batches, [], shouldStop);
    return batches, pending, false;
  }

  lemma UnmetStep(batches: seq<seq<nat>>, done: seq<nat>, shouldStop: seq<Report> -> bool)
    requires batches != [] ==> UnmetBefore(batches, |batches| + 1, shouldStop)
    ensures UnmetBefore(batches, |batches| + 1, shouldStop) && UnmetBefore(batches, |batches|, shouldStop)
    ensures done != [] ==>
              var more := batches + [done];
              && UnmetBefore(more, |more|, shouldStop)
              && (!shouldStop(AllCompleted(Flatten(more))) ==> UnmetBefore(more, |more| + 1, shouldStop))
  {
    var more := batches + [done];
    assert more[..|more|] == more;
    assert forall k :: 0 <= k <= |batches| ==> more[..k] == batches[..k];
  }

  lemma Shrinks(pending: seq<nat>, done: seq<nat>)
    requires done != [] && Among(done, pending)
    ensures |Without(pending, done)| < |pending|
  {
    assert done[0] in multiset(done) && multiset(pending)[done[0]] > 0;
    FewerLeft(pending, done, done[0]);
  }

  lemma {:induction false} FewerLeft(pending: seq<nat>, done: seq<nat>, t: nat)
    ensures |Without(pending, done)| <= |pending|
    ensures t in pending && t in done ==> |Without(pending, done)| < |pending|
  {
    if pending != [] {
      FewerLeft(pending[1..], done, t);
    }
  }

  function AllTasks(n: nat): (r: seq<nat>)
    ensures |r| == n && forall i :: 0 <= i < n ==> r[i] == i
    ensures Underway([], r, n)
  {
    if n == 0 then [] else AllTasks(n - 1) + [n - 1]
  }

  // Python's set of a sequence of tasks.
  function AsSet(tasks: seq<nat>): set<nat> { set t | t in tasks }

  // Cancellations come only after the threshold held over what had completed by then.
  ghost predicate CancelledLate(log: seq<Report>, shouldStop: seq<Report> -> bool) {
    forall i :: 0 <= i < |log| && log[i].Cancelled? ==>
      exists j :: 0 < j <= i && shouldStop(log[..j]) && forall k :: 0 <= k < j ==> log[k].Completed?
  }

  // No task is reported twice, and none as cancelled too early.
  ghost predicate ReportedInOrder(log: seq<Report>, shouldStop: seq<Report> -> bool) {
    && (forall t: nat :: multiset(log)[Completed(t)] + multiset(log)[Cancelled(t)] <= 1)
    && CancelledLate(log, shouldStop) && CancelledLast(log)
  }

  // Once a task is reported as cancelled, nothing else is reported but cancellations.
  ghost predicate CancelledLast(log: seq<Report>) {
    forall i, j :: 0 <= i < j < |log| && log[i].Cancelled? ==> log[j].Cancelled?
  }

  /** Drives dispatched tasks to the caller's threshold. Whatever way it is left, no task is still
      running uncancelled and the callbacks were told of each at most once, of cancellations only after
      the threshold; when it returns, they were told of a valid run. */
  method DriveFanOut(n: nat, shouldStop: seq<Report> -> bool, notify: bool, interruptible: bool)
    returns (log: seq<Report>, interrupted: bool, done: set<nat>, asked: set<nat>, ghost run: Run)
    ensures forall t: nat :: t < n ==> t in done || t in asked
    ensures forall t :: Completed(t) in log ==> t in done
    ensures forall t :: Cancelled(t) in log ==> t in asked
    ensures ReportedInOrder(log, shouldStop)
    ensures interrupted ==> interruptible
    ensures !interrupted ==>
              && ValidRun(run, n, shouldStop) && log == Log(run, shouldStop, notify)
              && (forall t: nat :: t < n ==> t in done) && forall t :: t in asked <==> t in run.stragglers
  {
    hide *;
    var batches, pending, stopped := Wait(n, shouldStop, interruptible);
    log := AllCompleted(Flatten(batches));
    var note: seq<Report>, grace: seq<nat>, stragglers: seq<nat> := [], [], [];
    NothingAmong(pending);
    if !stopped {
      if shouldStop(log) && notify {
        note := [ThresholdReached];
      }
      if pending != [] {
        stopped := *;
        stopped := stopped && interruptible;
        if !stopped {
          grace :| Among(grace, pending);
          stragglers := Without(pending, grace);
          if stragglers != [] {
            stopped := *;
            stopped := stopped && interruptible;
          }
        }
      }
    }
    log := log + note + AllCompleted(grace) + AllCancelled(stragglers);
    // What finishes without being reported: after an exception any task may, otherwise the gathered stragglers.
    interrupted := stopped;
    var late := stragglers;
    run := Run(batches, grace, stragglers);
    if interrupted {
      late := *;
    } else {
      NothingLeft(pending, grace);
      Returned(run, pending, n, shouldStop);
      LogOf(run, note, shouldStop, notify);
    }
    LogMembers(Flatten(batches), note, grace, stragglers);
    AnyExit(batches, pending, note, grace, stragglers, n, shouldStop);
    done, asked := Sweep(n, Flatten(batches) + grace + late, stragglers);
  }

  lemma NothingLeft(pending: seq<nat>, grace: seq<nat>)
    ensures pending == [] ==> Without(pending, grace) == []
  {
  }

  lemma LogOf(run: Run, note: seq<Report>, shouldStop: seq<Report> -> bool, notify: bool)
    requires note == if notify && shouldStop(AllCompleted(Flatten(run.batches))) then [ThresholdReached] else []
    ensures Log(run, shouldStop, notify)
         == AllCompleted(Flatten(run.batches)) + note + AllCompleted(run.grace) + AllCancelled(run.stragglers)
  {
    hide AllCompleted, AllCancelled, Flatten;
  }

  lemma AnyExit(batches: seq<seq<nat>>, pending: seq<nat>, note: seq<Report>, grace: seq<nat>, stragglers: seq<nat>,
                n: nat, shouldStop: seq<Report> -> bool)
    requires Underway(batches, pending, n) && UnmetBefore(batches, |batches|, shouldStop) && Among(grace, pending)
    requires note == [] || note == [ThresholdReached]
    requires stragglers == [] || stragglers == Without(pending, grace)
    requires stragglers != [] ==> batches != [] && shouldStop(AllCompleted(Flatten(batches)))
    ensures ReportedInOrder(AllCompleted(Flatten(batches)) + note + AllCompleted(grace) + AllCancelled(stragglers), shouldStop)
  {
    var main := Flatten(batches);
    forall t: nat { OneReport(main, pending, note, grace, stragglers, t); }
    assert stragglers != [] ==> main != [] by { assert batches != [] ==> batches[|batches| - 1] != []; }
    hide *;
    LateCancels(main, note, grace, stragglers, shouldStop);
    InOrder(AllCompleted(main) + note + AllCompleted(grace) + AllCancelled(stragglers), shouldStop);
  }

  lemma InOrder(log: seq<Report>, shouldStop: seq<Report> -> bool)
    requires forall t: nat :: multiset(log)[Completed(t)] + multiset(log)[Cancelled(t)] <= 1
    requires CancelledLate(log, shouldStop) && CancelledLast(log)
    ensures ReportedInOrder(log, shouldStop)
  {
  }

  lemma OneReport(main: seq<nat>, pending: seq<nat>, note: seq<Report>, grace: seq<nat>, stragglers: seq<nat>, t: nat)
    requires multiset(main)[t] + multiset(pending)[t] <= 1 && Among(grace, pending)
    requires note == [] || note == [ThresholdReached]
    requires stragglers == [] || stragglers == Without(pending, grace)
    ensures var log := multiset(AllCompleted(main) + note + AllCompleted(grace) + AllCancelled(stragglers));
            log[Completed(t)] + log[Cancelled(t)] <= 1
  {
    CountReports(main, note, grace, stragglers, t);
    WithoutCounts(pending, grace, t);
    assert t in grace <==> multiset(grace)[t] > 0;
    hide Without, AllCompleted, AllCancelled;
  }

  lemma LateCancels(main: seq<nat>, note: seq<Report>, grace: seq<nat>, stragglers: seq<nat>,
                    shouldStop: seq<Report> -> bool)
    requires note == [] || note == [ThresholdReached]
    requires stragglers != [] ==> main != [] && shouldStop(AllCompleted(main))
    ensures CancelledLate(AllCompleted(main) + note + AllCompleted(grace) + AllCancelled(stragglers), shouldStop)
    ensures CancelledLast(AllCompleted(main) + note + AllCompleted(grace) + AllCancelled(stragglers))
  {
    var log := AllCompleted(main) + note + AllCompleted(grace) + AllCancelled(stragglers);
    assert log[..|main|] == AllCompleted(main);
  }

  // The clean-up on every way out: whatever has not finished is cancelled.
  method Sweep(n: nat, finished: seq<nat>, stragglers: seq<nat>) returns (done: set<nat>, asked: set<nat>)
    ensures forall t: nat :: t < n ==> t in done || t in asked
    ensures forall t :: t in done <==> t in finished
    ensures forall t: nat :: t in asked <==> t in stragglers || (t < n && t !in finished)
  {
    done := AsSet(finished);
    var leftover := set t: nat | t < n && t !in done;
    asked := AsSet(stragglers) + leftover;
  }

  lemma LogMembers(main: seq<nat>, note: seq<Report>, grace: seq<nat>, stragglers: seq<nat>)
    requires note == [] || note == [ThresholdReached]
    ensures var log := AllCompleted(main) + note + AllCompleted(grace) + AllCancelled(stragglers);
            && (forall t :: Completed(t) in log <==> t in main + grace)
            && (forall t :: Cancelled(t) in log <==> t in stragglers)
  {
    hide AllCompleted, AllCancelled;
    var log := AllCompleted(main) + note + AllCompleted(grace) + AllCancelled(stragglers);
    forall t
      ensures Completed(t) in log <==> t in main + grace
      ensures Cancelled(t) in log <==> t in stragglers
    {
      CompletedMember(main, t);
      CompletedMember(grace, t);
      CancelledMember(stragglers, t);
    }
  }

  lemma CompletedMember(tasks: seq<nat>, t: nat)
    ensures Completed(t) in AllCompleted(tasks) <==> t in tasks
    ensures Cancelled(t) !in AllCompleted(tasks)
  {
    if t in tasks {
      var i :| 0 <= i < |tasks| && tasks[i] == t;
      assert AllCompleted(tasks)[i] == Completed(t);
    }
  }

  lemma CancelledMember(tasks: seq<nat>, t: nat)
    ensures Cancelled(t) in AllCancelled(tasks) <==> t in tasks
    ensures Completed(t) !in AllCancelled(tasks)
  {
    if t in tasks {
      var i :| 0 <= i < |tasks| && tasks[i] == t;
      assert AllCancelled(tasks)[i] == Cancelled(t);
    }
  }

  lemma NothingAmong(pending: seq<nat>)
    ensures Among([], pending)
  {
  }

  lemma ReturnedOnce(run: Run, pending: seq<nat>, n: nat)
    requires Underway(run.batches, pending, n) && Among(run.grace, pending)
    requires run.stragglers == Without(pending, run.grace)
    ensures EachOnce(Tasks(run), n)
  {
    var main := Flatten(run.batches);
    assert multiset(Tasks(run)) == multiset(main) + multiset(run.grace) + multiset(run.stragglers);
    hide Flatten, Without, Tasks;
    forall t: nat ensures multiset(Tasks(run))[t] == if t < n then 1 else 0 {
      WithoutCounts(pending, run.grace, t);
      assert multiset(pending)[t] <= 1;
      assert t in run.grace <==> multiset(run.grace)[t] > 0;
    }
  }

  lemma Returned(run: Run, pending: seq<nat>, n: nat, shouldStop: seq<Report> -> bool)
    requires Underway(run.batches, pending, n) && Among(run.grace, pending)
    requires run.stragglers == Without(pending, run.grace)
    requires UnmetBefore(run.batches, |run.batches|, shouldStop)
    requires pending != [] ==> run.batches != [] && shouldStop(AllCompleted(Flatten(run.batches)))
    ensures ValidRun(run, n, shouldStop)
    ensures forall t: nat :: t < n ==> t in Flatten(run.batches) + run.grace + run.stragglers
  {
    ReturnedOnce(run, pending, n);
    forall t: nat | t < n ensures t in Tasks(run) {
      assert t in multiset(Tasks(run));
    }
    if pending == [] {
      assert forall t :: t !in multiset(run.grace);
      assert |multiset(run.grace)| == |run.grace| && multiset(run.grace) == multiset{};
    }
  }

  lemma Nobody(pending: seq<nat>, n: nat)
    requires Underway([], pending, n)
    ensures EachOnce(pending, n)
  {
  }

  // Some of the tasks, none of them twice, in any order.
  ghost predicate Selection(ts: seq<nat>, n: nat) {
    AtMostOnce(ts) && forall t :: t in ts ==> t < n
  }

  // What a run delivers is a selection, and one that meets the threshold is what some run delivers.
  lemma DeliveredIsSelection(run: Run, n: nat, shouldStop: seq<Report> -> bool)
    requires ValidRun(run, n, shouldStop)
    ensures Selection(Delivered(run), n)
  {
    RunTasks(run, n);
  }

  lemma SelectionIsDelivered(ts: seq<nat>, n: nat, shouldStop: seq<Report> -> bool) returns (run: Run)
    requires Selection(ts, n) && ts != [] && shouldStop(AllCompleted(ts))
    ensures ValidRun(run, n, shouldStop) && Delivered(run) == ts
  {
    var rest: seq<nat> := Without(AllTasks(n), ts);
    run := Run([ts], [], rest);
    assert run.batches[..0] == [] && Flatten(run.batches) == ts && Delivered(run) == ts;
    SelectionCompletes(ts, rest, n);
    hide AllTasks, Without, Selection, EachOnce, Flatten;
  }

  // A selection together with the tasks it leaves is all of them.
  lemma SelectionCompletes(ts: seq<nat>, rest: seq<nat>, n: nat)
    requires Selection(ts, n) && rest == Without(AllTasks(n), ts)
    ensures EachOnce(ts + rest, n)
  {
    assert Underway([], AllTasks(n), n);
    Nobody(AllTasks(n), n);
    hide AllTasks, Without;
    forall t: nat ensures multiset(ts + rest)[t] == if t < n then 1 else 0 {
      OnceCounts(ts, t);
      WithoutCounts(AllTasks(n), ts, t);
      assert multiset(ts + rest)[t] == multiset(ts)[t] + multiset(rest)[t];
    }
  }

  lemma {:induction false} OnceCounts(ts: seq<nat>, t: nat)
    requires AtMostOnce(ts)
    ensures multiset(ts)[t] == if t in ts then 1 else 0
    decreases |ts|
  {
    if ts != [] {
      var n := |ts| - 1;
      assert ts == ts[..n] + [ts[n]];
      assert forall i :: 0 <= i < n ==> ts[i] != ts[n];
      OnceCounts(ts[..n], t);
    }
  }

  // One possible run: every task completes in the first wait.
  lemma OneBatchRun(n: nat, shouldStop: seq<Report> -> bool)
    requires n > 0
    ensures ValidRun(Run([AllTasks(n)], [], []), n, shouldStop)
    ensures Delivered(Run([AllTasks(n)], [], [])) == AllTasks(n)
  {
    var all := AllTasks(n);
    var run := Run([all], [], []);
    assert run.batches[..0] == [] && Flatten(run.batches) == all;
    assert Delivered(run) == all && Tasks(run) == all;
    Nobody(all, n);
    hide AllTasks, EachOnce, Flatten, AllCompleted;
  }
}
