/** Uploading a blob: one retried PUT, one node, the assignment of shards to node tasks, and the
    accounting of a whole fan-out. */
module Upload {
  import opened Common
  import opened Certification
  import opened Committee
  import opened FanOut

  // ----- Live progress -----

  class FanoutProgress {
    var running: set<Text>
    var nodesDone: nat
    var weightSucceeded: nat
    var putsInFlight: int
    var putsCompleted: nat
    var putsFailed: nat
    var metadataOk: nat
    var metadataFailed: nat

    constructor ()
      ensures running == {} && nodesDone == weightSucceeded == putsCompleted == putsFailed == 0
      ensures putsInFlight == 0 && metadataOk == metadataFailed == 0
    {
      running, nodesDone, weightSucceeded, putsInFlight := {}, 0, 0, 0;
      putsCompleted, putsFailed, metadataOk, metadataFailed := 0, 0, 0, 0;
    }

    method NodeStarted(nodeId: Text)
      modifies this`running
      ensures running == old(running) + {nodeId}
    {
      running := running + {nodeId};
    }

    method NodeFinished(nodeId: Text, succeeded: bool, weight: nat)
      modifies this`running, this`nodesDone, this`weightSucceeded
      ensures running == old(running) - {nodeId} && nodesDone == old(nodesDone) + 1
      ensures weightSucceeded == old(weightSucceeded) + if succeeded then weight else 0
    {
      running := running - {nodeId};
      nodesDone := nodesDone + 1;
      if succeeded {
        weightSucceeded := weightSucceeded + weight;
      }
    }

    method PutStarted()
      modifies this`putsInFlight
      ensures putsInFlight == old(putsInFlight) + 1
    {
      putsInFlight := putsInFlight + 1;
    }

    method PutFinished(succeeded: bool)
      modifies this`putsInFlight, this`putsCompleted, this`putsFailed
      ensures putsInFlight == old(putsInFlight) - 1
      ensures putsCompleted == old(putsCompleted) + if succeeded then 1 else 0
      ensures putsFailed == old(putsFailed) + if succeeded then 0 else 1
    {
      putsInFlight := putsInFlight - 1;
      if succeeded {
        putsCompleted := putsCompleted + 1;
      } else {
        putsFailed := putsFailed + 1;
      }
    }

    method MetadataFinished(succeeded: bool)
      modifies this`metadataOk, this`metadataFailed
      ensures metadataOk == old(metadataOk) + if succeeded then 1 else 0
      ensures metadataFailed == old(metadataFailed) + if succeeded then 0 else 1
    {
      if succeeded {
        metadataOk := metadataOk + 1;
      } else {
        metadataFailed := metadataFailed + 1;
      }
    }
  }

  // ----- One PUT -----

  // What a node answers to one attempt. The type of a PUT's result leaves the failure text optional;
  // the commands that ship always give one.
  datatype Reply = Accepted | Rejected(reason: Option<Text>) | Raised(error: Text)

  // Retried while rejected, up to the retries allowed; an exception is not retried.
  predicate Final(reply: Reply, attempt: nat, maxRetries: int) {
    !reply.Rejected? || attempt >= maxRetries
  }

  /** PUTs one sliver, retrying rejections. The result is the first attempt that is accepted, raises
      or has no retry left, and the progress counters account for every attempt made. */
  method PutSliver(replies: nat -> Reply, maxRetries: int, progress: FanoutProgress)
    returns (result: Reply, attempts: nat)
    modifies progress
    ensures attempts >= 1 && attempts <= (if maxRetries > 0 then maxRetries else 0) + 1
    ensures result == replies(attempts - 1) && Final(result, attempts - 1, maxRetries)
    ensures forall k :: 0 <= k < attempts - 1 ==> replies(k).Rejected?
    ensures progress.putsInFlight == old(progress.putsInFlight)
    ensures progress.putsCompleted == old(progress.putsCompleted) + if result.Accepted? then 1 else 0
    ensures progress.putsFailed == old(progress.putsFailed) + attempts - if result.Accepted? then 1 else 0
  {
    var attempt := 0;
    while true
      invariant forall k :: 0 <= k < attempt ==> replies(k).Rejected?
      invariant 0 < attempt ==> attempt <= maxRetries
      invariant progress.putsInFlight == old(progress.putsInFlight)
      invariant progress.putsCompleted == old(progress.putsCompleted)
      invariant progress.putsFailed == old(progress.putsFailed) + attempt
      decreases maxRetries - attempt
    {
      progress.PutStarted();
      var reply := replies(attempt);
      progress.PutFinished(reply.Accepted?);
      if !reply.Rejected? {
        return reply, attempt + 1;
      }
      if attempt >= maxRetries {
        return reply, attempt + 1;
      }
      attempt := attempt + 1;
    }
  }

  // ----- One node -----

  datatype Reason = Metadata(reply: Option<Text>) | Put(text: Text) | TaskRaised(text: Text) | CancelledByFanOut

  datatype NodeUploadOutcome = NodeUploadOutcome(nodeId: Text, position: nat, weight: nat, succeeded: bool,
                                                 reason: Option<Reason>)

  // What a node's task comes to: a judgement on the node, or an exception.
  datatype NodeResult = Judged(reason: Option<Reason>) | NodeRaised(error: Text)

  // The reason the first PUT of a batch that was not accepted gives; the rest of the batch is not looked at.
  function BatchReason(replies: seq<Reply>, batch: seq<nat>): Option<Text> {
    if batch == [] then None
    else if batch[0] >= |replies| || replies[batch[0]].Accepted? then BatchReason(replies, batch[1..])
    else match replies[batch[0]]
      case Rejected(reason) => reason
      case Raised(error) => Some(error)
  }

  // Waits deliver non-empty batches, and waiting stops at the first that gives a reason.
  ghost predicate NodeRun(replies: seq<Reply>, batches: seq<seq<nat>>, pending: seq<nat>) {
    && Underway(batches, pending, |replies|)
    && (forall k :: 0 <= k < |batches| ==> batches[k] != [])
    && (forall k :: 0 <= k < |batches| - 1 ==> BatchReason(replies, batches[k]).None?)
  }

  function LastReason(replies: seq<Reply>, batches: seq<seq<nat>>): Option<Text> {
    if batches == [] then None else BatchReason(replies, batches[|batches| - 1])
  }

  ghost predicate FinishedNodeRun(replies: seq<Reply>, batches: seq<seq<nat>>, pending: seq<nat>) {
    && NodeRun(replies, batches, pending)
    && (pending == [] || LastReason(replies, batches).Some?)
  }

  function Judgement(replies: seq<Reply>, batches: seq<seq<nat>>): NodeResult {
    Judged(match LastReason(replies, batches) case None => None case Some(r) => Some(Put(r)))
  }

  method ScanBatch(replies: seq<Reply>, batch: seq<nat>) returns (reason: Option<Text>)
    requires forall t :: t in batch ==> t < |replies|
    ensures reason == BatchReason(replies, batch)
  {
    for i := 0 to |batch|
      invariant BatchReason(replies, batch) == BatchReason(replies, batch[i..])
    {
      assert batch[i] in batch;
      match replies[batch[i]] {
        case Accepted =>
        case Rejected(r) => return r;
        case Raised(e) => return Some(e);
      }
      assert batch[i..][1..] == batch[i + 1..];
    }
    return None;
  }

  /** Uploads to one node: its metadata, then unless that failed all its slivers at once, until one
      gives a reason to abandon the node. A wait may also be interrupted from outside; however it
      ends, each sliver's task has been delivered or is among those cancelled. The node is counted as
      finished exactly when it is judged, and stays among the running when its task raises. */
  method UploadNode(nodeId: Text, weight: nat, metadata: Reply, replies: seq<Reply>, interruptible: bool,
                    progress: FanoutProgress)
    returns (result: NodeResult, interrupted: bool, ghost batches: seq<seq<nat>>, cancelled: seq<nat>)
    modifies progress
    ensures metadata.Raised? ==> result == NodeRaised(metadata.error) && cancelled == []
    ensures metadata.Rejected? ==> result == Judged(Some(Metadata(metadata.reason))) && cancelled == []
    ensures metadata.Accepted? ==> NodeRun(replies, batches, cancelled)
    ensures metadata.Accepted? && !interrupted ==> FinishedNodeRun(replies, batches, cancelled)
    ensures metadata.Accepted? && !interrupted ==> result == Judgement(replies, batches)
    ensures interrupted ==> interruptible && metadata.Accepted? && result.NodeRaised?
    ensures progress.running == if result.Judged? then old(progress.running) - {nodeId} else old(progress.running) + {nodeId}
    ensures progress.nodesDone == old(progress.nodesDone) + if result.Judged? then 1 else 0
    ensures progress.weightSucceeded == old(progress.weightSucceeded) + if result == Judged(None) then weight else 0
    ensures progress.metadataOk == old(progress.metadataOk) + if metadata.Accepted? then 1 else 0
    ensures progress.metadataFailed == old(progress.metadataFailed) + if metadata.Rejected? then 1 else 0
  {
    batches, cancelled, interrupted := [], [], false;
    progress.NodeStarted(nodeId);
    if metadata.Raised? {
      return NodeRaised(metadata.error), false, batches, cancelled;
    }
    progress.MetadataFinished(metadata.Accepted?);
    if metadata.Rejected? {
      progress.NodeFinished(nodeId, false, weight);
      return Judged(Some(Metadata(metadata.reason))), false, batches, cancelled;
    }
    var pending := AllTasks(|replies|);
    var failed: Option<Text> := None;
    while pending != [] && failed.None?
      invariant NodeRun(replies, batches, pending) && failed == LastReason(replies, batches)
      modifies {}
      decreases |pending|
    {
      var stopped: bool := *;
      if interruptible && stopped {
        return NodeRaised([]), true, batches, pending;
      }
      SomeBatch(pending);
      var done: seq<nat> :| done != [] && Among(done, pending);
      Deliver(batches, pending, done, |replies|);
      Shrinks(pending, done);
      DeliveredAreTasks(batches, pending, done, |replies|);
      failed := ScanBatch(replies, done);
      batches, pending := batches + [done], Without(pending, done);
    }
    result := Judged(match failed case None => None case Some(r) => Some(Put(r)));
    cancelled := pending;
    progress.NodeFinished(nodeId, result.reason.None?, weight);
  }

  // Resolves a finished task; one that raised never reached its own report of being finished.
  method OutcomeFromTask(members: seq<Member>, p: nat, result: NodeResult, progress: FanoutProgress)
    returns (outcome: NodeUploadOutcome)
    requires p < |members|
    modifies progress`running, progress`nodesDone, progress`weightSucceeded
    ensures outcome == OutcomeAt(members, p, CompletedReason(result))
    ensures progress.weightSucceeded == old(progress.weightSucceeded)
    ensures progress.running == old(progress.running) - if result.Judged? then {} else {members[p].nodeId}
    ensures progress.nodesDone == old(progress.nodesDone) + if result.Judged? then 0 else 1
  {
    match result {
      case Judged(reason) =>
      case NodeRaised(_) => progress.NodeFinished(members[p].nodeId, false, |members[p].shards|);
    }
    outcome := OutcomeAt(members, p, CompletedReason(result));
  }

  /** A node's whole task and the fold of its outcome: whichever way the task ends, the node is counted
      as done once, no longer as running, and with its weight exactly when its outcome says it succeeded. */
  method RunNode(members: seq<Member>, p: nat, metadata: Reply, replies: seq<Reply>, interruptible: bool,
                 progress: FanoutProgress)
    returns (outcome: NodeUploadOutcome)
    requires p < |members|
    modifies progress
    ensures outcome == OutcomeAt(members, p, outcome.reason)
    ensures metadata.Raised? ==> outcome.reason == Some(TaskRaised(metadata.error))
    ensures metadata.Rejected? ==> outcome.reason == Some(Metadata(metadata.reason))
    ensures outcome.succeeded && NoneSilent(replies) ==> AllAccepted(replies)
    ensures !interruptible && metadata.Accepted? && AllAccepted(replies) ==> outcome.succeeded
    ensures progress.running == old(progress.running) - {members[p].nodeId}
    ensures progress.nodesDone == old(progress.nodesDone) + 1
    ensures progress.weightSucceeded == old(progress.weightSucceeded) + if outcome.succeeded then outcome.weight else 0
    ensures progress.metadataOk + progress.metadataFailed
         == old(progress.metadataOk) + old(progress.metadataFailed) + if metadata.Raised? then 0 else 1
  {
    var result, interrupted, batches, cancelled :=
      UploadNode(members[p].nodeId, |members[p].shards|, metadata, replies, interruptible, progress);
    if metadata.Accepted? && !interrupted && NoneSilent(replies) {
      RunJudgesRight(replies, batches, cancelled);
    }
    AcceptedNotSilent(replies);
    hide FinishedNodeRun, NodeRun, NoneSilent, AllAccepted;
    outcome := OutcomeFromTask(members, p, result, progress);
  }

  lemma AcceptedNotSilent(replies: seq<Reply>)
    ensures AllAccepted(replies) ==> NoneSilent(replies)
  {
  }

  lemma DeliveredAreTasks(batches: seq<seq<nat>>, pending: seq<nat>, done: seq<nat>, n: nat)
    requires Underway(batches, pending, n) && Among(done, pending)
    ensures forall t :: t in done ==> t < n
  {
    forall t | t in done ensures t < n {
      assert multiset(done)[t] > 0 && multiset(pending)[t] > 0;
    }
  }

  predicate Silent(reply: Reply) { reply.Rejected? && reply.reason.None? }

  predicate AllAccepted(replies: seq<Reply>) { forall t :: 0 <= t < |replies| ==> replies[t].Accepted? }

  predicate NoneSilent(replies: seq<Reply>) { forall t :: 0 <= t < |replies| ==> !Silent(replies[t]) }

  lemma {:induction false} BatchAccepted(replies: seq<Reply>, batch: seq<nat>)
    requires forall t :: t in batch ==> t < |replies|
    ensures (forall t :: t in batch ==> replies[t].Accepted?) ==> BatchReason(replies, batch).None?
    ensures NoneSilent(replies) && BatchReason(replies, batch).None? ==> forall t :: t in batch ==> replies[t].Accepted?
  {
    if batch != [] {
      assert batch[0] in batch;
      assert forall t :: t in batch <==> t == batch[0] || t in batch[1..];
      BatchAccepted(replies, batch[1..]);
    }
  }

  ghost predicate JudgedRight(replies: seq<Reply>, batches: seq<seq<nat>>) {
    Judgement(replies, batches).reason.None? <==> AllAccepted(replies)
  }

  ghost predicate InSome(batches: seq<seq<nat>>, t: nat) {
    exists k :: 0 <= k < |batches| && t in batches[k]
  }

  lemma {:induction false} DeliveredSoFar(batches: seq<seq<nat>>, t: nat)
    ensures t in Flatten(batches) <==> InSome(batches, t)
  {
    if batches != [] {
      var n := |batches| - 1;
      DeliveredSoFar(batches[..n], t);
      assert t in Flatten(batches) <==> t in Flatten(batches[..n]) || t in batches[n];
      if InSome(batches[..n], t) {
        var k :| 0 <= k < n && t in batches[..n][k];
        assert t in batches[k];
      }
      if InSome(batches, t) && t !in batches[n] {
        var k :| 0 <= k < |batches| && t in batches[k];
        assert batches[..n][k] == batches[k];
      }
    }
  }

  lemma RunJudgesRight(replies: seq<Reply>, batches: seq<seq<nat>>, pending: seq<nat>)
    requires FinishedNodeRun(replies, batches, pending) && NoneSilent(replies)
    ensures JudgedRight(replies, batches)
  {
    forall k, t | 0 <= k < |batches| && t in batches[k] ensures t < |replies| {
      assert InSome(batches, t);
      DeliveredSoFar(batches, t);
      assert multiset(Flatten(batches))[t] > 0;
    }
    forall k | 0 <= k < |batches| {
      BatchAccepted(replies, batches[k]);
    }
    if LastReason(replies, batches).None? {
      forall t | 0 <= t < |replies| ensures replies[t].Accepted? {
        assert multiset(Flatten(batches))[t] == 1 && t in multiset(Flatten(batches));
        DeliveredSoFar(batches, t);
      }
    }
  }

  /** A node is judged by whether all its slivers were stored, over every order of completion, exactly
      when no rejection comes without a reason. */
  lemma JudgedRightIff(replies: seq<Reply>)
    ensures NoneSilent(replies)
       <==> forall batches, pending :: FinishedNodeRun(replies, batches, pending) ==> JudgedRight(replies, batches)
  {
    if NoneSilent(replies) {
      forall batches, pending | FinishedNodeRun(replies, batches, pending) ensures JudgedRight(replies, batches) {
        RunJudgesRight(replies, batches, pending);
      }
    } else {
      var k :| 0 <= k < |replies| && Silent(replies[k]);
      SilentRun(replies, k);
    }
  }

  // The silent rejection comes first in a single batch: nothing else is looked at, and no reason is found.
  lemma SilentRun(replies: seq<Reply>, k: nat)
    requires k < |replies| && Silent(replies[k])
    ensures exists batches :: FinishedNodeRun(replies, batches, []) && !JudgedRight(replies, batches)
  {
    var batch := StartingWith(k, |replies|);
    var batches := [batch];
    assert batches[..0] == [] && Flatten(batches) == batch;
    assert Underway(batches, [], |replies|);
    assert BatchReason(replies, batch).None?;
    hide Underway, BatchReason;
    assert FinishedNodeRun(replies, batches, []);
  }

  lemma StartingWith(k: nat, n: nat) returns (batch: seq<nat>)
    requires k < n
    ensures batch != [] && batch[0] == k && EachOnce(batch, n)
  {
    var first: seq<nat> := [k];
    var rest: seq<nat> := Without(AllTasks(n), first);
    var (counted: multiset<nat>, others: multiset<nat>) := (multiset(first), multiset(rest));
    assert Underway([], AllTasks(n), n);
    batch := first + rest;
    forall t: nat ensures multiset(batch)[t] == if t < n then 1 else 0 {
      WithoutCounts(AllTasks(n), first, t);
      assert multiset(batch)[t] == counted[t] + others[t];
    }
  }

  // ----- Which node task each shard goes to -----

  function Holder(committee: Committee, shard: int): (p: nat)
    requires Validated(committee) && 0 <= shard < committee.nShards
    ensures p < |committee.members| && shard in committee.members[p].shards
  {
    HolderFound(committee, shard);
    LastHolder(committee.members, shard, committee.nShards)
  }

  // Tasks are looked up by the holder's identifier, which finds the last member that carries it.
  function TaskOf(committee: Committee, shard: int): (p: nat)
    requires Validated(committee) && 0 <= shard < committee.nShards
    ensures Holder(committee, shard) <= p < |committee.members|
    ensures committee.members[p].nodeId == committee.members[Holder(committee, shard)].nodeId
    ensures forall i :: p < i < |committee.members| ==> committee.members[i].nodeId != committee.members[p].nodeId
  {
    var h := Holder(committee, shard);
    PositionIsLast(committee.members, committee.members[h].nodeId);
    PositionOf(committee.members, committee.members[h].nodeId).value
  }

  function Grouped(committee: Committee, n: nat): seq<nat>
    requires Validated(committee) && n <= ShardCount(committee.nShards)
  {
    if n == 0 then []
    else
      var rest, p := Grouped(committee, n - 1), TaskOf(committee, n - 1);
      if p in rest then rest else rest + [p]
  }

  /** One task per node that holds shards, in the order of their first shards. */
  method GroupByNode(committee: Committee) returns (tasks: seq<nat>)
    requires Validated(committee)
    ensures tasks == Grouped(committee, ShardCount(committee.nShards))
  {
    tasks := [];
    var ids: seq<Text> := [];
    if committee.nShards <= 0 {
      return;
    }
    HolderFound(committee, 0);
    hide *;
    var table := PositionByShard(committee.members, committee.nShards);
    EmptyGroup(committee);
    for shard := 0 to committee.nShards
      invariant tasks == Grouped(committee, shard) && Indexed(committee.members, ids, tasks)
    {
      HolderIsLast(committee, shard);
      var nodeId := committee.members[table.value[shard]].nodeId;
      NextShard(committee, ids, tasks, shard, nodeId);
      if nodeId !in ids {
        ids := ids + [nodeId];
        tasks := tasks + [PositionOf(committee.members, nodeId).value];
      }
    }
  }

  lemma EmptyGroup(committee: Committee)
    requires Validated(committee)
    ensures Grouped(committee, 0) == [] && Indexed(committee.members, [], [])
  {
  }

  lemma HolderIsLast(committee: Committee, shard: int)
    requires Validated(committee) && 0 <= shard < committee.nShards
    ensures Holder(committee, shard) == LastHolder(committee.members, shard, committee.nShards)
  {
  }

  ghost predicate Indexed(members: seq<Member>, ids: seq<Text>, tasks: seq<nat>) {
    && |ids| == |tasks|
    && forall k :: 0 <= k < |ids| ==> PositionOf(members, ids[k]) == Some(tasks[k])
  }

  lemma NextShard(committee: Committee, ids: seq<Text>, tasks: seq<nat>, shard: nat, nodeId: Text)
    requires Validated(committee) && shard < committee.nShards && nodeId == committee.members[Holder(committee, shard)].nodeId
    requires tasks == Grouped(committee, shard) && Indexed(committee.members, ids, tasks)
    ensures nodeId in ids ==> Grouped(committee, shard + 1) == tasks
    ensures nodeId !in ids ==>
              var p := PositionOf(committee.members, nodeId);
              && p.Some? && Grouped(committee, shard + 1) == tasks + [p.value]
              && Indexed(committee.members, ids + [nodeId], tasks + [p.value])
  {
    PositionIsLast(committee.members, nodeId);
    SameNode(committee.members, ids, tasks, nodeId, TaskOf(committee, shard));
  }

  lemma SameNode(members: seq<Member>, ids: seq<Text>, tasks: seq<nat>, nodeId: Text, p: nat)
    requires |ids| == |tasks| && PositionOf(members, nodeId) == Some(p)
    requires forall k :: 0 <= k < |ids| ==> PositionOf(members, ids[k]) == Some(tasks[k])
    ensures nodeId in ids <==> p in tasks
  {
    if k :| 0 <= k < |ids| && ids[k] == nodeId { assert tasks[k] == p; }
    PositionIsLast(members, nodeId);
    if k :| 0 <= k < |tasks| && tasks[k] == p { PositionIsLast(members, ids[k]); }
  }

  lemma {:induction false} GroupedHas(committee: Committee, n: nat, shard: nat)
    requires Validated(committee) && shard < n <= ShardCount(committee.nShards)
    ensures TaskOf(committee, shard) in Grouped(committee, n)
  {
    hide TaskOf;
    if shard < n - 1 {
      GroupedHas(committee, n - 1, shard);
    }
  }

  lemma {:induction false} GroupedOrigin(committee: Committee, n: nat, p: nat) returns (shard: nat)
    requires Validated(committee) && n <= ShardCount(committee.nShards) && p in Grouped(committee, n)
    ensures shard < n && TaskOf(committee, shard) == p
  {
    hide TaskOf;
    if TaskOf(committee, n - 1) == p {
      shard := n - 1;
    } else {
      shard := GroupedOrigin(committee, n - 1, p);
    }
  }

  // The node of an earlier task holds an earlier first shard.
  lemma {:induction false} GroupedInOrder(committee: Committee, n: nat, k: nat) returns (shard: nat)
    requires Validated(committee) && n <= ShardCount(committee.nShards) && k < |Grouped(committee, n)|
    ensures shard < n && TaskOf(committee, shard) == Grouped(committee, n)[k]
    ensures forall s: nat :: s < shard ==> TaskOf(committee, s) in Grouped(committee, n)[..k]
  {
    hide TaskOf;
    var rest := Grouped(committee, n - 1);
    if k < |rest| {
      shard := GroupedInOrder(committee, n - 1, k);
      assert Grouped(committee, n)[..k] == rest[..k];
    } else {
      shard := n - 1;
      assert Grouped(committee, n)[..k] == rest;
      forall s: nat | s < shard { GroupedHas(committee, n - 1, s); }
    }
  }

  lemma {:induction false} GroupedDistinct(committee: Committee, n: nat)
    requires Validated(committee) && n <= ShardCount(committee.nShards)
    ensures AtMostOnce(Grouped(committee, n))
  {
    hide TaskOf;
    if n > 0 {
      GroupedDistinct(committee, n - 1);
      var rest := Grouped(committee, n - 1);
      forall i | 0 <= i < |rest| ensures rest[i] in rest {}
    }
  }

  // No member that holds shards is followed by another with its identifier.
  ghost predicate Unshadowed(committee: Committee) {
    forall i, j :: 0 <= i < j < |committee.members| && committee.members[i].shards != [] ==>
      committee.members[i].nodeId != committee.members[j].nodeId
  }

  // Exactly one task sends the shard's slivers, and sends them once.
  ghost predicate AssignedOnce(committee: Committee, tasks: seq<nat>, shard: int) {
    && (forall k :: 0 <= k < |tasks| ==> tasks[k] < |committee.members|)
    && exists k :: 0 <= k < |tasks| && multiset(committee.members[tasks[k]].shards)[shard] == 1
                   && forall l :: 0 <= l < |tasks| && l != k ==> shard !in committee.members[tasks[l]].shards
  }

  lemma TaskHoldsShard(committee: Committee, shard: int)
    requires Validated(committee) && 0 <= shard < committee.nShards && Unshadowed(committee)
    ensures AssignedOnce(committee, Grouped(committee, ShardCount(committee.nShards)), shard)
  {
    var h, tasks := Holder(committee, shard), Grouped(committee, ShardCount(committee.nShards));
    assert TaskOf(committee, shard) == h;
    GroupedHas(committee, committee.nShards, shard);
    OneHolder(committee, shard);
    GroupedDistinct(committee, ShardCount(committee.nShards));
    forall k | 0 <= k < |tasks| ensures tasks[k] < |committee.members| {
      assert tasks[k] in tasks;
      var _ := GroupedOrigin(committee, ShardCount(committee.nShards), tasks[k]);
    }
    var k :| 0 <= k < |tasks| && tasks[k] == h;
    forall l | 0 <= l < |tasks| && l != k ensures shard !in committee.members[tasks[l]].shards {
      assert tasks[l] != tasks[k];
    }
  }

  /** Every shard's slivers go to exactly one node task, exactly when no shard-holding member is
      shadowed by a later member of the same identifier. */
  lemma AssignmentExact(committee: Committee)
    requires Validated(committee)
    ensures Unshadowed(committee)
       <==> forall shard :: 0 <= shard < committee.nShards ==>
              AssignedOnce(committee, Grouped(committee, ShardCount(committee.nShards)), shard)
  {
    var tasks := Grouped(committee, ShardCount(committee.nShards));
    if Unshadowed(committee) {
      forall shard | 0 <= shard < committee.nShards { TaskHoldsShard(committee, shard); }
    } else {
      var i, j :| 0 <= i < j < |committee.members| && committee.members[i].shards != []
                  && committee.members[i].nodeId == committee.members[j].nodeId;
      ShardInRange(committee, i, committee.members[i].shards[0]);
      ShadowedUnassigned(committee, i, j, committee.members[i].shards[0]);
    }
  }

  lemma ShadowedUnassigned(committee: Committee, i: nat, j: nat, shard: int)
    requires Validated(committee) && 0 <= shard < committee.nShards
    requires i < j < |committee.members| && shard in committee.members[i].shards
    requires committee.members[i].nodeId == committee.members[j].nodeId
    ensures !AssignedOnce(committee, Grouped(committee, ShardCount(committee.nShards)), shard)
  {
    var tasks := Grouped(committee, ShardCount(committee.nShards));
    OneHolder(committee, shard);
    if AssignedOnce(committee, tasks, shard) {
      var k :| 0 <= k < |tasks| && multiset(committee.members[tasks[k]].shards)[shard] == 1;
      assert shard in multiset(committee.members[tasks[k]].shards);
      assert tasks[k] == i && i in tasks;
      var _ := GroupedOrigin(committee, committee.nShards, i);
      assert false;
    }
  }

  lemma ShardInRange(committee: Committee, i: nat, shard: int)
    requires Validated(committee) && i < |committee.members| && shard in committee.members[i].shards
    ensures 0 <= shard < committee.nShards
  {
    ClaimCount(Entries(committee.members), shard);
    assert shard in Entries(committee.members)[i].shards;
  }

  datatype Axis = Primary | Secondary

  // The PUTs of one node: both slivers of each shard it holds.
  function NodePuts(shards: seq<int>): seq<(int, Axis)> {
    if shards == [] then []
    else NodePuts(shards[..|shards| - 1]) + [(shards[|shards| - 1], Primary), (shards[|shards| - 1], Secondary)]
  }

  method CollectPuts(shards: seq<int>) returns (puts: seq<(int, Axis)>)
    ensures puts == NodePuts(shards) && |puts| == 2 * |shards|
    ensures forall i :: 0 <= i < |shards| ==> puts[2 * i] == (shards[i], Primary) && puts[2 * i + 1] == (shards[i], Secondary)
  {
    puts := [];
    for i := 0 to |shards|
      invariant puts == NodePuts(shards[..i]) && |puts| == 2 * i
      invariant forall k :: 0 <= k < i ==> puts[2 * k] == (shards[k], Primary) && puts[2 * k + 1] == (shards[k], Secondary)
    {
      assert shards[..i + 1][..i] == shards[..i];
      puts := puts + [(shards[i], Primary)];
      puts := puts + [(shards[i], Secondary)];
    }
    assert shards[..|shards|] == shards;
  }

  lemma {:induction false} PutsCount(shards: seq<int>, shard: int, axis: Axis)
    ensures multiset(NodePuts(shards))[(shard, axis)] == multiset(shards)[shard]
    decreases |shards|
  {
    if shards != [] {
      var n := |shards| - 1;
      PutsCount(shards[..n], shard, axis);
      assert shards == shards[..n] + [shards[n]];
      TwoPuts(shards[n], shard, axis);
      var before, last := NodePuts(shards[..n]), [(shards[n], Primary), (shards[n], Secondary)];
      assert NodePuts(shards) == before + last;
      hide NodePuts;
    }
  }

  lemma TwoPuts(of: int, shard: int, axis: Axis)
    ensures multiset([(of, Primary), (of, Secondary)])[(shard, axis)] == multiset([of])[shard]
  {
  }

  // Exactly one task sends this sliver of the shard, and sends it once.
  ghost predicate SentOnce(members: seq<Member>, tasks: seq<nat>, shard: int, axis: Axis) {
    && (forall k :: 0 <= k < |tasks| ==> tasks[k] < |members|)
    && exists k :: 0 <= k < |tasks| && multiset(NodePuts(members[tasks[k]].shards))[(shard, axis)] == 1
                   && forall l :: 0 <= l < |tasks| && l != k ==> (shard, axis) !in NodePuts(members[tasks[l]].shards)
  }

  /** Each sliver of each shard is sent exactly once over all the node tasks. */
  lemma SliverSentOnce(committee: Committee, shard: int, axis: Axis)
    requires Validated(committee) && Unshadowed(committee) && 0 <= shard < committee.nShards
    ensures SentOnce(committee.members, Grouped(committee, committee.nShards), shard, axis)
  {
    TaskHoldsShard(committee, shard);
    AssignedSends(committee, Grouped(committee, committee.nShards), shard, axis);
  }

  lemma AssignedSends(committee: Committee, tasks: seq<nat>, shard: int, axis: Axis)
    requires AssignedOnce(committee, tasks, shard)
    ensures SentOnce(committee.members, tasks, shard, axis)
  {
    hide NodePuts;
    var members := committee.members;
    forall k | 0 <= k < |tasks|
      ensures multiset(NodePuts(members[tasks[k]].shards))[(shard, axis)] == multiset(members[tasks[k]].shards)[shard]
    {
      PutsCount(members[tasks[k]].shards, shard, axis);
    }
    forall l | 0 <= l < |tasks| && shard !in members[tasks[l]].shards
      ensures (shard, axis) !in NodePuts(members[tasks[l]].shards)
    {
      assert (shard, axis) !in multiset(NodePuts(members[tasks[l]].shards));
    }
  }

  // ----- Accounting of a fan-out -----

  datatype FanoutReport = FanoutReport(outcomes: seq<NodeUploadOutcome>, weightSucceeded: nat, nShards: int)

  datatype UploadError = Interrupted | BelowQuorum(outcomes: seq<NodeUploadOutcome>, weightSucceeded: nat)

  // The members uploaded to, the members the tasks address, and what each task comes to.
  datatype Job = Job(members: seq<Member>, tasks: seq<nat>, results: nat -> NodeResult)

  function OutcomeAt(members: seq<Member>, p: nat, reason: Option<Reason>): NodeUploadOutcome
    requires p < |members|
  {
    NodeUploadOutcome(members[p].nodeId, p, |members[p].shards|, reason.None?, reason)
  }

  function CompletedReason(result: NodeResult): Option<Reason> {
    match result
    case Judged(reason) => reason
    case NodeRaised(error) => Some(TaskRaised(error))
  }

  // What one report adds to the outcomes.
  function Recorded(job: Job, report: Report): seq<NodeUploadOutcome> {
    match report
    case Completed(t) =>
      if t < |job.tasks| && job.tasks[t] < |job.members|
      then [OutcomeAt(job.members, job.tasks[t], CompletedReason(job.results(t)))] else []
    case Cancelled(t) =>
      if t < |job.tasks| && job.tasks[t] < |job.members|
      then [OutcomeAt(job.members, job.tasks[t], Some(CancelledByFanOut))] else []
    case ThresholdReached => []
  }

  function Recorder(job: Job): Report -> seq<NodeUploadOutcome> { report => Recorded(job, report) }

  function Succeeded(outcomes: seq<NodeUploadOutcome>): nat {
    if outcomes == [] then 0
    else
      var last := outcomes[|outcomes| - 1];
      Succeeded(outcomes[..|outcomes| - 1]) + if last.succeeded then last.weight else 0
  }

  // Each of these tasks has its outcome, in the same order: its own result, or its cancellation.
  ghost predicate Aligned(job: Job, ts: seq<nat>, completed: bool, outcomes: seq<NodeUploadOutcome>) {
    && |outcomes| == |ts|
    && forall i :: 0 <= i < |ts| ==>
         && ts[i] < |job.tasks| && job.tasks[ts[i]] < |job.members|
         && outcomes[i] == OutcomeAt(job.members, job.tasks[ts[i]],
                                     if completed then CompletedReason(job.results(ts[i])) else Some(CancelledByFanOut))
  }

  // One outcome per task: first those that completed in order, then the cancelled.
  ghost predicate OnePerTask(job: Job, completed: seq<nat>, cancelled: seq<nat>, outcomes: seq<NodeUploadOutcome>) {
    && EachOnce(completed + cancelled, |job.tasks|)
    && |completed| <= |outcomes|
    && Aligned(job, completed, true, outcomes[..|completed|])
    && Aligned(job, cancelled, false, outcomes[|completed|..])
  }

  // The identifier of a task that has finished, as its report names it.
  function Finished(job: Job, report: Report): seq<Text> {
    match report
    case Completed(t) =>
      if t < |job.tasks| && job.tasks[t] < |job.members| then [job.members[job.tasks[t]].nodeId] else []
    case Cancelled(_) => []
    case ThresholdReached => []
  }

  function Finisher(job: Job): Report -> seq<Text> { report => Finished(job, report) }

  ghost function IdSet(ids: seq<Text>): set<Text> { set id | id in ids }

  // A finished task: its own report to the counters, placed beside the fold of its outcome.
  method FoldCompleted(job: Job, t: nat, progress: FanoutProgress) returns (outcome: NodeUploadOutcome)
    requires t < |job.tasks| && job.tasks[t] < |job.members|
    modifies progress`running, progress`nodesDone, progress`weightSucceeded
    ensures [outcome] == Recorded(job, Completed(t))
    ensures progress.running == old(progress.running) - {outcome.nodeId} && progress.nodesDone == old(progress.nodesDone) + 1
    ensures progress.weightSucceeded == old(progress.weightSucceeded) + if outcome.succeeded then outcome.weight else 0
  {
    var p, result := job.tasks[t], job.results(t);
    if result.Judged? {
      progress.NodeFinished(job.members[p].nodeId, result.reason.None?, |job.members[p].shards|);
    }
    outcome := OutcomeFromTask(job.members, p, result, progress);
  }

  method FoldReports(job: Job, log: seq<Report>, progress: FanoutProgress)
    returns (outcomes: seq<NodeUploadOutcome>, weight: nat)
    modifies progress`running, progress`nodesDone, progress`weightSucceeded
    ensures outcomes == Gather(log, Recorder(job)) && weight == Succeeded(outcomes)
    ensures progress.running == old(progress.running) - IdSet(Gather(log, Finisher(job)))
    ensures progress.nodesDone == old(progress.nodesDone) + |Gather(log, Finisher(job))|
    ensures progress.weightSucceeded == old(progress.weightSucceeded) + weight
  {
    hide Gather, Succeeded, Finished;
    outcomes, weight := [], 0;
    NothingFolded(job);
    for i := 0 to |log|
      invariant outcomes == Gather(log[..i], Recorder(job)) && weight == Succeeded(outcomes)
      invariant progress.running == old(progress.running) - IdSet(Gather(log[..i], Finisher(job)))
      invariant progress.nodesDone == old(progress.nodesDone) + |Gather(log[..i], Finisher(job))|
      invariant progress.weightSucceeded == old(progress.weightSucceeded) + weight
    {
      FoldStep(job, log, i, outcomes, Gather(log[..i], Finisher(job)));
      match log[i] {
        case Completed(t) =>
          if t < |job.tasks| && job.tasks[t] < |job.members| {
            var outcome := FoldCompleted(job, t, progress);
            outcomes := outcomes + [outcome];
            if outcome.succeeded {
              weight := weight + outcome.weight;
            }
          }
        case Cancelled(t) =>
          outcomes := outcomes + Recorded(job, log[i]);
        case ThresholdReached =>
      }
    }
    assert log[..|log|] == log;
  }

  lemma NothingFolded(job: Job)
    ensures Gather([], Recorder(job)) == [] && Gather([], Finisher(job)) == [] && Succeeded([]) == 0
  {
  }

  // What one more report adds: its outcome, and the task it names when it completed.
  lemma FoldStep(job: Job, log: seq<Report>, i: nat, outcomes: seq<NodeUploadOutcome>, ids: seq<Text>)
    requires i < |log|
    requires outcomes == Gather(log[..i], Recorder(job)) && ids == Gather(log[..i], Finisher(job))
    ensures var recorded, finished := Recorded(job, log[i]), Finished(job, log[i]);
            && |recorded| <= 1 && |finished| <= 1
            && (log[i].Completed? && recorded != [] ==> finished == [recorded[0].nodeId])
            && (log[i].Completed? && recorded == [] ==> finished == [])
            && (!log[i].Completed? ==> finished == [])
            && (log[i].Cancelled? && recorded != [] ==> !recorded[0].succeeded)
            && Gather(log[..i + 1], Recorder(job)) == outcomes + recorded
            && Succeeded(outcomes + recorded)
               == Succeeded(outcomes) + (if recorded != [] && recorded[0].succeeded then recorded[0].weight else 0)
            && Gather(log[..i + 1], Finisher(job)) == ids + finished
            && IdSet(ids + finished) == IdSet(ids) + IdSet(finished)
  {
    assert log[..i + 1][..i] == log[..i];
    var recorded := Recorded(job, log[i]);
    if recorded != [] {
      assert (outcomes + recorded)[..|outcomes|] == outcomes;
    } else {
      assert outcomes + recorded == outcomes;
    }
  }

  ghost function UploadJob(committee: Committee, results: nat -> NodeResult): Job
    requires Validated(committee)
  {
    Job(committee.members, Grouped(committee, ShardCount(committee.nShards)), results)
  }

  lemma JobOf(committee: Committee, results: nat -> NodeResult)
    requires Validated(committee)
    ensures UploadJob(committee, results)
         == Job(committee.members, Grouped(committee, ShardCount(committee.nShards)), results)
  {
  }

  // The identifiers of the nodes these tasks upload to.
  ghost function TaskIds(job: Job, ts: seq<nat>): set<Text> {
    set i | 0 <= i < |ts| && ts[i] < |job.tasks| && job.tasks[ts[i]] < |job.members| :: job.members[job.tasks[ts[i]]].nodeId
  }

  // One outcome per task, as many nodes done as completed, and only the cancelled left running.
  ghost predicate Accounted(job: Job, completed: seq<nat>, cancelled: seq<nat>, outcomes: seq<NodeUploadOutcome>,
                            running: set<Text>, nodesDone: nat)
  {
    && OnePerTask(job, completed, cancelled, outcomes)
    && nodesDone == |completed| && running == TaskIds(job, cancelled)
  }

  // Every node's task starts before the first wait delivers.
  method StartNodes(job: Job, progress: FanoutProgress)
    requires forall k :: 0 <= k < |job.tasks| ==> job.tasks[k] < |job.members|
    modifies progress`running
    ensures progress.running == old(progress.running) + TaskIds(job, AllTasks(|job.tasks|))
  {
    var all := AllTasks(|job.tasks|);
    for k := 0 to |job.tasks|
      invariant progress.running == old(progress.running) + TaskIds(job, all[..k])
    {
      OneMoreId(job, all, k);
      hide TaskIds;
      progress.NodeStarted(job.members[job.tasks[k]].nodeId);
    }
    assert all[..|job.tasks|] == all;
  }

  lemma OneMoreId(job: Job, ts: seq<nat>, k: nat)
    requires k < |ts| && ts[k] < |job.tasks| && job.tasks[ts[k]] < |job.members|
    ensures TaskIds(job, ts[..k + 1]) == TaskIds(job, ts[..k]) + {job.members[job.tasks[ts[k]]].nodeId}
  {
    assert ts[..k + 1] == ts[..k] + [ts[k]];
    var more := ts[..k + 1];
    assert more[k] == ts[k] && forall i :: 0 <= i < k ==> more[i] == ts[..k][i];
  }

  /** Uploads a blob's slivers to the committee: a report exactly when the succeeded nodes' weight is a
      quorum, with one outcome per node task either way, and progress counters that agree with it. */
  method UploadSlivers(committee: Committee, results: nat -> NodeResult, interruptible: bool)
    returns (r: Result<FanoutReport, UploadError>, progress: FanoutProgress)
    requires Validated(committee)
    ensures r == Err(Interrupted) ==> interruptible
    ensures r.Ok? ==>
              && (exists completed, cancelled ::
                    Accounted(UploadJob(committee, results), completed, cancelled, r.value.outcomes,
                              progress.running, progress.nodesDone))
              && progress.weightSucceeded == r.value.weightSucceeded
              && r.value.weightSucceeded == Succeeded(r.value.outcomes) && r.value.nShards == committee.nShards
              && IsQuorum(r.value.weightSucceeded, committee.nShards)
    ensures r.Err? && r.error.BelowQuorum? ==>
              && (exists completed ::
                    Accounted(UploadJob(committee, results), completed, [], r.error.outcomes,
                              progress.running, progress.nodesDone))
              && progress.weightSucceeded == r.error.weightSucceeded && progress.running == {}
              && r.error.weightSucceeded == Succeeded(r.error.outcomes)
              && !IsQuorum(r.error.weightSucceeded, committee.nShards)
  {
    hide *;
    var tasks := GroupByNode(committee);
    TasksInside(committee);
    var job := Job(committee.members, tasks, results);
    JobOf(committee, results);
    var required := MinWeightForQuorum(committee.nShards);
    var shouldStop: seq<Report> -> bool := log => Succeeded(Gather(log, Recorder(job))) >= required;
    progress := new FanoutProgress();
    StartNodes(job, progress);
    var log, interrupted, _, _, run := DriveFanOut(|tasks|, shouldStop, true, interruptible);
    var outcomes, weight := FoldReports(job, log, progress);
    if interrupted {
      return Err(Interrupted), progress;
    }
    LogOutcomes(job, run, shouldStop, true);
    LogTallied(committee, job, run, shouldStop);
    Thresholds(weight, committee.nShards);
    AccountedFor(job, Delivered(run), run.stragglers, outcomes, progress.running, progress.nodesDone);
    if weight < required {
      ShortOfQuorumCompletesAll(job, run, shouldStop, required);
      NoIds(job);
      return Err(BelowQuorum(outcomes, weight)), progress;
    }
    return Ok(FanoutReport(outcomes, weight, committee.nShards)), progress;
  }

  lemma NoIds(job: Job)
    ensures TaskIds(job, []) == {}
    ensures forall completed, cancelled, outcomes, running, nodesDone ::
              Accounted(job, completed, cancelled, outcomes, running, nodesDone) ==> running == TaskIds(job, cancelled)
  {
  }

  lemma AccountedFor(job: Job, completed: seq<nat>, cancelled: seq<nat>, outcomes: seq<NodeUploadOutcome>,
                     running: set<Text>, nodesDone: nat)
    requires OnePerTask(job, completed, cancelled, outcomes)
    requires nodesDone == |completed| && running == TaskIds(job, cancelled)
    ensures Accounted(job, completed, cancelled, outcomes, running, nodesDone)
  {
  }

  // Different tasks upload to nodes of different identifiers.
  lemma TaskIdsDistinct(committee: Committee, i: nat, j: nat)
    requires Validated(committee)
    requires i < j < |Grouped(committee, ShardCount(committee.nShards))|
    ensures var tasks, members := Grouped(committee, ShardCount(committee.nShards)), committee.members;
            && tasks[i] < |members| && tasks[j] < |members|
            && members[tasks[i]].nodeId != members[tasks[j]].nodeId
  {
    var tasks := Grouped(committee, ShardCount(committee.nShards));
    GroupedDistinct(committee, ShardCount(committee.nShards));
    var a := GroupedOrigin(committee, ShardCount(committee.nShards), tasks[i]);
    var b := GroupedOrigin(committee, ShardCount(committee.nShards), tasks[j]);
  }

  ghost predicate IdsDistinct(job: Job) {
    && (forall k :: 0 <= k < |job.tasks| ==> job.tasks[k] < |job.members|)
    && forall i, j :: 0 <= i < j < |job.tasks| ==> job.members[job.tasks[i]].nodeId != job.members[job.tasks[j]].nodeId
  }

  lemma LogTallied(committee: Committee, job: Job, run: Run, shouldStop: seq<Report> -> bool)
    requires Validated(committee) && job == UploadJob(committee, job.results) && ValidRun(run, |job.tasks|, shouldStop)
    ensures var ids := Gather(Log(run, shouldStop, true), Finisher(job));
            && |ids| == |Delivered(run)|
            && TaskIds(job, AllTasks(|job.tasks|)) - IdSet(ids) == TaskIds(job, run.stragglers)
  {
    TasksInside(committee);
    JobOf(committee, job.results);
    assert forall k :: 0 <= k < |job.tasks| ==> job.tasks[k] < |job.members|;
    forall i, j | 0 <= i < j < |job.tasks|
      ensures job.members[job.tasks[i]].nodeId != job.members[job.tasks[j]].nodeId
    {
      TaskIdsDistinct(committee, i, j);
    }
    assert IdsDistinct(job);
    RunTasksInside(run, |job.tasks|);
    FinishedIds(job, run, shouldStop);
    hide *;
    CancelledLeft(job, Delivered(run), run.stragglers);
  }

  lemma FinishedIds(job: Job, run: Run, shouldStop: seq<Report> -> bool)
    requires IdsDistinct(job) && forall i :: 0 <= i < |Delivered(run)| ==> Delivered(run)[i] < |job.tasks|
    ensures var ids := Gather(Log(run, shouldStop, true), Finisher(job));
            |ids| == |Delivered(run)| && IdSet(ids) == TaskIds(job, Delivered(run))
  {
    var ts := Delivered(run);
    var log := AllCompleted(ts);
    GatherLog(run, shouldStop, true, Finisher(job));
    NoneFinished(job, run.stragglers);
    EachFinished(job, ts);
    hide *;
    assert Gather(Log(run, shouldStop, true), Finisher(job)) == Gather(log, Finisher(job));
    IdsOfTasks(job, ts, Gather(log, Finisher(job)));
  }

  lemma EachFinished(job: Job, ts: seq<nat>)
    requires forall i :: 0 <= i < |ts| ==> ts[i] < |job.tasks| && job.tasks[ts[i]] < |job.members|
    ensures var ids := Gather(AllCompleted(ts), Finisher(job));
            && |ids| == |ts| && forall i :: 0 <= i < |ts| ==> ids[i] == job.members[job.tasks[ts[i]]].nodeId
  {
    var log := AllCompleted(ts);
    assert forall i :: 0 <= i < |log| ==> Finisher(job)(log[i]) == [job.members[job.tasks[ts[i]]].nodeId];
    GatherEach(log, Finisher(job));
  }

  lemma IdsOfTasks(job: Job, ts: seq<nat>, ids: seq<Text>)
    requires |ids| == |ts|
    requires forall i :: 0 <= i < |ts| ==>
               ts[i] < |job.tasks| && job.tasks[ts[i]] < |job.members| && ids[i] == job.members[job.tasks[ts[i]]].nodeId
    ensures IdSet(ids) == TaskIds(job, ts)
  {
    forall id ensures id in IdSet(ids) <==> id in TaskIds(job, ts) {
      if id in ids {
        var i :| 0 <= i < |ids| && ids[i] == id;
        assert job.members[job.tasks[ts[i]]].nodeId == id;
      }
    }
  }

  lemma {:induction false} NoneFinished(job: Job, ts: seq<nat>)
    ensures Gather(AllCancelled(ts), Finisher(job)) == []
    decreases |ts|
  {
    if ts != [] {
      var n := |ts| - 1;
      assert AllCancelled(ts)[..n] == AllCancelled(ts[..n]);
      NoneFinished(job, ts[..n]);
    }
  }

  lemma CancelledLeft(job: Job, completed: seq<nat>, cancelled: seq<nat>)
    requires IdsDistinct(job) && EachOnce(completed + cancelled, |job.tasks|)
    ensures TaskIds(job, AllTasks(|job.tasks|)) - TaskIds(job, completed) == TaskIds(job, cancelled)
  {
    var all := AllTasks(|job.tasks|);
    forall id ensures id in TaskIds(job, all) - TaskIds(job, completed) <==> id in TaskIds(job, cancelled) {
      if id in TaskIds(job, all) && id !in TaskIds(job, completed) {
        NotCompleted(job, completed, cancelled, id);
      }
      if id in TaskIds(job, cancelled) {
        NotFinished(job, completed, cancelled, id);
      }
    }
  }

  lemma NotCompleted(job: Job, completed: seq<nat>, cancelled: seq<nat>, id: Text)
    requires IdsDistinct(job) && EachOnce(completed + cancelled, |job.tasks|)
    requires id in TaskIds(job, AllTasks(|job.tasks|)) && id !in TaskIds(job, completed)
    ensures id in TaskIds(job, cancelled)
  {
    var all, order := AllTasks(|job.tasks|), completed + cancelled;
    var k :| 0 <= k < |all| && job.members[job.tasks[all[k]]].nodeId == id;
    assert k in multiset(order) && k in order;
    hide EachOnce, AllTasks;
    var i :| 0 <= i < |order| && order[i] == k;
    assert forall j :: 0 <= j < |completed| ==> order[j] == completed[j] != k;
    assert cancelled[i - |completed|] == k;
  }

  lemma NotFinished(job: Job, completed: seq<nat>, cancelled: seq<nat>, id: Text)
    requires IdsDistinct(job) && EachOnce(completed + cancelled, |job.tasks|) && id in TaskIds(job, cancelled)
    ensures id in TaskIds(job, AllTasks(|job.tasks|)) && id !in TaskIds(job, completed)
  {
    var all, order := AllTasks(|job.tasks|), completed + cancelled;
    var i :| 0 <= i < |cancelled| && cancelled[i] < |job.tasks| && job.members[job.tasks[cancelled[i]]].nodeId == id;
    assert all[cancelled[i]] == cancelled[i];
    forall j | 0 <= j < |completed| && completed[j] < |job.tasks|
      ensures job.members[job.tasks[completed[j]]].nodeId != id
    {
      OnceEach(order, |job.tasks|, j, |completed| + i);
      hide EachOnce;
    }
  }

  lemma OutcomesReported(job: Job, ts: seq<nat>, completed: bool)
    requires forall k :: 0 <= k < |job.tasks| ==> job.tasks[k] < |job.members|
    requires forall i :: 0 <= i < |ts| ==> ts[i] < |job.tasks|
    ensures Aligned(job, ts, completed, Gather(if completed then AllCompleted(ts) else AllCancelled(ts), Recorder(job)))
  {
    GatherEach(if completed then AllCompleted(ts) else AllCancelled(ts), Recorder(job));
  }

  lemma LogOutcomes(job: Job, run: Run, shouldStop: seq<Report> -> bool, notify: bool)
    requires forall k :: 0 <= k < |job.tasks| ==> job.tasks[k] < |job.members|
    requires ValidRun(run, |job.tasks|, shouldStop)
    ensures OnePerTask(job, Delivered(run), run.stragglers, Gather(Log(run, shouldStop, notify), Recorder(job)))
  {
    var completed, cancelled := Delivered(run), run.stragglers;
    RunTasksInside(run, |job.tasks|);
    OutcomesReported(job, completed, true);
    OutcomesReported(job, cancelled, false);
    assert Recorder(job)(ThresholdReached) == [];
    GatherLog(run, shouldStop, notify, Recorder(job));
    var a, b := Gather(AllCompleted(completed), Recorder(job)), Gather(AllCancelled(cancelled), Recorder(job));
    assert |a| == |completed| && (a + b)[..|a|] == a && (a + b)[|a|..] == b;
    hide Gather, Aligned, Delivered, Log, AllCompleted, AllCancelled, EachOnce;
  }

  lemma RunTasksInside(run: Run, n: nat)
    requires EachOnce(Tasks(run), n)
    ensures forall i :: 0 <= i < |Delivered(run)| ==> Delivered(run)[i] < n
    ensures forall i :: 0 <= i < |run.stragglers| ==> run.stragglers[i] < n
  {
    var all := Tasks(run);
    forall i | 0 <= i < |all| ensures all[i] < n { assert multiset(all)[all[i]] > 0; }
    assert forall i :: 0 <= i < |Delivered(run)| ==> all[i] == Delivered(run)[i];
    assert forall i :: 0 <= i < |run.stragglers| ==> all[|Delivered(run)| + i] == run.stragglers[i];
  }

  lemma {:induction false} SucceededAppend(a: seq<NodeUploadOutcome>, b: seq<NodeUploadOutcome>)
    ensures Succeeded(a + b) == Succeeded(a) + Succeeded(b)
    decreases |b|
  {
    if b == [] {
      assert a + b == a;
    } else {
      assert (a + b)[..|a + b| - 1] == a + b[..|b| - 1];
      SucceededAppend(a, b[..|b| - 1]);
    }
  }

  lemma LogSplit(run: Run, shouldStop: seq<Report> -> bool)
    ensures Log(run, shouldStop, true)
         == MainLog(run) + (Threshold(run, shouldStop, true) + AllCompleted(run.grace) + AllCancelled(run.stragglers))
  {
    hide MainLog, Threshold, AllCompleted, AllCancelled;
  }

  lemma StragglersStop(run: Run, n: nat, shouldStop: seq<Report> -> bool)
    requires ValidRun(run, n, shouldStop) && run.stragglers != []
    ensures shouldStop(MainLog(run))
  {
    assert run.grace + run.stragglers != [];
  }

  lemma ShortOfQuorumCompletesAll(job: Job, run: Run, shouldStop: seq<Report> -> bool, required: int)
    requires forall log :: shouldStop(log) <==> Succeeded(Gather(log, Recorder(job))) >= required
    requires ValidRun(run, |job.tasks|, shouldStop)
    requires Succeeded(Gather(Log(run, shouldStop, true), Recorder(job))) < required
    ensures run.stragglers == []
  {
    var main, rest := MainLog(run), Threshold(run, shouldStop, true) + AllCompleted(run.grace) + AllCancelled(run.stragglers);
    LogSplit(run, shouldStop);
    if run.stragglers != [] { StragglersStop(run, |job.tasks|, shouldStop); }
    hide *;
    GatherConcat(main, rest, Recorder(job));
    SucceededAppend(Gather(main, Recorder(job)), Gather(rest, Recorder(job)));
  }

  lemma TasksInside(committee: Committee)
    requires Validated(committee)
    ensures var tasks := Grouped(committee, ShardCount(committee.nShards));
            forall k :: 0 <= k < |tasks| ==> tasks[k] < |committee.members|
  {
    var tasks := Grouped(committee, ShardCount(committee.nShards));
    forall k | 0 <= k < |tasks| ensures tasks[k] < |committee.members| {
      assert tasks[k] in tasks;
      var _ := GroupedOrigin(committee, ShardCount(committee.nShards), tasks[k]);
    }
  }

  // ----- The weight of what succeeded -----

  ghost function SucceededAt(outcomes: seq<NodeUploadOutcome>): set<int> {
    set i | 0 <= i < |outcomes| && outcomes[i].succeeded :: outcomes[i].position
  }

  // Outcomes of different members, each with its member's weight.
  ghost predicate Weighed(committee: Committee, outcomes: seq<NodeUploadOutcome>) {
    && (forall i :: 0 <= i < |outcomes| ==>
          && outcomes[i].position < |committee.members|
          && outcomes[i].weight == |committee.members[outcomes[i].position].shards|)
    && forall i, j :: 0 <= i < j < |outcomes| ==> outcomes[i].position != outcomes[j].position
  }

  lemma {:induction false} OneSigner(members: seq<Member>, p: int)
    ensures SignerWeight(members, {}) == 0
    ensures SignerWeight(members, {p}) == if 0 <= p < |members| then |members[p].shards| else 0
  {
    if members != [] {
      OneSigner(members[..|members| - 1], p);
    }
  }

  lemma {:induction false} SucceededWeight(committee: Committee, outcomes: seq<NodeUploadOutcome>)
    requires Weighed(committee, outcomes)
    ensures Succeeded(outcomes) == SignerWeight(committee.members, SucceededAt(outcomes))
    decreases |outcomes|
  {
    if outcomes == [] {
      OneSigner(committee.members, 0);
      assert SucceededAt(outcomes) == {};
    } else {
      var n := |outcomes| - 1;
      var rest, last := outcomes[..n], outcomes[n];
      SucceededWeight(committee, rest);
      OneSigner(committee.members, last.position);
      if last.succeeded {
        assert SucceededAt(outcomes) == SucceededAt(rest) + {last.position};
        assert SucceededAt(rest) * {last.position} == {};
        WeightsAddUp(committee.members, SucceededAt(rest), {last.position});
      } else {
        assert SucceededAt(outcomes) == SucceededAt(rest);
      }
    }
  }

  /** The succeeded weight of a fan-out is the weight of the members that succeeded, each counted once:
      it never exceeds the shard count. */
  lemma SucceededWithinShards(committee: Committee, results: nat -> NodeResult, completed: seq<nat>, cancelled: seq<nat>,
                              outcomes: seq<NodeUploadOutcome>)
    requires Validated(committee)
    requires OnePerTask(UploadJob(committee, results), completed, cancelled, outcomes)
    ensures Succeeded(outcomes) == SignerWeight(committee.members, SucceededAt(outcomes)) <= ShardCount(committee.nShards)
  {
    var tasks, order := Grouped(committee, ShardCount(committee.nShards)), completed + cancelled;
    GroupedDistinct(committee, ShardCount(committee.nShards));
    forall i | 0 <= i < |outcomes|
      ensures order[i] < |tasks| && outcomes[i].position == tasks[order[i]] < |committee.members|
      ensures outcomes[i].weight == |committee.members[tasks[order[i]]].shards|
    {
      if i >= |completed| {
        assert outcomes[i] == outcomes[|completed|..][i - |completed|];
      } else {
        assert outcomes[i] == outcomes[..|completed|][i];
      }
    }
    forall i, j | 0 <= i < j < |outcomes| ensures outcomes[i].position != outcomes[j].position {
      OnceEach(order, |tasks|, i, j);
      assert tasks[order[i]] != tasks[order[j]];
    }
    SucceededWeight(committee, outcomes);
    WeightsSumToShards(committee, SucceededAt(outcomes));
  }
}
