/** Collecting storage confirmations from a committee and certifying a blob with them. */
module Confirm {
  import opened Common
  import opened Certification
  import opened Committee
  import opened FanOut
  import Upload

  datatype Signed = Signed(message: Bytes, signature: Bytes)

  // What asking one node comes to. Only a confirmation is kept; the rest is tolerated.
  datatype Reply = Confirmed(signed: Signed) | Refused(reason: Text) | Raised(error: Text)

  // The committee, the members asked and what each answers.
  datatype Request = Request(members: seq<Member>, candidates: seq<nat>, replies: seq<Reply>)

  ghost predicate WellFormed(request: Request) {
    && |request.replies| == |request.candidates|
    && forall k :: 0 <= k < |request.candidates| ==> request.candidates[k] < |request.members|
  }

  // The confirmation a member's signature makes. Its position is looked up by identifier.
  function ConfirmationOf(members: seq<Member>, p: nat, signed: Signed): Confirmation
    requires p < |members|
  {
    Confirmation(members[p].nodeId, PositionOf(members, members[p].nodeId).GetOr(0), |members[p].shards|,
                 members[p].publicKey, signed.message, signed.signature)
  }

  function Recorded(request: Request, report: Report): seq<Confirmation> {
    match report
    case Completed(t) =>
      if t < |request.candidates| && t < |request.replies| && request.candidates[t] < |request.members|
         && request.replies[t].Confirmed?
      then [ConfirmationOf(request.members, request.candidates[t], request.replies[t].signed)] else []
    case Cancelled(_) => []
    case ThresholdReached => []
  }

  function Recorder(request: Request): Report -> seq<Confirmation> { report => Recorded(request, report) }

  function QuorumConfirmed(request: Request, required: int): seq<Report> -> bool {
    log => Weight(Gather(log, Recorder(request))) >= required
  }

  // A position given from outside reads from the end when negative; None stands for the IndexError.
  function Candidate(position: int, size: nat): Option<nat> {
    if 0 <= position < size then Some(position)
    else if position < 0 <= position + size then Some(position + size)
    else None
  }

  method ChooseCandidates(size: nat, positions: Option<seq<int>>) returns (r: Option<seq<nat>>)
    ensures positions.None? ==> r == Some(AllTasks(size))
    ensures positions.Some? ==>
              (r.Some? <==> forall k :: 0 <= k < |positions.value| ==> Candidate(positions.value[k], size).Some?)
    ensures positions.Some? && r.Some? ==> |r.value| == |positions.value|
    ensures positions.Some? && r.Some? ==>
              forall k :: 0 <= k < |r.value| ==> Some(r.value[k]) == Candidate(positions.value[k], size)
    ensures positions.Some? ==> (r.Some? <==> forall k :: 0 <= k < |positions.value| ==> 0 <= positions.value[k] + size < 2 * size)
    ensures positions.Some? && r.Some? ==>
              forall k :: 0 <= k < |r.value| ==>
                r.value[k] == positions.value[k] + if positions.value[k] < 0 then size else 0
  {
    if positions.None? {
      return Some(AllTasks(size));
    }
    var chosen: seq<nat> := [];
    for i := 0 to |positions.value|
      invariant |chosen| == i
      invariant forall k :: 0 <= k < i ==> Candidate(positions.value[k], size) == Some(chosen[k])
    {
      var candidate := Candidate(positions.value[i], size);
      if candidate.None? {
        return None;
      }
      chosen := chosen + [candidate.value];
    }
    return Some(chosen);
  }

  datatype CollectError = Interrupted | CandidateIndex | NothingUsable | NotCertified(error: CertificateError)

  method FoldConfirmations(request: Request, log: seq<Report>) returns (confirmations: seq<Confirmation>, weight: int)
    ensures confirmations == Gather(log, Recorder(request)) && weight == Weight(confirmations)
  {
    confirmations, weight := [], 0;
    for i := 0 to |log|
      invariant confirmations == Gather(log[..i], Recorder(request)) && weight == Weight(confirmations)
    {
      assert log[..i + 1][..i] == log[..i];
      var recorded := Recorded(request, log[i]);
      if recorded != [] {
        assert (confirmations + recorded)[..|confirmations|] == confirmations;
        confirmations := confirmations + recorded;
        weight := weight + recorded[0].weight;
      }
    }
    assert log[..|log|] == log;
  }

  // The request made of a committee: every member, or those at the given positions.
  ghost predicate Asks(committee: Committee, replies: nat -> Reply, positions: Option<seq<int>>, request: Request) {
    && WellFormed(request) && request.members == committee.members
    && (forall k: nat :: k < |request.replies| ==> request.replies[k] == replies(k))
    && (positions.None? ==> request.candidates == AllTasks(|committee.members|))
    && (positions.Some? ==>
          && |request.candidates| == |positions.value|
          && forall k :: 0 <= k < |positions.value| ==>
               Candidate(positions.value[k], |committee.members|) == Some(request.candidates[k]))
  }

  // What a run over the request comes to.
  ghost predicate Comes(bls: Bls, committee: Committee, request: Request, run: Run, expected: Bytes,
                        r: Result<Certificate, CollectError>)
    requires WellFormed(request)
  {
    var usable := Usable(request, run);
    && ValidRun(run, |request.candidates|, QuorumConfirmed(request, MinWeightForQuorum(committee.nShards)))
    && match r
       case Ok(cert) => usable != [] && CertificateOf(bls, committee, usable, expected, cert)
       case Err(NothingUsable) => usable == []
       case Err(NotCertified(error)) =>
         usable != [] && Refusal(bls, usable, |committee.members|, committee.nShards, Some(expected)) == Some(error)
       case _ => false
  }

  /** Asks every candidate, keeps what is usable until the quorum weight is confirmed, and certifies. */
  method CollectConfirmations(bls: Bls, committee: Committee, replies: nat -> Reply, positions: Option<seq<int>>,
                              expected: Bytes, interruptible: bool)
    returns (r: Result<Certificate, CollectError>)
    ensures r == Err(Interrupted) ==> interruptible
    ensures r == Err(CandidateIndex) <==>
            positions.Some? && exists k :: 0 <= k < |positions.value| && Candidate(positions.value[k], |committee.members|).None?
    ensures r != Err(Interrupted) && r != Err(CandidateIndex) ==>
              exists request, run :: Asks(committee, replies, positions, request) && Comes(bls, committee, request, run, expected, r)
  {
    var request := MakeRequest(committee, replies, positions);
    if request.None? {
      return Err(CandidateIndex);
    }
    hide *;
    var required := MinWeightForQuorum(committee.nShards);
    var log, interrupted, _, _, run := DriveFanOut(|request.value.candidates|, QuorumConfirmed(request.value, required),
                                                   true, interruptible);
    if interrupted {
      return Err(Interrupted);
    }
    var confirmations, _ := FoldConfirmations(request.value, log);
    UsableGathered(request.value, run, required);
    if confirmations == [] {
      r := Err(NothingUsable);
    } else {
      r := Certified(bls, committee, confirmations, expected);
    }
    Concludes(bls, committee, replies, positions, request.value, run, expected, r);
  }

  method MakeRequest(committee: Committee, replies: nat -> Reply, positions: Option<seq<int>>)
    returns (request: Option<Request>)
    ensures request.None? <==>
            positions.Some? && exists k :: 0 <= k < |positions.value| && Candidate(positions.value[k], |committee.members|).None?
    ensures request.Some? ==> Asks(committee, replies, positions, request.value)
  {
    var candidates := ChooseCandidates(|committee.members|, positions);
    if candidates.None? {
      return None;
    }
    var answers := seq(|candidates.value|, i requires 0 <= i => replies(i));
    return Some(Request(committee.members, candidates.value, answers));
  }

  lemma Concludes(bls: Bls, committee: Committee, replies: nat -> Reply, positions: Option<seq<int>>, request: Request,
                  run: Run, expected: Bytes, r: Result<Certificate, CollectError>)
    requires Asks(committee, replies, positions, request)
    requires ValidRun(run, |request.candidates|, QuorumConfirmed(request, MinWeightForQuorum(committee.nShards)))
    requires Usable(request, run) == [] ==> r == Err(NothingUsable)
    requires Usable(request, run) != [] ==>
               && (r.Ok? ==> CertificateOf(bls, committee, Usable(request, run), expected, r.value))
               && (r.Err? ==>
                     && r.error.NotCertified?
                     && Refusal(bls, Usable(request, run), |committee.members|, committee.nShards, Some(expected))
                        == Some(r.error.error))
    ensures Asks(committee, replies, positions, request) && Comes(bls, committee, request, run, expected, r)
  {
    hide Usable, Refusal, CertificateOf, ValidRun, QuorumConfirmed;
  }

  method Certified(bls: Bls, committee: Committee, confirmations: seq<Confirmation>, expected: Bytes)
    returns (r: Result<Certificate, CollectError>)
    requires confirmations != []
    ensures r.Ok? ==> CertificateOf(bls, committee, confirmations, expected, r.value)
    ensures r.Err? ==>
              r.error.NotCertified?
              && Refusal(bls, confirmations, |committee.members|, committee.nShards, Some(expected)) == Some(r.error.error)
  {
    var built := BuildCertificate(bls, confirmations, |committee.members|, committee.nShards, Some(expected));
    hide Refusal, Certifies, Retained;
    r := match built case Err(e) => Err(NotCertified(e)) case Ok(cert) => Ok(cert);
  }

  // The confirmations of the nodes that completed, in order of completion.
  ghost function Usable(request: Request, run: Run): seq<Confirmation> {
    Gather(AllCompleted(Delivered(run)), Recorder(request))
  }

  ghost predicate CertificateOf(bls: Bls, committee: Committee, confirmations: seq<Confirmation>, expected: Bytes,
                                cert: Certificate)
  {
    && Refusal(bls, confirmations, |committee.members|, committee.nShards, Some(expected)).None?
    && Certifies(bls, Retained(bls, confirmations, expected), |committee.members|, committee.nShards, expected, cert)
  }

  lemma UsableGathered(request: Request, run: Run, required: int)
    ensures Gather(Log(run, QuorumConfirmed(request, required), true), Recorder(request)) == Usable(request, run)
  {
    assert Recorder(request)(ThresholdReached) == [];
    GatherLog(run, QuorumConfirmed(request, required), true, Recorder(request));
    NothingFromCancelled(request, run.stragglers);
  }

  lemma {:induction false} NothingFromCancelled(request: Request, ts: seq<nat>)
    ensures Gather(AllCancelled(ts), Recorder(request)) == []
    decreases |ts|
  {
    if ts != [] {
      var n := |ts| - 1;
      assert AllCancelled(ts)[..n] == AllCancelled(ts[..n]);
      NothingFromCancelled(request, ts[..n]);
    }
  }

  // ----- When no position is confirmed twice -----

  ghost predicate DistinctIds(members: seq<Member>) {
    forall i, j :: 0 <= i < j < |members| ==> members[i].nodeId != members[j].nodeId
  }

  ghost predicate WithinMembers(members: seq<Member>, candidates: seq<nat>) {
    forall k :: 0 <= k < |candidates| ==> candidates[k] < |members|
  }

  // No two of the members asked carry the same identifier; a member asked twice does.
  ghost predicate DistinctCandidates(members: seq<Member>, candidates: seq<nat>)
    requires WithinMembers(members, candidates)
  {
    forall i, j :: 0 <= i < j < |candidates| ==> members[candidates[i]].nodeId != members[candidates[j]].nodeId
  }

  lemma FoundAtOwnPosition(members: seq<Member>, p: nat)
    requires p < |members|
    ensures var found := PositionOf(members, members[p].nodeId);
            found.Some? && found.value < |members| && members[found.value].nodeId == members[p].nodeId
    ensures DistinctIds(members) ==> PositionOf(members, members[p].nodeId) == Some(p)
  {
    PositionIsLast(members, members[p].nodeId);
  }

  // Every confirmation is some listed candidate's.
  ghost predicate FromTask(request: Request, c: Confirmation, t: nat)
    requires WellFormed(request)
  {
    && t < |request.candidates| && request.replies[t].Confirmed?
    && c == ConfirmationOf(request.members, request.candidates[t], request.replies[t].signed)
  }

  lemma {:induction false} UsableOrigin(request: Request, ts: seq<nat>, c: Confirmation) returns (t: nat)
    requires WellFormed(request) && c in Gather(AllCompleted(ts), Recorder(request))
    ensures t in ts && FromTask(request, c, t)
    decreases |ts|
  {
    var n := |ts| - 1;
    assert AllCompleted(ts)[..n] == AllCompleted(ts[..n]);
    if c in Recorded(request, Completed(ts[n])) {
      t := ts[n];
    } else {
      t := UsableOrigin(request, ts[..n], c);
    }
  }

  lemma {:induction false} UsableHas(request: Request, ts: seq<nat>, t: nat)
    requires WellFormed(request) && t in ts && t < |request.candidates| && request.replies[t].Confirmed?
    ensures ConfirmationOf(request.members, request.candidates[t], request.replies[t].signed)
         in Gather(AllCompleted(ts), Recorder(request))
    decreases |ts|
  {
    var n := |ts| - 1;
    assert AllCompleted(ts)[..n] == AllCompleted(ts[..n]) && ts == ts[..n] + [ts[n]];
    if t != ts[n] {
      UsableHas(request, ts[..n], t);
    }
  }

  lemma {:induction false} UsableDistinct(request: Request, ts: seq<nat>)
    requires WellFormed(request) && DistinctCandidates(request.members, request.candidates) && AtMostOnce(ts)
    ensures DistinctPositions(Gather(AllCompleted(ts), Recorder(request)))
    decreases |ts|
  {
    if ts != [] {
      var n := |ts| - 1;
      assert AllCompleted(ts)[..n] == AllCompleted(ts[..n]);
      UsableDistinct(request, ts[..n]);
      var rest := Gather(AllCompleted(ts[..n]), Recorder(request));
      forall i | 0 <= i < |rest| && ts[n] < |request.candidates|
        ensures rest[i].position != PositionOf(request.members, request.members[request.candidates[ts[n]]].nodeId).GetOr(0)
      {
        var t := UsableOrigin(request, ts[..n], rest[i]);
        FoundAtOwnPosition(request.members, request.candidates[t]);
        FoundAtOwnPosition(request.members, request.candidates[ts[n]]);
        assert t != ts[n];
      }
    }
  }

  // However the nodes answer, the library judges and the run goes, no position is found twice.
  ghost predicate NeverDuplicates(members: seq<Member>, candidates: seq<nat>, nShards: int) {
    forall bls: Bls, replies: seq<Reply>, run: Run, expected: Bytes ::
      |replies| == |candidates|
      && ValidRun(run, |candidates|, QuorumConfirmed(Request(members, candidates, replies), MinWeightForQuorum(nShards))) ==>
        Refusal(bls, Usable(Request(members, candidates, replies), run), |members|, nShards, Some(expected))
        != Some(DuplicatePosition)
  }

  /** Collecting from any list of members, everyone or listed positions, never trips the
      duplicate-position error, exactly when the members asked have pairwise distinct identifiers. */
  lemma NeverDuplicatesIff(members: seq<Member>, candidates: seq<nat>, nShards: int)
    requires WithinMembers(members, candidates)
    ensures NeverDuplicates(members, candidates, nShards) <==> DistinctCandidates(members, candidates)
  {
    if DistinctCandidates(members, candidates) {
      forall bls: Bls, replies: seq<Reply>, run: Run, expected: Bytes
        | |replies| == |candidates|
          && ValidRun(run, |candidates|, QuorumConfirmed(Request(members, candidates, replies), MinWeightForQuorum(nShards)))
        ensures Refusal(bls, Usable(Request(members, candidates, replies), run), |members|, nShards, Some(expected))
             != Some(DuplicatePosition)
      {
        RunTasks(run, |candidates|);
        UsableDistinct(Request(members, candidates, replies), Delivered(run));
        DistinctPasses(bls, Usable(Request(members, candidates, replies), run), |members|, nShards, expected);
      }
    } else {
      var i, j :| 0 <= i < j < |candidates| && members[candidates[i]].nodeId == members[candidates[j]].nodeId;
      TwinsConfirm(members, candidates, nShards, i, j);
    }
  }

  lemma DistinctPasses(bls: Bls, confirmations: seq<Confirmation>, size: int, nShards: int, expected: Bytes)
    requires DistinctPositions(confirmations)
    ensures Refusal(bls, confirmations, size, nShards, Some(expected)) != Some(DuplicatePosition)
  {
    GoodDistinct(bls, confirmations, expected);
    hide AggregateVerifies, DistinctPositions, Good, SomeOutside, Disagree, Weight;
  }

  /** Asking everyone is safe exactly when the committee's identifiers are distinct. */
  lemma EveryoneNeverDuplicatesIff(members: seq<Member>, nShards: int)
    ensures NeverDuplicates(members, AllTasks(|members|), nShards) <==> DistinctIds(members)
  {
    var everyone := AllTasks(|members|);
    NeverDuplicatesIff(members, everyone, nShards);
    hide NeverDuplicates, AllTasks;
    assert forall i :: 0 <= i < |members| ==> members[everyone[i]] == members[i];
    if DistinctCandidates(members, everyone) {
      forall i, j | 0 <= i < j < |members| ensures members[i].nodeId != members[j].nodeId {
        assert members[everyone[i]].nodeId != members[everyone[j]].nodeId;
      }
    }
  }

  /** A member listed twice, once from each end, is not, however distinct the identifiers. */
  lemma ListedTwice(committee: Committee, replies: nat -> Reply, p: nat, request: Request)
    requires p < |committee.members|
    requires Asks(committee, replies, Some([p, p - |committee.members|]), request)
    ensures request.candidates == [p, p] && !NeverDuplicates(committee.members, [p, p], committee.nShards)
  {
    hide Asks, NeverDuplicates;
    AskedAt(committee, replies, [p, p - |committee.members|], request, 0);
    AskedAt(committee, replies, [p, p - |committee.members|], request, 1);
    AskedTwice(committee.members, p, committee.nShards);
  }

  lemma AskedAt(committee: Committee, replies: nat -> Reply, positions: seq<int>, request: Request, k: nat)
    requires Asks(committee, replies, Some(positions), request) && k < |positions|
    ensures |request.candidates| == |positions|
    ensures Candidate(positions[k], |committee.members|) == Some(request.candidates[k])
  {
  }

  lemma AskedTwice(members: seq<Member>, p: nat, nShards: int)
    requires p < |members|
    ensures !NeverDuplicates(members, [p, p], nShards)
  {
    hide NeverDuplicates, AcceptAll;
    TwinsConfirm(members, [p, p], nShards, 0, 1);
  }

  // A library that takes every signature.
  function AcceptAll(): Bls { Bls(_ => Some([]), (_, _, _) => Some(true), (_, _, _) => Some(true)) }

  // When all confirm in one batch, two candidates of one identifier confirm at one position.
  lemma TwinsConfirm(members: seq<Member>, candidates: seq<nat>, nShards: int, i: nat, j: nat)
    requires WithinMembers(members, candidates)
    requires i < j < |candidates| && members[candidates[i]].nodeId == members[candidates[j]].nodeId
    ensures SoundBls(AcceptAll()) && !NeverDuplicates(members, candidates, nShards)
  {
    var n := |candidates|;
    var signed := Confirmed(Signed([], []));
    var replies := seq(n, (_: nat) => signed);
    var request := Request(members, candidates, replies);
    var run := Run([AllTasks(n)], [], []);
    OneBatchRun(n, QuorumConfirmed(request, MinWeightForQuorum(nShards)));
    AllConfirm(request, signed);
    var all := Gather(AllCompleted(AllTasks(n)), Recorder(request));
    assert all == Usable(request, run);
    hide *;
    SamePosition(members, candidates, i, j, signed.signed);
    AcceptedTwins(all, |members|, nShards, i, j);
    Duplicated(members, candidates, nShards, replies, run);
  }

  lemma SamePosition(members: seq<Member>, candidates: seq<nat>, i: nat, j: nat, signed: Signed)
    requires WithinMembers(members, candidates)
    requires i < j < |candidates| && members[candidates[i]].nodeId == members[candidates[j]].nodeId
    ensures ConfirmationOf(members, candidates[i], signed).position == ConfirmationOf(members, candidates[j], signed).position
    ensures ConfirmationOf(members, candidates[i], signed).message == signed.message
  {
  }

  lemma AcceptedTwins(confirmations: seq<Confirmation>, size: int, nShards: int, i: nat, j: nat)
    requires i < j < |confirmations| && confirmations[i].position == confirmations[j].position
    requires forall k :: 0 <= k < |confirmations| ==> confirmations[k].message == []
    ensures SoundBls(AcceptAll())
    ensures Refusal(AcceptAll(), confirmations, size, nShards, Some([])) == Some(DuplicatePosition)
  {
    assert !DistinctPositions(confirmations) && !Disagree(confirmations, []);
    assert AggregateVerifies(AcceptAll(), PublicKeys(confirmations), Signatures(confirmations), []);
  }

  lemma Duplicated(members: seq<Member>, candidates: seq<nat>, nShards: int, replies: seq<Reply>, run: Run)
    requires |replies| == |candidates|
    requires ValidRun(run, |candidates|, QuorumConfirmed(Request(members, candidates, replies), MinWeightForQuorum(nShards)))
    requires Refusal(AcceptAll(), Usable(Request(members, candidates, replies), run), |members|, nShards, Some([]))
          == Some(DuplicatePosition)
    ensures !NeverDuplicates(members, candidates, nShards)
  {
  }

  lemma AllConfirm(request: Request, reply: Reply)
    requires WellFormed(request)
    requires reply.Confirmed? && forall k :: 0 <= k < |request.replies| ==> request.replies[k] == reply
    ensures var all := Gather(AllCompleted(AllTasks(|request.candidates|)), Recorder(request));
            && |all| == |request.candidates|
            && forall k :: 0 <= k < |all| ==> all[k] == ConfirmationOf(request.members, request.candidates[k], reply.signed)
  {
    var log := AllCompleted(AllTasks(|request.candidates|));
    assert forall k :: 0 <= k < |log| ==>
             Recorder(request)(log[k]) == [ConfirmationOf(request.members, request.candidates[k], reply.signed)];
    GatherEach(log, Recorder(request));
  }

  // ----- What certificates of one committee have in common -----

  // Confirmations at positions of the committee, each weighing as much as the member there.
  ghost predicate Placed(members: seq<Member>, confirmations: seq<Confirmation>) {
    forall c :: c in confirmations ==> 0 <= c.position < |members| && c.weight == |members[c.position].shards|
  }

  lemma {:induction false} ConfirmedWeight(members: seq<Member>, confirmations: seq<Confirmation>)
    requires Placed(members, confirmations) && DistinctPositions(confirmations)
    ensures Weight(confirmations) == SignerWeight(members, Positions(confirmations))
    decreases |confirmations|
  {
    if confirmations == [] {
      CountNone();
      Upload.OneSigner(members, 0);
    } else {
      var n := |confirmations| - 1;
      var rest, last := confirmations[..n], confirmations[n];
      assert DistinctPositions(rest) && confirmations[..n + 1] == confirmations;
      assert last in confirmations && forall c :: c in rest ==> c in confirmations;
      ConfirmedWeight(members, rest);
      PositionsStep(confirmations, n);
      assert Positions(rest) * {last.position} == {};
      WeightsAddUp(members, Positions(rest), {last.position});
      Upload.OneSigner(members, last.position);
    }
  }

  // The shards of the member that a member's identifier names.
  function NamedShards(members: seq<Member>, p: nat): seq<int>
    requires p < |members|
  {
    FoundAtOwnPosition(members, p);
    members[PositionOf(members, members[p].nodeId).value].shards
  }

  // Each member asked holds as many shards as the member its identifier names.
  ghost predicate WeighedAsNamed(members: seq<Member>, candidates: seq<nat>)
    requires WithinMembers(members, candidates)
  {
    forall k :: 0 <= k < |candidates| ==> |members[candidates[k]].shards| == |NamedShards(members, candidates[k])|
  }

  lemma DistinctWeighed(members: seq<Member>, candidates: seq<nat>)
    requires DistinctIds(members) && WithinMembers(members, candidates)
    ensures WeighedAsNamed(members, candidates)
  {
    forall k | 0 <= k < |candidates| { FoundAtOwnPosition(members, candidates[k]); }
  }

  // However the nodes answer and the run goes, a confirmation weighs what the member at its position holds.
  ghost predicate AlwaysPlaced(members: seq<Member>, candidates: seq<nat>, required: int) {
    forall replies: seq<Reply>, run: Run ::
      |replies| == |candidates|
      && ValidRun(run, |candidates|, QuorumConfirmed(Request(members, candidates, replies), required)) ==>
        Placed(members, Usable(Request(members, candidates, replies), run))
  }

  /** Confirmations always carry the weight of the member they will be counted for, exactly when no
      member asked shares its identifier with a later one of another weight. */
  lemma AlwaysPlacedIff(members: seq<Member>, candidates: seq<nat>, required: int)
    requires WithinMembers(members, candidates)
    ensures AlwaysPlaced(members, candidates, required) <==> WeighedAsNamed(members, candidates)
  {
    if WeighedAsNamed(members, candidates) {
      forall replies: seq<Reply>, run: Run
        | |replies| == |candidates|
          && ValidRun(run, |candidates|, QuorumConfirmed(Request(members, candidates, replies), required))
        ensures Placed(members, Usable(Request(members, candidates, replies), run))
      {
        UsablePlaced(Request(members, candidates, replies), Delivered(run));
      }
    } else {
      var k :| 0 <= k < |candidates| && |members[candidates[k]].shards| != |NamedShards(members, candidates[k])|;
      Misplaced(members, candidates, required, k);
    }
  }

  lemma Misplaced(members: seq<Member>, candidates: seq<nat>, required: int, k: nat)
    requires WithinMembers(members, candidates)
    requires k < |candidates| && |members[candidates[k]].shards| != |NamedShards(members, candidates[k])|
    ensures !AlwaysPlaced(members, candidates, required)
  {
    var n := |candidates|;
    var signed := Confirmed(Signed([], []));
    var replies := seq(n, (_: nat) => signed);
    var request := Request(members, candidates, replies);
    var run := Run([AllTasks(n)], [], []);
    OneBatchRun(n, QuorumConfirmed(request, required));
    AllConfirm(request, signed);
    assert Gather(AllCompleted(AllTasks(n)), Recorder(request)) == Usable(request, run);
    hide *;
    Underweight(members, candidates[k], Usable(request, run), k, signed.signed);
    NotAlwaysPlaced(members, candidates, required, replies, run);
  }

  lemma Underweight(members: seq<Member>, p: nat, confirmations: seq<Confirmation>, k: nat, signed: Signed)
    requires p < |members| && |members[p].shards| != |NamedShards(members, p)|
    requires k < |confirmations| && confirmations[k] == ConfirmationOf(members, p, signed)
    ensures !Placed(members, confirmations)
  {
    FoundAtOwnPosition(members, p);
    assert confirmations[k] in confirmations;
  }

  lemma NotAlwaysPlaced(members: seq<Member>, candidates: seq<nat>, required: int, replies: seq<Reply>, run: Run)
    requires |replies| == |candidates|
    requires ValidRun(run, |candidates|, QuorumConfirmed(Request(members, candidates, replies), required))
    requires !Placed(members, Usable(Request(members, candidates, replies), run))
    ensures !AlwaysPlaced(members, candidates, required)
  {
  }

  lemma UsablePlaced(request: Request, ts: seq<nat>)
    requires WellFormed(request) && WeighedAsNamed(request.members, request.candidates)
    ensures Placed(request.members, Gather(AllCompleted(ts), Recorder(request)))
  {
    forall c | c in Gather(AllCompleted(ts), Recorder(request))
      ensures 0 <= c.position < |request.members| && c.weight == |request.members[c.position].shards|
    {
      var t := UsableOrigin(request, ts, c);
      FoundAtOwnPosition(request.members, request.candidates[t]);
    }
  }

  lemma RetainedPlaced(bls: Bls, members: seq<Member>, confirmations: seq<Confirmation>, message: Bytes)
    requires Placed(members, confirmations)
    ensures Placed(members, Retained(bls, confirmations, message))
  {
  }

  // The set of committee positions whose bits a certificate sets.
  ghost function Signers(cert: Certificate): set<int> { set p | p in cert.positions }

  // A certificate that a collection from this committee comes to.
  ghost predicate Collected(bls: Bls, committee: Committee, request: Request, run: Run, message: Bytes, cert: Certificate) {
    && WellFormed(request) && request.members == committee.members
    && Comes(bls, committee, request, run, message, Ok(cert))
  }

  /** The weight of a collected certificate is the weight of the members its bitmap names, when those
      asked weigh what the members named by their identifiers do, as they do when identifiers are
      distinct. */
  lemma CertificateWeight(bls: Bls, committee: Committee, request: Request, run: Run, message: Bytes, cert: Certificate)
    requires Collected(bls, committee, request, run, message, cert)
    requires WeighedAsNamed(committee.members, request.candidates)
    ensures IsQuorum(SignerWeight(committee.members, Signers(cert)), committee.nShards)
    ensures cert.weight == SignerWeight(committee.members, Signers(cert))
  {
    var usable := Usable(request, run);
    var kept := Retained(bls, usable, message);
    UsablePlaced(request, Delivered(run));
    RetainedPlaced(bls, committee.members, usable, message);
    CertifiedDistinct(bls, committee, usable, message, cert);
    ConfirmedWeight(committee.members, kept);
  }

  lemma CertifiedDistinct(bls: Bls, committee: Committee, confirmations: seq<Confirmation>, message: Bytes, cert: Certificate)
    requires confirmations != [] && CertificateOf(bls, committee, confirmations, message, cert)
    ensures var kept := Retained(bls, confirmations, message);
            && DistinctPositions(kept) && Signers(cert) == Positions(kept)
            && cert.weight == Weight(kept) && IsQuorum(cert.weight, committee.nShards)
  {
    hide Retained, Weight, SomeOutside, Disagree, AggregateVerifies, StrictlyAscending, UnpackSignersBitmap;
  }

  /** Any two certificates collected from one validated committee, for any messages, from any members
      that weigh what their identifiers name and whatever they answered, name common signers that
      outweigh every faulty minority. */
  lemma CertificatesIntersect(bls: Bls, committee: Committee, first: Request, second: Request, run: Run, again: Run,
                              message: Bytes, other: Bytes, a: Certificate, b: Certificate)
    requires Validated(committee)
    requires Collected(bls, committee, first, run, message, a) && Collected(bls, committee, second, again, other, b)
    requires WeighedAsNamed(committee.members, first.candidates) && WeighedAsNamed(committee.members, second.candidates)
    ensures IsAboveValidity(SignerWeight(committee.members, Signers(a) * Signers(b)), committee.nShards)
    ensures SignerWeight(committee.members, Signers(a) * Signers(b)) > RedStuff.MaxNFaulty(committee.nShards)
  {
    hide *;
    CertificateWeight(bls, committee, first, run, message, a);
    CertificateWeight(bls, committee, second, again, other, b);
    QuorumIntersection(committee, Signers(a), Signers(b));
  }

  /** With a sound signature library and distinct identifiers among those asked, only four things are
      left to go wrong: nothing usable, a node confirming another message, no valid signature, too
      little weight. */
  lemma ErrorsThatRemain(bls: Bls, request: Request, run: Run, nShards: int, expected: Bytes)
    requires SoundBls(bls) && WellFormed(request) && DistinctCandidates(request.members, request.candidates)
    requires EachOnce(Tasks(run), |request.candidates|) && Usable(request, run) != []
    ensures var refusal := Refusal(bls, Usable(request, run), |request.members|, nShards, Some(expected));
            refusal.None? || refusal.value in {MessageMismatch, AllInvalid, QuorumNotReached}
  {
    var confirmations := Usable(request, run);
    RunTasks(run, |request.candidates|);
    UsableDistinct(request, Delivered(run));
    UsableInside(request, Delivered(run));
    GoodDistinct(bls, confirmations, expected);
    FallbackAggregates(bls, confirmations, expected);
    var kept := Retained(bls, confirmations, expected);
    assert DistinctPositions(kept) && !SomeOutside(kept, |request.members|) by {
      hide SoundBls, AggregateVerifies, Usable, WellFormed, DistinctCandidates;
    }
    hide *;
    LittleLeft(bls, confirmations, |request.members|, nShards, expected);
  }

  lemma LittleLeft(bls: Bls, confirmations: seq<Confirmation>, size: int, nShards: int, expected: Bytes)
    requires confirmations != []
    requires var kept := Retained(bls, confirmations, expected);
             && DistinctPositions(kept) && !SomeOutside(kept, size)
             && (kept != [] ==> bls.aggregate(Signatures(kept)).Some?)
             && (kept != [] && |kept| == |confirmations| ==>
                   AggregateVerifies(bls, PublicKeys(confirmations), Signatures(confirmations), expected))
    ensures var refusal := Refusal(bls, confirmations, size, nShards, Some(expected));
            refusal.None? || refusal.value in {MessageMismatch, AllInvalid, QuorumNotReached}
  {
    hide DistinctPositions, SomeOutside, Good, AggregateVerifies, Disagree, Weight;
  }

  lemma UsableInside(request: Request, ts: seq<nat>)
    requires WellFormed(request)
    ensures !SomeOutside(Gather(AllCompleted(ts), Recorder(request)), |request.members|)
  {
    forall c | c in Gather(AllCompleted(ts), Recorder(request)) ensures 0 <= c.position < |request.members| {
      var t := UsableOrigin(request, ts, c);
      FoundAtOwnPosition(request.members, request.candidates[t]);
    }
  }

  // ----- Identifiers that are shared -----

  const TOP_HEAVY := Committee(0, 4, [Member([0], [0, 1, 2], [], []), Member([0], [3], [], [])])

  // The first member alone confirms; the identifier it shares names the second.
  const SHARED_REQUEST := Request(TOP_HEAVY.members, [0, 1], [Confirmed(Signed([], [])), Refused([])])

  const SHARED_CERTIFICATE := Certificate([], [], [2], [1], 3)

  /** A committee that passes validation with a shared identifier, and a certificate of quorum weight
      collected from it whose only signer holds one shard: it does not even intersect itself. */
  lemma SharedIdMisnamed()
    ensures Validated(TOP_HEAVY) && SoundBls(AcceptAll())
    ensures exists run :: Collected(AcceptAll(), TOP_HEAVY, SHARED_REQUEST, run, [], SHARED_CERTIFICATE)
    ensures SignerWeight(TOP_HEAVY.members, Signers(SHARED_CERTIFICATE)) == 1
    ensures var signers := Signers(SHARED_CERTIFICATE);
            !IsAboveValidity(SignerWeight(TOP_HEAVY.members, signers * signers), TOP_HEAVY.nShards)
  {
    hide Validated, SoundBls, Collected, CertificateOf, Signers, SignerWeight, ValidRun, QuorumConfirmed, MinWeightForQuorum;
    TopHeavyValidated();
    SharedConfirmed();
    SharedCertified();
    MisnamedWeight();
    var run := Run([AllTasks(2)], [], []);
    OneBatchRun(2, QuorumConfirmed(SHARED_REQUEST, MinWeightForQuorum(4)));
    SharedCollected(run);
  }

  lemma MisnamedWeight()
    ensures var signers := Signers(SHARED_CERTIFICATE);
            && SignerWeight(TOP_HEAVY.members, signers) == 1
            && !IsAboveValidity(SignerWeight(TOP_HEAVY.members, signers * signers), TOP_HEAVY.nShards)
  {
    var signers := Signers(SHARED_CERTIFICATE);
    assert signers == {1} && signers * signers == {1};
    Upload.OneSigner(TOP_HEAVY.members, 1);
  }

  lemma SharedCollected(run: Run)
    requires Usable(SHARED_REQUEST, run) == [Confirmation([0], 1, 3, [], [], [])]
    requires ValidRun(run, 2, QuorumConfirmed(SHARED_REQUEST, MinWeightForQuorum(4)))
    requires CertificateOf(AcceptAll(), TOP_HEAVY, [Confirmation([0], 1, 3, [], [], [])], [], SHARED_CERTIFICATE)
    ensures Collected(AcceptAll(), TOP_HEAVY, SHARED_REQUEST, run, [], SHARED_CERTIFICATE)
  {
    hide Usable, CertificateOf, ValidRun, QuorumConfirmed;
  }

  lemma FourShards()
    ensures ExactlyOnce([0, 1, 2, 3], 4)
  {
  }

  lemma TopHeavyValidated()
    ensures Validated(TOP_HEAVY)
  {
    var entries := Entries(TOP_HEAVY.members);
    assert entries == [Entry([0], [0, 1, 2]), Entry([0], [3])];
    assert entries[1..] == [Entry([0], [3])] && entries[1..][1..] == [];
    assert Claimed(entries[1..]) == [3] + Claimed([]) == [3];
    assert Claimed(entries) == [0, 1, 2] + [3] == [0, 1, 2, 3];
    FourShards();
    hide Claimed, ExactlyOnce;
  }

  lemma SharedConfirmed()
    ensures Gather(AllCompleted(AllTasks(2)), Recorder(SHARED_REQUEST)) == [Confirmation([0], 1, 3, [], [], [])]
  {
    var log := AllCompleted(AllTasks(2));
    assert log[..1][..0] == [] && log[..1][0] == Completed(0) && log[1] == Completed(1);
    assert log[..1] != [];
    assert Gather(log[..1], Recorder(SHARED_REQUEST)) == [] + Recorded(SHARED_REQUEST, Completed(0));
  }

  lemma SharedCertified()
    ensures SoundBls(AcceptAll())
    ensures CertificateOf(AcceptAll(), TOP_HEAVY, [Confirmation([0], 1, 3, [], [], [])], [], SHARED_CERTIFICATE)
  {
    SharedAccepted();
    SharedStands();
    hide Refusal, Certifies;
    var kept := [Confirmation([0], 1, 3, [], [], [])];
    assert Retained(AcceptAll(), kept, []) == kept;
  }

  lemma SharedAccepted()
    ensures SoundBls(AcceptAll())
    ensures Refusal(AcceptAll(), [Confirmation([0], 1, 3, [], [], [])], 2, 4, Some([])).None?
  {
    var kept := [Confirmation([0], 1, 3, [], [], [])];
    assert AggregateVerifies(AcceptAll(), PublicKeys(kept), Signatures(kept), []);
    assert kept[..0] == [] && Weight(kept) == Weight(kept[..0]) + 3;
  }

  lemma SharedStands()
    ensures Certifies(AcceptAll(), [Confirmation([0], 1, 3, [], [], [])], 2, 4, [], SHARED_CERTIFICATE)
  {
    var confirmation := Confirmation([0], 1, 3, [], [], []);
    var kept := [confirmation];
    assert kept[..0] == [] && Weight(kept) == Weight(kept[..0]) + 3;
    assert confirmation in kept && Positions(kept) == {1};
    SecondMarked();
    SecondDigit();
    hide UnpackSignersBitmap, Digits;
  }

  lemma SecondDigit()
    ensures Digits([2], [1])
  {
    forall p: nat | p < 8 ensures HasBit([2][p / 8], p % 8) <==> p in [1] {
      assert p / 8 == 0 && p % 8 == p;
    }
    MarkedDigits([2], [1]);
  }

  lemma SecondMarked()
    ensures UnpackSignersBitmap([2], 2) == Ok([1])
  {
    AscendingDetermined(MarkedBelow([2], 2), [1]);
  }
}
