/** Which invalid signatures a collection of confirmations tolerates. The wait counts the weight that is
    confirmed, and only the certificate tells the valid signatures from the others. */
module Tolerance {
  import opened Common
  import opened Certification
  import opened Committee
  import opened FanOut
  import opened Confirm
  import RedStuff
  import Upload

  // ----- Who confirms, and how -----

  predicate ConfirmsAt(request: Request, t: nat) {
    t < |request.candidates| && t < |request.replies| && request.replies[t].Confirmed?
  }

  predicate GenuineAt(bls: Bls, request: Request, expected: Bytes, t: nat) {
    && ConfirmsAt(request, t) && request.candidates[t] < |request.members|
    && bls.verify(request.members[request.candidates[t]].publicKey, request.replies[t].signed.signature, expected)
       == Some(true)
  }

  // The members asked that confirm, by their positions: under a signature that verifies, or not.
  ghost function Confirmers(request: Request): set<int> {
    set t | 0 <= t < |request.candidates| && ConfirmsAt(request, t) :: request.candidates[t]
  }

  ghost function Genuine(bls: Bls, request: Request, expected: Bytes): set<int> {
    set t | 0 <= t < |request.candidates| && GenuineAt(bls, request, expected, t) :: request.candidates[t]
  }

  ghost function Invalid(bls: Bls, request: Request, expected: Bytes): set<int> {
    set t | 0 <= t < |request.candidates| && ConfirmsAt(request, t) && !GenuineAt(bls, request, expected, t)
      :: request.candidates[t]
  }

  ghost predicate Agreed(request: Request, expected: Bytes) {
    forall t: nat :: ConfirmsAt(request, t) ==> request.replies[t].signed.message == expected
  }

  // Confirmers hold a quorum, and the weight of the invalid ones completes no quorum that lacks it: there
  // are no genuine confirmers that fall short of a quorum by no more than it.
  ghost predicate Tolerates(bls: Bls, request: Request, nShards: int, expected: Bytes) {
    && Agreed(request, expected)
    && IsQuorum(SignerWeight(request.members, Confirmers(request)), nShards)
    && forall signers: set<int> ::
         (signers <= Genuine(bls, request, expected)
          && IsQuorum(SignerWeight(request.members, signers)
                      + SignerWeight(request.members, Invalid(bls, request, expected)), nShards)) ==>
           IsQuorum(SignerWeight(request.members, signers), nShards)
  }

  // Every run of the collection ends in a certificate.
  ghost predicate AlwaysCertified(bls: Bls, committee: Committee, request: Request, expected: Bytes)
    requires WellFormed(request)
  {
    forall run: Run, r: Result<Certificate, CollectError> :: Comes(bls, committee, request, run, expected, r) ==> r.Ok?
  }

  // A request to members of this committee that have distinct identifiers, none of them asked twice.
  ghost predicate Proper(committee: Committee, request: Request) {
    && WellFormed(request) && request.members == committee.members && committee.nShards >= 0
    && DistinctIds(request.members) && DistinctCandidates(request.members, request.candidates)
  }

  // An aggregate verifies only if each signature in it does.
  ghost predicate StrictBls(bls: Bls) {
    forall keys, signatures, message :: (|keys| == |signatures| > 0 && AggregateVerifies(bls, keys, signatures, message)) ==>
      AllVerify(bls, keys, signatures, message)
  }

  // ----- The positions a selection of the tasks confirms -----

  lemma SelectedPositions(bls: Bls, request: Request, ts: seq<nat>, expected: Bytes, p: int)
    requires WellFormed(request) && DistinctIds(request.members)
    ensures var usable := Gather(AllCompleted(ts), Recorder(request));
            && (p in Positions(usable) <==> exists t :: t in ts && ConfirmsAt(request, t) && request.candidates[t] == p)
            && (p in Positions(Good(bls, usable, expected)) <==>
                  exists t :: t in ts && GenuineAt(bls, request, expected, t) && request.candidates[t] == p)
  {
    var usable := Gather(AllCompleted(ts), Recorder(request));
    forall c | c in usable
      ensures exists t :: t in ts && FromTask(request, c, t) && c.position == request.candidates[t]
    {
      var t := UsableOrigin(request, ts, c);
      FoundAtOwnPosition(request.members, request.candidates[t]);
    }
    forall t | t in ts && ConfirmsAt(request, t)
      ensures exists c :: c in usable && FromTask(request, c, t) && c.position == request.candidates[t]
    {
      UsableHas(request, ts, t);
      FoundAtOwnPosition(request.members, request.candidates[t]);
      assert FromTask(request, ConfirmationOf(request.members, request.candidates[t], request.replies[t].signed), t);
    }
  }

  // The selected confirmations weigh what the members at their positions do, and so do the good ones of them.
  lemma SelectedWeight(bls: Bls, committee: Committee, request: Request, ts: seq<nat>, expected: Bytes)
    requires Proper(committee, request) && AtMostOnce(ts)
    ensures var usable := Gather(AllCompleted(ts), Recorder(request));
            && DistinctPositions(usable)
            && Weight(usable) == SignerWeight(request.members, Positions(usable))
            && Weight(Good(bls, usable, expected)) == SignerWeight(request.members, Positions(Good(bls, usable, expected)))
  {
    var usable := Gather(AllCompleted(ts), Recorder(request));
    UsableDistinct(request, ts);
    DistinctWeighed(request.members, request.candidates);
    UsablePlaced(request, ts);
    GoodDistinct(bls, usable, expected);
    assert Placed(request.members, Good(bls, usable, expected));
    hide Good, Placed, Positions, Gather, Recorder, DistinctPositions;
    ConfirmedWeight(request.members, usable);
    ConfirmedWeight(request.members, Good(bls, usable, expected));
  }

  lemma {:induction false} WeightGrows(members: seq<Member>, a: set<int>, b: set<int>)
    requires a <= b
    ensures SignerWeight(members, a) <= SignerWeight(members, b)
  {
    if members != [] {
      WeightGrows(members[..|members| - 1], a, b);
    }
  }

  // Either the wait stopped at a quorum, or everyone was heard.
  lemma QuorumDelivered(request: Request, run: Run, nShards: int)
    requires WellFormed(request) && DistinctIds(request.members) && DistinctCandidates(request.members, request.candidates)
    requires ValidRun(run, |request.candidates|, QuorumConfirmed(request, MinWeightForQuorum(nShards)))
    requires IsQuorum(SignerWeight(request.members, Confirmers(request)), nShards)
    ensures IsQuorum(Weight(Usable(request, run)), nShards)
  {
    var shouldStop := QuorumConfirmed(request, MinWeightForQuorum(nShards));
    if shouldStop(MainLog(run)) {
      var weight := Weight(Gather(MainLog(run), Recorder(request)));
      assert weight >= MinWeightForQuorum(nShards);
      hide *;
      GraceAdds(request, run);
      Thresholds(weight, nShards);
      Thresholds(Weight(Usable(request, run)), nShards);
    } else {
      EveryoneHeard(request, run, shouldStop);
    }
  }

  lemma GraceAdds(request: Request, run: Run)
    requires WellFormed(request)
    ensures Weight(Usable(request, run)) >= Weight(Gather(MainLog(run), Recorder(request)))
  {
    assert AllCompleted(Delivered(run)) == MainLog(run) + AllCompleted(run.grace);
    GatherConcat(MainLog(run), AllCompleted(run.grace), Recorder(request));
    WeightsNotNegative(request, run.grace);
    WeightConcat(Gather(MainLog(run), Recorder(request)), Gather(AllCompleted(run.grace), Recorder(request)));
  }

  lemma WeightsNotNegative(request: Request, ts: seq<nat>)
    requires WellFormed(request)
    ensures forall c :: c in Gather(AllCompleted(ts), Recorder(request)) ==> c.weight >= 0
  {
    forall c | c in Gather(AllCompleted(ts), Recorder(request)) ensures c.weight >= 0 {
      var t := UsableOrigin(request, ts, c);
    }
  }

  lemma {:induction false} WeightConcat(a: seq<Confirmation>, b: seq<Confirmation>)
    requires forall c :: c in b ==> c.weight >= 0
    ensures Weight(a + b) >= Weight(a)
    decreases |b|
  {
    if b == [] {
      assert a + b == a;
    } else {
      var n := |b| - 1;
      assert (a + b)[..|a + b| - 1] == a + b[..n] && b[n] in b;
      WeightConcat(a, b[..n]);
    }
  }

  lemma EveryoneHeard(request: Request, run: Run, shouldStop: seq<Report> -> bool)
    requires WellFormed(request) && DistinctIds(request.members) && DistinctCandidates(request.members, request.candidates)
    requires ValidRun(run, |request.candidates|, shouldStop) && !shouldStop(MainLog(run))
    ensures Weight(Usable(request, run)) == SignerWeight(request.members, Confirmers(request))
  {
    var usable := Usable(request, run);
    RunTasks(run, |request.candidates|);
    UsableDistinct(request, Delivered(run));
    DistinctWeighed(request.members, request.candidates);
    UsablePlaced(request, Delivered(run));
    ConfirmedWeight(request.members, usable);
    forall p ensures p in Positions(usable) <==> p in Confirmers(request) {
      if p in Positions(usable) {
        var c :| c in usable && c.position == p;
        var t := UsableOrigin(request, Delivered(run), c);
        FoundAtOwnPosition(request.members, request.candidates[t]);
      }
      if p in Confirmers(request) {
        var k :| 0 <= k < |request.candidates| && request.replies[k].Confirmed? && request.candidates[k] == p;
        NoThresholdCompletesAll(run, |request.candidates|, shouldStop, true, k);
        CompletedMember(Flatten(run.batches), k);
        UsableHas(request, Delivered(run), k);
        FoundAtOwnPosition(request.members, request.candidates[k]);
      }
    }
    assert Positions(usable) == Confirmers(request);
  }

  // ----- What is tolerated is certified -----

  lemma Concluded(bls: Bls, committee: Committee, request: Request, run: Run, expected: Bytes,
                  r: Result<Certificate, CollectError>)
    requires WellFormed(request) && Comes(bls, committee, request, run, expected, r) && Usable(request, run) != []
    requires Refusal(bls, Usable(request, run), |committee.members|, committee.nShards, Some(expected)).None?
    ensures r.Ok?
  {
    hide Refusal, Usable, CertificateOf, ValidRun;
    if r.Err? {
      match r.error {
        case Interrupted =>
        case CandidateIndex =>
        case NothingUsable =>
        case NotCertified(_) =>
      }
    }
  }

  /** What a collection tolerates costs it nothing: every run ends in a certificate, whichever
      confirmations come in and whichever members it cancels. */
  lemma ToleratedCertified(bls: Bls, committee: Committee, request: Request, run: Run, expected: Bytes,
                           r: Result<Certificate, CollectError>)
    requires SoundBls(bls) && Proper(committee, request)
    requires Tolerates(bls, request, committee.nShards, expected) && Comes(bls, committee, request, run, expected, r)
    ensures r.Ok?
  {
    var ts, usable := Delivered(run), Usable(request, run);
    RunTasks(run, |request.candidates|);
    QuorumDelivered(request, run, committee.nShards);
    SelectedWeight(bls, committee, request, ts, expected);
    UsableOrderly(committee, request, ts, expected);
    hide *;
    GoodIsQuorum(bls, request, ts, usable, committee.nShards, expected);
    PassesGood(bls, usable, |committee.members|, committee.nShards, expected);
    Concluded(bls, committee, request, run, expected, r);
  }

  lemma PassesGood(bls: Bls, confirmations: seq<Confirmation>, size: int, nShards: int, expected: Bytes)
    requires SoundBls(bls) && nShards >= 0 && Orderly(confirmations, size, expected)
    requires IsQuorum(Weight(Good(bls, confirmations, expected)), nShards)
    ensures confirmations != [] && Refusal(bls, confirmations, size, nShards, Some(expected)).None?
  {
    CountNone();
    hide Refusal, Weight, SoundBls, Orderly;
    BadSignersExcluded(bls, confirmations, size, nShards, Some(expected));
  }

  lemma UsableOrderly(committee: Committee, request: Request, ts: seq<nat>, expected: Bytes)
    requires Proper(committee, request) && Agreed(request, expected) && AtMostOnce(ts)
    ensures Orderly(Gather(AllCompleted(ts), Recorder(request)), |committee.members|, expected)
  {
    UsableDistinct(request, ts);
    hide DistinctPositions;
    forall c | c in Gather(AllCompleted(ts), Recorder(request))
      ensures 0 <= c.position < |committee.members| && c.weight >= 0 && c.message == expected
    {
      var t := UsableOrigin(request, ts, c);
      FoundAtOwnPosition(request.members, request.candidates[t]);
      assert ConfirmsAt(request, t);
    }
  }

  // A quorum of what was confirmed is one of what is genuine in it.
  lemma GoodIsQuorum(bls: Bls, request: Request, ts: seq<nat>, usable: seq<Confirmation>, nShards: int, expected: Bytes)
    requires WellFormed(request) && DistinctIds(request.members) && Tolerates(bls, request, nShards, expected)
    requires usable == Gather(AllCompleted(ts), Recorder(request)) && IsQuorum(Weight(usable), nShards)
    requires forall t :: t in ts ==> t < |request.candidates|
    requires Weight(usable) == SignerWeight(request.members, Positions(usable))
    requires Weight(Good(bls, usable, expected)) == SignerWeight(request.members, Positions(Good(bls, usable, expected)))
    ensures IsQuorum(Weight(Good(bls, usable, expected)), nShards)
  {
    var good, invalid := Positions(Good(bls, usable, expected)), Invalid(bls, request, expected);
    forall p ensures p in Positions(usable) ==> p in good + invalid
             ensures p in good ==> p in Genuine(bls, request, expected)
    {
      SelectedPositions(bls, request, ts, expected, p);
    }
    hide Good, Positions, Weight, Invalid, Genuine, Gather;
    WeightGrows(request.members, Positions(usable), good + invalid);
    WeightsAddUp(request.members, good, invalid);
    assert good <= Genuine(bls, request, expected);
  }

  // ----- What is not tolerated fails in some run -----

  // The run that delivers this selection first and then stops.
  lemma SomeRunFails(bls: Bls, committee: Committee, request: Request, run: Run, expected: Bytes)
    requires WellFormed(request)
    requires ValidRun(run, |request.candidates|, QuorumConfirmed(request, MinWeightForQuorum(committee.nShards)))
    requires Usable(request, run) == []
             || Refusal(bls, Usable(request, run), |committee.members|, committee.nShards, Some(expected)).Some?
    ensures !AlwaysCertified(bls, committee, request, expected)
  {
    hide Usable, Refusal, ValidRun, QuorumConfirmed, MinWeightForQuorum;
    var r: Result<Certificate, CollectError> :=
      if Usable(request, run) == [] then Err(NothingUsable)
      else Err(NotCertified(Refusal(bls, Usable(request, run), |committee.members|, committee.nShards, Some(expected)).value));
    assert Comes(bls, committee, request, run, expected, r) && !r.Ok?;
  }

  // One run in which everyone is heard.
  lemma RunOfAll(request: Request, required: int) returns (run: Run)
    requires WellFormed(request)
    ensures ValidRun(run, |request.candidates|, QuorumConfirmed(request, required))
    ensures Delivered(run) == AllTasks(|request.candidates|)
  {
    if |request.candidates| == 0 {
      run := Run([], [], []);
      assert EachOnce(Tasks(run), 0);
    } else {
      run := Run([AllTasks(|request.candidates|)], [], []);
      OneBatchRun(|request.candidates|, QuorumConfirmed(request, required));
    }
  }

  lemma ForeignMessageFails(bls: Bls, committee: Committee, request: Request, expected: Bytes, t: nat)
    requires WellFormed(request) && ConfirmsAt(request, t) && request.replies[t].signed.message != expected
    ensures !AlwaysCertified(bls, committee, request, expected)
  {
    var run := RunOfAll(request, MinWeightForQuorum(committee.nShards));
    var usable := Usable(request, run);
    assert AllTasks(|request.candidates|)[t] == t;
    UsableHas(request, Delivered(run), t);
    assert Disagree(usable, expected);
    hide ValidRun, QuorumConfirmed, Usable, Disagree, Gather, AlwaysCertified, AllTasks;
    SomeRunFails(bls, committee, request, run, expected);
  }

  // Without a quorum in what is retained nothing is certified.
  lemma LightRefused(bls: Bls, confirmations: seq<Confirmation>, size: int, nShards: int, expected: Bytes)
    requires !IsQuorum(Weight(Retained(bls, confirmations, expected)), nShards)
    ensures Refusal(bls, confirmations, size, nShards, Some(expected)).Some?
  {
    hide Retained, Weight, AggregateVerifies, Disagree, DistinctPositions, SomeOutside;
  }

  lemma RetainedWeighsLess(bls: Bls, request: Request, ts: seq<nat>, message: Bytes)
    requires WellFormed(request)
    ensures var usable := Gather(AllCompleted(ts), Recorder(request));
            Weight(Retained(bls, usable, message)) <= Weight(usable)
  {
    WeightsNotNegative(request, ts);
    hide Good, Gather, Weight;
    GoodWeighsLess(bls, Gather(AllCompleted(ts), Recorder(request)), message);
  }

  lemma BelowQuorumFails(bls: Bls, committee: Committee, request: Request, expected: Bytes)
    requires Proper(committee, request)
    requires !IsQuorum(SignerWeight(request.members, Confirmers(request)), committee.nShards)
    ensures !AlwaysCertified(bls, committee, request, expected)
  {
    var run := RunOfAll(request, MinWeightForQuorum(committee.nShards));
    var ts, usable := Delivered(run), Usable(request, run);
    RunTasks(run, |request.candidates|);
    SelectedWeight(bls, committee, request, ts, expected);
    RetainedWeighsLess(bls, request, ts, expected);
    forall p ensures p in Positions(usable) ==> p in Confirmers(request) {
      SelectedPositions(bls, request, ts, expected, p);
    }
    hide *;
    WeightGrows(request.members, Positions(usable), Confirmers(request));
    LightRefused(bls, usable, |committee.members|, committee.nShards, expected);
    SomeRunFails(bls, committee, request, run, expected);
  }

  lemma {:induction false} SetToSelection(s: set<nat>, n: nat) returns (ts: seq<nat>)
    requires forall t :: t in s ==> t < n
    ensures Selection(ts, n) && forall t :: t in ts <==> t in s
  {
    ts := [];
    if n > 0 {
      var rest := SetToSelection(s - {n - 1}, n - 1);
      ts := if n - 1 in s then rest + [n - 1] else rest;
      assert forall i :: 0 <= i < |rest| ==> rest[i] in rest;
    }
  }

  // The tasks of these genuine confirmers and of all the invalid ones.
  ghost function Mixture(bls: Bls, request: Request, expected: Bytes, signers: set<int>): set<nat> {
    set t: nat | t < |request.candidates| && ConfirmsAt(request, t)
                 && (GenuineAt(bls, request, expected, t) ==> request.candidates[t] in signers)
  }

  lemma OnceAsked(committee: Committee, request: Request, t: nat, u: nat)
    requires Proper(committee, request) && t < |request.candidates| && u < |request.candidates|
    requires request.candidates[t] == request.candidates[u]
    ensures t == u
  {
  }

  lemma MixturePositions(bls: Bls, committee: Committee, request: Request, expected: Bytes, signers: set<int>, ts: seq<nat>)
    requires Proper(committee, request) && signers <= Genuine(bls, request, expected)
    requires forall t :: t in ts <==> t in Mixture(bls, request, expected, signers)
    ensures var usable := Gather(AllCompleted(ts), Recorder(request));
            && Positions(usable) == signers + Invalid(bls, request, expected)
            && Positions(Good(bls, usable, expected)) == signers
            && signers * Invalid(bls, request, expected) == {}
  {
    var usable, invalid := Gather(AllCompleted(ts), Recorder(request)), Invalid(bls, request, expected);
    forall p ensures p in Positions(usable) <==> p in signers + invalid
             ensures p in Positions(Good(bls, usable, expected)) <==> p in signers
             ensures !(p in signers && p in invalid)
    {
      SelectedPositions(bls, request, ts, expected, p);
      MixtureAt(bls, committee, request, expected, signers, p);
    }
  }

  lemma MixtureAt(bls: Bls, committee: Committee, request: Request, expected: Bytes, signers: set<int>, p: int)
    requires Proper(committee, request) && signers <= Genuine(bls, request, expected)
    ensures var mixture := Mixture(bls, request, expected, signers);
            && ((exists t :: t in mixture && ConfirmsAt(request, t) && request.candidates[t] == p)
                <==> p in signers || p in Invalid(bls, request, expected))
            && ((exists t :: t in mixture && GenuineAt(bls, request, expected, t) && request.candidates[t] == p)
                <==> p in signers)
            && !(p in signers && p in Invalid(bls, request, expected))
  {
    var mixture := Mixture(bls, request, expected, signers);
    if p in signers {
      var t: nat :| t < |request.candidates| && GenuineAt(bls, request, expected, t) && request.candidates[t] == p;
      assert t in mixture;
      forall u: nat | u < |request.candidates| && request.candidates[u] == p ensures GenuineAt(bls, request, expected, u) {
        OnceAsked(committee, request, t, u);
      }
    }
    if p in Invalid(bls, request, expected) {
      var t: nat :| t < |request.candidates| && ConfirmsAt(request, t) && !GenuineAt(bls, request, expected, t)
                    && request.candidates[t] == p;
      assert t in mixture;
    }
  }

  // With an invalid signature among them, a strict library leaves the aggregate out and only the good ones in.
  lemma StrictRetains(bls: Bls, confirmations: seq<Confirmation>, message: Bytes)
    requires StrictBls(bls) && Good(bls, confirmations, message) != confirmations
    ensures Retained(bls, confirmations, message) == Good(bls, confirmations, message)
  {
    if AggregateVerifies(bls, PublicKeys(confirmations), Signatures(confirmations), message) {
      assert AllVerify(bls, PublicKeys(confirmations), Signatures(confirmations), message);
      forall c | c in confirmations ensures bls.verify(c.publicKey, c.signature, message) == Some(true) {
        var i :| 0 <= i < |confirmations| && confirmations[i] == c;
        assert bls.verify(PublicKeys(confirmations)[i], Signatures(confirmations)[i], message) == Some(true);
      }
      AllGood(bls, confirmations, message);
      assert false;
    }
  }

  lemma {:induction false} AllGood(bls: Bls, confirmations: seq<Confirmation>, message: Bytes)
    requires forall c :: c in confirmations ==> bls.verify(c.publicKey, c.signature, message) == Some(true)
    ensures Good(bls, confirmations, message) == confirmations
    decreases |confirmations|
  {
    if confirmations != [] {
      AllGood(bls, confirmations[..|confirmations| - 1], message);
      assert confirmations[|confirmations| - 1] in confirmations;
    }
  }

  /** Genuine confirmers that fall short of a quorum, with invalid ones that make it up, end the wait before
      any other member is heard. */
  lemma InvalidWeightFails(bls: Bls, committee: Committee, request: Request, expected: Bytes, signers: set<int>)
    requires StrictBls(bls) && Proper(committee, request) && signers <= Genuine(bls, request, expected)
    requires !IsQuorum(SignerWeight(request.members, signers), committee.nShards)
    requires IsQuorum(SignerWeight(request.members, signers)
                      + SignerWeight(request.members, Invalid(bls, request, expected)), committee.nShards)
    ensures !AlwaysCertified(bls, committee, request, expected)
  {
    hide *;
    var ts := MixtureSelected(bls, committee, request, expected, signers);
    SomeProper(committee, request);
    SelectionFails(bls, committee, request, expected, ts);
  }

  lemma SomeProper(committee: Committee, request: Request)
    requires Proper(committee, request)
    ensures WellFormed(request) && committee.nShards >= 0
  {
  }

  lemma MixtureSelected(bls: Bls, committee: Committee, request: Request, expected: Bytes, signers: set<int>)
    returns (ts: seq<nat>)
    requires Proper(committee, request) && signers <= Genuine(bls, request, expected)
    ensures Selection(ts, |request.candidates|)
    ensures var usable := Gather(AllCompleted(ts), Recorder(request));
            && Weight(usable)
               == SignerWeight(request.members, signers) + SignerWeight(request.members, Invalid(bls, request, expected))
            && Weight(Good(bls, usable, expected)) == SignerWeight(request.members, signers)
  {
    ts := SetToSelection(Mixture(bls, request, expected, signers), |request.candidates|);
    hide *;
    MixturePositions(bls, committee, request, expected, signers, ts);
    SelectionOnce(ts, |request.candidates|);
    SelectedWeight(bls, committee, request, ts, expected);
    MixtureWeight(request, signers, Invalid(bls, request, expected));
  }

  lemma SelectionOnce(ts: seq<nat>, n: nat)
    requires Selection(ts, n)
    ensures AtMostOnce(ts)
  {
  }

  // A selection that is a quorum, of which the good ones are none, is what some run delivers and stops at.
  lemma SelectionFails(bls: Bls, committee: Committee, request: Request, expected: Bytes, ts: seq<nat>)
    requires StrictBls(bls) && WellFormed(request) && committee.nShards >= 0 && Selection(ts, |request.candidates|)
    requires var usable := Gather(AllCompleted(ts), Recorder(request));
             && IsQuorum(Weight(usable), committee.nShards)
             && !IsQuorum(Weight(Good(bls, usable, expected)), committee.nShards)
    ensures !AlwaysCertified(bls, committee, request, expected)
  {
    var usable := Gather(AllCompleted(ts), Recorder(request));
    var required := MinWeightForQuorum(committee.nShards);
    hide Gather, Weight, Good, Selection, MinWeightForQuorum, QuorumConfirmed, ValidRun;
    QuorumReached(request, ts, committee.nShards);
    var run := SelectionIsDelivered(ts, |request.candidates|, QuorumConfirmed(request, required));
    assert usable == Usable(request, run);
    hide *;
    HeavierThanGood(bls, usable, committee.nShards, expected);
    StrictRetains(bls, usable, expected);
    LightRefused(bls, usable, |committee.members|, committee.nShards, expected);
    SomeRunFails(bls, committee, request, run, expected);
  }

  lemma HeavierThanGood(bls: Bls, confirmations: seq<Confirmation>, nShards: int, expected: Bytes)
    requires IsQuorum(Weight(confirmations), nShards) && !IsQuorum(Weight(Good(bls, confirmations, expected)), nShards)
    ensures Good(bls, confirmations, expected) != confirmations
  {
  }

  lemma MixtureWeight(request: Request, signers: set<int>, invalid: set<int>)
    requires signers * invalid == {}
    ensures SignerWeight(request.members, signers + invalid)
         == SignerWeight(request.members, signers) + SignerWeight(request.members, invalid)
  {
    WeightsAddUp(request.members, signers, invalid);
    Upload.OneSigner(request.members, 0);
  }

  lemma QuorumReached(request: Request, ts: seq<nat>, nShards: int)
    requires nShards >= 0 && IsQuorum(Weight(Gather(AllCompleted(ts), Recorder(request))), nShards)
    ensures ts != [] && QuorumConfirmed(request, MinWeightForQuorum(nShards))(AllCompleted(ts))
  {
    Thresholds(Weight(Gather(AllCompleted(ts), Recorder(request))), nShards);
    CountNone();
    assert ts == [] ==> AllCompleted(ts) == [];
  }

  /** Every run of a collection ends in a certificate, whatever signatures are invalid, exactly when those
      that confirm agree on the message and hold a quorum, and no genuine ones among them fall short of a
      quorum by no more than the weight of the invalid ones. */
  lemma CertifiedIff(bls: Bls, committee: Committee, request: Request, expected: Bytes)
    requires SoundBls(bls) && StrictBls(bls) && Proper(committee, request)
    ensures AlwaysCertified(bls, committee, request, expected)
       <==> Tolerates(bls, request, committee.nShards, expected)
  {
    if Tolerates(bls, request, committee.nShards, expected) {
      hide *;
      CertifiedAlways(bls, committee, request, expected);
    } else if !Agreed(request, expected) {
      var t: nat :| ConfirmsAt(request, t) && request.replies[t].signed.message != expected;
      hide *;
      ForeignMessageFails(bls, committee, request, expected, t);
    } else if !IsQuorum(SignerWeight(request.members, Confirmers(request)), committee.nShards) {
      hide *;
      BelowQuorumFails(bls, committee, request, expected);
    } else {
      var signers: set<int> :|
        signers <= Genuine(bls, request, expected)
        && IsQuorum(SignerWeight(request.members, signers)
                    + SignerWeight(request.members, Invalid(bls, request, expected)), committee.nShards)
        && !IsQuorum(SignerWeight(request.members, signers), committee.nShards);
      hide *;
      InvalidWeightFails(bls, committee, request, expected, signers);
    }
  }

  lemma CertifiedAlways(bls: Bls, committee: Committee, request: Request, expected: Bytes)
    requires SoundBls(bls) && Proper(committee, request) && Tolerates(bls, request, committee.nShards, expected)
    ensures AlwaysCertified(bls, committee, request, expected)
  {
    forall run: Run, r: Result<Certificate, CollectError> | Comes(bls, committee, request, run, expected, r) ensures r.Ok? {
      ToleratedCertified(bls, committee, request, run, expected, r);
    }
  }

  /** In particular when those that confirm do so genuinely and hold a quorum. */
  lemma GenuineCertified(bls: Bls, committee: Committee, request: Request, expected: Bytes)
    requires SoundBls(bls) && Proper(committee, request) && Agreed(request, expected)
    requires Invalid(bls, request, expected) == {}
    requires IsQuorum(SignerWeight(request.members, Confirmers(request)), committee.nShards)
    ensures AlwaysCertified(bls, committee, request, expected)
  {
    Upload.OneSigner(request.members, 0);
    hide SignerWeight, Proper, Agreed, SoundBls, AlwaysCertified, Genuine, Invalid;
    CertifiedAlways(bls, committee, request, expected);
  }

  // ----- One invalid signature -----

  // Three members of a committee of four shards: the first signs nothing valid, the others hold a quorum.
  const MIXED := Committee(0, 4, [Member([0], [0], [], []), Member([1], [1, 2], [], []), Member([2], [3], [], [])])

  const MIXED_REQUEST :=
    Request(MIXED.members, [0, 1, 2], [Confirmed(Signed([], [])), Confirmed(Signed([], [1])), Confirmed(Signed([], [1]))])

  predicate NoneEmpty(signatures: seq<Bytes>) { forall i :: 0 <= i < |signatures| ==> signatures[i] != [] }

  // A library for which every signature but the empty one is valid.
  function NonEmptyIsValid(): Bls {
    Bls(signatures => Some(if NoneEmpty(signatures) then [1] else []), (aggregate, _, _) => Some(aggregate != []),
        (_, signature, _) => Some(signature != []))
  }

  lemma NonEmptyFaithful()
    ensures SoundBls(NonEmptyIsValid()) && StrictBls(NonEmptyIsValid())
  {
  }

  /** One faulty member, within what the committee tolerates, can make the collection fail although the
      others hold a quorum: its unverified weight ends the wait, and an honest member whose signature would
      have completed the quorum is cancelled. */
  lemma InvalidSignatureEndsWait()
    ensures Validated(MIXED) && Proper(MIXED, MIXED_REQUEST)
    ensures SoundBls(NonEmptyIsValid()) && StrictBls(NonEmptyIsValid())
    ensures |MIXED.members[0].shards| <= RedStuff.MaxNFaulty(MIXED.nShards)
    ensures {1, 2} <= Genuine(NonEmptyIsValid(), MIXED_REQUEST, [])
    ensures IsQuorum(SignerWeight(MIXED.members, {1, 2}), MIXED.nShards)
    ensures !AlwaysCertified(NonEmptyIsValid(), MIXED, MIXED_REQUEST, [])
  {
    MixedValidated();
    MixedPlain();
    MixedWeight();
    MixedSigners();
    NonEmptyFaithful();
    hide *;
    InvalidWeightFails(NonEmptyIsValid(), MIXED, MIXED_REQUEST, [], {1});
  }

  lemma MixedSigners()
    ensures {1, 2} <= Genuine(NonEmptyIsValid(), MIXED_REQUEST, [])
    ensures Invalid(NonEmptyIsValid(), MIXED_REQUEST, []) == {0}
  {
    var bls := NonEmptyIsValid();
    assert ConfirmsAt(MIXED_REQUEST, 0) && !GenuineAt(bls, MIXED_REQUEST, [], 0);
    assert GenuineAt(bls, MIXED_REQUEST, [], 1) && GenuineAt(bls, MIXED_REQUEST, [], 2);
    assert MIXED_REQUEST.candidates[1] == 1 && MIXED_REQUEST.candidates[2] == 2;
  }

  lemma MixedValidated()
    ensures Validated(MIXED)
  {
    var entries := Entries(MIXED.members);
    var rest := entries[1..];
    assert entries == [Entry([0], [0]), Entry([1], [1, 2]), Entry([2], [3])];
    assert rest == [Entry([1], [1, 2]), Entry([2], [3])] && rest[1..] == [Entry([2], [3])] && rest[1..][1..] == [];
    assert Claimed(rest[1..]) == [3] + Claimed([]) == [3];
    assert Claimed(rest) == [1, 2] + [3] == [1, 2, 3];
    assert Claimed(entries) == [0] + [1, 2, 3] == [0, 1, 2, 3];
    FourShards();
    hide Claimed, ExactlyOnce;
  }

  lemma MixedPlain()
    ensures Proper(MIXED, MIXED_REQUEST)
    ensures |MIXED.members[0].shards| <= RedStuff.MaxNFaulty(MIXED.nShards)
  {
  }

  lemma MixedWeight()
    ensures IsQuorum(SignerWeight(MIXED.members, {1, 2}), MIXED.nShards)
    ensures !IsQuorum(SignerWeight(MIXED.members, {1}), MIXED.nShards)
    ensures IsQuorum(SignerWeight(MIXED.members, {1}) + SignerWeight(MIXED.members, {0}), MIXED.nShards)
  {
    WeightsAddUp(MIXED.members, {1}, {2});
    Upload.OneSigner(MIXED.members, 0);
    Upload.OneSigner(MIXED.members, 1);
    Upload.OneSigner(MIXED.members, 2);
    assert {1} * {2} == {} && {1} + {2} == {1, 2};
    hide SignerWeight;
  }
}
