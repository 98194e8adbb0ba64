/** When the one round of recovery of a read is enough: what honest nodes that hold enough slivers
    guarantee, and exactly which forgeries they do not outweigh. */
module Recovery {
  import opened Common
  import opened Committee
  import opened FanOut
  import opened Read

  // ----- What the nodes supply -----

  // The nodes asked supply this many slivers of different contents.
  ghost predicate Supply(members: seq<Member>, excluded: set<Text>, answers: nat -> NodeAnswer, threshold: int) {
    exists held: seq<Attributed> :: HonestlyAttributed(members, excluded, answers, held) && |held| >= threshold
  }

  // What a failed fetch counted is all there was.
  lemma SupplyIsCounted(members: seq<Member>, excluded: set<Text>, answers: nat -> NodeAnswer, threshold: int, count: nat)
    requires Supply(members, excluded, answers, threshold) && Shortfall(members, excluded, answers, count)
    ensures count >= threshold
  {
    var held: seq<Attributed> :| HonestlyAttributed(members, excluded, answers, held) && |held| >= threshold;
    var collected :| HonestlyAttributed(members, excluded, answers, collected)
                     && Exhaustive(members, excluded, answers, collected) && |collected| == count;
    SliversCounted(held);
    SliversCounted(collected);
    forall x | x in held ensures x.sliver in SliverSet(collected) {
      assert Served(members, excluded, answers, x.sliver, x.nodeId);
      assert Has(collected, x.sliver);
    }
    assert SliverSet(collected) == SliverSet(held) + (SliverSet(collected) - SliverSet(held));
  }

  // Honest nodes that together supply enough different slivers.
  ghost predicate HonestSupply(members: seq<Member>, honest: set<Text>, answers: nat -> NodeAnswer, threshold: int) {
    exists held: seq<Attributed> ::
      && HonestlyAttributed(members, {}, answers, held) && |held| >= threshold
      && forall x :: x in held ==> x.nodeId in honest
  }

  // What honest nodes serve verifies.
  ghost predicate HonestServeGood(verifies: Bytes -> bool, members: seq<Member>, honest: set<Text>,
                                  answers: nat -> NodeAnswer)
  {
    forall sliver, nodeId :: nodeId in honest && Served(members, {}, answers, sliver, nodeId) ==> verifies(sliver)
  }

  lemma HonestNotIndicted(verifies: Bytes -> bool, members: seq<Member>, honest: set<Text>, answers: nat -> NodeAnswer,
                          batch: seq<Attributed>)
    requires HonestServeGood(verifies, members, honest, answers) && HonestlyAttributed(members, {}, answers, batch)
    ensures Indicted(batch, verifies) !! honest
  {
    forall nodeId | nodeId in Indicted(batch, verifies) ensures nodeId !in honest {
      var x :| x in batch && !verifies(x.sliver) && x.nodeId == nodeId;
      assert Served(members, {}, answers, x.sliver, x.nodeId);
    }
  }

  // A node outside the excluded serves what it serves when nobody is.
  lemma ServedUnexcluded(members: seq<Member>, excluded: set<Text>, answers: nat -> NodeAnswer, sliver: Bytes, nodeId: Text)
    ensures Served(members, excluded, answers, sliver, nodeId)
       <==> nodeId !in excluded && Served(members, {}, answers, sliver, nodeId)
  {
    forall p: nat
      ensures p in Queried(members, excluded)
         <==> p in Queried(members, {}) && p < |members| && members[p].nodeId !in excluded
    {
      QueriedExact(members, {}, p);
      QueriedExact(members, excluded, p);
    }
  }

  lemma StillSupply(members: seq<Member>, honest: set<Text>, excluded: set<Text>, answers: nat -> NodeAnswer, threshold: int)
    requires excluded !! honest && HonestSupply(members, honest, answers, threshold)
    ensures Supply(members, excluded, answers, threshold)
  {
    var held: seq<Attributed> :| HonestlyAttributed(members, {}, answers, held) && |held| >= threshold
                                 && forall x :: x in held ==> x.nodeId in honest;
    forall x | x in held ensures Served(members, excluded, answers, x.sliver, x.nodeId) {
      ServedUnexcluded(members, excluded, answers, x.sliver, x.nodeId);
    }
    assert HonestlyAttributed(members, excluded, answers, held);
  }

  // ----- When a read returns the blob -----

  ghost predicate Returns(read: Read, blob: Bytes) { read.outcome.Ok? && read.outcome.value.0 == blob }

  /** A read that is not interrupted returns the blob when the nodes asked in each round it makes supply
      enough different slivers, and what it decodes in the end verifies. */
  lemma ReadAvailable(codec: Codec, blob: Bytes, members: seq<Member>, first: nat -> NodeAnswer, second: nat -> NodeAnswer,
                      threshold: int, read: Read)
    requires ValidRead(codec, members, first, second, threshold, read)
    requires read.outcome != Err(FetchFailed(Interrupted))
    requires Decodes(codec, blob, threshold) && Rederives(codec, blob)
    requires Supply(members, {}, first, threshold)
    requires read.fetches == 2 && read.batches != [] ==>
               Supply(members, Indicted(read.batches[0], codec.verifies), second, threshold)
    requires |read.batches| == 2 ==> AllVerify(codec, read.batches[1])
    ensures Returns(read, blob)
  {
    hide HonestlyAttributed, Recovered, Verified, Shortfall, Supply;
    if read.outcome == Err(Undecodable) {
      var n := |read.batches| - 1;
      assert read.batches[n] in read.batches;
      NoneIndicted(codec, read.batches[n]);
      VerifyingBatchDecodes(codec, blob, threshold, read.batches[n]);
      assert false;
    }
    if read.outcome.Err? {
      var excluded := if read.batches == [] then {} else Indicted(read.batches[0], codec.verifies);
      SupplyIsCounted(members, excluded, if read.batches == [] then first else second, threshold,
                      read.outcome.error.error.collected);
      assert false;
    }
  }

  // The same from what honest nodes supply: they are never indicted.
  lemma HonestReadAvailable(codec: Codec, blob: Bytes, members: seq<Member>, honest: set<Text>, first: nat -> NodeAnswer,
                            second: nat -> NodeAnswer, threshold: int, read: Read)
    requires ValidRead(codec, members, first, second, threshold, read)
    requires read.outcome != Err(FetchFailed(Interrupted))
    requires Decodes(codec, blob, threshold) && Rederives(codec, blob)
    requires HonestServeGood(codec.verifies, members, honest, first)
    requires HonestSupply(members, honest, first, threshold) && HonestSupply(members, honest, second, threshold)
    requires |read.batches| == 2 ==> AllVerify(codec, read.batches[1])
    ensures Returns(read, blob)
  {
    StillSupply(members, honest, {}, first, threshold);
    if read.batches != [] {
      HonestNotIndicted(codec.verifies, members, honest, first, read.batches[0]);
      StillSupply(members, honest, Indicted(read.batches[0], codec.verifies), second, threshold);
    }
    hide *;
    ReadAvailable(codec, blob, members, first, second, threshold, read);
  }

  // ----- Exactly when honest nodes are enough -----

  // A codec whose check of slivers is this one, and that is right about this blob.
  ghost predicate Right(codec: Codec, verifies: Bytes -> bool, blob: Bytes, threshold: int) {
    codec.verifies == verifies && Decodes(codec, blob, threshold) && Rederives(codec, blob)
  }

  // Every run of a read returns the blob, unless it is interrupted.
  ghost predicate AlwaysReads(verifies: Bytes -> bool, blob: Bytes, members: seq<Member>, first: nat -> NodeAnswer,
                              second: nat -> NodeAnswer, threshold: int)
  {
    forall codec: Codec, read: Read ::
      (Right(codec, verifies, blob, threshold) && RunRead(codec, members, first, second, threshold, read)
       && read.outcome != Err(FetchFailed(Interrupted))) ==> Returns(read, blob)
  }

  // First these nodes come in and leave too few slivers that verify; then, of the nodes not caught, those
  // come in, and one of them has forged too.
  ghost predicate ForgedBy(verifies: Bytes -> bool, members: seq<Member>, first: nat -> NodeAnswer,
                           second: nat -> NodeAnswer, threshold: int, ts: seq<nat>, again: seq<nat>)
  {
    var bad := Taken(members, {}, first, ts);
    var caught := Indicted(bad, verifies);
    var replaced := Taken(members, caught, second, again);
    && Selection(ts, |Queried(members, {})|) && |Verified(bad, verifies)| < threshold <= |bad|
    && Selection(again, |Queried(members, caught)|) && |replaced| >= threshold && Indicted(replaced, verifies) != {}
  }

  ghost predicate Forgeable(verifies: Bytes -> bool, members: seq<Member>, first: nat -> NodeAnswer,
                            second: nat -> NodeAnswer, threshold: int)
  {
    exists ts, again :: ForgedBy(verifies, members, first, second, threshold, ts, again)
  }

  /** Honest nodes that hold enough slivers are enough, over every run and every decoder that is right,
      exactly when the other nodes cannot forge twice: leave a first selection short of slivers that
      verify, and put a bad one into a second selection of those not caught. */
  lemma HonestReadIff(verifies: Bytes -> bool, blob: Bytes, members: seq<Member>, honest: set<Text>,
                      first: nat -> NodeAnswer, second: nat -> NodeAnswer, threshold: int)
    requires HonestServeGood(verifies, members, honest, first)
    requires HonestSupply(members, honest, first, threshold) && HonestSupply(members, honest, second, threshold)
    ensures AlwaysReads(verifies, blob, members, first, second, threshold)
       <==> !Forgeable(verifies, members, first, second, threshold)
  {
    hide *;
    if Forgeable(verifies, members, first, second, threshold) {
      var ts, again := SomeForgery(verifies, members, first, second, threshold);
      var read := ForgedRead(verifies, blob, members, first, second, threshold, ts, again);
      FailsSometimes(verifies, blob, members, first, second, threshold, read);
    } else {
      forall codec: Codec, read: Read
        | Right(codec, verifies, blob, threshold) && RunRead(codec, members, first, second, threshold, read)
          && read.outcome != Err(FetchFailed(Interrupted))
        ensures Returns(read, blob)
      {
        UnforgedRead(codec, verifies, blob, members, honest, first, second, threshold, read);
      }
      SucceedsAlways(verifies, blob, members, first, second, threshold);
    }
  }

  lemma SomeForgery(verifies: Bytes -> bool, members: seq<Member>, first: nat -> NodeAnswer, second: nat -> NodeAnswer,
                    threshold: int) returns (ts: seq<nat>, again: seq<nat>)
    requires Forgeable(verifies, members, first, second, threshold)
    ensures ForgedBy(verifies, members, first, second, threshold, ts, again)
  {
    ts, again :| ForgedBy(verifies, members, first, second, threshold, ts, again);
  }

  lemma SucceedsAlways(verifies: Bytes -> bool, blob: Bytes, members: seq<Member>, first: nat -> NodeAnswer,
                       second: nat -> NodeAnswer, threshold: int)
    requires forall codec: Codec, read: Read ::
               (Right(codec, verifies, blob, threshold) && RunRead(codec, members, first, second, threshold, read)
                && read.outcome != Err(FetchFailed(Interrupted))) ==> Returns(read, blob)
    ensures AlwaysReads(verifies, blob, members, first, second, threshold)
  {
    hide Right, RunRead, Returns;
  }

  lemma FailsSometimes(verifies: Bytes -> bool, blob: Bytes, members: seq<Member>, first: nat -> NodeAnswer,
                       second: nat -> NodeAnswer, threshold: int, read: Read)
    requires RunRead(Exact(verifies, blob, threshold), members, first, second, threshold, read)
    requires read.outcome == Err(Undecodable)
    ensures !AlwaysReads(verifies, blob, members, first, second, threshold)
  {
    ExactIsRight(verifies, blob, threshold);
    hide RunRead, Exact, Right;
    assert Right(Exact(verifies, blob, threshold), verifies, blob, threshold) && !Returns(read, blob);
  }

  // The decoder that decodes what it must, and nothing else.
  ghost function Exact(verifies: Bytes -> bool, blob: Bytes, threshold: int): Codec {
    Codec(slivers => if Sufficient(verifies, threshold, slivers) then Some(blob) else None, verifies)
  }

  lemma ExactIsRight(verifies: Bytes -> bool, blob: Bytes, threshold: int)
    ensures Right(Exact(verifies, blob, threshold), verifies, blob, threshold)
  {
    hide Sufficient;
  }

  lemma ExactRefuses(verifies: Bytes -> bool, blob: Bytes, threshold: int, batch: seq<Attributed>, x: Attributed)
    requires x in batch && !verifies(x.sliver)
    ensures Decoding(Exact(verifies, blob, threshold), batch) == Err(Undecodable)
  {
    var i :| 0 <= i < |batch| && batch[i] == x;
    assert Contents(batch)[i] in Contents(batch);
  }

  lemma {:induction false} AllVerified(verifies: Bytes -> bool, batch: seq<Attributed>)
    requires Indicted(batch, verifies) == {}
    ensures Verified(batch, verifies) == batch
    decreases |batch|
  {
    if batch != [] {
      var n := |batch| - 1;
      assert batch == batch[..n] + [batch[n]];
      IndictedStep(batch[..n], batch[n], verifies);
      AllVerified(verifies, batch[..n]);
    }
  }

  lemma SomeoneIndicted(verifies: Bytes -> bool, batch: seq<Attributed>) returns (x: Attributed)
    requires Indicted(batch, verifies) != {}
    ensures x in batch && !verifies(x.sliver) && x.nodeId in Indicted(batch, verifies)
  {
    var nodeId :| nodeId in Indicted(batch, verifies);
    x :| x in batch && !verifies(x.sliver) && x.nodeId == nodeId;
  }

  lemma TakenHonestly(members: seq<Member>, excluded: set<Text>, answers: nat -> NodeAnswer, ts: seq<nat>)
    ensures HonestlyAttributed(members, excluded, answers, Taken(members, excluded, answers, ts))
  {
    CollectedHonestly(Round(members, Queried(members, excluded), answers), excluded, AllCompleted(ts));
  }

  lemma TakenFetched(members: seq<Member>, excluded: set<Text>, answers: nat -> NodeAnswer, threshold: int, ts: seq<nat>)
    requires Selection(ts, |Queried(members, excluded)|) && |Taken(members, excluded, answers, ts)| >= threshold >= 1
    ensures Fetched(members, excluded, answers, threshold, Taken(members, excluded, answers, ts))
  {
    FetchedIffSelected(members, excluded, answers, threshold, Taken(members, excluded, answers, ts));
  }

  // The run that fails, under the decoder that decodes no more than it must.
  lemma ForgedRead(verifies: Bytes -> bool, blob: Bytes, members: seq<Member>, first: nat -> NodeAnswer,
                   second: nat -> NodeAnswer, threshold: int, ts: seq<nat>, again: seq<nat>) returns (read: Read)
    requires ForgedBy(verifies, members, first, second, threshold, ts, again)
    ensures RunRead(Exact(verifies, blob, threshold), members, first, second, threshold, read)
    ensures read.outcome == Err(Undecodable)
  {
    var codec := Exact(verifies, blob, threshold);
    var bad := Taken(members, {}, first, ts);
    var replaced := Taken(members, Indicted(bad, verifies), second, again);
    TakenHonestly(members, {}, first, ts);
    TakenHonestly(members, Indicted(bad, verifies), second, again);
    TakenFetched(members, {}, first, threshold, ts);
    TakenFetched(members, Indicted(bad, verifies), second, threshold, again);
    hide Taken, Selection, Fetched, Queried;
    read := ForgedEnd(verifies, blob, members, first, second, threshold, bad, replaced);
  }

  lemma ForgedEnd(verifies: Bytes -> bool, blob: Bytes, members: seq<Member>, first: nat -> NodeAnswer,
                  second: nat -> NodeAnswer, threshold: int, bad: seq<Attributed>, replaced: seq<Attributed>)
    returns (read: Read)
    requires HonestlyAttributed(members, {}, first, bad) && |Verified(bad, verifies)| < threshold <= |bad|
    requires Fetched(members, {}, first, threshold, bad)
    requires HonestlyAttributed(members, Indicted(bad, verifies), second, replaced) && |replaced| >= threshold
    requires Fetched(members, Indicted(bad, verifies), second, threshold, replaced) && Indicted(replaced, verifies) != {}
    ensures RunRead(Exact(verifies, blob, threshold), members, first, second, threshold, read)
    ensures read.outcome == Err(Undecodable)
  {
    var codec := Exact(verifies, blob, threshold);
    var merged := Merge(Verified(bad, verifies), replaced);
    RejectedForged(verifies, blob, members, first, threshold, bad);
    MergedForged(verifies, blob, threshold, bad, replaced);
    hide *;
    ExactVerifies(verifies, blob, threshold);
    EndsMerged(codec, members, first, second, threshold, bad, replaced);
    read := Read(Decoding(codec, merged), 2, [bad, merged]);
  }

  lemma ExactVerifies(verifies: Bytes -> bool, blob: Bytes, threshold: int)
    ensures Exact(verifies, blob, threshold).verifies == verifies
  {
  }

  lemma RejectedForged(verifies: Bytes -> bool, blob: Bytes, members: seq<Member>, first: nat -> NodeAnswer,
                       threshold: int, bad: seq<Attributed>)
    requires HonestlyAttributed(members, {}, first, bad) && |Verified(bad, verifies)| < threshold <= |bad|
    ensures Rejected(Exact(verifies, blob, threshold), members, first, threshold, bad)
  {
    if Indicted(bad, verifies) == {} {
      AllVerified(verifies, bad);
      assert false;
    }
    var x := SomeoneIndicted(verifies, bad);
    ExactRefuses(verifies, blob, threshold, bad, x);
    hide HonestlyAttributed, Verified, Indicted, Sufficient;
  }

  lemma MergedForged(verifies: Bytes -> bool, blob: Bytes, threshold: int, bad: seq<Attributed>, replaced: seq<Attributed>)
    requires DistinctSlivers(bad) && Indicted(replaced, verifies) != {}
    ensures Decoding(Exact(verifies, blob, threshold), Merge(Verified(bad, verifies), replaced)) == Err(Undecodable)
  {
    var x := SomeoneIndicted(verifies, replaced);
    VerifiedExact(bad, verifies);
    MergeKeeps(Verified(bad, verifies), replaced);
    assert Has(replaced, x.sliver);
    var merged := Merge(Verified(bad, verifies), replaced);
    var y :| y in merged && y.sliver == x.sliver;
    ExactRefuses(verifies, blob, threshold, merged, y);
  }

  lemma UnforgedRead(codec: Codec, verifies: Bytes -> bool, blob: Bytes, members: seq<Member>, honest: set<Text>,
                     first: nat -> NodeAnswer, second: nat -> NodeAnswer, threshold: int, read: Read)
    requires !Forgeable(verifies, members, first, second, threshold)
    requires HonestServeGood(verifies, members, honest, first)
    requires HonestSupply(members, honest, first, threshold) && HonestSupply(members, honest, second, threshold)
    requires Right(codec, verifies, blob, threshold) && RunRead(codec, members, first, second, threshold, read)
    requires read.outcome != Err(FetchFailed(Interrupted))
    ensures Returns(read, blob)
  {
    if |read.batches| == 2 {
      LastBatchVerifies(codec, members, first, second, threshold, read);
    }
    hide Forgeable, HonestServeGood, HonestSupply, ValidRead, Traced, Decodes, Rederives, AllVerify, Returns;
    HonestReadAvailable(codec, blob, members, honest, first, second, threshold, read);
  }

  lemma LastBatchVerifies(codec: Codec, members: seq<Member>, first: nat -> NodeAnswer, second: nat -> NodeAnswer,
                          threshold: int, read: Read)
    requires !Forgeable(codec.verifies, members, first, second, threshold)
    requires RunRead(codec, members, first, second, threshold, read) && |read.batches| == 2
    ensures AllVerify(codec, read.batches[1])
  {
    var bad, verifies := read.batches[0], codec.verifies;
    assert bad in read.batches && DistinctSlivers(bad) && |bad| >= threshold;
    VerifiedExact(bad, verifies);
    if read.fetches == 2 {
      var replaced :| Fetched(members, Indicted(bad, verifies), second, threshold, replaced) && |replaced| >= threshold
                      && read.batches[1] == Merge(Verified(bad, verifies), replaced);
      var ts := FetchedSelection(members, {}, first, threshold, bad);
      var again := FetchedSelection(members, Indicted(bad, verifies), second, threshold, replaced);
      assert !ForgedBy(verifies, members, first, second, threshold, ts, again);
      hide Fetched, Taken, Recovered, Indicted, Verified, Merge, Selection, ValidRead, Traced, HonestlyAttributed;
      NoneIndicted(codec, replaced);
      MergeKeeps(Verified(bad, verifies), replaced);
    }
  }

  // ----- The same in terms of who forges -----

  // This node, asked without exclusions, serves a sliver that does not verify.
  ghost predicate Forges(verifies: Bytes -> bool, members: seq<Member>, answers: nat -> NodeAnswer, nodeId: Text) {
    exists sliver :: Served(members, {}, answers, sliver, nodeId) && !verifies(sliver)
  }

  // No node forges in the second round but the only one to forge in the first.
  ghost predicate OneForger(verifies: Bytes -> bool, members: seq<Member>, first: nat -> NodeAnswer,
                            second: nat -> NodeAnswer)
  {
    forall x, y :: Forges(verifies, members, first, x) && Forges(verifies, members, second, y) ==> x == y
  }

  lemma CaughtForges(verifies: Bytes -> bool, members: seq<Member>, answers: nat -> NodeAnswer, batch: seq<Attributed>,
                     x: Attributed)
    requires HonestlyAttributed(members, {}, answers, batch) && x in batch && !verifies(x.sliver)
    ensures Forges(verifies, members, answers, x.nodeId)
  {
    assert Served(members, {}, answers, x.sliver, x.nodeId);
  }

  // With one forger no node that is asked again forges.
  lemma NobodyElseForges(verifies: Bytes -> bool, members: seq<Member>, first: nat -> NodeAnswer,
                         second: nat -> NodeAnswer, bad: seq<Attributed>, sliver: Bytes, nodeId: Text)
    requires OneForger(verifies, members, first, second)
    requires HonestlyAttributed(members, {}, first, bad) && Indicted(bad, verifies) != {}
    requires Served(members, Indicted(bad, verifies), second, sliver, nodeId)
    ensures verifies(sliver)
  {
    ServedUnexcluded(members, Indicted(bad, verifies), second, sliver, nodeId);
    var x := SomeoneIndicted(verifies, bad);
    CaughtForges(verifies, members, first, bad, x);
    assert !verifies(sliver) ==> Forges(verifies, members, second, nodeId);
    hide Served, HonestlyAttributed, Indicted, Forges;
  }

  /** Honest nodes that hold enough slivers are enough, whatever the others answer, as long as no two
      different nodes forge, one in each round. */
  lemma HonestNodesSuffice(codec: Codec, blob: Bytes, members: seq<Member>, honest: set<Text>, first: nat -> NodeAnswer,
                           second: nat -> NodeAnswer, threshold: int, read: Read)
    requires ValidRead(codec, members, first, second, threshold, read)
    requires read.outcome != Err(FetchFailed(Interrupted))
    requires Decodes(codec, blob, threshold) && Rederives(codec, blob)
    requires HonestServeGood(codec.verifies, members, honest, first)
    requires HonestSupply(members, honest, first, threshold) && HonestSupply(members, honest, second, threshold)
    requires OneForger(codec.verifies, members, first, second)
    ensures Returns(read, blob)
  {
    if |read.batches| == 2 {
      var bad := read.batches[0];
      forall x | x in read.batches[1] ensures codec.verifies(x.sliver) {
        if Served(members, Indicted(bad, codec.verifies), second, x.sliver, x.nodeId) {
          NobodyElseForges(codec.verifies, members, first, second, bad, x.sliver, x.nodeId);
        }
      }
    }
    hide ValidRead, Decodes, Rederives, OneForger, HonestServeGood, HonestSupply, Returns;
    HonestReadAvailable(codec, blob, members, honest, first, second, threshold, read);
  }

  // Every read that keeps what reads keep returns the blob, whichever of the slivers a node serves arrive.
  ghost predicate AlwaysReadsAny(verifies: Bytes -> bool, blob: Bytes, members: seq<Member>, first: nat -> NodeAnswer,
                                 second: nat -> NodeAnswer, threshold: int)
  {
    forall codec: Codec, read: Read ::
      (Right(codec, verifies, blob, threshold) && ValidRead(codec, members, first, second, threshold, read)
       && read.outcome != Err(FetchFailed(Interrupted))) ==> Returns(read, blob)
  }

  /** When any of the slivers that a node serves may fail to arrive, honest nodes that hold enough of them
      are enough exactly when no two different nodes forge, one in each round. */
  lemma OneForgerIff(verifies: Bytes -> bool, blob: Bytes, members: seq<Member>, honest: set<Text>,
                     first: nat -> NodeAnswer, second: nat -> NodeAnswer, threshold: int)
    requires HonestServeGood(verifies, members, honest, first) && threshold >= 1
    requires HonestSupply(members, honest, first, threshold) && HonestSupply(members, honest, second, threshold)
    ensures AlwaysReadsAny(verifies, blob, members, first, second, threshold)
       <==> OneForger(verifies, members, first, second)
  {
    if OneForger(verifies, members, first, second) {
      hide *;
      forall codec: Codec, read: Read
        | Right(codec, verifies, blob, threshold) && ValidRead(codec, members, first, second, threshold, read)
          && read.outcome != Err(FetchFailed(Interrupted))
        ensures Returns(read, blob)
      {
        RightIs(codec, verifies, blob, threshold);
        HonestNodesSuffice(codec, blob, members, honest, first, second, threshold, read);
      }
      SucceedsOnAny(verifies, blob, members, first, second, threshold);
    } else {
      var x, y :| Forges(verifies, members, first, x) && Forges(verifies, members, second, y) && x != y;
      hide *;
      var bad, replaced := ForgedBatches(verifies, members, honest, first, second, threshold, x, y);
      FailsOnSome(verifies, blob, members, first, second, threshold, bad, replaced);
    }
  }

  lemma RightIs(codec: Codec, verifies: Bytes -> bool, blob: Bytes, threshold: int)
    requires Right(codec, verifies, blob, threshold)
    ensures codec.verifies == verifies && Decodes(codec, blob, threshold) && Rederives(codec, blob)
  {
  }

  lemma SucceedsOnAny(verifies: Bytes -> bool, blob: Bytes, members: seq<Member>, first: nat -> NodeAnswer,
                      second: nat -> NodeAnswer, threshold: int)
    requires forall codec: Codec, read: Read ::
               (Right(codec, verifies, blob, threshold) && ValidRead(codec, members, first, second, threshold, read)
                && read.outcome != Err(FetchFailed(Interrupted))) ==> Returns(read, blob)
    ensures AlwaysReadsAny(verifies, blob, members, first, second, threshold)
  {
    hide Right, ValidRead, Returns;
  }

  lemma FailsOnSome(verifies: Bytes -> bool, blob: Bytes, members: seq<Member>, first: nat -> NodeAnswer,
                    second: nat -> NodeAnswer, threshold: int, bad: seq<Attributed>, replaced: seq<Attributed>)
    requires HonestlyAttributed(members, {}, first, bad) && |Verified(bad, verifies)| < threshold <= |bad|
    requires HonestlyAttributed(members, Indicted(bad, verifies), second, replaced) && |replaced| >= threshold
    requires Indicted(replaced, verifies) != {}
    ensures !AlwaysReadsAny(verifies, blob, members, first, second, threshold)
  {
    var codec := Exact(verifies, blob, threshold);
    var merged := Merge(Verified(bad, verifies), replaced);
    RejectedForged(verifies, blob, members, first, threshold, bad);
    MergedForged(verifies, blob, threshold, bad, replaced);
    ExactVerifies(verifies, blob, threshold);
    ExactIsRight(verifies, blob, threshold);
    hide *;
    DecodedReplaced(codec, members, first, second, threshold, bad, replaced);
    FailsOn(codec, verifies, blob, members, first, second, threshold, Read(Decoding(codec, merged), 2, [bad, merged]));
  }

  lemma FailsOn(codec: Codec, verifies: Bytes -> bool, blob: Bytes, members: seq<Member>, first: nat -> NodeAnswer,
                second: nat -> NodeAnswer, threshold: int, read: Read)
    requires Right(codec, verifies, blob, threshold) && ValidRead(codec, members, first, second, threshold, read)
    requires read.outcome == Err(Undecodable)
    ensures !AlwaysReadsAny(verifies, blob, members, first, second, threshold)
  {
    hide Right, ValidRead;
    assert !Returns(read, blob);
  }

  // All but one of the slivers honest nodes hold, and a forged one: first so that its server is caught,
  // then from a server that is not.
  lemma ForgedBatches(verifies: Bytes -> bool, members: seq<Member>, honest: set<Text>, first: nat -> NodeAnswer,
                      second: nat -> NodeAnswer, threshold: int, x: Text, y: Text)
    returns (bad: seq<Attributed>, replaced: seq<Attributed>)
    requires HonestServeGood(verifies, members, honest, first) && threshold >= 1
    requires HonestSupply(members, honest, first, threshold) && HonestSupply(members, honest, second, threshold)
    requires Forges(verifies, members, first, x) && Forges(verifies, members, second, y) && x != y
    ensures HonestlyAttributed(members, {}, first, bad) && |Verified(bad, verifies)| < threshold == |bad|
    ensures HonestlyAttributed(members, Indicted(bad, verifies), second, replaced) && |replaced| == threshold
    ensures Indicted(replaced, verifies) != {}
  {
    bad := ForgedFirst(verifies, members, honest, first, threshold, x);
    hide *;
    replaced := ForgedSecond(verifies, members, honest, {x}, second, threshold, y);
  }

  lemma {:induction false} VerifiedShorter(verifies: Bytes -> bool, batch: seq<Attributed>)
    ensures |Verified(batch, verifies)| <= |batch|
    decreases |batch|
  {
    if batch != [] { VerifiedShorter(verifies, batch[..|batch| - 1]); }
  }

  lemma ForgedFirst(verifies: Bytes -> bool, members: seq<Member>, honest: set<Text>, first: nat -> NodeAnswer,
                    threshold: int, x: Text) returns (bad: seq<Attributed>)
    requires HonestServeGood(verifies, members, honest, first) && threshold >= 1
    requires HonestSupply(members, honest, first, threshold) && Forges(verifies, members, first, x)
    ensures HonestlyAttributed(members, {}, first, bad) && |Verified(bad, verifies)| < threshold == |bad|
    ensures Indicted(bad, verifies) == {x} && x !in honest
  {
    var held: seq<Attributed> :| HonestlyAttributed(members, {}, first, held) && |held| >= threshold
                                 && forall h :: h in held ==> h.nodeId in honest;
    var sliver :| Served(members, {}, first, sliver, x) && !verifies(sliver);
    var rest, forged := held[..threshold - 1], Attributed(sliver, x);
    bad := rest + [forged];
    forall h | h in rest ensures Served(members, {}, first, h.sliver, h.nodeId) && verifies(h.sliver) {
      assert h in held;
    }
    assert DistinctSlivers(rest);
    hide Served, Verified, HonestServeGood, HonestSupply, Forges, DistinctSlivers, Indicted;
    AddForged(verifies, members, first, rest, forged);
    HonestNotIndicted(verifies, members, honest, first, bad);
    assert x in Indicted(bad, verifies);
  }

  lemma AddForged(verifies: Bytes -> bool, members: seq<Member>, answers: nat -> NodeAnswer, rest: seq<Attributed>,
                  forged: Attributed)
    requires DistinctSlivers(rest)
    requires forall h :: h in rest ==> Served(members, {}, answers, h.sliver, h.nodeId) && verifies(h.sliver)
    requires Served(members, {}, answers, forged.sliver, forged.nodeId) && !verifies(forged.sliver)
    ensures var bad := rest + [forged];
            && HonestlyAttributed(members, {}, answers, bad) && |Verified(bad, verifies)| <= |rest|
            && Indicted(bad, verifies) == {forged.nodeId}
  {
    var bad := rest + [forged];
    hide Served;
    assert bad[..|rest|] == rest;
    VerifiedShorter(verifies, rest);
    IndictedStep(rest, forged, verifies);
    assert Indicted(rest, verifies) == {};
    hide Verified, Indicted;
    forall i | 0 <= i < |rest| ensures rest[i].sliver != forged.sliver { assert rest[i] in rest; }
  }

  lemma ForgedSecond(verifies: Bytes -> bool, members: seq<Member>, honest: set<Text>, excluded: set<Text>,
                     second: nat -> NodeAnswer, threshold: int, y: Text) returns (replaced: seq<Attributed>)
    requires excluded !! honest && y !in excluded && threshold >= 1
    requires HonestSupply(members, honest, second, threshold) && Forges(verifies, members, second, y)
    ensures HonestlyAttributed(members, excluded, second, replaced) && |replaced| == threshold
    ensures Indicted(replaced, verifies) != {}
  {
    StillSupply(members, honest, excluded, second, threshold);
    var held: seq<Attributed> :| HonestlyAttributed(members, excluded, second, held) && |held| >= threshold;
    var sliver :| Served(members, {}, second, sliver, y) && !verifies(sliver);
    ServedUnexcluded(members, excluded, second, sliver, y);
    hide Served, Forges, HonestSupply, Supply;
    hide Indicted;
    if i :| 0 <= i < threshold - 1 && held[i].sliver == sliver {
      replaced := held[..threshold];
      BlameIn(verifies, replaced, i);
      HonestPrefix(members, excluded, second, held, threshold);
    } else {
      var rest := held[..threshold - 1];
      replaced := rest + [Attributed(sliver, y)];
      BlameIn(verifies, replaced, threshold - 1);
      HonestPrefix(members, excluded, second, held, threshold - 1);
      hide HonestlyAttributed;
      AddServed(members, excluded, second, rest, Attributed(sliver, y));
    }
  }

  lemma HonestPrefix(members: seq<Member>, excluded: set<Text>, answers: nat -> NodeAnswer, held: seq<Attributed>, n: nat)
    requires HonestlyAttributed(members, excluded, answers, held) && n <= |held|
    ensures HonestlyAttributed(members, excluded, answers, held[..n])
  {
    forall h | h in held[..n] ensures Served(members, excluded, answers, h.sliver, h.nodeId) { assert h in held; }
    hide Served;
  }

  lemma AddServed(members: seq<Member>, excluded: set<Text>, answers: nat -> NodeAnswer, rest: seq<Attributed>,
                  last: Attributed)
    requires HonestlyAttributed(members, excluded, answers, rest)
    requires Served(members, excluded, answers, last.sliver, last.nodeId)
    requires forall i :: 0 <= i < |rest| ==> rest[i].sliver != last.sliver
    ensures HonestlyAttributed(members, excluded, answers, rest + [last])
  {
    hide Served;
    forall h | h in rest + [last] ensures Served(members, excluded, answers, h.sliver, h.nodeId) {
      assert h in rest || h == last;
    }
  }

  lemma BlameIn(verifies: Bytes -> bool, batch: seq<Attributed>, i: nat)
    requires i < |batch| && !verifies(batch[i].sliver)
    ensures Indicted(batch, verifies) != {}
  {
    assert batch[i] in batch && batch[i].nodeId in Indicted(batch, verifies);
  }

  // ----- Nodes that serve one sliver each -----

  // Every node asked supplies at most one sliver, so that a selection of nodes is one of slivers.
  ghost predicate OneEach(members: seq<Member>, answers: nat -> NodeAnswer) {
    forall p: nat :: p < |members| && answers(p).Supplied? ==> |answers(p).slivers| <= 1
  }

  /** One forger is never enough to forge twice. When each node supplies at most one sliver a round, two
      always are. */
  lemma OneForgerUnforgeable(verifies: Bytes -> bool, members: seq<Member>, honest: set<Text>, first: nat -> NodeAnswer,
                             second: nat -> NodeAnswer, threshold: int)
    requires HonestServeGood(verifies, members, honest, first) && threshold >= 1
    requires HonestSupply(members, honest, first, threshold) && HonestSupply(members, honest, second, threshold)
    ensures OneForger(verifies, members, first, second) ==> !Forgeable(verifies, members, first, second, threshold)
    ensures OneEach(members, first) && OneEach(members, second) && !Forgeable(verifies, members, first, second, threshold) ==>
              OneForger(verifies, members, first, second)
  {
    if OneForger(verifies, members, first, second) && Forgeable(verifies, members, first, second, threshold) {
      var ts, again := SomeForgery(verifies, members, first, second, threshold);
      hide *;
      OneForgerHonest(verifies, members, first, second, threshold, ts, again);
      assert false;
    }
    if OneEach(members, first) && OneEach(members, second) && !OneForger(verifies, members, first, second) {
      var x, y :| Forges(verifies, members, first, x) && Forges(verifies, members, second, y) && x != y;
      hide *;
      var bad, replaced := ForgedBatches(verifies, members, honest, first, second, threshold, x, y);
      var ts := SelectionOf(members, {}, first, bad);
      var again := SelectionOf(members, Indicted(bad, verifies), second, replaced);
      ForgeableBy(verifies, members, first, second, threshold, ts, again);
    }
  }

  lemma ForgeableBy(verifies: Bytes -> bool, members: seq<Member>, first: nat -> NodeAnswer, second: nat -> NodeAnswer,
                    threshold: int, ts: seq<nat>, again: seq<nat>)
    requires var bad := Taken(members, {}, first, ts);
             var caught := Indicted(bad, verifies);
             var replaced := Taken(members, caught, second, again);
             && Selection(ts, |Queried(members, {})|) && |Verified(bad, verifies)| < threshold <= |bad|
             && Selection(again, |Queried(members, caught)|) && |replaced| >= threshold
             && Indicted(replaced, verifies) != {}
    ensures Forgeable(verifies, members, first, second, threshold)
  {
    hide Taken, Indicted, Selection, Queried, Verified;
    assert ForgedBy(verifies, members, first, second, threshold, ts, again);
  }

  lemma OneForgerHonest(verifies: Bytes -> bool, members: seq<Member>, first: nat -> NodeAnswer, second: nat -> NodeAnswer,
                        threshold: int, ts: seq<nat>, again: seq<nat>)
    requires OneForger(verifies, members, first, second)
    ensures !ForgedBy(verifies, members, first, second, threshold, ts, again)
  {
    if ForgedBy(verifies, members, first, second, threshold, ts, again) {
      var bad := Taken(members, {}, first, ts);
      var replaced := Taken(members, Indicted(bad, verifies), second, again);
      TakenHonestly(members, {}, first, ts);
      TakenHonestly(members, Indicted(bad, verifies), second, again);
      var y := SomeoneIndicted(verifies, replaced);
      assert Served(members, Indicted(bad, verifies), second, y.sliver, y.nodeId);
      if Indicted(bad, verifies) == {} { AllVerified(verifies, bad); }
      hide Taken, OneForger, HonestlyAttributed, Served, Verified, Selection, Queried, Indicted;
      NobodyElseForges(verifies, members, first, second, bad, y.sliver, y.nodeId);
      assert false;
    }
  }

  // The nodes that serve these slivers, in the same order, take exactly them.
  lemma SelectionOf(members: seq<Member>, excluded: set<Text>, answers: nat -> NodeAnswer, batch: seq<Attributed>)
    returns (ts: seq<nat>)
    requires OneEach(members, answers) && HonestlyAttributed(members, excluded, answers, batch)
    ensures Selection(ts, |Queried(members, excluded)|) && Taken(members, excluded, answers, ts) == batch
  {
    var round := Round(members, Queried(members, excluded), answers);
    ts := ServersOf(round, excluded, batch);
    var log := AllCompleted(ts);
    assert forall i :: 0 <= i < |log| ==> Recorder(round)(log[i]) == [batch[i]];
    hide OneEach, Selection, Recorded, Queried, HonestlyAttributed;
    GatherEach(log, Recorder(round));
    assert Gather(log, Recorder(round)) == batch;
    MergeNothing(batch);
  }

  lemma {:induction false} MergeNothing(batch: seq<Attributed>)
    requires DistinctSlivers(batch)
    ensures Merge([], batch) == batch
    decreases |batch|
  {
    if batch != [] {
      var n := |batch| - 1;
      MergeNothing(batch[..n]);
      forall x | x in batch[..n] ensures x.sliver != batch[n].sliver {
        var i :| 0 <= i < n && batch[..n][i] == x;
        assert batch[i].sliver != batch[n].sliver;
      }
      assert batch == batch[..n] + [batch[n]];
    }
  }

  lemma {:induction false} ServersOf(round: Round, excluded: set<Text>, batch: seq<Attributed>) returns (ts: seq<nat>)
    requires round.queried == Queried(round.members, excluded) && OneEach(round.members, round.answers)
    requires HonestlyAttributed(round.members, excluded, round.answers, batch)
    ensures |ts| == |batch| && Selection(ts, |round.queried|)
    ensures forall i :: 0 <= i < |ts| ==> Recorded(round, Completed(ts[i])) == [batch[i]]
    decreases |batch|
  {
    ts := [];
    if batch != [] {
      var n := |batch| - 1;
      assert forall x :: x in batch[..n] ==> x in batch;
      var before := ServersOf(round, excluded, batch[..n]);
      assert batch[n] in batch;
      var t := ServerOf(round, excluded, batch[n]);
      hide HonestlyAttributed, OneEach, Recorded, Queried, Served;
      assert forall i :: 0 <= i < n ==> Recorded(round, Completed(before[i])) == [batch[i]];
      ts := before + [t];
    }
  }

  lemma ServerOf(round: Round, excluded: set<Text>, x: Attributed) returns (t: nat)
    requires round.queried == Queried(round.members, excluded) && OneEach(round.members, round.answers)
    requires Served(round.members, excluded, round.answers, x.sliver, x.nodeId)
    ensures t < |round.queried| && Recorded(round, Completed(t)) == [x]
  {
    var p: nat :| p in Queried(round.members, excluded) && p < |round.members| && round.members[p].nodeId == x.nodeId
                  && round.answers(p).Supplied? && x.sliver in round.answers(p).slivers;
    t :| 0 <= t < |round.queried| && round.queried[t] == p;
    assert round.answers(p).slivers == [x.sliver];
  }

  const THREE_NODES := [Member([0], [0], [], []), Member([1], [1], [], []), Member([2], [2], [], [])]

  // In either round the last node serves a sliver that verifies, and each of the others one that does not.
  function Answers(): nat -> NodeAnswer {
    p => if p == 0 then Supplied([[8]]) else if p == 1 then Supplied([[9]]) else Supplied([[1]])
  }

  function OnlyOne(): Bytes -> bool { sliver => sliver == [1] }

  /** Two nodes that forge in both rounds defeat a read that an honest node could serve alone: one of
      them is caught, and the other is asked again and answers before the honest node. */
  lemma TwoForgersDefeat(blob: Bytes)
    ensures HonestServeGood(OnlyOne(), THREE_NODES, {[2]}, Answers()) && HonestSupply(THREE_NODES, {[2]}, Answers(), 1)
    ensures Right(Exact(OnlyOne(), blob, 1), OnlyOne(), blob, 1)
    ensures exists read :: RunRead(Exact(OnlyOne(), blob, 1), THREE_NODES, Answers(), Answers(), 1, read)
                           && read.outcome == Err(Undecodable)
  {
    hide *;
    LastNodeGood();
    LastNodeSupplies();
    BothForge();
    ExactIsRight(OnlyOne(), blob, 1);
    OneForgerUnforgeable(OnlyOne(), THREE_NODES, {[2]}, Answers(), Answers(), 1);
    var ts, again := SomeForgery(OnlyOne(), THREE_NODES, Answers(), Answers(), 1);
    var read := ForgedRead(OnlyOne(), blob, THREE_NODES, Answers(), Answers(), 1, ts, again);
  }

  lemma ServedByNode(p: nat, sliver: Bytes)
    requires p < 3 && Answers()(p) == Supplied([sliver])
    ensures Served(THREE_NODES, {}, Answers(), sliver, THREE_NODES[p].nodeId)
  {
    QueriedExact(THREE_NODES, {}, p);
  }

  lemma LastNodeSupplies()
    ensures HonestSupply(THREE_NODES, {[2]}, Answers(), 1)
  {
    var held := [Attributed([1], [2])];
    ServedByNode(2, [1]);
    hide Served;
    assert HonestlyAttributed(THREE_NODES, {}, Answers(), held);
    assert forall x :: x in held ==> x.nodeId in {[2]};
  }

  lemma LastNodeGood()
    ensures HonestServeGood(OnlyOne(), THREE_NODES, {[2]}, Answers())
  {
    hide Queried;
  }

  lemma BothForge()
    ensures OneEach(THREE_NODES, Answers()) && !OneForger(OnlyOne(), THREE_NODES, Answers(), Answers())
  {
    ForgingNode(0, [8]);
    ForgingNode(1, [9]);
    hide Forges;
  }

  lemma ForgingNode(p: nat, sliver: Bytes)
    requires p < 3 && Answers()(p) == Supplied([sliver]) && sliver != [1]
    ensures Forges(OnlyOne(), THREE_NODES, Answers(), THREE_NODES[p].nodeId)
  {
    ServedByNode(p, sliver);
    hide Served;
  }
}
