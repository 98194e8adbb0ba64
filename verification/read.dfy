/** Reading a blob back: fetching slivers from the committee, and decoding them with one round of
    recovery from nodes that serve bad ones. */
module Read {
  import opened Common
  import opened Committee
  import opened FanOut
  import RedStuff

  // ----- What one node is asked for -----

  // The sliver-pair indices requested for a list of shards; a shard the rotation rejects is dropped.
  function Requests(shards: seq<int>, blobId: Bytes, nShards: int): seq<nat> {
    if shards == [] then []
    else Requests(shards[..|shards| - 1], blobId, nShards) + RequestOf(shards[|shards| - 1], blobId, nShards)
  }

  function RequestOf(shard: int, blobId: Bytes, nShards: int): seq<nat> {
    match RedStuff.ShardIndexToPairIndex(shard, blobId, nShards)
    case Ok(pair) => [pair]
    case Err(_) => []
  }

  function Answered(pairs: seq<nat>, reply: nat -> Option<Bytes>): seq<Bytes> {
    if pairs == [] then []
    else
      Answered(pairs[..|pairs| - 1], reply)
      + match reply(pairs[|pairs| - 1]) case Some(sliver) => [sliver] case None => []
  }

  /** Fetches the slivers one node holds, dropping those that fail. */
  method FetchNodeSlivers(shards: seq<int>, blobId: Bytes, nShards: int, reply: nat -> Option<Bytes>)
    returns (slivers: seq<Bytes>)
    ensures slivers == Answered(Requests(shards, blobId, nShards), reply)
    ensures exists served :: FromShards(shards, blobId, nShards, reply, slivers, served)
  {
    hide RedStuff.ShardIndexToPairIndex;
    slivers := [];
    for i := 0 to |shards|
      invariant slivers == Answered(Requests(shards[..i], blobId, nShards), reply)
    {
      assert shards[..i + 1][..i] == shards[..i];
      ghost var before := Requests(shards[..i], blobId, nShards);
      var pair := RedStuff.ShardIndexToPairIndex(shards[i], blobId, nShards);
      match pair {
        case Err(_) =>
          assert before + [] == before;
        case Ok(index) =>
          assert (before + [index])[..|before|] == before;
          match reply(index) {
            case None => assert slivers + [] == slivers;
            case Some(sliver) => slivers := slivers + [sliver];
          }
      }
    }
    assert shards[..|shards|] == shards;
    var _ := AnsweredFromShards(shards, blobId, nShards, reply);
  }

  // The pair whose place, as many shards on as the identifier says, is this shard.
  ghost predicate PairOf(shard: int, blobId: Bytes, nShards: int, pair: nat) {
    |blobId| == 32 && 0 <= shard < nShards && pair < nShards && (pair + RedStuff.Positional(blobId)) % nShards == shard
  }

  // One sliver for each listed shard whose own pair is answered, in the order of the shards.
  ghost predicate FromShards(shards: seq<int>, blobId: Bytes, nShards: int, reply: nat -> Option<Bytes>,
                             slivers: seq<Bytes>, served: seq<nat>)
  {
    && |served| == |slivers| && (forall k, l :: 0 <= k < l < |served| ==> served[k] < served[l])
    && (forall k :: 0 <= k < |served| ==>
          served[k] < |shards| && Brings(shards[served[k]], blobId, nShards, reply, slivers[k]))
    && forall i, sliver :: 0 <= i < |shards| && Brings(shards[i], blobId, nShards, reply, sliver) ==> i in served
  }

  ghost predicate Brings(shard: int, blobId: Bytes, nShards: int, reply: nat -> Option<Bytes>, sliver: Bytes) {
    exists pair: nat :: PairOf(shard, blobId, nShards, pair) && reply(pair) == Some(sliver)
  }

  lemma RequestIsPair(shard: int, blobId: Bytes, nShards: int)
    ensures forall pair: nat :: RequestOf(shard, blobId, nShards) == [pair] <==> PairOf(shard, blobId, nShards, pair)
    ensures RequestOf(shard, blobId, nShards) == [] || exists pair :: RequestOf(shard, blobId, nShards) == [pair]
  {
    RedStuff.RotationInverts(shard, blobId, nShards);
    forall pair: nat ensures RequestOf(shard, blobId, nShards) == [pair] <==> PairOf(shard, blobId, nShards, pair) {
      if |blobId| == 32 && 0 <= shard < nShards && pair < nShards {
        RedStuff.RotatedByIdentifier(blobId, nShards, shard, pair);
      }
    }
  }

  lemma {:induction false} AnsweredJoin(a: seq<nat>, b: seq<nat>, reply: nat -> Option<Bytes>)
    ensures Answered(a + b, reply) == Answered(a, reply) + Answered(b, reply)
    decreases |b|
  {
    if b == [] {
      assert a + b == a;
    } else {
      assert (a + b)[..|a + b| - 1] == a + b[..|b| - 1];
      AnsweredJoin(a, b[..|b| - 1], reply);
    }
  }

  // What the request for one shard brings, if anything.
  lemma OneAnswer(shard: int, blobId: Bytes, nShards: int, reply: nat -> Option<Bytes>)
    ensures var answer := Answered(RequestOf(shard, blobId, nShards), reply);
            && |answer| <= 1
            && forall sliver :: Brings(shard, blobId, nShards, reply, sliver) <==> |answer| == 1 && answer[0] == sliver
  {
    var pairs := RequestOf(shard, blobId, nShards);
    RequestIsPair(shard, blobId, nShards);
    hide RequestOf, PairOf;
    if pairs != [] {
      var pair :| pairs == [pair];
      assert pairs[..0] == [] && Answered(pairs[..0], reply) == [];
      forall other: nat ensures PairOf(shard, blobId, nShards, other) <==> other == pair {
        assert [pair] == [other] <==> pair == other by { assert [pair][0] == pair && [other][0] == other; }
      }
    }
  }

  lemma {:induction false} AnsweredFromShards(shards: seq<int>, blobId: Bytes, nShards: int, reply: nat -> Option<Bytes>)
    returns (served: seq<nat>)
    ensures FromShards(shards, blobId, nShards, reply, Answered(Requests(shards, blobId, nShards), reply), served)
    decreases |shards|
  {
    served := [];
    if shards != [] {
      var n := |shards| - 1;
      var before := AnsweredFromShards(shards[..n], blobId, nShards, reply);
      var pairs := Requests(shards[..n], blobId, nShards);
      AnsweredJoin(pairs, RequestOf(shards[n], blobId, nShards), reply);
      OneAnswer(shards[n], blobId, nShards, reply);
      var slivers, answer := Answered(pairs, reply), Answered(RequestOf(shards[n], blobId, nShards), reply);
      assert Answered(Requests(shards, blobId, nShards), reply) == slivers + answer;
      hide Answered, Requests, RequestOf, Brings;
      served := if answer == [] then before else before + [n];
      ServedStep(shards, shards[n], blobId, nShards, reply, slivers, before, answer);
    }
  }

  lemma ServedStep(shards: seq<int>, last: int, blobId: Bytes, nShards: int, reply: nat -> Option<Bytes>,
                   slivers: seq<Bytes>, before: seq<nat>, answer: seq<Bytes>)
    requires shards != [] && last == shards[|shards| - 1]
    requires FromShards(shards[..|shards| - 1], blobId, nShards, reply, slivers, before)
    requires |answer| <= 1
    requires forall sliver :: Brings(last, blobId, nShards, reply, sliver) <==> |answer| == 1 && answer[0] == sliver
    ensures FromShards(shards, blobId, nShards, reply, slivers + answer,
                       if answer == [] then before else before + [|shards| - 1])
  {
    hide *;
    ServedBefore(shards, blobId, nShards, reply, slivers, before);
    if answer == [] {
      assert slivers + answer == slivers;
      ServedSame(shards, last, blobId, nShards, reply, slivers, before);
    } else {
      assert answer == [answer[0]];
      ServedMore(shards, blobId, nShards, reply, slivers, before, answer[0]);
    }
  }

  // The same of all but the last shard, said of their places in the whole list.
  ghost predicate FromEarlier(shards: seq<int>, blobId: Bytes, nShards: int, reply: nat -> Option<Bytes>,
                              slivers: seq<Bytes>, served: seq<nat>)
  {
    && |served| == |slivers| && (forall k, l :: 0 <= k < l < |served| ==> served[k] < served[l])
    && (forall k :: 0 <= k < |served| ==>
          served[k] < |shards| - 1 && Brings(shards[served[k]], blobId, nShards, reply, slivers[k]))
    && forall i, sliver :: 0 <= i < |shards| - 1 && Brings(shards[i], blobId, nShards, reply, sliver) ==> i in served
  }

  lemma ServedBefore(shards: seq<int>, blobId: Bytes, nShards: int, reply: nat -> Option<Bytes>, slivers: seq<Bytes>,
                     before: seq<nat>)
    requires shards != [] && FromShards(shards[..|shards| - 1], blobId, nShards, reply, slivers, before)
    ensures FromEarlier(shards, blobId, nShards, reply, slivers, before)
  {
    hide Brings;
    var n := |shards| - 1;
    forall i, sliver | 0 <= i < n && Brings(shards[i], blobId, nShards, reply, sliver) ensures i in before {
      assert shards[..n][i] == shards[i];
    }
    forall k | 0 <= k < |before|
      ensures before[k] < n && Brings(shards[before[k]], blobId, nShards, reply, slivers[k])
    {
      assert shards[..n][before[k]] == shards[before[k]];
    }
  }

  lemma ServedSame(shards: seq<int>, last: int, blobId: Bytes, nShards: int, reply: nat -> Option<Bytes>,
                   slivers: seq<Bytes>, before: seq<nat>)
    requires shards != [] && last == shards[|shards| - 1]
    requires FromEarlier(shards, blobId, nShards, reply, slivers, before)
    requires forall sliver :: !Brings(last, blobId, nShards, reply, sliver)
    ensures FromShards(shards, blobId, nShards, reply, slivers, before)
  {
    hide Brings;
  }

  lemma ServedMore(shards: seq<int>, blobId: Bytes, nShards: int, reply: nat -> Option<Bytes>, slivers: seq<Bytes>,
                   before: seq<nat>, sliver: Bytes)
    requires shards != [] && FromEarlier(shards, blobId, nShards, reply, slivers, before)
    requires Brings(shards[|shards| - 1], blobId, nShards, reply, sliver)
    ensures FromShards(shards, blobId, nShards, reply, slivers + [sliver], before + [|shards| - 1])
  {
    hide Brings;
    var served := before + [|shards| - 1];
    assert served[|before|] == |shards| - 1;
    assert forall i :: i in before ==> i in served;
  }

  lemma {:induction false} RequestsCount(shards: seq<int>, blobId: Bytes, nShards: int, pair: nat, shard: int)
    requires RedStuff.PairIndexToShardIndex(pair, blobId, nShards) == Ok(shard)
    ensures multiset(Requests(shards, blobId, nShards))[pair] == multiset(shards)[shard]
    decreases |shards|
  {
    hide RequestOf, RedStuff.PairIndexToShardIndex;
    if shards != [] {
      var n := |shards| - 1;
      RequestsCount(shards[..n], blobId, nShards, pair, shard);
      OneRequest(shards[n], blobId, nShards, pair);
      assert shards == shards[..n] + [shards[n]];
    }
  }

  lemma OneRequest(shard: int, blobId: Bytes, nShards: int, pair: nat)
    ensures multiset(RequestOf(shard, blobId, nShards))[pair]
         == if RedStuff.PairIndexToShardIndex(pair, blobId, nShards) == Ok(shard) then 1 else 0
  {
    RedStuff.RotationInverts(shard, blobId, nShards);
    RedStuff.RotationInverts(pair, blobId, nShards);
  }

  lemma {:induction false} RequestsInRange(shards: seq<int>, blobId: Bytes, nShards: int)
    ensures forall pair :: pair in Requests(shards, blobId, nShards) ==> pair < nShards
    decreases |shards|
  {
    if shards != [] {
      RequestsInRange(shards[..|shards| - 1], blobId, nShards);
      RedStuff.RotationInverts(shards[|shards| - 1], blobId, nShards);
    }
  }

  // Asking members one by one asks for what asking for all their shards together does.
  lemma {:induction false} RequestsJoin(a: seq<int>, b: seq<int>, blobId: Bytes, nShards: int)
    ensures Requests(a + b, blobId, nShards) == Requests(a, blobId, nShards) + Requests(b, blobId, nShards)
    decreases |b|
  {
    if b == [] {
      assert a + b == a;
    } else {
      assert (a + b)[..|a + b| - 1] == a + b[..|b| - 1];
      RequestsJoin(a, b[..|b| - 1], blobId, nShards);
    }
  }

  // ----- Slivers with the node that served them -----

  datatype Attributed = Attributed(sliver: Bytes, nodeId: Text)

  ghost predicate DistinctSlivers(xs: seq<Attributed>) {
    forall i, j :: 0 <= i < j < |xs| ==> xs[i].sliver != xs[j].sliver
  }

  predicate Has(xs: seq<Attributed>, sliver: Bytes) { exists x :: x in xs && x.sliver == sliver }

  // The first list, followed by what the second adds to it.
  function Merge(first: seq<Attributed>, second: seq<Attributed>): seq<Attributed> {
    if second == [] then first
    else
      var merged, last := Merge(first, second[..|second| - 1]), second[|second| - 1];
      if Has(merged, last.sliver) then merged else merged + [last]
  }

  method MergeDistinct(first: seq<Attributed>, second: seq<Attributed>) returns (merged: seq<Attributed>)
    ensures merged == Merge(first, second)
  {
    merged := first;
    var seen := set x | x in first :: x.sliver;
    for i := 0 to |second|
      invariant merged == Merge(first, second[..i])
      invariant forall sliver :: sliver in seen <==> Has(merged, sliver)
    {
      assert second[..i + 1][..i] == second[..i];
      var last := second[i];
      if last.sliver !in seen {
        HasAppend(merged, last);
        seen := seen + {last.sliver};
        merged := merged + [last];
      }
    }
    assert second[..|second|] == second;
  }

  lemma HasAppend(xs: seq<Attributed>, last: Attributed)
    ensures forall sliver :: Has(xs + [last], sliver) <==> Has(xs, sliver) || sliver == last.sliver
  {
    assert last in xs + [last];
    forall x | x in xs ensures x in xs + [last] {}
  }

  lemma {:induction false} MergeKeeps(first: seq<Attributed>, second: seq<Attributed>)
    requires DistinctSlivers(first)
    ensures DistinctSlivers(Merge(first, second)) && |Merge(first, second)| >= |first|
    ensures forall x :: x in Merge(first, second) ==> x in first || x in second
    ensures forall sliver :: Has(Merge(first, second), sliver) <==> Has(first, sliver) || Has(second, sliver)
    decreases |second|
  {
    if second != [] {
      var n := |second| - 1;
      var merged, last := Merge(first, second[..n]), second[n];
      MergeKeeps(first, second[..n]);
      assert second == second[..n] + [last];
      HasAppend(second[..n], last);
      HasAppend(merged, last);
      if !Has(merged, last.sliver) {
        forall i | 0 <= i < |merged| ensures merged[i].sliver != last.sliver { assert merged[i] in merged; }
      }
    }
  }

  // The first list stays in front, and a content it lacks is credited to the first of the second to bring it.
  lemma {:induction false} MergeCredits(first: seq<Attributed>, second: seq<Attributed>, k: nat)
    ensures |Merge(first, second)| >= |first| && Merge(first, second)[..|first|] == first
    ensures k < |second| && !Has(first, second[k].sliver) && !Has(second[..k], second[k].sliver) ==>
              second[k] in Merge(first, second)[|first|..]
    decreases |second|
  {
    if second != [] {
      var n := |second| - 1;
      MergeCredits(first, second[..n], k);
      var before := Merge(first, second[..n]);
      if k < n {
        assert second[..n][..k] == second[..k];
        assert before[|first|..] <= Merge(first, second)[|first|..];
      } else if k == n && !Has(first, second[n].sliver) && !Has(second[..n], second[n].sliver) {
        MergeContents(first, second[..n], second[n].sliver);
        assert Merge(first, second) == before + [second[n]];
        assert Merge(first, second)[|first|..][|before| - |first|] == second[n];
      }
    }
  }

  lemma {:induction false} MergeContents(first: seq<Attributed>, second: seq<Attributed>, sliver: Bytes)
    ensures Has(Merge(first, second), sliver) <==> Has(first, sliver) || Has(second, sliver)
    decreases |second|
  {
    if second != [] {
      var n := |second| - 1;
      MergeContents(first, second[..n], sliver);
      assert second == second[..n] + [second[n]];
      HasAppend(second[..n], second[n]);
      HasAppend(Merge(first, second[..n]), second[n]);
    }
  }

  ghost function SliverSet(xs: seq<Attributed>): set<Bytes> { set x | x in xs :: x.sliver }

  lemma {:induction false} SliversCounted(xs: seq<Attributed>)
    ensures |SliverSet(xs)| <= |xs|
    ensures DistinctSlivers(xs) ==> |SliverSet(xs)| == |xs|
    decreases |xs|
  {
    if xs == [] {
      assert SliverSet(xs) == {};
    } else {
      var n := |xs| - 1;
      SliversCounted(xs[..n]);
      assert xs == xs[..n] + [xs[n]];
      assert SliverSet(xs) == SliverSet(xs[..n]) + {xs[n].sliver};
    }
  }

  lemma MergeCovers(first: seq<Attributed>, second: seq<Attributed>)
    requires DistinctSlivers(first) && DistinctSlivers(second)
    ensures |Merge(first, second)| >= |second|
  {
    var merged := Merge(first, second);
    MergeKeeps(first, second);
    SliversCounted(merged);
    SliversCounted(second);
    forall x | x in second ensures x.sliver in SliverSet(merged) {
      assert Has(second, x.sliver) && Has(merged, x.sliver);
    }
    assert SliverSet(merged) == SliverSet(second) + (SliverSet(merged) - SliverSet(second));
  }

  // ----- The fetch -----

  // What one node's task comes to: the slivers it supplied, or an exception.
  datatype NodeAnswer = Supplied(slivers: seq<Bytes>) | Raised

  // The members queried, as positions, and what each position answers.
  datatype Round = Round(members: seq<Member>, queried: seq<nat>, answers: nat -> NodeAnswer)

  // Members that hold shards and are not excluded, in committee order.
  function Queried(members: seq<Member>, excluded: set<Text>): seq<nat> {
    if members == [] then []
    else
      var n := |members| - 1;
      Queried(members[..n], excluded)
      + if members[n].shards != [] && members[n].nodeId !in excluded then [n] else []
  }

  method ChooseNodes(members: seq<Member>, excluded: set<Text>) returns (queried: seq<nat>)
    ensures queried == Queried(members, excluded)
  {
    queried := [];
    for i := 0 to |members|
      invariant queried == Queried(members[..i], excluded)
    {
      assert members[..i + 1][..i] == members[..i];
      if members[i].shards != [] && members[i].nodeId !in excluded {
        queried := queried + [i];
      }
    }
    assert members[..|members|] == members;
  }

  lemma {:induction false} QueriedExact(members: seq<Member>, excluded: set<Text>, p: nat)
    ensures p in Queried(members, excluded)
       <==> p < |members| && members[p].shards != [] && members[p].nodeId !in excluded
  {
    if members != [] {
      QueriedExact(members[..|members| - 1], excluded, p);
    }
  }

  // Members are queried in committee order, none of them twice.
  lemma {:induction false} QueriedInOrder(members: seq<Member>, excluded: set<Text>)
    ensures InOrder(Queried(members, excluded))
  {
    if members != [] {
      var n := |members| - 1;
      QueriedInOrder(members[..n], excluded);
      var before := Queried(members[..n], excluded);
      forall i | 0 <= i < |before| ensures before[i] < n {
        assert before[i] in before;
        QueriedExact(members[..n], excluded, before[i]);
      }
      if members[n].shards != [] && members[n].nodeId !in excluded {
        assert Queried(members, excluded) == before + [n];
      } else {
        assert Queried(members, excluded) == before + [] == before;
      }
    }
  }

  ghost predicate InOrder(positions: seq<nat>) { forall i, j :: 0 <= i < j < |positions| ==> positions[i] < positions[j] }

  // The sliver pairs asked of the members at these positions.
  function RoundRequests(members: seq<Member>, queried: seq<nat>, blobId: Bytes, nShards: int): seq<nat> {
    if queried == [] then []
    else
      var p := queried[|queried| - 1];
      RoundRequests(members, queried[..|queried| - 1], blobId, nShards)
      + if p < |members| then Requests(members[p].shards, blobId, nShards) else []
  }

  lemma {:induction false} RequestsFrame(members: seq<Member>, n: nat, queried: seq<nat>, blobId: Bytes, nShards: int)
    requires n <= |members| && forall i :: 0 <= i < |queried| ==> queried[i] < n
    ensures RoundRequests(members, queried, blobId, nShards) == RoundRequests(members[..n], queried, blobId, nShards)
    decreases |queried|
  {
    if queried != [] {
      RequestsFrame(members, n, queried[..|queried| - 1], blobId, nShards);
    }
  }

  lemma RoundAppend(members: seq<Member>, queried: seq<nat>, p: nat, blobId: Bytes, nShards: int)
    requires p < |members|
    ensures RoundRequests(members, queried + [p], blobId, nShards)
         == RoundRequests(members, queried, blobId, nShards) + Requests(members[p].shards, blobId, nShards)
  {
    assert (queried + [p])[..|queried|] == queried;
  }

  lemma LastQueried(members: seq<Member>, blobId: Bytes, nShards: int)
    requires members != []
    ensures var n := |members| - 1;
            RoundRequests(members, Queried(members, {}), blobId, nShards)
            == RoundRequests(members[..n], Queried(members[..n], {}), blobId, nShards)
               + Requests(members[n].shards, blobId, nShards)
  {
    var n := |members| - 1;
    var queried := Queried(members[..n], {});
    forall i | 0 <= i < |queried| ensures queried[i] < n {
      assert queried[i] in queried;
      QueriedExact(members[..n], {}, queried[i]);
    }
    RequestsFrame(members, n, queried, blobId, nShards);
    if members[n].shards == [] {
      assert Queried(members, {}) == queried + [] == queried;
    } else {
      RoundAppend(members, queried, n, blobId, nShards);
    }
  }

  lemma {:induction false} QueriedRequests(members: seq<Member>, blobId: Bytes, nShards: int)
    ensures RoundRequests(members, Queried(members, {}), blobId, nShards)
         == Requests(Claimed(Entries(members)), blobId, nShards)
  {
    if members == [] {
      assert Entries(members) == [];
    } else {
      var n := |members| - 1;
      assert Entries(members) == Entries(members[..n]) + [EntryOf(members[n])];
      hide *;
      LastQueried(members, blobId, nShards);
      QueriedRequests(members[..n], blobId, nShards);
      ClaimedAppend(Entries(members[..n]), EntryOf(members[n]));
      ShardsOfEntry(members[n]);
      RequestsJoin(Claimed(Entries(members[..n])), members[n].shards, blobId, nShards);
    }
  }

  lemma ShardsOfEntry(member: Member)
    ensures EntryOf(member).shards == member.shards
  {
  }

  lemma PairHasShard(blobId: Bytes, nShards: int, pair: nat) returns (shard: nat)
    requires |blobId| == RedStuff.BLOB_ID_LENGTH && pair < nShards
    ensures shard < nShards && RedStuff.PairIndexToShardIndex(pair, blobId, nShards) == Ok(shard)
  {
    RedStuff.RotationInverts(pair, blobId, nShards);
    shard := RedStuff.PairIndexToShardIndex(pair, blobId, nShards).value;
  }

  /** A read over all members of a validated committee requests each sliver pair exactly once. */
  lemma EveryPairRequestedOnce(committee: Committee, blobId: Bytes, pair: nat)
    requires Validated(committee) && |blobId| == RedStuff.BLOB_ID_LENGTH
    ensures var requests := RoundRequests(committee.members, Queried(committee.members, {}), blobId, committee.nShards);
            multiset(requests)[pair] == if pair < committee.nShards then 1 else 0
  {
    var n, claims := committee.nShards, Claimed(Entries(committee.members));
    assert forall shard :: 0 <= shard < n ==> multiset(claims)[shard] == 1;
    hide *;
    QueriedRequests(committee.members, blobId, n);
    if pair < n {
      var shard := PairHasShard(blobId, n, pair);
      RequestsCount(claims, blobId, n, pair, shard);
    } else {
      RequestsInRange(claims, blobId, n);
      assert pair !in Requests(claims, blobId, n);
    }
  }

  function Attribute(slivers: seq<Bytes>, nodeId: Text): (r: seq<Attributed>)
    ensures |r| == |slivers| && forall i :: 0 <= i < |r| ==> r[i] == Attributed(slivers[i], nodeId)
  {
    seq(|slivers|, i requires 0 <= i < |slivers| => Attributed(slivers[i], nodeId))
  }

  function Recorded(round: Round, report: Report): seq<Attributed> {
    match report
    case Completed(t) =>
      if t < |round.queried| && round.queried[t] < |round.members| then
        match round.answers(round.queried[t])
        case Supplied(slivers) => Attribute(slivers, round.members[round.queried[t]].nodeId)
        case Raised => []
      else []
    case Cancelled(_) => []
    case ThresholdReached => []
  }

  function Recorder(round: Round): Report -> seq<Attributed> { report => Recorded(round, report) }

  // The distinct slivers of what completed, each credited to the first node that served it.
  function Collected(round: Round, log: seq<Report>): seq<Attributed> {
    Merge([], Gather(log, Recorder(round)))
  }

  function Enough(round: Round, threshold: int): seq<Report> -> bool {
    log => |Collected(round, log)| >= threshold
  }

  method FoldSlivers(round: Round, log: seq<Report>) returns (collected: seq<Attributed>)
    ensures collected == Collected(round, log)
  {
    collected := [];
    for i := 0 to |log|
      invariant collected == Collected(round, log[..i])
    {
      assert log[..i + 1][..i] == log[..i];
      var served := Recorded(round, log[i]);
      MergeInParts([], Gather(log[..i], Recorder(round)), served);
      collected := MergeDistinct(collected, served);
    }
    assert log[..|log|] == log;
  }

  lemma {:induction false} MergeInParts(first: seq<Attributed>, a: seq<Attributed>, b: seq<Attributed>)
    ensures Merge(first, a + b) == Merge(Merge(first, a), b)
    decreases |b|
  {
    if b == [] {
      assert a + b == a;
    } else {
      assert (a + b)[..|a + b| - 1] == a + b[..|b| - 1];
      MergeInParts(first, a, b[..|b| - 1]);
    }
  }

  datatype FetchError = Interrupted | TooFew(collected: nat)

  // What a node that is asked supplied.
  ghost predicate Served(members: seq<Member>, excluded: set<Text>, answers: nat -> NodeAnswer, sliver: Bytes, nodeId: Text) {
    exists p: nat :: p in Queried(members, excluded) && p < |members| && members[p].nodeId == nodeId
                     && answers(p).Supplied? && sliver in answers(p).slivers
  }

  // Distinct slivers, each served by a node that was asked.
  ghost predicate HonestlyAttributed(members: seq<Member>, excluded: set<Text>, answers: nat -> NodeAnswer,
                                     collected: seq<Attributed>)
  {
    && DistinctSlivers(collected)
    && forall x :: x in collected ==> Served(members, excluded, answers, x.sliver, x.nodeId)
  }

  // No node that was asked supplied a sliver that is missing here.
  ghost predicate Exhaustive(members: seq<Member>, excluded: set<Text>, answers: nat -> NodeAnswer,
                             collected: seq<Attributed>)
  {
    forall sliver, nodeId :: Served(members, excluded, answers, sliver, nodeId) ==> Has(collected, sliver)
  }

  // All that the queried nodes supplied, counted by content, is this many slivers.
  ghost predicate Shortfall(members: seq<Member>, excluded: set<Text>, answers: nat -> NodeAnswer, count: nat) {
    exists collected ::
      && HonestlyAttributed(members, excluded, answers, collected) && Exhaustive(members, excluded, answers, collected)
      && |collected| == count
  }

  // What a fetch collects when these of the queried nodes complete, in this order.
  function Taken(members: seq<Member>, excluded: set<Text>, answers: nat -> NodeAnswer, ts: seq<nat>): seq<Attributed> {
    Collected(Round(members, Queried(members, excluded), answers), AllCompleted(ts))
  }

  // Some run of a fetch collects exactly this.
  ghost predicate Fetched(members: seq<Member>, excluded: set<Text>, answers: nat -> NodeAnswer, threshold: int,
                          collected: seq<Attributed>)
  {
    var round := Round(members, Queried(members, excluded), answers);
    exists run :: ValidRun(run, |round.queried|, Enough(round, threshold))
                  && collected == Collected(round, Log(run, Enough(round, threshold), false))
  }

  /** What the runs of a fetch can collect to its threshold is what selections of the queried nodes supply. */
  lemma FetchedIffSelected(members: seq<Member>, excluded: set<Text>, answers: nat -> NodeAnswer, threshold: int,
                           collected: seq<Attributed>)
    requires |collected| >= threshold >= 1
    ensures Fetched(members, excluded, answers, threshold, collected)
       <==> exists ts :: Selection(ts, |Queried(members, excluded)|) && collected == Taken(members, excluded, answers, ts)
  {
    var round := Round(members, Queried(members, excluded), answers);
    if Fetched(members, excluded, answers, threshold, collected) {
      var _ := FetchedSelection(members, excluded, answers, threshold, collected);
    }
    if ts :| Selection(ts, |round.queried|) && collected == Taken(members, excluded, answers, ts) {
      var run := SelectionIsDelivered(ts, |round.queried|, Enough(round, threshold));
      CollectedDelivered(round, run, threshold);
    }
  }

  lemma FetchedSelection(members: seq<Member>, excluded: set<Text>, answers: nat -> NodeAnswer, threshold: int,
                         collected: seq<Attributed>) returns (ts: seq<nat>)
    requires Fetched(members, excluded, answers, threshold, collected)
    ensures Selection(ts, |Queried(members, excluded)|) && collected == Taken(members, excluded, answers, ts)
  {
    var round := Round(members, Queried(members, excluded), answers);
    var run :| ValidRun(run, |round.queried|, Enough(round, threshold))
               && collected == Collected(round, Log(run, Enough(round, threshold), false));
    DeliveredIsSelection(run, |round.queried|, Enough(round, threshold));
    CollectedDelivered(round, run, threshold);
    ts := Delivered(run);
  }

  lemma CollectedDelivered(round: Round, run: Run, threshold: int)
    ensures Collected(round, Log(run, Enough(round, threshold), false)) == Collected(round, AllCompleted(Delivered(run)))
  {
    assert Recorder(round)(ThresholdReached) == [];
    GatherLog(run, Enough(round, threshold), false, Recorder(round));
    NothingFromCancelled(round, run.stragglers);
    var gathered := Gather(AllCompleted(Delivered(run)), Recorder(round));
    assert gathered + [] == gathered;
  }

  lemma {:induction false} NothingFromCancelled(round: Round, ts: seq<nat>)
    ensures Gather(AllCancelled(ts), Recorder(round)) == []
    decreases |ts|
  {
    if ts != [] {
      var n := |ts| - 1;
      assert AllCancelled(ts)[..n] == AllCancelled(ts[..n]);
      NothingFromCancelled(round, ts[..n]);
    }
  }

  /** Fetches distinct slivers until the threshold. It falls short only when all that the queried nodes
      supplied, counted by content, does. */
  method FetchSlivers(members: seq<Member>, excluded: set<Text>, answers: nat -> NodeAnswer, threshold: int,
                      interruptible: bool)
    returns (r: Result<seq<Attributed>, FetchError>)
    ensures r.Ok? ==> HonestlyAttributed(members, excluded, answers, r.value) && |r.value| >= threshold
    ensures r.Ok? ==> Fetched(members, excluded, answers, threshold, r.value)
    ensures r == Err(Interrupted) ==> interruptible
    ensures r.Err? && r.error.TooFew? ==>
              r.error.collected < threshold && Shortfall(members, excluded, answers, r.error.collected)
  {
    var queried := ChooseNodes(members, excluded);
    var round := Round(members, queried, answers);
    var log, interrupted, _, _, run := DriveFanOut(|queried|, Enough(round, threshold), false, interruptible);
    if interrupted {
      return Err(Interrupted);
    }
    var slivers := FoldSlivers(round, log);
    CollectedHonestly(round, excluded, log);
    if |slivers| < threshold {
      ShortFetchIsExhaustive(round, excluded, run, threshold);
      return Err(TooFew(|slivers|));
    }
    return Ok(slivers);
  }

  lemma {:induction false} GatherOrigin(round: Round, log: seq<Report>, x: Attributed) returns (t: nat)
    requires x in Gather(log, Recorder(round))
    ensures Completed(t) in log && x in Recorded(round, Completed(t))
    decreases |log|
  {
    var n := |log| - 1;
    if x in Recorded(round, log[n]) {
      t := log[n].task;
    } else {
      t := GatherOrigin(round, log[..n], x);
    }
  }

  lemma {:induction false} GatherHas(round: Round, log: seq<Report>, t: nat, x: Attributed)
    requires Completed(t) in log && x in Recorded(round, Completed(t))
    ensures x in Gather(log, Recorder(round))
    decreases |log|
  {
    var n := |log| - 1;
    assert log == log[..n] + [log[n]];
    if log[n] != Completed(t) {
      GatherHas(round, log[..n], t, x);
    }
  }

  lemma SuppliedIsServed(round: Round, excluded: set<Text>, t: nat, x: Attributed)
    requires round.queried == Queried(round.members, excluded) && x in Recorded(round, Completed(t))
    ensures Served(round.members, excluded, round.answers, x.sliver, x.nodeId)
  {
    var p := round.queried[t];
    assert p in Queried(round.members, excluded);
  }

  lemma CollectedHonestly(round: Round, excluded: set<Text>, log: seq<Report>)
    requires round.queried == Queried(round.members, excluded)
    ensures HonestlyAttributed(round.members, excluded, round.answers, Collected(round, log))
  {
    MergeKeeps([], Gather(log, Recorder(round)));
    forall x | x in Collected(round, log)
      ensures Served(round.members, excluded, round.answers, x.sliver, x.nodeId)
    {
      var t := GatherOrigin(round, log, x);
      SuppliedIsServed(round, excluded, t, x);
    }
  }

  // More reports never collect less.
  lemma CollectedGrows(round: Round, a: seq<Report>, b: seq<Report>)
    ensures |Collected(round, a)| <= |Collected(round, a + b)|
  {
    GatherConcat(a, b, Recorder(round));
    MergeInParts([], Gather(a, Recorder(round)), Gather(b, Recorder(round)));
    MergeKeeps([], Gather(a, Recorder(round)));
    MergeKeeps(Collected(round, a), Gather(b, Recorder(round)));
  }

  lemma ShortFetchIsExhaustive(round: Round, excluded: set<Text>, run: Run, threshold: int)
    requires round.queried == Queried(round.members, excluded)
    requires ValidRun(run, |round.queried|, Enough(round, threshold))
    requires |Collected(round, Log(run, Enough(round, threshold), false))| < threshold
    ensures Exhaustive(round.members, excluded, round.answers, Collected(round, Log(run, Enough(round, threshold), false)))
  {
    var log := Log(run, Enough(round, threshold), false);
    assert log == MainLog(run) + (AllCompleted(run.grace) + AllCancelled(run.stragglers));
    CollectedGrows(round, MainLog(run), AllCompleted(run.grace) + AllCancelled(run.stragglers));
    assert !Enough(round, threshold)(MainLog(run));
    MergeKeeps([], Gather(log, Recorder(round)));
    forall sliver, nodeId | Served(round.members, excluded, round.answers, sliver, nodeId)
      ensures Has(Collected(round, log), sliver)
    {
      ServedIsGathered(round, excluded, run, threshold, sliver, nodeId);
      assert Has(Gather(log, Recorder(round)), sliver);
    }
  }

  lemma ServedIsGathered(round: Round, excluded: set<Text>, run: Run, threshold: int, sliver: Bytes, nodeId: Text)
    requires round.queried == Queried(round.members, excluded)
    requires ValidRun(run, |round.queried|, Enough(round, threshold)) && !Enough(round, threshold)(MainLog(run))
    requires Served(round.members, excluded, round.answers, sliver, nodeId)
    ensures Attributed(sliver, nodeId) in Gather(Log(run, Enough(round, threshold), false), Recorder(round))
  {
    var p: nat :| p in Queried(round.members, excluded) && p < |round.members| && round.members[p].nodeId == nodeId
                  && round.answers(p).Supplied? && sliver in round.answers(p).slivers;
    var t :| 0 <= t < |round.queried| && round.queried[t] == p;
    NoThresholdCompletesAll(run, |round.queried|, Enough(round, threshold), false, t);
    var served := Attribute(round.answers(p).slivers, nodeId);
    var i :| 0 <= i < |round.answers(p).slivers| && round.answers(p).slivers[i] == sliver;
    assert served[i] == Attributed(sliver, nodeId);
    assert Recorded(round, Completed(t)) == served;
    hide Queried, ValidRun, Log, Served, Recorded;
    GatherHas(round, Log(run, Enough(round, threshold), false), t, Attributed(sliver, nodeId));
  }

  // ----- Decoding, with one round of recovery -----

  // The decoder for one blob and axis, and the check of one sliver against the blob's metadata.
  datatype Codec = Codec(decode: seq<Bytes> -> Option<Bytes>, verifies: Bytes -> bool)

  function Contents(xs: seq<Attributed>): (r: seq<Bytes>)
    ensures |r| == |xs| && forall i :: 0 <= i < |r| ==> r[i] == xs[i].sliver
  {
    seq(|xs|, i requires 0 <= i < |xs| => xs[i].sliver)
  }

  function Verified(xs: seq<Attributed>, verifies: Bytes -> bool): seq<Attributed> {
    if xs == [] then []
    else
      var last := xs[|xs| - 1];
      Verified(xs[..|xs| - 1], verifies) + if verifies(last.sliver) then [last] else []
  }

  function Indicted(xs: seq<Attributed>, verifies: Bytes -> bool): set<Text> {
    set x | x in xs && !verifies(x.sliver) :: x.nodeId
  }

  method PartitionByVerification(xs: seq<Attributed>, verifies: Bytes -> bool)
    returns (verified: seq<Attributed>, indicted: set<Text>)
    ensures verified == Verified(xs, verifies) && indicted == Indicted(xs, verifies)
  {
    verified, indicted := [], {};
    for i := 0 to |xs|
      invariant verified == Verified(xs[..i], verifies) && indicted == Indicted(xs[..i], verifies)
    {
      assert xs[..i + 1] == xs[..i] + [xs[i]] && xs[..i + 1][..i] == xs[..i];
      IndictedStep(xs[..i], xs[i], verifies);
      hide Indicted;
      if verifies(xs[i].sliver) {
        verified := verified + [xs[i]];
      } else {
        indicted := indicted + {xs[i].nodeId};
      }
    }
    assert xs[..|xs|] == xs;
  }

  lemma IndictedStep(xs: seq<Attributed>, last: Attributed, verifies: Bytes -> bool)
    ensures verifies(last.sliver) ==> Indicted(xs + [last], verifies) == Indicted(xs, verifies)
    ensures !verifies(last.sliver) ==> Indicted(xs + [last], verifies) == Indicted(xs, verifies) + {last.nodeId}
  {
    forall x ensures x in xs + [last] <==> x in xs || x == last {}
  }

  lemma {:induction false} VerifiedExact(xs: seq<Attributed>, verifies: Bytes -> bool)
    ensures forall x :: x in Verified(xs, verifies) <==> x in xs && verifies(x.sliver)
    ensures DistinctSlivers(xs) ==> DistinctSlivers(Verified(xs, verifies))
    decreases |xs|
  {
    if xs != [] {
      var n := |xs| - 1;
      VerifiedExact(xs[..n], verifies);
      assert xs == xs[..n] + [xs[n]];
      var rest := Verified(xs[..n], verifies);
      if DistinctSlivers(xs) {
        forall i | 0 <= i < |rest| ensures rest[i].sliver != xs[n].sliver {
          assert rest[i] in rest && rest[i] in xs[..n];
          var k :| 0 <= k < n && xs[..n][k] == rest[i];
          assert xs[k].sliver != xs[n].sliver;
        }
      }
    }
  }

  // What verifies, in the order it was collected.
  lemma {:induction false} VerifiedInOrder(xs: seq<Attributed>, verifies: Bytes -> bool) returns (at: seq<nat>)
    ensures VerifiedAt(xs, verifies, Verified(xs, verifies), at)
    decreases |xs|
  {
    at := [];
    if xs != [] {
      var n := |xs| - 1;
      var before := VerifiedInOrder(xs[..n], verifies);
      at := if verifies(xs[n].sliver) then before + [n] else before;
      hide VerifiedAt;
      VerifiedStep(xs, verifies, Verified(xs[..n], verifies), before);
    }
  }

  // These are the slivers at these positions, in ascending order, and they are all that verify.
  ghost predicate VerifiedAt(xs: seq<Attributed>, verifies: Bytes -> bool, verified: seq<Attributed>, at: seq<nat>) {
    && |at| == |verified| && InOrder(at)
    && (forall k :: 0 <= k < |at| ==> at[k] < |xs| && verified[k] == xs[at[k]])
    && forall i :: 0 <= i < |xs| ==> (i in at <==> verifies(xs[i].sliver))
  }

  lemma VerifiedStep(xs: seq<Attributed>, verifies: Bytes -> bool, verified: seq<Attributed>, before: seq<nat>)
    requires xs != [] && VerifiedAt(xs[..|xs| - 1], verifies, verified, before)
    ensures var n := |xs| - 1;
            if verifies(xs[n].sliver) then VerifiedAt(xs, verifies, verified + [xs[n]], before + [n])
            else VerifiedAt(xs, verifies, verified + [], before)
  {
    var n := |xs| - 1;
    assert verified + [] == verified;
    forall i | 0 <= i < n ensures i in before <==> verifies(xs[i].sliver) { assert xs[..n][i] == xs[i]; }
    forall k | 0 <= k < |before| ensures before[k] < n && verified[k] == xs[before[k]] {
      assert xs[..n][before[k]] == xs[before[k]];
    }
    var more := before + [n];
    assert more[|before|] == n && forall i :: i in more <==> i in before || i == n;
  }

  datatype ReadError = FetchFailed(error: FetchError) | Undecodable

  // One finished read: what came of it, the fetches it made and the batches it decoded.
  datatype Read = Read(outcome: Result<(Bytes, nat), ReadError>, fetches: nat, batches: seq<seq<Attributed>>)

  // A replacement batch keeps what verified, and adds only what nodes outside the indicted served.
  ghost predicate Recovered(codec: Codec, members: seq<Member>, second: nat -> NodeAnswer, bad: seq<Attributed>,
                            batch: seq<Attributed>)
  {
    forall x :: x in batch ==>
      (x in bad && codec.verifies(x.sliver))
      || Served(members, Indicted(bad, codec.verifies), second, x.sliver, x.nodeId)
  }

  // The round a fetch failed in: the first while nothing was decoded, else the one that bars the indicted.
  // All that its nodes supplied, counted by content, was fewer slivers than the threshold.
  ghost predicate FellShort(codec: Codec, members: seq<Member>, first: nat -> NodeAnswer, second: nat -> NodeAnswer,
                            threshold: int, batches: seq<seq<Attributed>>, count: nat)
  {
    && count < threshold
    && if batches == [] then Shortfall(members, {}, first, count)
       else Shortfall(members, Indicted(batches[0], codec.verifies), second, count)
  }

  // Each batch decoded is one that a run of the fetch it came from collects, or is made from such.
  ghost predicate Traced(verifies: Bytes -> bool, members: seq<Member>, first: nat -> NodeAnswer, second: nat -> NodeAnswer,
                         threshold: int, fetches: nat, batches: seq<seq<Attributed>>)
  {
    && (batches != [] ==> Fetched(members, {}, first, threshold, batches[0]))
    && (|batches| == 2 && fetches == 1 ==> batches[1] == Verified(batches[0], verifies))
    && (|batches| == 2 && fetches == 2 ==>
          exists replaced ::
            && Fetched(members, Indicted(batches[0], verifies), second, threshold, replaced) && |replaced| >= threshold
            && batches[1] == Merge(Verified(batches[0], verifies), replaced))
  }

  // What every read keeps, whatever the nodes answer in either round.
  ghost predicate ValidRead(codec: Codec, members: seq<Member>, first: nat -> NodeAnswer, second: nat -> NodeAnswer,
                            threshold: int, read: Read)
  {
    && 1 <= read.fetches <= 2 && |read.batches| <= 2
    && (forall b :: b in read.batches ==> DistinctSlivers(b) && |b| >= threshold)
    && (|read.batches| >= 1 ==> HonestlyAttributed(members, {}, first, read.batches[0]))
    && (read.fetches == 2 || |read.batches| == 2 ==>
          && |read.batches| >= 1 && codec.decode(Contents(read.batches[0])).None?
          && Indicted(read.batches[0], codec.verifies) != {})
    && (read.fetches == 2 ==> |Verified(read.batches[0], codec.verifies)| < threshold)
    && (|read.batches| == 2 ==> Recovered(codec, members, second, read.batches[0], read.batches[1]))
    && match read.outcome
       case Ok((content, count)) =>
         && read.batches != [] && count == |read.batches[|read.batches| - 1]|
         && codec.decode(Contents(read.batches[|read.batches| - 1])) == Some(content)
       case Err(Undecodable) =>
         && read.batches != [] && codec.decode(Contents(read.batches[|read.batches| - 1])).None?
         && (|read.batches| == 1 ==> Indicted(read.batches[0], codec.verifies) == {})
       case Err(FetchFailed(error)) =>
         && |read.batches| < read.fetches
         && (error.TooFew? ==> FellShort(codec, members, first, second, threshold, read.batches, error.collected))
  }

  // A read made of runs: it keeps what every read keeps, and its batches come from runs of its fetches.
  ghost predicate RunRead(codec: Codec, members: seq<Member>, first: nat -> NodeAnswer, second: nat -> NodeAnswer,
                          threshold: int, read: Read)
  {
    && ValidRead(codec, members, first, second, threshold, read)
    && Traced(codec.verifies, members, first, second, threshold, read.fetches, read.batches)
  }

  lemma TracedToMerged(verifies: Bytes -> bool, members: seq<Member>, first: nat -> NodeAnswer, second: nat -> NodeAnswer,
                       threshold: int, bad: seq<Attributed>, replaced: seq<Attributed>)
    requires Fetched(members, {}, first, threshold, bad) && |replaced| >= threshold
    requires Fetched(members, Indicted(bad, verifies), second, threshold, replaced)
    ensures Traced(verifies, members, first, second, threshold, 2, [bad, Merge(Verified(bad, verifies), replaced)])
  {
    hide Fetched, Indicted, Verified, Merge;
  }

  lemma TracedToVerified(verifies: Bytes -> bool, members: seq<Member>, first: nat -> NodeAnswer, second: nat -> NodeAnswer,
                         threshold: int, bad: seq<Attributed>)
    requires Fetched(members, {}, first, threshold, bad)
    ensures Traced(verifies, members, first, second, threshold, 1, [bad, Verified(bad, verifies)])
    ensures forall fetches: nat :: Traced(verifies, members, first, second, threshold, fetches, [bad])
  {
    hide Fetched, Indicted, Verified, Merge;
  }

  // A first batch that did not decode and has someone to blame.
  ghost predicate Rejected(codec: Codec, members: seq<Member>, first: nat -> NodeAnswer, threshold: int,
                           bad: seq<Attributed>)
  {
    && HonestlyAttributed(members, {}, first, bad) && |bad| >= threshold
    && codec.decode(Contents(bad)).None? && Indicted(bad, codec.verifies) != {}
  }

  lemma DecodedAtOnce(codec: Codec, members: seq<Member>, first: nat -> NodeAnswer, second: nat -> NodeAnswer,
                      threshold: int, batch: seq<Attributed>)
    requires HonestlyAttributed(members, {}, first, batch) && |batch| >= threshold
    requires codec.decode(Contents(batch)).None? ==> Indicted(batch, codec.verifies) == {}
    ensures ValidRead(codec, members, first, second, threshold, Read(Decoding(codec, batch), 1, [batch]))
  {
    hide Contents;
  }

  lemma DecodedSecond(codec: Codec, members: seq<Member>, first: nat -> NodeAnswer, second: nat -> NodeAnswer,
                      threshold: int, bad: seq<Attributed>, batch: seq<Attributed>, fetches: nat)
    requires Rejected(codec, members, first, threshold, bad)
    requires Recovered(codec, members, second, bad, batch) && DistinctSlivers(batch) && |batch| >= threshold
    requires fetches == 1 || (fetches == 2 && |Verified(bad, codec.verifies)| < threshold)
    ensures ValidRead(codec, members, first, second, threshold, Read(Decoding(codec, batch), fetches, [bad, batch]))
  {
    assert DistinctSlivers(bad);
    hide HonestlyAttributed, DistinctSlivers, Verified, Recovered, Indicted, Contents;
  }

  lemma DecodedVerified(codec: Codec, members: seq<Member>, first: nat -> NodeAnswer, second: nat -> NodeAnswer,
                        threshold: int, bad: seq<Attributed>)
    requires Rejected(codec, members, first, threshold, bad) && |Verified(bad, codec.verifies)| >= threshold
    ensures var verified := Verified(bad, codec.verifies);
            ValidRead(codec, members, first, second, threshold, Read(Decoding(codec, verified), 1, [bad, verified]))
  {
    VerifiedExact(bad, codec.verifies);
    DecodedSecond(codec, members, first, second, threshold, bad, Verified(bad, codec.verifies), 1);
  }

  lemma NotFetched(codec: Codec, members: seq<Member>, first: nat -> NodeAnswer, second: nat -> NodeAnswer,
                   threshold: int, e: FetchError)
    requires e.TooFew? ==> e.collected < threshold && Shortfall(members, {}, first, e.collected)
    ensures ValidRead(codec, members, first, second, threshold, Read(Err(FetchFailed(e)), 1, []))
  {
    hide Shortfall;
  }

  lemma NotReplaced(codec: Codec, members: seq<Member>, first: nat -> NodeAnswer, second: nat -> NodeAnswer,
                    threshold: int, bad: seq<Attributed>, e: FetchError)
    requires Rejected(codec, members, first, threshold, bad) && |Verified(bad, codec.verifies)| < threshold
    requires e.TooFew? ==>
               e.collected < threshold && Shortfall(members, Indicted(bad, codec.verifies), second, e.collected)
    ensures ValidRead(codec, members, first, second, threshold, Read(Err(FetchFailed(e)), 2, [bad]))
  {
    hide Shortfall, Contents;
  }

  lemma DecodedReplaced(codec: Codec, members: seq<Member>, first: nat -> NodeAnswer, second: nat -> NodeAnswer,
                        threshold: int, bad: seq<Attributed>, replacements: seq<Attributed>)
    requires Rejected(codec, members, first, threshold, bad) && |Verified(bad, codec.verifies)| < threshold
    requires HonestlyAttributed(members, Indicted(bad, codec.verifies), second, replacements) && |replacements| >= threshold
    ensures var merged := Merge(Verified(bad, codec.verifies), replacements);
            ValidRead(codec, members, first, second, threshold, Read(Decoding(codec, merged), 2, [bad, merged]))
  {
    var verified := Verified(bad, codec.verifies);
    VerifiedExact(bad, codec.verifies);
    MergeKeeps(verified, replacements);
    MergeCovers(verified, replacements);
    assert Recovered(codec, members, second, bad, Merge(verified, replacements));
    hide *;
    DecodedSecond(codec, members, first, second, threshold, bad, Merge(verified, replacements), 2);
  }

  function Decoding(codec: Codec, batch: seq<Attributed>): Result<(Bytes, nat), ReadError> {
    match codec.decode(Contents(batch))
    case Some(content) => Ok((content, |batch|))
    case None => Err(Undecodable)
  }

  lemma BlamedFirst(codec: Codec, members: seq<Member>, first: nat -> NodeAnswer, threshold: int, batch: seq<Attributed>)
    requires HonestlyAttributed(members, {}, first, batch) && |batch| >= threshold
    requires !Decoding(codec, batch).Ok? && Indicted(batch, codec.verifies) != {}
    ensures Rejected(codec, members, first, threshold, batch)
  {
  }

  // ----- The ways a read ends -----

  lemma EndsUnfetched(codec: Codec, members: seq<Member>, first: nat -> NodeAnswer, second: nat -> NodeAnswer,
                      threshold: int, e: FetchError)
    requires e.TooFew? ==> e.collected < threshold && Shortfall(members, {}, first, e.collected)
    ensures RunRead(codec, members, first, second, threshold, Read(Err(FetchFailed(e)), 1, []))
  {
    NotFetched(codec, members, first, second, threshold, e);
    hide ValidRead;
  }

  lemma EndsAtOnce(codec: Codec, members: seq<Member>, first: nat -> NodeAnswer, second: nat -> NodeAnswer,
                   threshold: int, batch: seq<Attributed>)
    requires HonestlyAttributed(members, {}, first, batch) && |batch| >= threshold
    requires Fetched(members, {}, first, threshold, batch)
    requires Decoding(codec, batch).Ok? || Indicted(batch, codec.verifies) == {}
    ensures RunRead(codec, members, first, second, threshold, Read(Decoding(codec, batch), 1, [batch]))
  {
    TracedToVerified(codec.verifies, members, first, second, threshold, batch);
    DecodedAtOnce(codec, members, first, second, threshold, batch);
    hide ValidRead, Traced;
  }

  lemma EndsVerified(codec: Codec, members: seq<Member>, first: nat -> NodeAnswer, second: nat -> NodeAnswer,
                     threshold: int, bad: seq<Attributed>)
    requires Rejected(codec, members, first, threshold, bad) && |Verified(bad, codec.verifies)| >= threshold
    requires Fetched(members, {}, first, threshold, bad)
    ensures var verified := Verified(bad, codec.verifies);
            RunRead(codec, members, first, second, threshold, Read(Decoding(codec, verified), 1, [bad, verified]))
  {
    TracedToVerified(codec.verifies, members, first, second, threshold, bad);
    DecodedVerified(codec, members, first, second, threshold, bad);
    hide ValidRead, Traced;
  }

  lemma EndsUnreplaced(codec: Codec, members: seq<Member>, first: nat -> NodeAnswer, second: nat -> NodeAnswer,
                       threshold: int, bad: seq<Attributed>, e: FetchError)
    requires Rejected(codec, members, first, threshold, bad) && |Verified(bad, codec.verifies)| < threshold
    requires Fetched(members, {}, first, threshold, bad)
    requires e.TooFew? ==>
               e.collected < threshold && Shortfall(members, Indicted(bad, codec.verifies), second, e.collected)
    ensures RunRead(codec, members, first, second, threshold, Read(Err(FetchFailed(e)), 2, [bad]))
  {
    TracedToVerified(codec.verifies, members, first, second, threshold, bad);
    NotReplaced(codec, members, first, second, threshold, bad, e);
    hide ValidRead, Traced;
  }

  lemma EndsMerged(codec: Codec, members: seq<Member>, first: nat -> NodeAnswer, second: nat -> NodeAnswer,
                   threshold: int, bad: seq<Attributed>, replaced: seq<Attributed>)
    requires Rejected(codec, members, first, threshold, bad) && |Verified(bad, codec.verifies)| < threshold
    requires Fetched(members, {}, first, threshold, bad)
    requires HonestlyAttributed(members, Indicted(bad, codec.verifies), second, replaced) && |replaced| >= threshold
    requires Fetched(members, Indicted(bad, codec.verifies), second, threshold, replaced)
    ensures var merged := Merge(Verified(bad, codec.verifies), replaced);
            RunRead(codec, members, first, second, threshold, Read(Decoding(codec, merged), 2, [bad, merged]))
  {
    TracedToMerged(codec.verifies, members, first, second, threshold, bad, replaced);
    DecodedReplaced(codec, members, first, second, threshold, bad, replaced);
    hide ValidRead, Traced;
  }

  /** Fetches and decodes; when decoding fails, bars the nodes that served slivers that do not verify
      and tries once more with what they are replaced by. */
  method ReconstructBlob(codec: Codec, members: seq<Member>, first: nat -> NodeAnswer, second: nat -> NodeAnswer,
                         threshold: int, interruptible: bool)
    returns (r: Result<(Bytes, nat), ReadError>)
    ensures exists read :: RunRead(codec, members, first, second, threshold, read) && read.outcome == r
    ensures r == Err(FetchFailed(Interrupted)) ==> interruptible
  {
    hide RunRead, Rejected, Fetched, Traced, ValidRead, HonestlyAttributed, Shortfall, Verified, Indicted, Merge;
    var fetched := FetchSlivers(members, {}, first, threshold, interruptible);
    if fetched.Err? {
      r := Err(FetchFailed(fetched.error));
      EndsUnfetched(codec, members, first, second, threshold, fetched.error);
      return;
    }
    var attributed := fetched.value;
    r := Decoding(codec, attributed);
    if r.Ok? {
      EndsAtOnce(codec, members, first, second, threshold, attributed);
      return;
    }
    var verified, indicted := PartitionByVerification(attributed, codec.verifies);
    if indicted == {} {
      EndsAtOnce(codec, members, first, second, threshold, attributed);
      return;
    }
    BlamedFirst(codec, members, first, threshold, attributed);
    if |verified| >= threshold {
      r := Decoding(codec, verified);
      EndsVerified(codec, members, first, second, threshold, attributed);
      return;
    }
    var replaced := FetchSlivers(members, indicted, second, threshold, interruptible);
    if replaced.Err? {
      r := Err(FetchFailed(replaced.error));
      EndsUnreplaced(codec, members, first, second, threshold, attributed, replaced.error);
      return;
    }
    var merged := MergeDistinct(verified, replaced.value);
    r := Decoding(codec, merged);
    EndsMerged(codec, members, first, second, threshold, attributed, replaced.value);
  }

  // ----- When a read returns the blob -----

  ghost predicate Distinct(slivers: seq<Bytes>) {
    forall i, j :: 0 <= i < j < |slivers| ==> slivers[i] != slivers[j]
  }

  // Enough distinct slivers that all verify.
  ghost predicate Sufficient(verifies: Bytes -> bool, threshold: int, slivers: seq<Bytes>) {
    && Distinct(slivers) && |slivers| >= threshold
    && forall s :: s in slivers ==> verifies(s)
  }

  // What decoding rests on: enough distinct verifying slivers decode to the blob.
  ghost predicate Decodes(codec: Codec, blob: Bytes, threshold: int) {
    forall slivers :: Sufficient(codec.verifies, threshold, slivers) ==> codec.decode(slivers) == Some(blob)
  }

  // What a decode that re-derives the blob identifier adds: it never returns other bytes.
  ghost predicate Rederives(codec: Codec, blob: Bytes) {
    forall slivers :: codec.decode(slivers) in {None, Some(blob)}
  }

  ghost predicate AllVerify(codec: Codec, batch: seq<Attributed>) {
    forall x :: x in batch ==> codec.verifies(x.sliver)
  }

  lemma VerifyingBatchDecodes(codec: Codec, blob: Bytes, threshold: int, batch: seq<Attributed>)
    requires Decodes(codec, blob, threshold) && DistinctSlivers(batch) && |batch| >= threshold && AllVerify(codec, batch)
    ensures codec.decode(Contents(batch)) == Some(blob)
  {
    var slivers := Contents(batch);
    forall s | s in slivers ensures codec.verifies(s) {
      var i :| 0 <= i < |slivers| && slivers[i] == s;
      assert batch[i] in batch;
    }
    assert Sufficient(codec.verifies, threshold, slivers);
  }

  /** Whatever the nodes answer first, and as long as those asked in the second round serve only slivers
      that verify, a verifying read returns the blob, or is interrupted, or has fetched every sliver that
      the nodes of a round supply and found fewer than the threshold. */
  lemma ReadRecovers(codec: Codec, blob: Bytes, members: seq<Member>, first: nat -> NodeAnswer, second: nat -> NodeAnswer,
                     threshold: int, read: Read)
    requires ValidRead(codec, members, first, second, threshold, read)
    requires Decodes(codec, blob, threshold) && Rederives(codec, blob)
    requires |read.batches| == 2 ==>
               forall sliver, nodeId :: Served(members, Indicted(read.batches[0], codec.verifies), second, sliver, nodeId) ==>
                 codec.verifies(sliver)
    ensures read.outcome.Ok? ==> read.outcome.value.0 == blob
    ensures read.outcome.Err? ==> read.outcome.error.FetchFailed?
    ensures read.outcome.Err? && read.outcome.error.FetchFailed? && read.outcome.error.error.TooFew? ==>
              FellShort(codec, members, first, second, threshold, read.batches, read.outcome.error.error.collected)
  {
    hide FellShort, HonestlyAttributed;
    if read.outcome == Err(Undecodable) {
      var n := |read.batches| - 1;
      var batch := read.batches[n];
      assert batch in read.batches;
      if n == 0 {
        NoneIndicted(codec, batch);
      }
      VerifyingBatchDecodes(codec, blob, threshold, batch);
      assert false;
    }
  }

  lemma NoneIndicted(codec: Codec, batch: seq<Attributed>)
    ensures Indicted(batch, codec.verifies) == {} <==> AllVerify(codec, batch)
  {
    if x :| x in batch && !codec.verifies(x.sliver) {
      assert x.nodeId in Indicted(batch, codec.verifies);
    }
  }

  /** What the assumption on the decoder alone gives a read that does not re-derive the identifier: every
      decoder that meets it is right on a batch, or says it cannot decode it, exactly when each sliver of
      the batch verifies. On any other batch some decoder that meets it is wrong. */
  lemma UncheckedDecodeExact(verifies: Bytes -> bool, blob: Bytes, threshold: int, batch: seq<Attributed>)
    requires DistinctSlivers(batch) && |batch| >= threshold
    ensures (forall decode: seq<Bytes> -> Option<Bytes> :: Decodes(Codec(decode, verifies), blob, threshold) ==>
               decode(Contents(batch)) in {None, Some(blob)})
       <==> forall x :: x in batch ==> verifies(x.sliver)
  {
    if forall x :: x in batch ==> verifies(x.sliver) {
      forall decode: seq<Bytes> -> Option<Bytes> | Decodes(Codec(decode, verifies), blob, threshold)
        ensures decode(Contents(batch)) in {None, Some(blob)}
      {
        VerifyingBatchDecodes(Codec(decode, verifies), blob, threshold, batch);
      }
    } else {
      ForgedBatchMisleads(verifies, blob, threshold, batch);
    }
  }

  // A decoder that is right on verifying batches, and returns other bytes on this one.
  lemma ForgedBatchMisleads(verifies: Bytes -> bool, blob: Bytes, threshold: int, batch: seq<Attributed>)
    requires exists x :: x in batch && !verifies(x.sliver)
    ensures exists decode: seq<Bytes> -> Option<Bytes> ::
              Decodes(Codec(decode, verifies), blob, threshold) && decode(Contents(batch)) !in {None, Some(blob)}
  {
    var i :| 0 <= i < |batch| && !verifies(batch[i].sliver);
    assert Contents(batch)[i] in Contents(batch);
    OtherIsRight(verifies, blob, threshold, Contents(batch));
    hide Decodes, OtherFor;
    Misled(verifies, blob, threshold, batch, OtherFor(Contents(batch), blob));
  }

  function OtherFor(forged: seq<Bytes>, blob: Bytes): seq<Bytes> -> Option<Bytes> {
    slivers => Some(if slivers == forged then blob + [0] else blob)
  }

  lemma OtherIsRight(verifies: Bytes -> bool, blob: Bytes, threshold: int, forged: seq<Bytes>)
    requires exists s :: s in forged && !verifies(s)
    ensures Decodes(Codec(OtherFor(forged, blob), verifies), blob, threshold)
    ensures OtherFor(forged, blob)(forged) !in {None, Some(blob)}
  {
    assert !Sufficient(verifies, threshold, forged);
    assert |blob + [0]| != |blob|;
    hide Sufficient;
  }

  lemma Misled(verifies: Bytes -> bool, blob: Bytes, threshold: int, batch: seq<Attributed>,
               decode: seq<Bytes> -> Option<Bytes>)
    requires Decodes(Codec(decode, verifies), blob, threshold) && decode(Contents(batch)) !in {None, Some(blob)}
    ensures exists decode: seq<Bytes> -> Option<Bytes> ::
              Decodes(Codec(decode, verifies), blob, threshold) && decode(Contents(batch)) !in {None, Some(blob)}
  {
  }
}
