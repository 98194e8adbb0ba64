/** Fusing storage objects: the compatibility rule, the ledger the emitted calls run against, and the
    explicit and bulk-amount modes. */
module StorageFuse {
  import opened Common
  import opened Ordering

  // A reservation of `size` bytes over the epochs start, ..., end - 1.
  datatype Storage = Storage(id: Text, start: int, end: int, size: int)

  datatype Reason = SameObject | EndsDiffer | SizesDiffer | NotAdjacent

  // ----- The client-side rule -----

  function FusePeriodsIncompatibility(first: Storage, second: Storage): Option<Reason> {
    if first.size != second.size then Some(SizesDiffer)
    else if first.end != second.start && first.start != second.end then Some(NotAdjacent)
    else None
  }

  function FuseIncompatibility(first: Storage, second: Storage): Option<Reason> {
    if first.id != [] && first.id == second.id then Some(SameObject)
    else if first.start == second.start then
      if first.end != second.end then Some(EndsDiffer) else None
    else FusePeriodsIncompatibility(first, second)
  }

  /** Two objects can be fused exactly when they are different and either have one epoch range, or start
      apart, have one size and stand next to each other; what is wrong otherwise is said of the first rule
      that fails, in this order. */
  lemma ReasonsExact(first: Storage, second: Storage)
    ensures var same := first.id == second.id && first.id != [];
            var adjacent := first.end == second.start || second.end == first.start;
            match FuseIncompatibility(first, second)
            case Some(SameObject) => same
            case Some(EndsDiffer) => !same && first.start == second.start && first.end != second.end
            case Some(SizesDiffer) => !same && first.start != second.start && first.size != second.size
            case Some(NotAdjacent) => !same && first.start != second.start && first.size == second.size && !adjacent
            case None =>
              !same && ((first.start == second.start && first.end == second.end)
                        || (first.start != second.start && first.size == second.size && adjacent))
  {
  }

  // The survivor after a fold, computed locally.
  function FuseChainState(first: Storage, second: Storage): Storage {
    if first.start == second.start then first.(size := first.size + second.size)
    else first.(start := Min(first.start, second.start), end := Max(first.end, second.end))
  }

  function Min(a: int, b: int): int { if a < b then a else b }

  function Max(a: int, b: int): int { if a < b then b else a }

  // ----- The ledger the calls are submitted to -----

  type Ledger = map<Text, Storage>

  // Ids name their objects, and no object ends before it starts.
  ghost predicate Sound(ledger: Ledger) {
    forall id :: id in ledger ==> ledger[id].id == id && ledger[id].start <= ledger[id].end
  }

  // One `fuse` call: it aborts on a missing or repeated object, adds the sizes of equal ranges, and
  // joins adjacent ranges of equal size by moving one bound of the survivor.
  function Fuse(ledger: Ledger, firstId: Text, secondId: Text): Option<Ledger> {
    if firstId !in ledger || secondId !in ledger || firstId == secondId then None
    else
      var first, second := ledger[firstId], ledger[secondId];
      var rest := ledger - {secondId};
      if first.start == second.start then
        if first.end != second.end then None
        else Some(rest[firstId := first.(size := first.size + second.size)])
      else if first.size != second.size then None
      else if first.end == second.start then Some(rest[firstId := first.(end := second.end)])
      else if first.start == second.end then Some(rest[firstId := first.(start := second.start)])
      else None
  }

  type Call = (Text, Text)

  // The calls of one transaction in order: it aborts as a whole when any of them does.
  function Replay(ledger: Ledger, calls: seq<Call>): Option<Ledger> {
    if calls == [] then Some(ledger)
    else match Replay(ledger, calls[..|calls| - 1])
      case None => None
      case Some(l) => Fuse(l, calls[|calls| - 1].0, calls[|calls| - 1].1)
  }

  // The pre-flight says yes exactly when the call goes through, and then predicts the survivor.
  lemma PreflightExact(ledger: Ledger, first: Text, second: Text)
    requires Sound(ledger) && first in ledger && second in ledger && first != []
    ensures FuseIncompatibility(ledger[first], ledger[second]).None? <==> Fuse(ledger, first, second).Some?
    ensures Fuse(ledger, first, second).Some? ==>
              Fuse(ledger, first, second).value
              == (ledger - {second})[first := FuseChainState(ledger[first], ledger[second])]
  {
  }

  // ----- Capacity at an epoch -----

  function Weight(s: Storage, epoch: int): int {
    if s.start <= epoch < s.end then s.size else 0
  }

  ghost function SumOver(ledger: Ledger, ids: set<Text>, epoch: int): int
    requires ids <= ledger.Keys
  {
    if ids == {} then 0
    else
      var id :| id in ids;
      Weight(ledger[id], epoch) + SumOver(ledger, ids - {id}, epoch)
  }

  // Bytes reserved at an epoch, over all live objects.
  ghost function Capacity(ledger: Ledger, epoch: int): int {
    SumOver(ledger, ledger.Keys, epoch)
  }

  lemma {:induction false} SumPick(ledger: Ledger, ids: set<Text>, id: Text, epoch: int)
    requires ids <= ledger.Keys && id in ids
    ensures SumOver(ledger, ids, epoch) == Weight(ledger[id], epoch) + SumOver(ledger, ids - {id}, epoch)
    decreases ids
  {
    var k :| k in ids && SumOver(ledger, ids, epoch) == Weight(ledger[k], epoch) + SumOver(ledger, ids - {k}, epoch);
    if k != id {
      SumPick(ledger, ids - {k}, id, epoch);
      SumPick(ledger, ids - {id}, k, epoch);
      assert ids - {k} - {id} == ids - {id} - {k};
    }
  }

  lemma {:induction false} SumSame(a: Ledger, b: Ledger, ids: set<Text>, epoch: int)
    requires ids <= a.Keys && ids <= b.Keys
    requires forall id :: id in ids ==> a[id] == b[id]
    ensures SumOver(a, ids, epoch) == SumOver(b, ids, epoch)
    decreases ids
  {
    if ids != {} {
      var id :| id in ids;
      SumPick(a, ids, id, epoch);
      SumPick(b, ids, id, epoch);
      SumSame(a, b, ids - {id}, epoch);
    }
  }

  lemma FuseConserves(ledger: Ledger, first: Text, second: Text, epoch: int)
    requires Sound(ledger) && Fuse(ledger, first, second).Some?
    ensures var after := Fuse(ledger, first, second).value;
            Sound(after) && Capacity(after, epoch) == Capacity(ledger, epoch)
  {
    var after := Fuse(ledger, first, second).value;
    var others := ledger.Keys - {first} - {second};
    SumPick(ledger, ledger.Keys, first, epoch);
    SumPick(ledger, ledger.Keys - {first}, second, epoch);
    SumPick(after, after.Keys, first, epoch);
    assert after.Keys - {first} == others;
    SumSame(ledger, after, others, epoch);
  }

  /** Whatever calls were replayed, every epoch has the capacity it had before. */
  lemma {:induction false} ReplayConserves(ledger: Ledger, calls: seq<Call>, epoch: int)
    requires Sound(ledger) && Replay(ledger, calls).Some?
    ensures var after := Replay(ledger, calls).value;
            Sound(after) && Capacity(after, epoch) == Capacity(ledger, epoch)
    decreases |calls|
  {
    if calls != [] {
      var n := |calls| - 1;
      ReplayConserves(ledger, calls[..n], epoch);
      FuseConserves(Replay(ledger, calls[..n]).value, calls[n].0, calls[n].1, epoch);
    }
  }

  // ----- Fold chains -----

  // The survivor's local state after folding the spokes in, in order.
  function Survivor(hub: Storage, spokes: seq<Storage>): (s: Storage)
    ensures s.id == hub.id
  {
    if spokes == [] then hub
    else FuseChainState(Survivor(hub, spokes[..|spokes| - 1]), spokes[|spokes| - 1])
  }

  // Each spoke passes the pre-flight against the survivor's state when its turn comes.
  ghost predicate Accepts(hub: Storage, spokes: seq<Storage>) {
    spokes == [] ||
    (Accepts(hub, spokes[..|spokes| - 1])
     && FuseIncompatibility(Survivor(hub, spokes[..|spokes| - 1]), spokes[|spokes| - 1]).None?)
  }

  function Calls(hub: Storage, spokes: seq<Storage>): (r: seq<Call>)
    ensures |r| == |spokes|
    ensures forall i :: 0 <= i < |r| ==> r[i] == (hub.id, spokes[i].id)
  {
    seq(|spokes|, i requires 0 <= i < |spokes| => (hub.id, spokes[i].id))
  }

  ghost predicate Holds(ledger: Ledger, objects: seq<Storage>) {
    forall s :: s in objects ==> s.id in ledger && ledger[s.id] == s
  }

  ghost predicate DistinctIds(objects: seq<Storage>) {
    forall i, j :: 0 <= i < j < |objects| ==> objects[i].id != objects[j].id
  }

  ghost function Ids(objects: seq<Storage>): set<Text> {
    set s | s in objects :: s.id
  }

  // Replaying a chain the pre-flight accepted leaves the survivor in its predicted state, and every
  // object that was not consumed as it was.
  lemma {:induction false} ChainReplays(ledger: Ledger, hub: Storage, spokes: seq<Storage>)
    requires Sound(ledger) && hub.id != []
    requires Holds(ledger, [hub]) && Holds(ledger, spokes)
    requires Accepts(hub, spokes) && DistinctIds(spokes)
    ensures Replay(ledger, Calls(hub, spokes))
         == Some((ledger - Ids(spokes))[hub.id := Survivor(hub, spokes)])
    ensures hub.id !in Ids(spokes)
    decreases |spokes|
  {
    if spokes == [] {
      assert hub in [hub];
      assert ledger - Ids(spokes) == ledger;
      assert ledger[hub.id := hub] == ledger;
    } else {
      var n := |spokes| - 1;
      var before, last := spokes[..n], spokes[n];
      ChainReplays(ledger, hub, before);
      assert Calls(hub, spokes)[..n] == Calls(hub, before);
      var middle := (ledger - Ids(before))[hub.id := Survivor(hub, before)];
      assert last.id !in Ids(before) by {
        forall s | s in before ensures s.id != last.id {
          var i :| 0 <= i < n && before[i] == s;
          assert spokes[i].id != spokes[n].id;
        }
      }
      assert last in spokes && last.id in middle && middle[last.id] == last;
      ReplayConserves(ledger, Calls(hub, before), 0);
      PreflightExact(middle, hub.id, last.id);
      IdsOfPrefix(spokes);
      hide Sound, Ids, DistinctIds, Holds, Fuse, FuseIncompatibility, FuseChainState;
      assert (middle - {last.id})[hub.id := Survivor(hub, spokes)]
          == (ledger - Ids(spokes))[hub.id := Survivor(hub, spokes)];
    }
  }

  lemma IdsOfPrefix(spokes: seq<Storage>)
    requires spokes != []
    ensures Ids(spokes) == Ids(spokes[..|spokes| - 1]) + {spokes[|spokes| - 1].id}
  {
    var n := |spokes| - 1;
    forall id | id in Ids(spokes) ensures id in Ids(spokes[..n]) + {spokes[n].id} {
      var s :| s in spokes && s.id == id;
      var i :| 0 <= i < |spokes| && spokes[i] == s;
      if i < n { assert spokes[..n][i] == s; }
    }
    forall id | id in Ids(spokes[..n]) + {spokes[n].id} ensures id in Ids(spokes) {
      if id in Ids(spokes[..n]) {
        var s :| s in spokes[..n] && s.id == id;
        assert s in spokes;
      } else {
        assert spokes[n] in spokes;
      }
    }
  }

  // A call that consumes an object a second time aborts the transaction.
  lemma ConsumedBefore(ledger: Ledger, hub: Storage, spokes: seq<Storage>, i: nat)
    requires i < |spokes| - 1 && spokes[i].id == spokes[|spokes| - 1].id && hub.id !in Ids(spokes[..|spokes| - 1])
    ensures spokes[|spokes| - 1].id
         !in (ledger - Ids(spokes[..|spokes| - 1]))[hub.id := Survivor(hub, spokes[..|spokes| - 1])]
  {
    var before := spokes[..|spokes| - 1];
    assert before[i] in before && before[i].id in Ids(before);
    hide Survivor;
  }

  lemma LastAborts(ledger: Ledger, hub: Storage, spokes: seq<Storage>)
    requires spokes != []
    requires Replay(ledger, Calls(hub, spokes[..|spokes| - 1])).Some?
    requires spokes[|spokes| - 1].id !in Replay(ledger, Calls(hub, spokes[..|spokes| - 1])).value
    ensures Replay(ledger, Calls(hub, spokes)).None?
  {
    assert Calls(hub, spokes)[..|spokes| - 1] == Calls(hub, spokes[..|spokes| - 1]);
  }

  lemma StaysAborted(ledger: Ledger, hub: Storage, spokes: seq<Storage>)
    requires spokes != [] && Replay(ledger, Calls(hub, spokes[..|spokes| - 1])).None?
    ensures Replay(ledger, Calls(hub, spokes)).None?
  {
    assert Calls(hub, spokes)[..|spokes| - 1] == Calls(hub, spokes[..|spokes| - 1]);
  }

  lemma {:induction false} RepeatAborts(ledger: Ledger, hub: Storage, spokes: seq<Storage>, i: nat, j: nat)
    requires Sound(ledger) && hub.id != []
    requires Holds(ledger, [hub]) && Holds(ledger, spokes)
    requires Accepts(hub, spokes)
    requires i < j < |spokes| && spokes[i].id == spokes[j].id
    ensures Replay(ledger, Calls(hub, spokes)).None?
    decreases |spokes|
  {
    var n := |spokes| - 1;
    hide Replay, Calls, Survivor, Sound, Ids;
    assert forall s :: s in spokes[..n] ==> s in spokes;
    if j < n {
      RepeatAborts(ledger, hub, spokes[..n], i, j);
      StaysAborted(ledger, hub, spokes);
    } else if DistinctIds(spokes[..n]) {
      ChainReplays(ledger, hub, spokes[..n]);
      ConsumedBefore(ledger, hub, spokes, i);
      hide *;
      LastAborts(ledger, hub, spokes);
    } else {
      var k, l :| 0 <= k < l < n && spokes[..n][k].id == spokes[..n][l].id;
      RepeatAborts(ledger, hub, spokes[..n], k, l);
      StaysAborted(ledger, hub, spokes);
    }
  }

  // ----- Explicit mode -----

  /** Folds the fetched objects into the survivor one by one, each checked against the survivor's
      current state; the first incompatible one ends the command. */
  method FuseExplicit(hub: Storage, spokes: seq<Storage>) returns (r: Result<seq<Call>, Reason>)
    ensures r.Ok? <==> Accepts(hub, spokes)
    ensures r.Ok? ==> r.value == Calls(hub, spokes)
    ensures r.Err? ==> exists n :: 0 <= n < |spokes| && Accepts(hub, spokes[..n])
                                && FuseIncompatibility(Survivor(hub, spokes[..n]), spokes[n]) == Some(r.error)
  {
    var survivor := hub;
    var pairs: seq<Call> := [];
    for i := 0 to |spokes|
      invariant survivor == Survivor(hub, spokes[..i])
      invariant Accepts(hub, spokes[..i])
      invariant pairs == Calls(hub, spokes[..i])
    {
      assert spokes[..i + 1][..i] == spokes[..i];
      var reason := FuseIncompatibility(survivor, spokes[i]);
      if reason.Some? {
        RejectedPrefix(hub, spokes, i + 1);
        return Err(reason.value);
      }
      pairs := pairs + [(survivor.id, spokes[i].id)];
      survivor := FuseChainState(survivor, spokes[i]);
    }
    assert spokes[..|spokes|] == spokes;
    return Ok(pairs);
  }

  lemma {:induction false} RejectedPrefix(hub: Storage, spokes: seq<Storage>, n: nat)
    requires n <= |spokes| && !Accepts(hub, spokes[..n])
    ensures !Accepts(hub, spokes)
    decreases |spokes|
  {
    if n < |spokes| {
      assert spokes[..|spokes| - 1][..n] == spokes[..n];
      RejectedPrefix(hub, spokes[..|spokes| - 1], n);
    } else {
      assert spokes[..n] == spokes;
    }
  }

  /** An accepted explicit command replays exactly when it names no object twice: the pre-flight
      compares each object with the survivor only, so a repeated one gets past it. When it replays,
      every epoch keeps its capacity. */
  lemma ExplicitReplaysIffDistinct(ledger: Ledger, hub: Storage, spokes: seq<Storage>)
    requires Sound(ledger) && hub.id != []
    requires Holds(ledger, [hub]) && Holds(ledger, spokes)
    requires Accepts(hub, spokes)
    ensures Replay(ledger, Calls(hub, spokes)).Some? <==> DistinctIds(spokes)
    ensures DistinctIds(spokes) ==>
              forall epoch :: Capacity(Replay(ledger, Calls(hub, spokes)).value, epoch) == Capacity(ledger, epoch)
  {
    if DistinctIds(spokes) {
      ChainReplays(ledger, hub, spokes);
      forall epoch ensures Capacity(Replay(ledger, Calls(hub, spokes)).value, epoch) == Capacity(ledger, epoch) {
        ReplayConserves(ledger, Calls(hub, spokes), epoch);
      }
    } else {
      var i, j :| 0 <= i < j < |spokes| && spokes[i].id == spokes[j].id;
      RepeatAborts(ledger, hub, spokes, i, j);
    }
  }

  // Naming one object twice: the pre-flight accepts, the transaction aborts.
  lemma RepeatedFuseFrom(hub: Storage, spoke: Storage)
    requires hub.id != [] && spoke.id != [] && hub.id != spoke.id
    requires hub.start == spoke.start < hub.end == spoke.end
    ensures Accepts(hub, [spoke, spoke])
    ensures Replay(map[hub.id := hub, spoke.id := spoke], Calls(hub, [spoke, spoke])).None?
  {
    var ledger := map[hub.id := hub, spoke.id := spoke];
    assert [spoke, spoke][..1] == [spoke] && [spoke][..0] == [];
    assert Accepts(hub, [spoke]);
    assert Accepts(hub, [spoke, spoke]);
    RepeatAborts(ledger, hub, [spoke, spoke], 0, 1);
  }

  // ----- Bulk-amount mode -----

  type Range = (int, int)

  function RangeOf(s: Storage): Range { (s.start, s.end) }

  function WithRange(storages: seq<Storage>, range: Range): seq<Storage> {
    if storages == [] then []
    else
      var rest := WithRange(storages[..|storages| - 1], range);
      var last := storages[|storages| - 1];
      if RangeOf(last) == range then rest + [last] else rest
  }

  lemma {:induction false} HasRange(storages: seq<Storage>, range: Range)
    ensures forall s :: s in WithRange(storages, range) <==> s in storages && RangeOf(s) == range
    decreases |storages|
  {
    if storages != [] {
      var n := |storages| - 1;
      HasRange(storages[..n], range);
      assert storages == storages[..n] + [storages[n]];
    }
  }

  // The ranges held, in the order they were first seen.
  function RangesSeen(storages: seq<Storage>): seq<Range> {
    if storages == [] then []
    else
      var rest := RangesSeen(storages[..|storages| - 1]);
      var last := storages[|storages| - 1];
      if RangeOf(last) in rest then rest else rest + [RangeOf(last)]
  }

  lemma {:induction false} RangeIsSeen(storages: seq<Storage>, s: Storage)
    requires s in storages
    ensures RangeOf(s) in RangesSeen(storages)
    decreases |storages|
  {
    var n := |storages| - 1;
    if s != storages[n] {
      assert storages == storages[..n] + [storages[n]];
      RangeIsSeen(storages[..n], s);
    }
  }

  function GroupsOf(storages: seq<Storage>, ranges: seq<Range>): seq<seq<Storage>> {
    if ranges == [] then []
    else
      var rest := GroupsOf(storages, ranges[..|ranges| - 1]);
      var group := WithRange(storages, ranges[|ranges| - 1]);
      if |group| >= 2 then rest + [group] else rest
  }

  // The buckets of the objects seen so far, under the ranges seen so far.
  ghost predicate Bucketed(storages: seq<Storage>, buckets: map<Range, seq<Storage>>, order: seq<Range>) {
    && order == RangesSeen(storages)
    && (forall range :: range in buckets <==> range in order)
    && forall range :: range in buckets ==> buckets[range] == WithRange(storages, range)
  }

  lemma BucketStep(storages: seq<Storage>, i: nat, buckets: map<Range, seq<Storage>>, order: seq<Range>)
    requires i < |storages| && Bucketed(storages[..i], buckets, order)
    ensures var key := RangeOf(storages[i]);
            if key in buckets then
              Bucketed(storages[..i + 1], buckets[key := buckets[key] + [storages[i]]], order)
            else Bucketed(storages[..i + 1], buckets[key := [storages[i]]], order + [key])
  {
    assert storages[..i + 1][..i] == storages[..i];
    if RangeOf(storages[i]) !in buckets {
      NoneWithRange(storages[..i], RangeOf(storages[i]));
    }
  }

  /** Groups the objects by epoch range in a dict of buckets and drops the groups of one. */
  method FuseAmountGroups(storages: seq<Storage>) returns (groups: seq<seq<Storage>>)
    ensures groups == GroupsOf(storages, RangesSeen(storages))
    ensures exists firsts :: Grouping(storages, groups, firsts)
  {
    var buckets: map<Range, seq<Storage>> := map[];
    var order: seq<Range> := [];
    for i := 0 to |storages|
      invariant Bucketed(storages[..i], buckets, order)
    {
      BucketStep(storages, i, buckets, order);
      hide Bucketed;
      var key := RangeOf(storages[i]);
      if key in buckets {
        buckets := buckets[key := buckets[key] + [storages[i]]];
      } else {
        buckets := buckets[key := [storages[i]]];
        order := order + [key];
      }
    }
    assert storages[..|storages|] == storages;
    hide RangesSeen, WithRange;
    groups := [];
    for i := 0 to |order|
      invariant groups == GroupsOf(storages, order[..i])
    {
      assert order[..i + 1][..i] == order[..i];
      assert order[i] in order;
      if |buckets[order[i]]| >= 2 {
        groups := groups + [buckets[order[i]]];
      }
    }
    assert order[..|order|] == order;
    hide *;
    var _ := GroupsAreGrouping(storages);
  }

  lemma NoneWithRange(storages: seq<Storage>, range: Range)
    requires range !in RangesSeen(storages)
    ensures WithRange(storages, range) == []
  {
    HasRange(storages, range);
    if WithRange(storages, range) != [] {
      var s := WithRange(storages, range)[0];
      assert s in WithRange(storages, range);
      RangeIsSeen(storages, s);
      assert false;
    }
  }

  lemma {:induction false} GroupsCharacterized(storages: seq<Storage>, ranges: seq<Range>, group: seq<Storage>)
    ensures group in GroupsOf(storages, ranges)
       <==> exists range :: range in ranges && group == WithRange(storages, range) && |group| >= 2
    decreases |ranges|
  {
    if ranges != [] {
      var n := |ranges| - 1;
      GroupsCharacterized(storages, ranges[..n], group);
      assert ranges[n] in ranges;
      assert forall range :: range in ranges <==> range in ranges[..n] || range == ranges[n];
    }
  }

  /** The groups are exactly the ranges held at least twice, each with all the objects that hold it. */
  lemma AmountGroupsExact(storages: seq<Storage>, range: Range)
    ensures WithRange(storages, range) in GroupsOf(storages, RangesSeen(storages))
       <==> |WithRange(storages, range)| >= 2
    ensures forall group :: group in GroupsOf(storages, RangesSeen(storages)) ==>
              |group| >= 2 && group == WithRange(storages, RangeOf(group[0]))
  {
    var group := WithRange(storages, range);
    GroupsCharacterized(storages, RangesSeen(storages), group);
    HasRange(storages, range);
    if |group| >= 2 {
      assert group[0] in group;
      RangeIsSeen(storages, group[0]);
    }
    forall g | g in GroupsOf(storages, RangesSeen(storages))
      ensures |g| >= 2 && g == WithRange(storages, RangeOf(g[0]))
    {
      GroupsCharacterized(storages, RangesSeen(storages), g);
      var range :| range in RangesSeen(storages) && g == WithRange(storages, range);
      HasRange(storages, range);
      assert g[0] in g;
    }
  }

  // ----- The groups, position by position -----

  ghost predicate InOrder(at: seq<nat>) { forall k, l :: 0 <= k < l < |at| ==> at[k] < at[l] }

  ghost predicate Spans(s: Storage, start: int, end: int) { s.start == start && s.end == end }

  // The objects of this epoch range, each once and in listing order: those at these positions.
  ghost predicate AllAt(storages: seq<Storage>, start: int, end: int, group: seq<Storage>, at: seq<nat>) {
    && |at| == |group| && InOrder(at)
    && (forall k :: 0 <= k < |at| ==> at[k] < |storages| && group[k] == storages[at[k]])
    && forall i :: 0 <= i < |storages| ==> (i in at <==> Spans(storages[i], start, end))
  }

  ghost predicate AllOf(storages: seq<Storage>, start: int, end: int, group: seq<Storage>) {
    exists at :: AllAt(storages, start, end, group, at)
  }

  ghost predicate HeldTwice(storages: seq<Storage>, start: int, end: int) {
    exists i, j :: 0 <= i < j < |storages| && Spans(storages[i], start, end) && Spans(storages[j], start, end)
  }

  lemma {:induction false} WithRangeAt(storages: seq<Storage>, range: Range) returns (at: seq<nat>)
    ensures AllAt(storages, range.0, range.1, WithRange(storages, range), at)
    decreases |storages|
  {
    at := [];
    if storages != [] {
      var n := |storages| - 1;
      var before := WithRangeAt(storages[..n], range);
      at := if RangeOf(storages[n]) == range then before + [n] else before;
      hide AllAt;
      OneMoreAt(storages, range, WithRange(storages[..n], range), before);
    }
  }

  lemma OneMoreAt(storages: seq<Storage>, range: Range, group: seq<Storage>, before: seq<nat>)
    requires storages != [] && AllAt(storages[..|storages| - 1], range.0, range.1, group, before)
    ensures var n := |storages| - 1;
            if RangeOf(storages[n]) == range
            then AllAt(storages, range.0, range.1, group + [storages[n]], before + [n])
            else AllAt(storages, range.0, range.1, group, before)
  {
    var n := |storages| - 1;
    var more := before + [n];
    forall k | 0 <= k < |before| ensures before[k] < n && group[k] == storages[before[k]] {}
    forall i | 0 <= i < n ensures i in before <==> Spans(storages[i], range.0, range.1) {
      assert storages[..n][i] == storages[i];
    }
    assert Spans(storages[n], range.0, range.1) <==> RangeOf(storages[n]) == range;
    hide Spans;
    assert more[|before|] == n && forall i :: i in more <==> i in before || i == n;
  }

  lemma TwiceIsLong(storages: seq<Storage>, start: int, end: int, group: seq<Storage>, at: seq<nat>)
    requires AllAt(storages, start, end, group, at)
    ensures HeldTwice(storages, start, end) <==> |group| >= 2
  {
    if |group| >= 2 {
      assert at[0] in at && at[1] in at;
      assert Spans(storages[at[0]], start, end) && Spans(storages[at[1]], start, end);
    }
    if i, j :| 0 <= i < j < |storages| && Spans(storages[i], start, end) && Spans(storages[j], start, end) {
      assert i in at && j in at;
      var k :| 0 <= k < |at| && at[k] == i;
      var l :| 0 <= l < |at| && at[l] == j;
    }
  }

  lemma RangeExact(storages: seq<Storage>, range: Range)
    ensures AllOf(storages, range.0, range.1, WithRange(storages, range))
    ensures HeldTwice(storages, range.0, range.1) <==> |WithRange(storages, range)| >= 2
  {
    var at := WithRangeAt(storages, range);
    TwiceIsLong(storages, range.0, range.1, WithRange(storages, range), at);
  }

  // Where an epoch range is held for the first time.
  ghost predicate FirstAt(storages: seq<Storage>, i: nat) {
    i < |storages| && forall k :: 0 <= k < i ==> !Spans(storages[k], storages[i].start, storages[i].end)
  }

  // One group for each range held at least twice, with all its objects in listing order, and the groups in
  // the order in which their ranges are first held.
  ghost predicate Grouping(storages: seq<Storage>, groups: seq<seq<Storage>>, firsts: seq<nat>) {
    && |firsts| == |groups| && InOrder(firsts)
    && (forall g :: 0 <= g < |groups| ==>
          && FirstAt(storages, firsts[g]) && |groups[g]| >= 2
          && AllOf(storages, storages[firsts[g]].start, storages[firsts[g]].end, groups[g]))
    && forall start, end :: HeldTwice(storages, start, end) ==>
         exists g :: 0 <= g < |groups| && Spans(storages[firsts[g]], start, end)
  }

  ghost predicate SeenAt(storages: seq<Storage>, ranges: seq<Range>, firsts: seq<nat>) {
    && |firsts| == |ranges| && InOrder(firsts)
    && forall k :: 0 <= k < |ranges| ==> FirstAt(storages, firsts[k]) && RangeOf(storages[firsts[k]]) == ranges[k]
  }

  lemma {:induction false} SeenFirst(storages: seq<Storage>) returns (firsts: seq<nat>)
    ensures SeenAt(storages, RangesSeen(storages), firsts)
    decreases |storages|
  {
    firsts := [];
    if storages != [] {
      var n := |storages| - 1;
      var before := SeenFirst(storages[..n]);
      var rest, range := RangesSeen(storages[..n]), RangeOf(storages[n]);
      assert forall i :: 0 <= i < n ==> storages[..n][i] == storages[i];
      forall k | 0 <= k < |rest|
        ensures before[k] < n && FirstAt(storages, before[k]) && RangeOf(storages[before[k]]) == rest[k]
      {
        assert FirstAt(storages[..n], before[k]);
      }
      if range in rest {
        firsts := before;
      } else {
        forall i | 0 <= i < n ensures !Spans(storages[i], storages[n].start, storages[n].end) {
          assert storages[..n][i] in storages[..n];
          RangeIsSeen(storages[..n], storages[i]);
        }
        firsts := before + [n];
      }
    }
  }

  // Dropping the ranges held once keeps the rest in order.
  lemma {:induction false} GroupsAt(storages: seq<Storage>, ranges: seq<Range>, firsts: seq<nat>) returns (kept: seq<nat>)
    requires SeenAt(storages, ranges, firsts)
    ensures |kept| == |GroupsOf(storages, ranges)| && InOrder(kept)
    ensures forall i :: i in kept ==> i in firsts
    ensures forall g :: 0 <= g < |kept| ==>
              kept[g] < |storages|
              && GroupsOf(storages, ranges)[g] == WithRange(storages, RangeOf(storages[kept[g]]))
              && |GroupsOf(storages, ranges)[g]| >= 2
    decreases |ranges|
  {
    kept := [];
    if ranges != [] {
      var n := |ranges| - 1;
      hide WithRange, FirstAt;
      var before := GroupsAt(storages, ranges[..n], firsts[..n]);
      kept := if |WithRange(storages, ranges[n])| >= 2 then before + [firsts[n]] else before;
      KeptInOrder(before, firsts, n);
      hide InOrder;
    }
  }

  lemma KeptInOrder(before: seq<nat>, firsts: seq<nat>, n: nat)
    requires n < |firsts| && InOrder(before) && InOrder(firsts) && forall i :: i in before ==> i in firsts[..n]
    ensures InOrder(before + [firsts[n]])
    ensures forall i :: i in before + [firsts[n]] ==> i in firsts
  {
    forall i | i in before ensures i < firsts[n] && i in firsts {
      var k :| 0 <= k < n && firsts[..n][k] == i;
      assert firsts[k] == i;
    }
    forall k | 0 <= k < |before| ensures before[k] < firsts[n] { assert before[k] in before; }
  }

  /** What the grouping comes to, said of positions in the list alone. */
  lemma GroupsAreGrouping(storages: seq<Storage>) returns (firsts: seq<nat>)
    ensures Grouping(storages, GroupsOf(storages, RangesSeen(storages)), firsts)
  {
    var seen := SeenFirst(storages);
    var groups := GroupsOf(storages, RangesSeen(storages));
    firsts := GroupsAt(storages, RangesSeen(storages), seen);
    hide WithRange, RangesSeen, GroupsOf, FirstAt, AllOf, HeldTwice;
    forall g | 0 <= g < |groups|
      ensures FirstAt(storages, firsts[g])
      ensures AllOf(storages, storages[firsts[g]].start, storages[firsts[g]].end, groups[g])
    {
      assert firsts[g] in seen;
      RangeExact(storages, RangeOf(storages[firsts[g]]));
    }
    forall start, end | HeldTwice(storages, start, end)
      ensures exists g :: 0 <= g < |groups| && Spans(storages[firsts[g]], start, end)
    {
      RangeExact(storages, (start, end));
      AmountGroupsExact(storages, (start, end));
      var g :| 0 <= g < |groups| && groups[g] == WithRange(storages, (start, end));
      HasRange(storages, (start, end));
      HasRange(storages, RangeOf(storages[firsts[g]]));
      assert groups[g][0] in groups[g];
      assert Spans(storages[firsts[g]], start, end);
    }
  }

  datatype TargetError = BoundsNotTogether | NoSuchGroup | NoGroups | AmbiguousGroups

  lemma NotAGroup(storages: seq<Storage>, groups: seq<seq<Storage>>, range: Range)
    requires forall j :: 0 <= j < |groups| ==> groups[j] != [] && RangeOf(groups[j][0]) != range
    ensures WithRange(storages, range) !in groups || WithRange(storages, range) == []
  {
    var group := WithRange(storages, range);
    HasRange(storages, range);
    forall j | 0 <= j < |groups| && group != [] ensures groups[j] != group {
      assert group[0] in group;
    }
  }

  method FindGroup(storages: seq<Storage>, groups: seq<seq<Storage>>, range: Range)
    returns (r: Result<seq<Storage>, TargetError>)
    requires groups == GroupsOf(storages, RangesSeen(storages))
    ensures var group := WithRange(storages, range);
            r == if |group| >= 2 then Ok(group) else Err(NoSuchGroup)
  {
    AmountGroupsExact(storages, range);
    hide GroupsOf, RangesSeen, WithRange;
    for i := 0 to |groups|
      invariant forall j :: 0 <= j < i ==> RangeOf(groups[j][0]) != range
    {
      assert groups[i] in groups;
      if RangeOf(groups[i][0]) == range {
        return Ok(groups[i]);
      }
    }
    NotAGroup(storages, groups, range);
    return Err(NoSuchGroup);
  }

  ghost predicate TwoRangesTwice(storages: seq<Storage>) {
    exists a, b, c, d :: HeldTwice(storages, a, b) && HeldTwice(storages, c, d) && (a, b) != (c, d)
  }

  // The objects of one range, of the range asked for if one is, and else of the only one held twice.
  ghost predicate Target(storages: seq<Storage>, start: Option<int>, end: Option<int>, group: seq<Storage>, a: int, b: int) {
    && AllOf(storages, a, b, group)
    && (start.Some? ==> start.value == a) && (end.Some? ==> end.value == b)
    && (start.None? ==> forall c, d :: HeldTwice(storages, c, d) ==> (c, d) == (a, b))
  }

  // What each outcome says of the objects held; no two of the cases go together.
  ghost predicate Resolved(storages: seq<Storage>, start: Option<int>, end: Option<int>,
                           r: Result<seq<Storage>, TargetError>)
  {
    match r
    case Ok(group) => start.Some? == end.Some? && |group| >= 2 && exists a, b :: Target(storages, start, end, group, a, b)
    case Err(BoundsNotTogether) => start.Some? != end.Some?
    case Err(NoSuchGroup) => start.Some? && end.Some? && !HeldTwice(storages, start.value, end.value)
    case Err(NoGroups) => start.None? && end.None? && forall a, b :: !HeldTwice(storages, a, b)
    case Err(AmbiguousGroups) => start.None? && end.None? && TwoRangesTwice(storages)
  }

  /** Picks the group `--fuse-amount` fuses: the one named by both epoch bounds, or the only one. */
  method ResolveAmountTargets(storages: seq<Storage>, start: Option<int>, end: Option<int>)
    returns (r: Result<seq<Storage>, TargetError>)
    ensures Resolved(storages, start, end, r)
    ensures r.Ok? ==> r.value in GroupsOf(storages, RangesSeen(storages))
  {
    hide GroupsOf, RangesSeen, WithRange, HeldTwice, AllOf;
    var groups := FuseAmountGroups(storages);
    if start.Some? || end.Some? {
      if start.None? || end.None? {
        return Err(BoundsNotTogether);
      }
      AmountGroupsExact(storages, (start.value, end.value));
      RangeExact(storages, (start.value, end.value));
      r := FindGroup(storages, groups, (start.value, end.value));
      assert r.Ok? ==> Target(storages, start, end, r.value, start.value, end.value);
      return;
    }
    ghost var firsts :| Grouping(storages, groups, firsts);
    if groups == [] {
      return Err(NoGroups);
    }
    if |groups| > 1 {
      TwoGroups(storages, groups, firsts);
      return Err(AmbiguousGroups);
    }
    OnlyGroup(storages, groups, firsts);
    return Ok(groups[0]);
  }

  lemma OnlyGroup(storages: seq<Storage>, groups: seq<seq<Storage>>, firsts: seq<nat>)
    requires Grouping(storages, groups, firsts) && |groups| == 1
    ensures exists a, b :: Target(storages, None, None, groups[0], a, b)
  {
    hide AllOf, HeldTwice;
    var s := storages[firsts[0]];
    assert Target(storages, None, None, groups[0], s.start, s.end);
  }

  // The groups of different positions are of different ranges.
  lemma TwoGroups(storages: seq<Storage>, groups: seq<seq<Storage>>, firsts: seq<nat>)
    requires Grouping(storages, groups, firsts) && |groups| > 1
    ensures TwoRangesTwice(storages)
  {
    var a, b := storages[firsts[0]], storages[firsts[1]];
    assert FirstAt(storages, firsts[1]) && !Spans(a, b.start, b.end);
    hide AllOf, HeldTwice;
    GroupIsTwice(storages, a.start, a.end, groups[0]);
    GroupIsTwice(storages, b.start, b.end, groups[1]);
    assert (a.start, a.end) != (b.start, b.end);
  }

  lemma GroupIsTwice(storages: seq<Storage>, start: int, end: int, group: seq<Storage>)
    requires AllOf(storages, start, end, group) && |group| >= 2
    ensures HeldTwice(storages, start, end)
  {
    var at: seq<nat> :| AllAt(storages, start, end, group, at);
    TwiceIsLong(storages, start, end, group, at);
    hide AllAt, HeldTwice;
  }

  // Folding objects of one range into one of them is always accepted.
  lemma {:induction false} SameRangeAccepted(hub: Storage, spokes: seq<Storage>)
    requires forall s :: s in spokes ==> RangeOf(s) == RangeOf(hub) && s.id != hub.id
    ensures Accepts(hub, spokes) && RangeOf(Survivor(hub, spokes)) == RangeOf(hub)
    decreases |spokes|
  {
    if spokes != [] {
      assert spokes[|spokes| - 1] in spokes;
      SameRangeAccepted(hub, spokes[..|spokes| - 1]);
    }
  }

  // Objects picked out of a list with distinct ids have distinct ids.
  lemma {:induction false} GroupDistinct(storages: seq<Storage>, range: Range)
    requires DistinctIds(storages)
    ensures DistinctIds(WithRange(storages, range))
    decreases |storages|
  {
    if storages != [] {
      var n := |storages| - 1;
      GroupDistinct(storages[..n], range);
      HasRange(storages[..n], range);
      var rest := WithRange(storages[..n], range);
      forall i | 0 <= i < |rest| ensures rest[i].id != storages[n].id {
        assert rest[i] in rest;
        var k :| 0 <= k < n && storages[..n][k] == rest[i];
        assert storages[k].id != storages[n].id;
      }
    }
  }

  /** The calls `--fuse-amount` emits for any group replay, consume all of the group but its first
      object, and keep every epoch's capacity. */
  lemma AmountModeReplays(ledger: Ledger, storages: seq<Storage>, group: seq<Storage>)
    requires Sound(ledger) && Holds(ledger, storages) && DistinctIds(storages)
    requires forall s :: s in storages ==> s.id != []
    requires group in GroupsOf(storages, RangesSeen(storages))
    ensures group != []
    ensures var calls := Calls(group[0], group[1..]);
            var after := Replay(ledger, calls);
            && after.Some?
            && after.value.Keys == ledger.Keys - Ids(group[1..])
            && (forall epoch :: Capacity(after.value, epoch) == Capacity(ledger, epoch))
  {
    AmountGroupsExact(storages, (0, 0));
    GroupDistinct(storages, RangeOf(group[0]));
    HasRange(storages, RangeOf(group[0]));
    hide GroupsOf, RangesSeen, WithRange;
    var hub, spokes := group[0], group[1..];
    forall s | s in spokes ensures RangeOf(s) == RangeOf(hub) && s.id != hub.id && s in storages {
      var i :| 0 <= i < |spokes| && spokes[i] == s;
      assert group[i + 1] == s && s in group;
    }
    assert hub in group;
    SameRangeAccepted(hub, spokes);
    ExplicitReplaysIffDistinct(ledger, hub, spokes);
    ChainReplays(ledger, hub, spokes);
  }
}
