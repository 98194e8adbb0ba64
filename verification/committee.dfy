/** The storage committee: assembling and validating it, its lookup tables, and what two quorums of it
    have in common. */
module Committee {
  import opened Common
  import opened Certification

  const UNCOMPRESSED_G1_LENGTH := 96

  // One committee entry of the staking object, and what the pools table holds for its node.
  datatype Entry = Entry(nodeId: Text, shards: seq<int>)

  datatype Pool = Pool(address: Text, publicKey: Bytes)

  datatype Member = Member(nodeId: Text, shards: seq<int>, address: Text, publicKey: Bytes)

  datatype Committee = Committee(epoch: int, nShards: int, members: seq<Member>)

  datatype CommitteeError =
    | NoPool(nodeId: Text)
    | ShardOutOfRange(nodeId: Text, shard: int)
    | BadKeyLength(nodeId: Text)
    | NotExactCover

  // ----- What is accepted -----

  function FirstOutside(shards: seq<int>, nShards: int): Option<int> {
    if shards == [] then None
    else if 0 <= shards[0] < nShards then FirstOutside(shards[1..], nShards)
    else Some(shards[0])
  }

  function EntryProblem(entry: Entry, pools: map<Text, Pool>, nShards: int): Option<CommitteeError> {
    if entry.nodeId !in pools then Some(NoPool(entry.nodeId))
    else if FirstOutside(entry.shards, nShards).Some? then
      Some(ShardOutOfRange(entry.nodeId, FirstOutside(entry.shards, nShards).value))
    else if |pools[entry.nodeId].publicKey| != UNCOMPRESSED_G1_LENGTH then Some(BadKeyLength(entry.nodeId))
    else None
  }

  function FirstProblem(entries: seq<Entry>, pools: map<Text, Pool>, nShards: int): Option<CommitteeError> {
    if entries == [] then None
    else match EntryProblem(entries[0], pools, nShards)
      case Some(e) => Some(e)
      case None => FirstProblem(entries[1..], pools, nShards)
  }

  // Every shard claimed, over all the entries in order.
  function Claimed(entries: seq<Entry>): seq<int> {
    if entries == [] then [] else entries[0].shards + Claimed(entries[1..])
  }

  // Every shard below nShards occurs once, and nothing else occurs.
  ghost predicate ExactlyOnce(claims: seq<int>, nShards: int) {
    && (forall s :: 0 <= s < nShards ==> multiset(claims)[s] == 1)
    && (forall s :: s in claims ==> 0 <= s < nShards)
  }

  function Joined(entry: Entry, pools: map<Text, Pool>): Member
    requires entry.nodeId in pools
  {
    Member(entry.nodeId, entry.shards, pools[entry.nodeId].address, pools[entry.nodeId].publicKey)
  }

  function EntryOf(member: Member): Entry { Entry(member.nodeId, member.shards) }

  function Entries(members: seq<Member>): (r: seq<Entry>)
    ensures |r| == |members|
    ensures forall i :: 0 <= i < |r| ==> r[i] == EntryOf(members[i])
  {
    seq(|members|, i requires 0 <= i < |members| => EntryOf(members[i]))
  }

  lemma FirstOutsideExact(shards: seq<int>, nShards: int)
    ensures FirstOutside(shards, nShards).None? <==> forall s :: s in shards ==> 0 <= s < nShards
  {
    if shards != [] {
      FirstOutsideExact(shards[1..], nShards);
      assert shards[0] in shards;
      assert forall s :: s in shards <==> s == shards[0] || s in shards[1..];
    }
  }

  lemma {:induction false} ClaimedAppend(entries: seq<Entry>, last: Entry)
    ensures Claimed(entries + [last]) == Claimed(entries) + last.shards
  {
    if entries == [] {
      assert [last][1..] == [];
    } else {
      assert (entries + [last])[1..] == entries[1..] + [last];
      ClaimedAppend(entries[1..], last);
    }
  }

  lemma {:induction false} FirstProblemAppend(entries: seq<Entry>, last: Entry, pools: map<Text, Pool>, nShards: int)
    ensures FirstProblem(entries, pools, nShards).None? ==>
              FirstProblem(entries + [last], pools, nShards) == EntryProblem(last, pools, nShards)
  {
    if entries == [] {
      assert [last][1..] == [];
    } else {
      assert (entries + [last])[1..] == entries[1..] + [last];
      FirstProblemAppend(entries[1..], last, pools, nShards);
    }
  }

  lemma {:induction false} FirstProblemStays(entries: seq<Entry>, more: seq<Entry>, pools: map<Text, Pool>, nShards: int)
    ensures FirstProblem(entries, pools, nShards).Some? ==>
              FirstProblem(entries + more, pools, nShards) == FirstProblem(entries, pools, nShards)
  {
    if entries != [] {
      assert (entries + more)[1..] == entries[1..] + more;
      FirstProblemStays(entries[1..], more, pools, nShards);
    }
  }

  // Counts one entry's claims, stopping at the first shard out of range.
  method CountShards(coverage: array<nat>, shards: seq<int>) returns (outside: Option<int>)
    modifies coverage
    ensures outside == FirstOutside(shards, coverage.Length)
    ensures outside.None? ==>
              forall s :: 0 <= s < coverage.Length ==> coverage[s] == old(coverage[s]) + multiset(shards)[s]
  {
    for i := 0 to |shards|
      invariant FirstOutside(shards, coverage.Length) == FirstOutside(shards[i..], coverage.Length)
      invariant forall s :: 0 <= s < coverage.Length ==> coverage[s] == old(coverage[s]) + multiset(shards[..i])[s]
    {
      var shard := shards[i];
      if shard < 0 || shard >= coverage.Length {
        return Some(shard);
      }
      coverage[shard] := coverage[shard] + 1;
      assert shards[..i + 1] == shards[..i] + [shard];
    }
    assert shards[..|shards|] == shards;
    return None;
  }

  predicate AllWithin(shards: seq<int>, nShards: int) { forall k :: 0 <= k < |shards| ==> 0 <= shards[k] < nShards }

  // This is the first of the shards that is not one of the committee's.
  ghost predicate FirstIsOutside(shards: seq<int>, nShards: int, shard: int) {
    exists k :: 0 <= k < |shards| && shards[k] == shard && !(0 <= shard < nShards) && AllWithin(shards[..k], nShards)
  }

  // An entry with a pool, shards of the committee and a key of 96 bytes.
  predicate EntrySound(entry: Entry, pools: map<Text, Pool>, nShards: int) {
    entry.nodeId in pools && |pools[entry.nodeId].publicKey| == 96 && AllWithin(entry.shards, nShards)
  }

  // What is wrong with an entry, in the order it is looked at.
  ghost predicate EntryOffends(entry: Entry, pools: map<Text, Pool>, nShards: int, e: CommitteeError) {
    match e
    case NoPool(id) => id == entry.nodeId && entry.nodeId !in pools
    case ShardOutOfRange(id, shard) =>
      id == entry.nodeId && entry.nodeId in pools && FirstIsOutside(entry.shards, nShards, shard)
    case BadKeyLength(id) =>
      id == entry.nodeId && entry.nodeId in pools && |pools[entry.nodeId].publicKey| != 96 && AllWithin(entry.shards, nShards)
    case NotExactCover => false
  }

  ghost predicate FirstOffends(entries: seq<Entry>, pools: map<Text, Pool>, nShards: int, e: CommitteeError) {
    exists i :: 0 <= i < |entries| && EntryOffends(entries[i], pools, nShards, e)
                && forall j :: 0 <= j < i ==> EntrySound(entries[j], pools, nShards)
  }

  ghost predicate AllSound(entries: seq<Entry>, pools: map<Text, Pool>, nShards: int) {
    forall i :: 0 <= i < |entries| ==> EntrySound(entries[i], pools, nShards)
  }

  // What the outcome says of the entries; no two of the cases go together.
  ghost predicate Built(epoch: int, nShards: int, entries: seq<Entry>, pools: map<Text, Pool>,
                        r: Result<Committee, CommitteeError>)
  {
    match r
    case Ok(committee) =>
      && AllSound(entries, pools, nShards) && ExactlyOnce(Claimed(entries), nShards)
      && committee.epoch == epoch && committee.nShards == nShards && AllJoined(committee.members, entries, pools)
    case Err(NotExactCover) => AllSound(entries, pools, nShards) && !ExactlyOnce(Claimed(entries), nShards)
    case Err(e) => FirstOffends(entries, pools, nShards, e)
  }

  lemma {:induction false} FirstOutsideAt(shards: seq<int>, nShards: int)
    ensures match FirstOutside(shards, nShards)
            case None => AllWithin(shards, nShards)
            case Some(shard) => FirstIsOutside(shards, nShards, shard)
  {
    if shards != [] {
      assert shards[..0] == [];
      if 0 <= shards[0] < nShards {
        FirstOutsideAt(shards[1..], nShards);
        var rest := shards[1..];
        assert forall k :: 1 <= k < |shards| ==> shards[k] == rest[k - 1];
        if FirstOutside(rest, nShards).Some? {
          var shard := FirstOutside(rest, nShards).value;
          var k :| 0 <= k < |rest| && rest[k] == shard && !(0 <= shard < nShards) && AllWithin(rest[..k], nShards);
          assert shards[k + 1] == shard;
          assert shards[..k + 1] == [shards[0]] + rest[..k];
        }
      }
    }
  }

  lemma EntryExact(entry: Entry, pools: map<Text, Pool>, nShards: int)
    ensures EntryProblem(entry, pools, nShards).None? ==> EntrySound(entry, pools, nShards)
    ensures EntryProblem(entry, pools, nShards).Some? ==>
              EntryOffends(entry, pools, nShards, EntryProblem(entry, pools, nShards).value)
  {
    FirstOutsideAt(entry.shards, nShards);
    hide FirstOutside, FirstIsOutside, AllWithin;
  }

  lemma {:induction false} FirstProblemExact(entries: seq<Entry>, pools: map<Text, Pool>, nShards: int)
    ensures FirstProblem(entries, pools, nShards).None? ==> AllSound(entries, pools, nShards)
    ensures FirstProblem(entries, pools, nShards).Some? ==>
              && FirstOffends(entries, pools, nShards, FirstProblem(entries, pools, nShards).value)
              && FirstProblem(entries, pools, nShards).value != NotExactCover
  {
    if entries != [] {
      EntryExact(entries[0], pools, nShards);
      assert !EntryOffends(entries[0], pools, nShards, NotExactCover);
      hide EntryProblem, EntrySound, EntryOffends;
      FirstProblemExact(entries[1..], pools, nShards);
      var rest := entries[1..];
      assert forall i :: 1 <= i < |entries| ==> entries[i] == rest[i - 1];
      if EntryProblem(entries[0], pools, nShards).None? && FirstProblem(rest, pools, nShards).Some? {
        var e := FirstProblem(rest, pools, nShards).value;
        var i :| 0 <= i < |rest| && EntryOffends(rest[i], pools, nShards, e)
                 && forall j :: 0 <= j < i ==> EntrySound(rest[j], pools, nShards);
        assert EntryOffends(entries[i + 1], pools, nShards, e);
      }
    }
  }

  lemma BuiltFrom(epoch: int, nShards: int, entries: seq<Entry>, pools: map<Text, Pool>,
                  r: Result<Committee, CommitteeError>)
    requires r.Ok? ==>
               && AllSound(entries, pools, nShards) && ExactlyOnce(Claimed(entries), nShards)
               && r.value.epoch == epoch && r.value.nShards == nShards && AllJoined(r.value.members, entries, pools)
    requires r == Err(NotExactCover) ==> AllSound(entries, pools, nShards) && !ExactlyOnce(Claimed(entries), nShards)
    requires r.Err? && r.error != NotExactCover ==> FirstOffends(entries, pools, nShards, r.error)
    ensures Built(epoch, nShards, entries, pools, r)
  {
    hide AllSound, ExactlyOnce, AllJoined, FirstOffends;
  }

  /** Joins the committee entries with their pools, in committee order, and validates that every shard
      is held by exactly one member. */
  method BuildCommittee(epoch: int, nShards: int, entries: seq<Entry>, pools: map<Text, Pool>)
    returns (r: Result<Committee, CommitteeError>)
    ensures FirstProblem(entries, pools, nShards).Some? ==> r == Err(FirstProblem(entries, pools, nShards).value)
    ensures FirstProblem(entries, pools, nShards).None? && !ExactlyOnce(Claimed(entries), nShards) ==> r == Err(NotExactCover)
    ensures r.Ok? <==> FirstProblem(entries, pools, nShards).None? && ExactlyOnce(Claimed(entries), nShards)
    ensures r.Ok? ==> r.value.epoch == epoch && r.value.nShards == nShards && AllJoined(r.value.members, entries, pools)
    ensures r.Ok? ==> Validated(r.value)
    ensures Built(epoch, nShards, entries, pools, r)
  {
    hide *;
    Nothing(pools, nShards);
    var members: seq<Member> := [];
    var coverage := new nat[if nShards > 0 then nShards else 0](_ => 0);
    for i := 0 to |entries|
      invariant FirstProblem(entries[..i], pools, nShards).None?
      invariant AllJoined(members, entries[..i], pools)
      invariant forall s :: 0 <= s < coverage.Length ==> coverage[s] == multiset(Claimed(entries[..i]))[s]
      invariant forall s :: s in Claimed(entries[..i]) ==> 0 <= s < coverage.Length
    {
      var entry := entries[i];
      assert entries[..i + 1] == entries[..i] + [entry];
      assert entries[..i + 1] + entries[i + 1..] == entries;
      FirstProblemAppend(entries[..i], entry, pools, nShards);
      FirstProblemStays(entries[..i + 1], entries[i + 1..], pools, nShards);
      ClaimedAppend(entries[..i], entry);
      var member := JoinEntry(coverage, entry, nShards, pools);
      match member {
        case Err(e) =>
          FirstProblemExact(entries, pools, nShards);
          BuiltFrom(epoch, nShards, entries, pools, Err(e));
          return Err(e);
        case Ok(m) =>
          JoinedAppend(members, entries[..i], entry, pools);
          members := members + [m];
      }
    }
    assert entries[..|entries|] == entries;
    CoverageExact(coverage[..], Claimed(entries), nShards);
    var exact := AllOnes(coverage);
    FirstProblemExact(entries, pools, nShards);
    if !exact {
      BuiltFrom(epoch, nShards, entries, pools, Err(NotExactCover));
      return Err(NotExactCover);
    }
    r := Ok(Committee(epoch, nShards, members));
    JoinedEntries(r.value, entries, pools);
    BuiltFrom(epoch, nShards, entries, pools, r);
  }

  method JoinEntry(coverage: array<nat>, entry: Entry, nShards: int, pools: map<Text, Pool>)
    returns (r: Result<Member, CommitteeError>)
    requires coverage.Length == if nShards > 0 then nShards else 0
    modifies coverage
    ensures match EntryProblem(entry, pools, nShards)
            case Some(e) => r == Err(e)
            case None =>
              && entry.nodeId in pools && r == Ok(Joined(entry, pools))
              && (forall s :: s in entry.shards ==> 0 <= s < coverage.Length)
              && forall s :: 0 <= s < coverage.Length ==> coverage[s] == old(coverage[s]) + multiset(entry.shards)[s]
  {
    if entry.nodeId !in pools {
      return Err(NoPool(entry.nodeId));
    }
    var outside := CountShards(coverage, entry.shards);
    OutsideWithoutShards(entry.shards, nShards);
    if outside.Some? {
      return Err(ShardOutOfRange(entry.nodeId, outside.value));
    }
    FirstOutsideExact(entry.shards, nShards);
    var pool := pools[entry.nodeId];
    if |pool.publicKey| != UNCOMPRESSED_G1_LENGTH {
      return Err(BadKeyLength(entry.nodeId));
    }
    return Ok(Member(entry.nodeId, entry.shards, pool.address, pool.publicKey));
  }

  lemma CoverageExact(counts: seq<nat>, claims: seq<int>, nShards: int)
    requires |counts| == if nShards > 0 then nShards else 0
    requires forall s :: 0 <= s < |counts| ==> counts[s] == multiset(claims)[s]
    requires forall s :: s in claims ==> 0 <= s < |counts|
    ensures ExactlyOnce(claims, nShards) <==> AllOne(counts)
  {
  }

  predicate AllOne(counts: seq<nat>) { forall s :: 0 <= s < |counts| ==> counts[s] == 1 }

  method AllOnes(coverage: array<nat>) returns (exact: bool)
    ensures exact <==> AllOne(coverage[..])
  {
    for s := 0 to coverage.Length
      invariant forall k :: 0 <= k < s ==> coverage[k] == 1
    {
      if coverage[s] != 1 {
        return false;
      }
    }
    return true;
  }

  lemma Nothing(pools: map<Text, Pool>, nShards: int)
    ensures FirstProblem([], pools, nShards).None? && Claimed([]) == [] && AllJoined([], [], pools)
  {
  }

  // Every entry joined with its pool, in the committee's order.
  ghost predicate AllJoined(members: seq<Member>, entries: seq<Entry>, pools: map<Text, Pool>) {
    && |members| == |entries|
    && forall i :: 0 <= i < |members| ==>
         && entries[i].nodeId in pools
         && members[i].nodeId == entries[i].nodeId && members[i].shards == entries[i].shards
         && members[i].address == pools[entries[i].nodeId].address
         && members[i].publicKey == pools[entries[i].nodeId].publicKey
  }

  lemma JoinedAppend(members: seq<Member>, entries: seq<Entry>, entry: Entry, pools: map<Text, Pool>)
    requires AllJoined(members, entries, pools) && entry.nodeId in pools
    ensures AllJoined(members + [Joined(entry, pools)], entries + [entry], pools)
  {
  }

  lemma JoinedEntries(committee: Committee, entries: seq<Entry>, pools: map<Text, Pool>)
    requires AllJoined(committee.members, entries, pools) && ExactlyOnce(Claimed(entries), committee.nShards)
    ensures Validated(committee)
  {
    assert Entries(committee.members) == entries;
  }

  lemma OutsideWithoutShards(shards: seq<int>, nShards: int)
    ensures nShards < 0 ==> FirstOutside(shards, nShards) == FirstOutside(shards, 0)
  {
  }

  // What validation gives every user of a committee.
  ghost predicate Validated(committee: Committee) {
    ExactlyOnce(Claimed(Entries(committee.members)), committee.nShards)
  }

  // ----- One holder per shard, and weights that add up -----

  lemma {:induction false} ClaimCount(entries: seq<Entry>, shard: int)
    ensures shard in Claimed(entries) <==> exists i :: 0 <= i < |entries| && shard in entries[i].shards
    ensures forall i :: 0 <= i < |entries| ==> multiset(entries[i].shards)[shard] <= multiset(Claimed(entries))[shard]
    ensures forall i, j :: 0 <= i < j < |entries| ==>
              multiset(entries[i].shards)[shard] + multiset(entries[j].shards)[shard] <= multiset(Claimed(entries))[shard]
  {
    ClaimedBySome(entries, shard);
    forall i | 0 <= i < |entries| { ClaimedAtLeast(entries, shard, i); }
    forall i, j | 0 <= i < j < |entries| { ClaimedTwice(entries, shard, i, j); }
  }

  lemma {:induction false} ClaimedBySome(entries: seq<Entry>, shard: int)
    ensures shard in Claimed(entries) <==> exists i :: 0 <= i < |entries| && shard in entries[i].shards
  {
    if entries != [] {
      ClaimedBySome(entries[1..], shard);
      if i :| 0 <= i < |entries| && shard in entries[i].shards {
        if i > 0 { assert entries[i] == entries[1..][i - 1]; }
      }
      if i :| 0 <= i < |entries[1..]| && shard in entries[1..][i].shards {
        assert shard in entries[i + 1].shards;
      }
    }
  }

  lemma {:induction false} ClaimedAtLeast(entries: seq<Entry>, shard: int, i: nat)
    requires i < |entries|
    ensures multiset(entries[i].shards)[shard] <= multiset(Claimed(entries))[shard]
  {
    if i > 0 { ClaimedAtLeast(entries[1..], shard, i - 1); }
  }

  lemma {:induction false} ClaimedTwice(entries: seq<Entry>, shard: int, i: nat, j: nat)
    requires i < j < |entries|
    ensures multiset(entries[i].shards)[shard] + multiset(entries[j].shards)[shard] <= multiset(Claimed(entries))[shard]
  {
    if i > 0 {
      ClaimedTwice(entries[1..], shard, i - 1, j - 1);
    } else {
      ClaimedAtLeast(entries[1..], shard, j - 1);
    }
  }

  lemma CountIn(shards: seq<int>, shard: int)
    ensures multiset(shards)[shard] >= 1 <==> shard in shards
  {
  }

  /** Exactly one member of a validated committee holds each shard, and holds it once. */
  lemma OneHolder(committee: Committee, shard: int)
    requires Validated(committee) && 0 <= shard < committee.nShards
    ensures exists i :: 0 <= i < |committee.members| && shard in committee.members[i].shards
    ensures forall i, j :: 0 <= i < j < |committee.members| && shard in committee.members[i].shards ==>
              shard !in committee.members[j].shards
    ensures forall i :: 0 <= i < |committee.members| && shard in committee.members[i].shards ==>
              multiset(committee.members[i].shards)[shard] == 1
  {
    var entries := Entries(committee.members);
    ClaimCount(entries, shard);
    assert multiset(Claimed(entries))[shard] == 1 && shard in multiset(Claimed(entries));
    var i :| 0 <= i < |entries| && shard in entries[i].shards;
    assert shard in committee.members[i].shards;
    forall i, j | 0 <= i < j < |entries| && shard in entries[i].shards ensures shard !in entries[j].shards {
      assert multiset(entries[i].shards)[shard] >= 1;
      CountIn(entries[j].shards, shard);
    }
  }

  // The shards of the members whose positions are listed.
  ghost function SignerWeight(members: seq<Member>, signers: set<int>): nat {
    if members == [] then 0
    else
      var n := |members| - 1;
      SignerWeight(members[..n], signers) + if n in signers then |members[n].shards| else 0
  }

  ghost function Everyone(members: seq<Member>): set<int> { Below(|members|) }

  lemma {:induction false} WeightsAddUp(members: seq<Member>, a: set<int>, b: set<int>)
    ensures SignerWeight(members, a) + SignerWeight(members, b)
         == SignerWeight(members, a * b) + SignerWeight(members, a + b)
    ensures SignerWeight(members, a) <= |Claimed(Entries(members))|
    ensures Everyone(members) <= a ==> SignerWeight(members, a) == |Claimed(Entries(members))|
  {
    if members != [] {
      var n := |members| - 1;
      WeightsAddUp(members[..n], a, b);
      assert Entries(members) == Entries(members[..n]) + [EntryOf(members[n])];
      ClaimedAppend(Entries(members[..n]), EntryOf(members[n]));
      assert Everyone(members) == Everyone(members[..n]) + {n};
    }
  }

  ghost function Below(n: nat): (r: set<int>)
    ensures |r| == n && forall s :: s in r <==> 0 <= s < n
  {
    if n == 0 then {} else Below(n - 1) + {n - 1}
  }

  function ShardCount(nShards: int): nat { if nShards > 0 then nShards else 0 }

  lemma ClaimsAreShards(claims: seq<int>, nShards: int)
    requires ExactlyOnce(claims, nShards)
    ensures multiset(claims) == multiset(Below(ShardCount(nShards))) && |claims| == ShardCount(nShards)
  {
    var shards := Below(ShardCount(nShards));
    forall s ensures multiset(claims)[s] == multiset(shards)[s] {
      assert s in multiset(claims) <==> s in claims;
    }
    assert |multiset(claims)| == |claims|;
    assert |multiset(shards)| == |shards|;
  }

  /** The members' weights sum to the shard count, so no set of signers outweighs it. */
  lemma WeightsSumToShards(committee: Committee, signers: set<int>)
    requires Validated(committee)
    ensures SignerWeight(committee.members, Everyone(committee.members)) == ShardCount(committee.nShards)
    ensures SignerWeight(committee.members, signers) <= ShardCount(committee.nShards)
  {
    ClaimsAreShards(Claimed(Entries(committee.members)), committee.nShards);
    WeightsAddUp(committee.members, Everyone(committee.members), signers);
    WeightsAddUp(committee.members, signers, signers);
  }

  /** Two quorums of a validated committee share members whose weight passes the validity threshold,
      and so outweighs every set of shards that may be faulty. */
  lemma QuorumIntersection(committee: Committee, a: set<int>, b: set<int>)
    requires Validated(committee)
    requires IsQuorum(SignerWeight(committee.members, a), committee.nShards)
    requires IsQuorum(SignerWeight(committee.members, b), committee.nShards)
    ensures IsAboveValidity(SignerWeight(committee.members, a * b), committee.nShards)
    ensures SignerWeight(committee.members, a * b) > RedStuff.MaxNFaulty(committee.nShards)
  {
    WeightsAddUp(committee.members, a, b);
    WeightsSumToShards(committee, a + b);
  }

  // ----- Lookups -----

  // A dictionary built from the members in order keeps the last one of an identifier.
  function PositionOf(members: seq<Member>, nodeId: Text): Option<nat> {
    if members == [] then None
    else if members[|members| - 1].nodeId == nodeId then Some(|members| - 1)
    else PositionOf(members[..|members| - 1], nodeId)
  }

  lemma {:induction false} PositionIsLast(members: seq<Member>, nodeId: Text)
    ensures var r := PositionOf(members, nodeId);
            && (r.None? ==> forall i :: 0 <= i < |members| ==> members[i].nodeId != nodeId)
            && (r.Some? ==> r.value < |members| && members[r.value].nodeId == nodeId
                            && forall i :: r.value < i < |members| ==> members[i].nodeId != nodeId)
  {
    if members != [] && members[|members| - 1].nodeId != nodeId {
      PositionIsLast(members[..|members| - 1], nodeId);
    }
  }

  // Python reads a negative index from the end of the table.
  predicate Claims(shards: seq<int>, slot: int, nShards: int) {
    slot in shards || slot - nShards in shards
  }

  function LastHolder(members: seq<Member>, slot: int, nShards: int): int {
    if members == [] then -1
    else if Claims(members[|members| - 1].shards, slot, nShards) then |members| - 1
    else LastHolder(members[..|members| - 1], slot, nShards)
  }

  ghost predicate Indexable(members: seq<Member>, nShards: nat) {
    forall i, s :: 0 <= i < |members| && s in members[i].shards ==> 0 <= s + nShards < 2 * nShards
  }

  lemma ClaimsStep(shards: seq<int>, shard: int, slot: int, nShards: int)
    requires 0 <= slot < nShards && 0 <= shard + nShards < 2 * nShards
    ensures Claims(shards + [shard], slot, nShards)
       <==> Claims(shards, slot, nShards) || slot == if shard < 0 then shard + nShards else shard
  {
  }

  lemma IndexableStep(members: seq<Member>, p: nat, nShards: nat)
    requires p < |members| && Indexable(members[..p], nShards)
    requires forall k :: 0 <= k < |members[p].shards| ==> 0 <= members[p].shards[k] + nShards < 2 * nShards
    ensures Indexable(members[..p + 1], nShards)
  {
    forall i, s | 0 <= i <= p && s in members[i].shards ensures 0 <= s + nShards < 2 * nShards {
      if i < p { assert members[..p][i] == members[i]; }
    }
  }

  // The dense table of shard holders; None stands for the IndexError of a shard off the table.
  method PositionByShard(members: seq<Member>, nShards: nat) returns (table: Option<seq<int>>)
    ensures table.Some? <==> Indexable(members, nShards)
    ensures table.Some? ==> |table.value| == nShards
    ensures table.Some? ==> forall s :: 0 <= s < nShards ==> table.value[s] == LastHolder(members, s, nShards)
  {
    var slots := new int[nShards](_ => -1);
    for p := 0 to |members|
      invariant Indexable(members[..p], nShards)
      invariant forall s :: 0 <= s < nShards ==> slots[s] == LastHolder(members[..p], s, nShards)
    {
      var shards := members[p].shards;
      ghost var before := slots[..];
      for j := 0 to |shards|
        invariant forall k :: 0 <= k < j ==> 0 <= shards[k] + nShards < 2 * nShards
        invariant forall s :: 0 <= s < nShards ==>
                    slots[s] == if Claims(shards[..j], s, nShards) then p else before[s]
      {
        var shard := shards[j];
        if shard + nShards < 0 || shard >= nShards {
          assert shard in members[p].shards;
          return None;
        }
        slots[if shard < 0 then shard + nShards else shard] := p;
        assert shards[..j + 1] == shards[..j] + [shard];
        forall s | 0 <= s < nShards {
          ClaimsStep(shards[..j], shard, s, nShards);
        }
      }
      assert shards[..|shards|] == shards;
      assert members[..p + 1][..p] == members[..p];
      assert forall s :: 0 <= s < nShards ==> slots[s] == LastHolder(members[..p + 1], s, nShards);
      IndexableStep(members, p, nShards);
    }
    assert members[..|members|] == members;
    return Some(slots[..]);
  }

  lemma {:induction false} LastHolderHolds(members: seq<Member>, slot: int, nShards: int)
    ensures var p := LastHolder(members, slot, nShards);
            && -1 <= p < |members|
            && (p >= 0 ==> Claims(members[p].shards, slot, nShards))
            && (p == -1 ==> forall i :: 0 <= i < |members| ==> !Claims(members[i].shards, slot, nShards))
  {
    if members != [] {
      LastHolderHolds(members[..|members| - 1], slot, nShards);
    }
  }

  /** In a validated committee the table never holds -1: it names the member that holds the shard. */
  lemma HolderFound(committee: Committee, shard: int)
    requires Validated(committee) && 0 <= shard < committee.nShards
    ensures Indexable(committee.members, committee.nShards)
    ensures var p := LastHolder(committee.members, shard, committee.nShards);
            0 <= p < |committee.members| && shard in committee.members[p].shards
  {
    forall i, s | 0 <= i < |committee.members| && s in committee.members[i].shards
      ensures 0 <= s < committee.nShards
    {
      ClaimCount(Entries(committee.members), s);
      assert s in Entries(committee.members)[i].shards;
    }
    OneHolder(committee, shard);
    LastHolderHolds(committee.members, shard, committee.nShards);
  }

  datatype ShardError = OutsideCommittee | TableIndex

  method PositionForShard(committee: Committee, shard: int) returns (r: Result<int, ShardError>)
    ensures r == Err(OutsideCommittee) <==> !(0 <= shard < committee.nShards)
    ensures 0 <= shard < committee.nShards ==>
              (r == Err(TableIndex) <==> !Indexable(committee.members, committee.nShards))
    ensures r.Ok? ==> r.value == LastHolder(committee.members, shard, committee.nShards)
    ensures Validated(committee) && 0 <= shard < committee.nShards ==>
              r.Ok? && 0 <= r.value < |committee.members| && shard in committee.members[r.value].shards
  {
    if shard < 0 || shard >= committee.nShards {
      return Err(OutsideCommittee);
    }
    var table := PositionByShard(committee.members, committee.nShards);
    if table.None? {
      assert Validated(committee) ==> false by {
        if Validated(committee) { HolderFound(committee, shard); }
      }
      return Err(TableIndex);
    }
    if Validated(committee) { HolderFound(committee, shard); }
    return Ok(table.value[shard]);
  }

  // ----- The pools table -----

  datatype Field = Field(objectId: Text, version: nat, pool: Pool)

  // The first of the fields of this object with the highest version.
  ghost predicate Newest(fields: seq<Field>, i: nat) {
    && i < |fields|
    && (forall k :: 0 <= k < |fields| && fields[k].objectId == fields[i].objectId ==> fields[k].version <= fields[i].version)
    && (forall k :: 0 <= k < i && fields[k].objectId == fields[i].objectId ==> fields[k].version < fields[i].version)
  }

  lemma NewestStep(fields: seq<Field>, n: nat, i: nat)
    requires n < |fields| && Newest(fields[..n], i)
    ensures fields[n].objectId != fields[i].objectId || fields[n].version <= fields[i].version ==>
              Newest(fields[..n + 1], i)
    ensures fields[n].objectId == fields[i].objectId && fields[n].version > fields[i].version ==>
              Newest(fields[..n + 1], n)
  {
  }

  lemma NewestOnceMore(fields: seq<Field>, n: nat)
    requires n < |fields|
    ensures (forall k :: 0 <= k < n ==> fields[k].objectId != fields[n].objectId) ==> Newest(fields[..n + 1], n)
  {
  }

  // De-duplicates by object, keeping the highest version on conflict.
  method KeepNewest(fields: seq<Field>) returns (kept: map<Text, Field>)
    ensures forall f :: f in fields ==> f.objectId in kept
    ensures forall id :: id in kept ==> exists i: nat :: Newest(fields, i) && fields[i].objectId == id && kept[id] == fields[i]
  {
    kept := map[];
    ghost var at: map<Text, nat> := map[];
    for n := 0 to |fields|
      invariant at.Keys == kept.Keys
      invariant forall k :: 0 <= k < n ==> fields[k].objectId in kept
      invariant forall id :: id in kept ==> at[id] < n && fields[at[id]].objectId == id && kept[id] == fields[at[id]]
      invariant forall id :: id in kept ==> Newest(fields[..n], at[id])
    {
      var field := fields[n];
      assert fields[..n + 1] == fields[..n] + [field];
      forall id | id in kept {
        NewestStep(fields, n, at[id]);
      }
      NewestOnceMore(fields, n);
      hide Newest;
      if field.objectId !in kept || field.version > kept[field.objectId].version {
        kept := kept[field.objectId := field];
        at := at[field.objectId := n];
      }
    }
    assert fields[..|fields|] == fields;
  }
}
