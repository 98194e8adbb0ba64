# A verified model of pytusk's Walrus client core

pytusk is a client for the Walrus blob store. This project models the parts of it whose correctness
cannot be seen from one function at a time, and proves properties of them over every input, every run
and every reply of the nodes:

* **Quilts** (`quilt_size.dfy`, `quilt_matrix.dfy`, `quilt_index.dfy`, `quilt_assembly.dfy`,
  `quilt_reader.dfy`, `quilt_acceptance.dfy`, with the arithmetic in `redstuff.dfy` and the encodings in
  `bcs.dfy`). Many blobs
  are packed into one column-major byte matrix. The main result is a round trip against a reader the
  repository does not have: written from the format's description, it sees only the bytes.
* **Storage fusing** (`storage_fuse.dfy`, `storage_periods.dfy`). Reservations are folded into a
  survivor. The emitted calls are replayed against a ledger that follows the fuse rule.
* **Committee operations** (`fanout.dfy`, `throttle.dfy`, `workers.dfy`, `upload.dfy`, `confirm.dfy`,
  `tolerance.dfy`, `read.dfy`, `recovery.dfy`). One dispatch, wait, threshold, grace and cancel protocol is shared by three callers, and a
  byte throttle sits inside two semaphores. Completion order is left to the environment.
* **Committee and quorum** (`committee.dfy`, `certification.dfy`). Exact shard cover, thresholds, the
  signer bitmap and certificates, up to quorum intersection.
* **Events** (`events.dfy`). A hand-written parser of the BCS event envelope.

`common.dfy` holds shared datatypes, rounding division and the order of byte strings.

`dafny verify dfyconfig.toml` checks the whole project.

## How it is modelled

Text is held as its UTF-8 bytes, whose bytewise order is the order of code points. Exceptions are
`Result` errors. A loop or an in-place update of the source is a method proved against a function or a
predicate, and the lemmas are about that function or predicate.

A wait of the event loop delivers an arbitrary non-empty selection of the pending tasks in an arbitrary
order, the grace window an arbitrary selection, and either may be interrupted by an exception. What
every run keeps is stated for all runs (`FanOut.ValidRun`). What a caller's callbacks accumulate is a
function of the log of reports, so each caller's threshold is too. The throttle is a transition system:
`Throttle.Apply` gives the effect of one step of one worker, and the theorems hold for every sequence
of steps. `Workers.RunWorkers` runs any sequence on the throttle and counter objects themselves.

The signature library and the RedStuff decoder are parameters. Where a result needs something of them
it says so: `Certification.SoundBls` (aggregating individually valid signatures verifies),
`Tolerance.StrictBls` (an aggregate verifies only if each signature in it does),
`Read.Decodes` (enough distinct verifying slivers decode to the blob) and `Read.Rederives` (a verifying
decode never returns other bytes).

What the chain guarantees is assumed where the source relies on it: storage objects listed together have
distinct ids and non-empty ones (`StorageFuse.DistinctIds`), and an upload is made to a committee whose
shard cover `Committee.BuildCommittee` validated (`Committee.Validated`). The parameter `interruptible`
of an operation says whether an exception may reach it while it waits.

## Where the code departs from what is said of it

* A comment at `pytusk/core/certification.py:540-544` says the fallback always raises. The code at
  lines 505-508 aggregates the surviving signatures again and goes on without verifying the result; the
  model does the same. The certificate still verifies (`Certification.CertificateVerifies`).
* `pytusk/core/encoding/quilt.py:212-216` says shorter tag keys always sort first. They do below 128
  bytes. `QuiltIndex.KeyOrder` gives the exact order and `QuiltIndex.LongerKeyFirst` a counterexample.
* Naming one object twice in an explicit fuse passes the checks and produces calls that abort
  (`StorageFuse.RepeatedFuseFrom`). Chains replay exactly when the objects are distinct
  (`StorageFuse.ExplicitReplaysIffDistinct`).
* A rejected PUT whose result carries no reason is not recorded as a failure, and the rest of its batch
  is not looked at (`pytusk/core/native_upload/fanout.py:790-795`). `Upload.JudgedRightIff` gives the
  condition under which a node is judged rightly. The result type of a PUT, `tuple[bool, str | None]`,
  allows such a result; the commands that ship always give a failure text, so with them the condition
  holds.
* Nodes are looked up by identifier, and a repeated identifier finds the last member that carries it,
  which committee validation allows. The duplicate-position error, the weight a confirmation brings and
  the assignment of shards depend on it: `Confirm.NeverDuplicatesIff`, `Confirm.AlwaysPlacedIff` and
  `Upload.AssignmentExact` give the exact conditions. `Confirm.SharedIdMisnamed` is a validated committee
  from which a certificate is collected that names a signer far below quorum.
* A caller that lists one member twice (`positions=[0, 0]`, or a position and its negative form) can trip
  the duplicate-position error with every identifier distinct (`Confirm.ListedTwice`).
* Waiting for confirmations counts weight before any signature is verified. A faulty member can end the
  wait and have the honest members still needed cancelled (`Tolerance.InvalidSignatureEndsWait`).
  `Tolerance.CertifiedIff` gives the exact condition on the replies under which every run is certified.
* A read replaces bad slivers once, so honest nodes with enough slivers do not always suffice: a node
  caught in the first round can be followed by another that forges in the second
  (`Recovery.TwoForgersDefeat`). `Recovery.HonestReadIff` gives the exact condition on what the nodes
  serve, and `Recovery.OneForgerIff` its form when any sliver may be lost on the way: no two different
  nodes forge, one in each round.
* A tag list too long for its two-byte prefix is not checked for and ends in an overflow error of
  another kind (`QuiltIndex.BlobMetadata`).
* Reading with verification switched off rests on the decoder being right about slivers that do not
  verify, which `Read.Decodes` does not say; `Read.UncheckedDecodeExact` says exactly which batches that
  assumption covers. The shipped decoder is not part of this model.

## Model

| member | source | states |
|---|---|---|
| RedStuff.SymbolSizeIsLeast | pytusk/core/encoding/redstuff.py:221-243 | the symbol size is positive and even, its (n - 2f) * (n - f) symbols hold the blob, and no smaller positive even size does, f being the most shards short of a third |
| RedStuff.EncodableIffWithinLimit | pytusk/core/encoding/redstuff.py:202-243 | the symbol size stays within 65534 exactly when the blob is within the maximum blob size, which is (n - 2f) * (n - f) * 65534 |
| RedStuff.SourceCountsExact | pytusk/core/encoding/redstuff.py:178-199 | the source counts are n - 2f and n - f for every shard count: the least quorum, and what two of them share at least |
| RedStuff.MaxBlobSizeOfThousand | pytusk/core/encoding/redstuff.py:202-218 | the documented maximum for a thousand shards |
| RedStuff.RotationInverts | pytusk/core/encoding/redstuff.py:417-501 | the shard-to-pair and pair-to-shard maps accept exactly the in-range indices of a 32-byte blob id and undo each other, so each is a bijection on the shards |
| RedStuff.RotatedByIdentifier | pytusk/core/encoding/redstuff.py:417-501 | a pair belongs to a shard exactly when the shard is as far on around the ring as the blob identifier, read as a number with its first byte weighing most, says |
| Bcs.UlebInverts | pytusk/core/encoding/quilt.py:11-24 | reading an unsigned LEB128 number back gives the number and leaves what follows it |
| Bcs.StringInverts | pytusk/core/encoding/quilt.py:125-139 | a length-prefixed string decodes to itself whatever follows |
| Bcs.VectorInverts | pytusk/core/encoding/quilt.py:176-204 | a length-prefixed vector decodes to its elements when each element decodes to itself |
| Bcs.EncodeStringInjective | pytusk/core/encoding/quilt.py:207-235 | two tag keys with the same sort key are the same key |
| QuiltSize.ComputeSymbolSize | pytusk/core/encoding/quilt.py:281-373 | the search returns the least even size whose whole columns hold every blob, whose index takes at most ten columns and whose column holds the index prefix; it fails exactly on no blobs, more blobs than columns, or no such size within the limit, and the packing error after the search never occurs |
| QuiltSize.SuitableIffFits | pytusk/core/encoding/quilt.py:308-357 | above the initial lower bound, the search test alone decides suitability |
| QuiltSize.SuitableUpward | pytusk/core/encoding/quilt.py:337-352 | suitability is monotone in the symbol size, which is what makes a binary search sound |
| QuiltSize.TopSuitable | pytusk/core/encoding/quilt.py:308-336 | the search starts with a suitable size at its top |
| QuiltSize.LeastEven | pytusk/core/encoding/quilt.py:353-373 | rounding the least suitable size up to even gives the least even suitable one, and the blobs still fit |
| QuiltMatrix.PositionInjective | pytusk/core/encoding/quilt.py:39-46 | two different stream bytes never land on the same byte of the matrix |
| QuiltMatrix.ScatterPlaces | pytusk/core/encoding/quilt.py:417-455 | a stream byte is found at its row, column and offset |
| QuiltMatrix.ScatterElsewhere | pytusk/core/encoding/quilt.py:417-455 | every byte no stream byte is sent to is unchanged |
| QuiltMatrix.ScatterConcat | pytusk/core/encoding/quilt.py:457-462 | writing prefix and blob in two calls that share one position is writing their concatenation in one |
| QuiltMatrix.WriteBytes | pytusk/core/encoding/quilt.py:417-455 | the symbol-sized slice assignments amount to placing each byte where the position map says, and the past-the-end error occurs exactly when some byte would not fit |
| QuiltMatrix.WriteBlobToQuilt | pytusk/core/encoding/quilt.py:376-467 | the writer refines the position map, returns the stream length over the column size rounded up, and raises exactly its three errors under their conditions |
| QuiltMatrix.InsideFits | pytusk/core/encoding/quilt.py:417-455 | columns inside the matrix always leave room, so the past-the-end error cannot fire for them |
| QuiltMatrix.ReadAfterWrite | pytusk/core/encoding/quilt.py:39-46 | reading back the columns a stream was written to yields the stream |
| QuiltMatrix.ReadFrame | pytusk/core/encoding/quilt.py:39-46 | writing to some columns leaves every other run of columns reading as before |
| QuiltIndex.TagOrderForgotten | pytusk/core/encoding/quilt.py:207-235 | the tag entries are a function of the mapping, not of its insertion order |
| QuiltIndex.KeyOrder | pytusk/core/encoding/quilt.py:207-235 | when a key of another length sorts first, exactly: by the low seven bits of the LEB128 length prefix once both lengths take two bytes; a shorter key comes first whenever it is under 128 bytes |
| QuiltIndex.LongerKeyFirst | pytusk/core/encoding/quilt.py:212-216 | the documented rule that shorter keys sort first fails: a 256-byte key precedes a 129-byte one |
| QuiltIndex.TagsInvert | pytusk/core/encoding/quilt.py:238-247 | a serialized tag list parses back to the entries |
| QuiltIndex.BlobMetadata | pytusk/core/encoding/quilt.py:519-583 | the inline header is built exactly when no field overflows its width, and each overflow has its own error |
| QuiltIndex.PatchInverts | pytusk/core/encoding/quilt.py:519-583 | parsing a stored stream gives identifier, sorted tags and contents back, whatever padding follows |
| QuiltIndex.IndexInverts | pytusk/core/encoding/quilt.py:142-187 | the serialized index parses back to its entries |
| QuiltIndex.PlaceholderSize | pytusk/core/encoding/quilt.py:632-647 | an index sized with placeholder end columns has its final size |
| QuiltAcceptance.CheckExact | pytusk/core/encoding/quilt.py:490-516 | nothing is found exactly when every identifier has 1 to 65535 bytes, passes the rules on its text and is new; what is found is wrong with the first for which that fails, by the first rule that does |
| QuiltAcceptance.MetadataExact | pytusk/core/encoding/quilt.py:519-583 | a header fits exactly when its identifier serializes to fewer than 65535 bytes, its payload is at most 4294967295 bytes and its tags take fewer than 65536; each overflow has its own error, in this order |
| QuiltAssembly.SuitableIsRoomy | pytusk/core/encoding/quilt.py:653-666 | a suitable symbol size leaves the index in its ten columns and every patch inside the matrix |
| QuiltAssembly.WritePatches | pytusk/core/encoding/quilt.py:668-689 | the patches are painted at consecutive start columns and laid out with the columns they took |
| QuiltAssembly.WriteIndex | pytusk/core/encoding/quilt.py:690-717 | the index goes to column zero at its reserved size, unless an end column or the index length overflows |
| QuiltAssembly.AssembleQuilt | pytusk/core/encoding/quilt.py:586-720 | the imperative assembly computes the specified outcome for every batch: the buffer, the layouts or the error |
| QuiltAcceptance.AcceptanceIff | pytusk/core/encoding/quilt.py:586-720 | a batch is packed exactly when it is not empty, its identifiers are pairwise distinct and each all right, its headers fit, a symbol of 65534 bytes leaves room for it in the committee's (n - 2f) by (n - f) matrix with ten columns for the index, and no column number or index length overflows |
| QuiltAcceptance.AssemblyOutcome | pytusk/core/encoding/quilt.py:586-720 | each error occurs under its own condition on identifiers, sizes in bytes and shard count, and a packed batch fills the matrix of the least symbol |
| QuiltReader.QuiltRoundTrip | pytusk/core/encoding/quilt.py:26-46 | a reader that sees only the bytes recovers every patch's identifier, tags and contents, in identifier order, for every accepted batch |
| QuiltReader.LayoutRanges | pytusk/core/encoding/quilt.py:668-689 | the patches take consecutive, non-empty runs of whole columns after an index of at most ten, in strictly ascending identifier order |
| QuiltReader.PaddingIsZero | pytusk/core/encoding/quilt.py:666-717 | every byte of a packed quilt that no byte of its index or patches is sent to is zero |
| QuiltReader.ErrorsThatRemain | pytusk/core/encoding/quilt.py:653-708 | the packing, index-column and index-size-changed errors never fire; the two overflows need more than 65535 columns or 6553 rows |
| QuiltReader.GeometryRederived | pytusk/core/encoding/redstuff.py:221-243 | the encoder derives from an assembled buffer the very symbol size it was built with, and the buffer is within the maximum blob size |
| QuiltReader.ListingOrderForgotten | pytusk/core/encoding/quilt.py:619-629 | permuting the batch changes neither bytes, layouts nor error |
| QuiltReader.BatchOrderForgotten | pytusk/core/encoding/quilt.py:207-247 | nor does permuting the batch together with the insertion order of any patch's tags |
| StorageFuse.PreflightExact | pytusk/core/ops/storage_compose.py:84-170 | the client-side rule accepts exactly the pairs the chain call accepts, and predicts the survivor |
| StorageFuse.ReasonsExact | pytusk/core/ops/storage_compose.py:84-170 | when two objects can be fused, and which rule is the first to fail when they cannot |
| StorageFuse.FuseConserves | pytusk/tusky/tusky_cmds_storage.py:140-170 | one fuse call keeps the reserved size at every epoch |
| StorageFuse.ReplayConserves | pytusk/tusky/tusky_cmds_storage.py:731-792 | so does every replay of a sequence of calls |
| StorageFuse.ChainReplays | pytusk/tusky/tusky_cmds_storage.py:140-170 | replaying an accepted chain over distinct objects never aborts and leaves exactly the predicted survivor |
| StorageFuse.FuseExplicit | pytusk/tusky/tusky_cmds_storage.py:731-792 | the fold loop accepts exactly the chains whose every step passes the rule, emits one call per spoke, and otherwise names the first failing step |
| StorageFuse.ExplicitReplaysIffDistinct | pytusk/tusky/tusky_cmds_storage.py:731-792 | an accepted explicit chain replays, and conserves capacity, exactly when no spoke is named twice |
| StorageFuse.RepeatedFuseFrom | pytusk/tusky/tusky_cmds_storage.py:731-792 | naming one object twice is accepted by the loop although its calls abort |
| StorageFuse.FuseAmountGroups | pytusk/tusky/tusky_cmds_storage.py:81-106 | one group for each epoch range held at least twice, with all its objects in listing order, the groups in the order in which their ranges are first held |
| StorageFuse.AmountGroupsExact | pytusk/tusky/tusky_cmds_storage.py:81-106 | the groups are exactly the ranges held at least twice, each with all the objects that hold it |
| StorageFuse.ResolveAmountTargets | pytusk/tusky/tusky_cmds_storage.py:260-310 | with both bounds the objects of that range if at least two hold it; with none those of the only range held twice, no groups when none is, ambiguous when two ranges are; one bound alone is refused |
| StorageFuse.AmountModeReplays | pytusk/tusky/tusky_cmds_storage.py:81-106 | the calls for any group replay, consume all of it but the survivor, and conserve capacity at every epoch |
| StoragePeriods.FusePeriodsPairs | pytusk/tusky/tusky_cmds_storage.py:109-137 | exactly the listed pairs that are compatible by the periods route |
| StoragePeriods.BuildGraph | pytusk/tusky/tusky_cmds_storage.py:235-240 | the adjacency dict is the compatibility graph |
| StoragePeriods.ComponentIds | pytusk/tusky/tusky_cmds_storage.py:242-257 | the depth-first search visits exactly the objects a path connects to the seed, and terminates |
| StoragePeriods.PeriodsComponents | pytusk/tusky/tusky_cmds_storage.py:219-257 | the components are disjoint, each closed under connection with at least two members in id order, and cover exactly the objects with a partner |
| StoragePeriods.FoldPass | pytusk/tusky/tusky_cmds_storage.py:202-215 | one pass goes through the spokes in order and folds exactly those that join what the survivor has become; it reports progress exactly when it folded one |
| StoragePeriods.FusePeriodsChain | pytusk/tusky/tusky_cmds_storage.py:173-216 | passes in order, each over what the one before left, up to a fixed point: folded and leftover spokes are a permutation of the spokes, and each leftover starts with the final survivor or is incompatible with it |
| StoragePeriods.ResolvePeriodsTargets | pytusk/tusky/tusky_cmds_storage.py:313-356 | the named object's component or the only component, with its hub and its spokes in id order; the three errors occur exactly under their conditions on the graph |
| StoragePeriods.PeriodsModeReplays | pytusk/tusky/tusky_cmds_storage.py:173-216 | the emitted calls replay without reusing a consumed object, conserve capacity at every epoch, and leave every leftover untouched and stuck |
| Certification.Thresholds | pytusk/core/certification.py:202-286 | a quorum is more than two thirds of the shards, validity more than one; each threshold is the least weight its test accepts; quorum equals the number of correct shards, validity exceeds the faulty shards, and together they exceed the shard count |
| Certification.PackSignersBitmap | pytusk/core/certification.py:133-165 | read as a number with its first byte weighing least, the bitmap has a one at exactly the powers of two of the positions, in (size + 7) / 8 bytes; it fails exactly on a negative size or a position outside it |
| Certification.UnpackInverts | pytusk/core/certification.py:168-199 | a bitmap packed from ascending positions unpacks to exactly them |
| Certification.UnpackExact | pytusk/core/certification.py:168-199 | a bitmap of enough bytes unpacks to the positions below the size whose binary digit is one, ascending; a negative size and too few bytes are the two errors |
| Certification.BuildCertificate | pytusk/core/certification.py:360-553 | a certificate stands for exactly the retained confirmations: ascending positions in range, a bitmap whose binary digits are ones at them, their summed weight, a quorum; otherwise the first check that fails |
| Certification.CertificateVerifies | pytusk/core/certification.py:556-597 | any certificate built verifies against the retained signers' keys in both branches, although the fallback does not verify again |
| Certification.BadSignersExcluded | pytusk/core/certification.py:489-553 | with a sound library the guards against an unattributable failure never fire, and a bad signature among the confirmations handed in costs only its signer |
| Committee.BuildCommittee | pytusk/core/chain/committee.py:588-657 | a committee is built, in the given order with each pool's address and key, exactly when every entry has a pool, every shard is in range, every key has 96 bytes and every shard is claimed once; otherwise the first entry's first problem |
| Committee.OneHolder | pytusk/core/chain/committee.py:601-605 | every shard of a validated committee has exactly one holder |
| Committee.WeightsSumToShards | pytusk/core/chain/committee.py:154-179 | the members' weights sum to the shard count, and no signer set outweighs it |
| Committee.QuorumIntersection | pytusk/core/certification.py:202-286 | two quorums share members whose weight passes the validity threshold and exceeds what may be faulty |
| Committee.PositionIsLast | pytusk/core/chain/committee.py:195-233 | a node id is found at the last position that carries it, and not found only when none does |
| Committee.PositionByShard | pytusk/core/chain/committee.py:206-216 | the dense table names the last holder of each shard, and fails exactly on a shard off the table |
| Committee.HolderFound | pytusk/core/chain/committee.py:206-251 | in a validated committee the table never holds -1 |
| Committee.PositionForShard | pytusk/core/chain/committee.py:235-251 | out-of-range shards are refused, a shard off the table is an index error, and otherwise the last holder is returned, who holds the shard in every validated committee |
| Committee.KeepNewest | pytusk/core/chain/committee.py:782-808 | per object the first entry of the highest version is kept |
| FanOut.Wait | pytusk/core/committee_fanout.py:127-137 | waiting stops at the first batch that meets the threshold, and otherwise only when nothing is pending or it is interrupted |
| FanOut.DriveFanOut | pytusk/core/committee_fanout.py:58-173 | on every way out, by return or exception, each task has finished or was cancelled, none is reported twice, and a cancellation is reported only after the threshold held over what had completed; a run that returns is valid, and its callbacks were told exactly its log |
| FanOut.ReportedOnce | pytusk/core/committee_fanout.py:127-167 | a run that returns reports each task exactly once, completed or cancelled, and the threshold at most once |
| FanOut.CancelledAfterThreshold | pytusk/core/committee_fanout.py:146-166 | a cancellation is reported only after the threshold held over what had completed |
| FanOut.NoThresholdCompletesAll | pytusk/core/committee_fanout.py:130-146 | if the threshold never holds every task completes and none is cancelled |
| Throttle.BytesInFlightThrottle.TryAcquire | pytusk/core/native_upload/fanout.py:185-194 | a reservation is admitted exactly when nothing is in flight or it fits |
| Throttle.EffectivePermits | pytusk/core/native_upload/fanout.py:1064-1074 | at least one permit; with more than one, all of them together fit the byte budget |
| Throttle.PermitsGreatest | pytusk/core/native_upload/fanout.py:1064-1074 | no greater number of PUTs is within both limits |
| Throttle.RunKeeps | pytusk/core/native_upload/fanout.py:152-205 | over every interleaving permits are accounted for, bytes in flight are the sum of the reservations, and they stay within the limit unless one is the only non-zero one |
| Throttle.SliversAfterMetadata | pytusk/core/native_upload/fanout.py:708-760 | no interleaving sends a sliver to a node before its metadata PUT is over |
| Throttle.NeverWaits | pytusk/core/native_upload/fanout.py:1064-1074 | with the computed permits and no sliver PUT above the size they were computed from, acquiring bytes never waits; metadata PUTs may be of any size |
| Throttle.NotStuck | pytusk/core/native_upload/fanout.py:520-532 | no deadlock: while a worker has not ended, some worker can go on without a cancellation |
| Throttle.NoConnectionsNothingSent | pytusk/core/native_upload/fanout.py:709-709 | the other way round, zero connections per node means nothing is ever sent |
| Throttle.RunsEnd | pytusk/core/native_upload/fanout.py:566-622 | every interleaving, retries included, is finite |
| Throttle.PutsPaired | pytusk/core/native_upload/fanout.py:261-284 | started and finished PUTs are counted in pairs however each finishes |
| Throttle.EveryRunCompletes | pytusk/core/native_upload/fanout.py:566-622 | a run that can go no further has ended every worker and given back every permit and byte |
| Workers.Perform | pytusk/core/native_upload/fanout.py:566-594 | each step of the transition system is what the throttle and the counters do: a PUT goes on exactly when the throttle admits it and is counted, and whoever stops sending gives its bytes back |
| Workers.RunWorkers | pytusk/core/native_upload/fanout.py:133-284 | over every schedule the throttle object holds exactly the bytes of the PUTs being sent, within its limit unless one is alone; PUTs in flight, completed and failed add up to those started; a finished schedule leaves both at zero |
| Upload.PutSliver | pytusk/core/native_upload/fanout.py:479-622 | the result is the first attempt that is accepted, raises or has no retry left; at most one attempt more than the retries; every attempt is accounted for |
| Upload.UploadNode | pytusk/core/native_upload/fanout.py:625-836 | a failed metadata PUT abandons the node; otherwise slivers run until one gives a reason, and each has been delivered or is cancelled; the node is counted as done exactly when it is judged and stays running when its task raises |
| Upload.RunNode | pytusk/core/native_upload/fanout.py:839-903 | whichever way a node task ends, judged, raised or interrupted, the node is counted as done once, leaves the running set, and adds its weight exactly when its outcome succeeded |
| Upload.JudgedRightIff | pytusk/core/native_upload/fanout.py:764-795 | a node is judged by whether all its slivers were stored, over every order of completion, exactly when no rejection comes without a reason |
| Upload.SilentRun | pytusk/core/native_upload/fanout.py:790-795 | a rejection without a reason can leave the node judged as succeeded; the result type of a PUT allows one, the shipped commands never give one |
| Upload.GroupByNode | pytusk/core/native_upload/fanout.py:1076-1081 | one task per shard-holding node id, in the order of first shards |
| Upload.GroupedInOrder | pytusk/core/native_upload/fanout.py:1076-1081 | the nodes of earlier tasks hold earlier first shards |
| Upload.AssignmentExact | pytusk/core/native_upload/fanout.py:1076-1113 | every shard goes to exactly one task exactly when no shard-holding member is followed by one with its node id |
| Upload.CollectPuts | pytusk/core/native_upload/fanout.py:737-741 | a node's PUTs are the primary and then the secondary sliver of each of its shards, in their order |
| Upload.SliverSentOnce | pytusk/core/native_upload/fanout.py:737-741 | each sliver of each shard is sent exactly once over all tasks |
| Upload.UploadSlivers | pytusk/core/native_upload/fanout.py:906-1218 | exactly one outcome per node task, its own result or its cancellation; a report exactly when the succeeded weight is a quorum; below quorum nothing was cancelled; the progress counters end with as many nodes done as completed, the succeeded weight of the report, and exactly the cancelled nodes still running |
| Upload.SucceededWithinShards | pytusk/core/native_upload/fanout.py:1134-1147 | the succeeded weight is that of the distinct members that succeeded and never exceeds the shard count |
| Confirm.ChooseCandidates | pytusk/core/native_upload/confirm.py:350-354 | every member in order, or the listed positions as Python indexes them |
| Confirm.CollectConfirmations | pytusk/core/native_upload/confirm.py:230-495 | only usable confirmations of a valid run are certified, and every outcome is the one building a certificate from them has |
| Confirm.NeverDuplicatesIff | pytusk/core/native_upload/confirm.py:350-437 | collecting from any list of candidates never trips the duplicate-position error, over every reply, run and signature library, exactly when the candidates' node ids are pairwise distinct |
| Confirm.EveryoneNeverDuplicatesIff | pytusk/core/native_upload/confirm.py:350-437 | asking every member, it never does exactly when the committee's node ids are distinct |
| Confirm.ListedTwice | pytusk/core/native_upload/confirm.py:350-354 | listing one member twice, from either end, can trip it even when all node ids are distinct |
| Confirm.AlwaysPlacedIff | pytusk/core/native_upload/confirm.py:166-178 | over every reply and run a confirmation carries the weight of the member at its position, exactly when no candidate shares its node id with a later member of another weight |
| Confirm.CertificateWeight | pytusk/core/native_upload/confirm.py:166-178 | the weight of a collected certificate is the weight of the members its bitmap names, and is a quorum, when the candidates weigh what the members their node ids name do |
| Confirm.CertificatesIntersect | pytusk/core/certification.py:202-286 | any two certificates collected from one validated committee whose candidates weigh what their node ids name, as they do when node ids are distinct, name common signers that outweigh every faulty minority |
| Confirm.DistinctWeighed | pytusk/core/native_upload/confirm.py:166-178 | distinct node ids give that condition for every list of candidates |
| Confirm.SharedIdMisnamed | pytusk/core/native_upload/confirm.py:166-178 | a validated committee with a shared node id and a certificate of weight three collected from it whose only named signer holds one shard, so that it does not intersect itself |
| Confirm.ErrorsThatRemain | pytusk/core/native_upload/confirm.py:470-495 | with a sound library and distinct candidate node ids only a foreign message, no valid signature or too little weight is left to go wrong |
| Tolerance.CertifiedIff | pytusk/core/native_upload/confirm.py:386-495 | under a library that is sound and strict and distinct node ids, every run of a collection ends in a certificate exactly when the confirmers agree on the message and hold a quorum, and no set of genuine confirmers falls short of a quorum by no more than the weight of the confirmers whose signature is invalid |
| Tolerance.ToleratedCertified | pytusk/core/native_upload/confirm.py:386-495 | the sufficient half needs only that the library is sound |
| Tolerance.InvalidWeightFails | pytusk/core/native_upload/confirm.py:386-437 | genuine confirmers short of a quorum with invalid ones that make it up are what some run delivers and stops at, and it is not certified |
| Tolerance.GenuineCertified | pytusk/core/native_upload/confirm.py:386-495 | the case without invalid signatures: agreeing confirmers that hold a quorum are certified in every run |
| Tolerance.InvalidSignatureEndsWait | pytusk/core/native_upload/confirm.py:386-437 | one faulty member within what a validated committee tolerates makes some run fail although the genuine confirmers hold a quorum |
| Read.FetchNodeSlivers | pytusk/core/native_read/fetch.py:24-88 | one sliver for each listed shard whose own pair is answered, in the order of the shards, the pair being the one the blob identifier read as a big-endian number rotates onto the shard; what fails is dropped |
| Read.EveryPairRequestedOnce | pytusk/core/native_read/fetch.py:62-88 | a read over all members of a validated committee requests each sliver pair exactly once |
| Read.ChooseNodes | pytusk/core/native_read/fetch.py:161-168 | exactly the members that hold shards and are not excluded |
| Read.QueriedExact | pytusk/core/native_read/fetch.py:161-168 | a position is queried exactly when it holds shards and is not excluded |
| Read.QueriedInOrder | pytusk/core/native_read/fetch.py:161-168 | members are queried in committee order, none twice |
| Read.FetchSlivers | pytusk/core/native_read/fetch.py:91-234 | the slivers returned are distinct, each served by a queried node, and at least the threshold; it falls short only when all the queried nodes supplied, counted by content, does |
| Read.FetchedIffSelected | pytusk/core/native_read/fetch.py:91-234 | what the runs of a fetch can collect to its threshold is exactly what duplicate-free selections of the queried nodes supply, in any order |
| Read.MergeDistinct | pytusk/core/native_read/reconstruct.py:159-176 | the first list followed by what the second adds to it |
| Read.MergeKeeps | pytusk/core/native_read/reconstruct.py:159-176 | merging keeps contents distinct, invents nothing and loses no content |
| Read.MergeCredits | pytusk/core/native_read/reconstruct.py:159-176 | the first list stays in front, and a content it lacks is credited to the first to bring it |
| Read.PartitionByVerification | pytusk/core/native_read/reconstruct.py:116-156 | splits into the slivers that verify and all nodes that served one that does not |
| Read.VerifiedInOrder | pytusk/core/native_read/reconstruct.py:116-156 | what verifies keeps the order it was collected in |
| Read.ReconstructBlob | pytusk/core/native_read/reconstruct.py:179-270 | at most two fetches and two decodes; each decoded batch is distinct, reaches the threshold and comes from a run of its fetch; replacements come from nodes outside the indicted; a failed fetch either was interrupted or counted all that the nodes of its round supplied, fewer than the threshold |
| Read.ReadRecovers | pytusk/core/native_read/reconstruct.py:179-270 | with a decoder that decodes enough distinct verifying slivers and re-derives the identifier, and a second round that serves only slivers that verify, a read returns the blob, or was interrupted, or a whole round supplied fewer distinct slivers than the threshold |
| Recovery.HonestReadIff | pytusk/core/native_read/reconstruct.py:116-270 | honest nodes that supply enough verifying slivers first and enough slivers again make every uninterrupted run return the blob, under every decoder that is right, exactly when no first selection of nodes leaves too few slivers that verify with a second selection of those not caught that holds a bad one |
| Recovery.HonestNodesSuffice | pytusk/core/native_read/reconstruct.py:116-270 | honest nodes are never indicted and are enough whenever no two different nodes forge, one in each round |
| Recovery.OneForgerIff | pytusk/core/native_read/reconstruct.py:116-270 | when any of the slivers a node serves may fail to arrive, they are enough exactly when no two different nodes forge, one in each round |
| Recovery.OneForgerUnforgeable | pytusk/core/native_read/reconstruct.py:116-270 | one forger never defeats a run; when each node supplies at most one sliver a round two always can |
| Recovery.TwoForgersDefeat | pytusk/core/native_read/reconstruct.py:230-270 | two nodes that forge in both rounds defeat a read that an honest node could serve alone, in a run of both fetches |
| Read.UncheckedDecodeExact | pytusk/core/native_read/reconstruct.py:206-208 | about the assumption on the decoder, without re-deriving the identifier: every decoder that meets it is right about a batch exactly when all its slivers verify, and for any other batch some decoder that meets it returns other bytes |
| Events.ReadUleb | pytusk/core/chain/events.py:126-149 | the bounded loop reads what a general LEB128 reader does when that takes at most six bytes, and fails otherwise |
| Events.CanonicalLength | pytusk/core/chain/events.py:126-149 | a canonical encoding fits six bytes exactly when the number is below 128 to the sixth |
| Events.EventPayload | pytusk/core/chain/events.py:170-218 | the offset-advancing parser computes the payload function, hop by checked hop |
| Events.PayloadInverts | pytusk/core/chain/events.py:170-218 | unwrapping inverts wrapping for every non-generic event |
| Events.GenericRefused | pytusk/core/chain/events.py:199-207 | a non-zero type-parameter count is refused whatever follows |
| Events.PayloadExact | pytusk/core/chain/events.py:170-218 | a payload is returned exactly for buffers that are an envelope around it, so it is the exact tail |
| Events.StructNameExact | pytusk/core/chain/events.py:221-233 | the struct name survives any module path exactly when it has no separator and no leading colon |
| Events.EventObjectId | pytusk/core/chain/events.py:236-292 | the field loop finds the declared offset and checks the size first |
| Events.ObjectIdExact | pytusk/core/chain/events.py:254-292 | an identifier is returned exactly for an envelope around fields of the declared sizes, and spells the 32 bytes of the declared field |
| Events.ObjectIdPlaced | pytusk/core/chain/events.py:75-115 | in absolute terms the identifier is the 32 bytes at offset 50 of the 82 of a registration, 41 of the 74 of a certification, 40 of the 73 of a deletion, and no other event names an object |
| Events.HexReads | pytusk/core/chain/events.py:287-291 | the returned text, read in base sixteen, gives the bytes |

## Left out

* HTTP, gRPC, transaction building, the command line, printing and logging. A node's reply is a
  parameter.
* Time: the length of the grace window, backoff delays and jitter, heartbeats, and the text of the
  progress line. Any selection of tasks may finish in any window.
* A second cancellation that arrives while a fan-out is cleaning up.
* The bodies of the signature library and of the RedStuff encoder and decoder, and the check of one
  sliver against the blob's metadata.
* The Unicode rules of `validate_quilt_identifier`: an arbitrary predicate on the text stands for them.
* Floating-point division that rounds up: it is the exact integer ceiling here.
* `quilt_patch_id`, base64 helpers, the confirmation message layout and the expected message, which is
  a parameter.
* Decoding the staking object and the pools from JSON: the committee entries and pools are given, and
  a public key is already decoded from base64.
* Splitting, extending, reclaiming and destroying storage.
* The cap on the bytes of one response, the number of responding nodes quoted in an error, and the
  counts kept for the confirmation progress line.
* The epoch retry around certification, and the paging of the pools table and the check of its declared size.
- Throttle.BytesInFlightThrottle.TryAcquire: models one look at the waiting condition; the waiting itself, and who is woken when, is in the transition system.
- Upload.PutSliver: models one PUT by itself, without the semaphores and the throttle around each attempt; their interleaving with other PUTs is in the transition system.
- Upload.UploadNode: the counters are stated as this node's calls change them, with no other node's calls in between.
- Upload.UploadSlivers: a node's own report of being finished is placed beside the fold of its outcome, although it comes earlier; of an interrupted call it says only that exceptions were possible; what holds of the tasks then is stated by the shared fan-out.
- Read.ReadRecovers: nodes that repeat a valid sliver of another index are allowed, since slivers are told apart by content.
