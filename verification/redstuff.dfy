/** Size, threshold and rotation arithmetic of the RedStuff encoding. */
module RedStuff {
  import opened Common
  import opened Arithmetic

  const RS2_MAX_SYMBOL_SIZE := 65534
  const RS2_REQUIRED_ALIGNMENT := 2
  const BLOB_ID_LENGTH := 32

  // Python's // floors, and so does Dafny's / for a positive divisor.
  function MaxNFaulty(nShards: int): int { (nShards - 1) / 3 }

  function MinNCorrect(nShards: int): int { nShards - MaxNFaulty(nShards) }

  function SourceSymbolCounts(nShards: int): (counts: (int, int))
    ensures nShards >= 1 ==> 1 <= counts.0 <= counts.1 <= nShards
    ensures counts.1 >= 2 ==> counts.0 >= 1
  {
    (MinNCorrect(nShards) - MaxNFaulty(nShards), MinNCorrect(nShards))
  }

  function SymbolCount(nShards: int): (r: int)
    ensures nShards >= 1 ==> r >= 1
  {
    var (primary, secondary) := SourceSymbolCounts(nShards);
    if nShards >= 1 then
      MulMonotone(1, primary, secondary);
      primary * secondary
    else primary * secondary
  }

  function MaxBlobSize(nShards: int): int {
    SymbolCount(nShards) * RS2_MAX_SYMBOL_SIZE
  }

  function SymbolSize(blobLength: int, nShards: int): int
    requires nShards >= 1
  {
    var raw := CeilDiv(if blobLength > 1 then blobLength else 1, SymbolCount(nShards));
    var remainder := raw % RS2_REQUIRED_ALIGNMENT;
    if remainder != 0 then raw + RS2_REQUIRED_ALIGNMENT - remainder else raw
  }

  // The most shards that may be faulty while fewer than a third are.
  predicate MostFaulty(f: int, nShards: int) { 3 * f < nShards <= 3 * f + 3 }

  /** The secondary count is the least quorum of the shards, the primary what any two quorums share at
      the least, and they are n - f and n - 2f whatever n leaves over when divided by three. */
  lemma SourceCountsExact(nShards: int, f: int)
    requires MostFaulty(f, nShards)
    ensures SourceSymbolCounts(nShards) == (nShards - 2 * f, nShards - f)
    ensures var (primary, secondary) := SourceSymbolCounts(nShards);
            3 * secondary >= 2 * nShards + 1 && 3 * (secondary - 1) < 2 * nShards + 1
            && primary == 2 * secondary - nShards
    ensures SymbolCount(nShards) == (nShards - 2 * f) * (nShards - f)
    ensures MaxNFaulty(nShards) == f
  {
  }

  // The largest blob of a committee of a thousand shards, in bytes.
  lemma MaxBlobSizeOfThousand()
    ensures MaxBlobSize(1000) == 14599533452
  {
    SourceCountsExact(1000, 333);
  }

  predicate Holds(size: int, blobLength: int, symbols: int) {
    size > 0 && size % 2 == 0 && blobLength <= size * symbols
  }

  lemma RoundedUpToEven(blobLength: nat, nShards: int)
    requires nShards >= 1
    ensures var raw := CeilDiv(if blobLength > 1 then blobLength else 1, SymbolCount(nShards));
            var size := SymbolSize(blobLength, nShards);
            raw <= size <= raw + 1 && size % 2 == 0
  {
  }

  // The symbol size is the least positive even one whose (n - 2f) * (n - f) symbols hold the blob.
  lemma SymbolSizeIsLeast(blobLength: nat, nShards: int, f: int, other: int)
    requires nShards >= 1 && MostFaulty(f, nShards)
    ensures Holds(SymbolSize(blobLength, nShards), blobLength, (nShards - 2 * f) * (nShards - f))
    ensures Holds(other, blobLength, (nShards - 2 * f) * (nShards - f)) ==> SymbolSize(blobLength, nShards) <= other
  {
    SourceCountsExact(nShards, f);
    var count := SymbolCount(nShards);
    hide SymbolCount, SourceSymbolCounts;
    var length := if blobLength > 1 then blobLength else 1;
    var size := SymbolSize(blobLength, nShards);
    RoundedUpToEven(blobLength, nShards);
    CeilDivCovers(length, count, size);
    CeilDivCovers(length, count, 0);
    if Holds(other, blobLength, count) {
      MulMonotone(1, other, count);
      CeilDivCovers(length, count, other);
    }
  }

  // The size guard before encoding is exactly the encoder's limit on the symbol size: what the largest
  // symbols of the matrix hold.
  lemma EncodableIffWithinLimit(blobLength: nat, nShards: int, f: int)
    requires nShards >= 1 && MostFaulty(f, nShards)
    ensures SymbolSize(blobLength, nShards) <= RS2_MAX_SYMBOL_SIZE <==> blobLength <= MaxBlobSize(nShards)
    ensures MaxBlobSize(nShards) == (nShards - 2 * f) * (nShards - f) * 65534
  {
    SourceCountsExact(nShards, f);
    var size := SymbolSize(blobLength, nShards);
    SymbolSizeIsLeast(blobLength, nShards, f, RS2_MAX_SYMBOL_SIZE);
    var count := SymbolCount(nShards);
    assert RS2_MAX_SYMBOL_SIZE * count == MaxBlobSize(nShards);
    hide SymbolCount, SourceSymbolCounts, SymbolSize;
    if size <= RS2_MAX_SYMBOL_SIZE {
      MulMonotone(size, RS2_MAX_SYMBOL_SIZE, count);
    }
  }

  // ----- Shard rotation -----

  datatype RotationError = BlobIdLength | ShardCount | IndexRange

  function BigEndian(bytes: Bytes): nat {
    if bytes == [] then 0
    else BigEndian(bytes[..|bytes| - 1]) * 256 + bytes[|bytes| - 1]
  }

  function RotationOffset(blobId: Bytes, nShards: int): Result<nat, RotationError> {
    if |blobId| != BLOB_ID_LENGTH then Err(BlobIdLength)
    else if nShards <= 0 then Err(ShardCount)
    else Ok(BigEndian(blobId) % nShards)
  }

  function ShardIndexToPairIndex(shard: int, blobId: Bytes, nShards: int): Result<nat, RotationError> {
    match RotationOffset(blobId, nShards)
    case Err(e) => Err(e)
    case Ok(offset) =>
      if 0 <= shard < nShards then Ok((nShards + shard - offset) % nShards) else Err(IndexRange)
  }

  function PairIndexToShardIndex(pair: int, blobId: Bytes, nShards: int): Result<nat, RotationError> {
    match RotationOffset(blobId, nShards)
    case Err(e) => Err(e)
    case Ok(offset) =>
      if 0 <= pair < nShards then Ok((pair + offset) % nShards) else Err(IndexRange)
  }

  function Power256(k: nat): nat { if k == 0 then 1 else 256 * Power256(k - 1) }

  // The first byte weighs most.
  function Positional(bytes: Bytes): nat {
    if bytes == [] then 0 else bytes[0] * Power256(|bytes| - 1) + Positional(bytes[1..])
  }

  lemma {:induction false} PositionalAppend(bytes: Bytes, last: byte)
    ensures Positional(bytes + [last]) == 256 * Positional(bytes) + last
  {
    if bytes == [] {
      assert ([] + [last])[1..] == [];
    } else {
      assert (bytes + [last])[1..] == bytes[1..] + [last];
      PositionalAppend(bytes[1..], last);
      Distribute(bytes[0], Power256(|bytes| - 1));
    }
  }

  lemma Distribute(digit: nat, power: nat)
    ensures digit * (256 * power) == 256 * (digit * power)
  {
  }

  lemma {:induction false} BigEndianIsPositional(bytes: Bytes)
    ensures BigEndian(bytes) == Positional(bytes)
  {
    if bytes != [] {
      var n := |bytes| - 1;
      BigEndianIsPositional(bytes[..n]);
      PositionalAppend(bytes[..n], bytes[n]);
      assert bytes == bytes[..n] + [bytes[n]];
    }
  }

  /** The shard that holds a sliver pair is as many shards on, around the ring, as the blob identifier
      says when it is read as a number with its first byte weighing most. */
  lemma RotatedByIdentifier(blobId: Bytes, nShards: int, shard: int, pair: int)
    requires |blobId| == 32 && 0 <= shard < nShards && 0 <= pair < nShards
    ensures ShardIndexToPairIndex(shard, blobId, nShards) == Ok(pair) <==> (pair + Positional(blobId)) % nShards == shard
    ensures PairIndexToShardIndex(pair, blobId, nShards) == Ok(shard) <==> (pair + Positional(blobId)) % nShards == shard
  {
    BigEndianIsPositional(blobId);
    RotationInverts(shard, blobId, nShards);
    RotationInverts(pair, blobId, nShards);
    ReduceFirst(pair, Positional(blobId), nShards);
    hide BigEndian, Positional;
  }

  lemma ReduceFirst(a: nat, b: nat, n: int)
    requires n > 0
    ensures (a + b % n) % n == (a + b) % n
  {
    var q, r := (a + b % n) / n, (a + b % n) % n;
    assert b == (b / n) * n + b % n;
    assert a + b == (q + b / n) * n + r by { assert a + b % n == q * n + r; }
    DivModOf(q + b / n, r, n);
  }

  lemma WrapOnce(x: int, n: int)
    requires n > 0 && 0 <= x < 2 * n
    ensures x % n == if x < n then x else x - n
  {
    if x < n { DivModOf(0, x, n); } else { DivModOf(1, x - n, n); }
  }

  // The two index maps undo each other, whatever the blob, so each is a bijection on the shards.
  lemma RotationInverts(index: int, blobId: Bytes, nShards: int)
    ensures var pair := ShardIndexToPairIndex(index, blobId, nShards);
            pair.Ok? <==> |blobId| == BLOB_ID_LENGTH && 0 <= index < nShards
    ensures var pair := ShardIndexToPairIndex(index, blobId, nShards);
            pair.Ok? ==> pair.value < nShards && PairIndexToShardIndex(pair.value, blobId, nShards) == Ok(index)
    ensures var shard := PairIndexToShardIndex(index, blobId, nShards);
            shard.Ok? <==> |blobId| == BLOB_ID_LENGTH && 0 <= index < nShards
    ensures var shard := PairIndexToShardIndex(index, blobId, nShards);
            shard.Ok? ==> shard.value < nShards && ShardIndexToPairIndex(shard.value, blobId, nShards) == Ok(index)
  {
    if |blobId| == BLOB_ID_LENGTH && 0 <= index < nShards {
      var offset := RotationOffset(blobId, nShards).value;
      WrapOnce(nShards + index - offset, nShards);
      WrapOnce(index + offset, nShards);
      WrapOnce((nShards + index - offset) % nShards + offset, nShards);
      WrapOnce(nShards + (index + offset) % nShards - offset, nShards);
    }
  }
}
