/** A reader that sees only a quilt's bytes and the committee's shard count, and the proofs that it
    recovers the batch, that the encoder re-derives the quilt's geometry, and that the quilt does
    not depend on the order the batch was listed in. */
module QuiltReader {
  import opened Common
  import opened Arithmetic
  import opened Bcs
  import opened Ordering
  import opened QuiltIndex
  import opened QuiltMatrix
  import opened QuiltSize
  import opened QuiltAssembly
  import RedStuff

  // ----- The reader -----

  function ReadPrefix(head: Bytes): Parse<nat> {
    var (version, rest) :- ReadU8(head);
    if version != QUILT_VERSION_BYTE then Malformed else ReadU32(rest)
  }

  // Each patch starts where the one before it ended.
  function ReadPatches(data: Bytes, g: Grid, nColumns: nat, start: nat, entries: seq<IndexEntry>)
    : Option<seq<PatchInput>>
    requires g.Valid() && |data| == g.rows * g.rowSize && g.rowSize == g.symbol * nColumns
    decreases |entries|
  {
    if entries == [] then Some([])
    else
      var end := entries[0].endIndex;
      if !(start <= end <= nColumns) then None
      else
        EndInside(g, nColumns, end);
        match ReadPatch(ReadColumns(data, g, start, end))
        case Malformed => None
        case Parsed(patch, _) =>
          if patch.identifier != entries[0].identifier || patch.tags != entries[0].tags then None
          else match ReadPatches(data, g, nColumns, end, entries[1..])
            case None => None
            case Some(patches) => Some([patch] + patches)
  }

  lemma EndInside(g: Grid, nColumns: nat, end: nat)
    requires g.rowSize == g.symbol * nColumns && end <= nColumns
    ensures g.Inside(end)
  {
    MulMonotone(end, nColumns, g.symbol);
  }

  // The index prefix is read from column zero alone; it says how many columns the index takes.
  function ReadGrid(data: Bytes, g: Grid, nColumns: nat): Option<seq<PatchInput>>
    requires g.Valid() && |data| == g.rows * g.rowSize && g.rowSize == g.symbol * nColumns && nColumns >= 1
  {
    EndInside(g, nColumns, 1);
    match ReadPrefix(ReadColumns(data, g, 0, 1))
    case Malformed => None
    case Parsed(length, _) =>
      var indexColumns := CeilDiv(QUILT_INDEX_PREFIX_SIZE + length, g.ColumnSize());
      if indexColumns > nColumns then None
      else
        EndInside(g, nColumns, indexColumns);
        CeilDivCovers(QUILT_INDEX_PREFIX_SIZE + length, g.ColumnSize(), indexColumns);
        var columns := ReadColumns(data, g, 0, indexColumns);
        match ReadIndex(columns[QUILT_INDEX_PREFIX_SIZE..QUILT_INDEX_PREFIX_SIZE + length])
        case Malformed => None
        case Parsed(entries, rest) =>
          if rest != [] then None else ReadPatches(data, g, nColumns, indexColumns, entries)
  }

  function ReadQuilt(data: Bytes, nShards: int): Option<seq<PatchInput>> {
    if nShards < 1 then None
    else
      var (nRows, nColumns) := RedStuff.SourceSymbolCounts(nShards);
      var count := RedStuff.SymbolCount(nShards);
      if |data| < count || |data| % count != 0 then None
      else
        var g := GridOf(|data|, nRows, nColumns, count);
        ReadGrid(data, g, nColumns)
  }

  function GridOf(length: nat, nRows: nat, nColumns: nat, count: nat): (g: Grid)
    requires nRows > 0 && nColumns > 0 && count == nRows * nColumns > 0
    requires length >= count && length % count == 0
    ensures g.Valid() && g == QuiltGrid(length / count, nColumns, nRows)
    ensures length == g.rows * g.rowSize && g.rowSize == g.symbol * nColumns
  {
    var symbol := length / count;
    assert length == symbol * count;
    assert symbol > 0 by {
      if symbol <= 0 { MulMonotone(symbol, 0, count); assert false; }
    }
    assert symbol * (nRows * nColumns) == nRows * (symbol * nColumns);
    QuiltGrid(symbol, nColumns, nRows)
  }

  // ----- What painting leaves in the columns -----

  // After all the streams are painted, reading a stream's columns starts with the stream.
  lemma {:induction false} PaintedStream(buffer: Bytes, streams: seq<Bytes>, g: Grid, starts: seq<nat>,
                                         count: nat, i: nat)
    requires g.Valid() && |buffer| == g.rows * g.rowSize && Room(starts, streams, g)
    requires i < count <= |streams|
    ensures starts[i] <= starts[i + 1] && g.Inside(starts[i + 1])
    ensures |streams[i]| <= (starts[i + 1] - starts[i]) * g.ColumnSize()
    ensures ReadColumns(Paint(buffer, streams, g, starts, count), g, starts[i], starts[i + 1])[..|streams[i]|]
         == streams[i]
    decreases count
  {
    var n := count - 1;
    RoomForStream(starts, streams, g, n);
    RoomForStream(starts, streams, g, i);
    var before := Paint(buffer, streams, g, starts, n);
    if i == n {
      ReadAfterWrite(before, streams[n], g, starts[n], starts[n + 1]);
    } else {
      PaintedStream(buffer, streams, g, starts, n, i);
      ChainedAscends(starts, streams, g.ColumnSize(), i + 1, n);
      ReadFrame(before, streams[n], g, starts[n], starts[i], starts[i + 1]);
    }
  }

  // Writing the index over the columns before the first stream keeps every stream.
  lemma StreamReadable(streams: seq<Bytes>, index: Bytes, g: Grid, starts: seq<nat>, i: nat)
    requires g.Valid() && Room(starts, streams, g) && i < |streams|
    requires starts[0] == CeilDiv(|index|, g.ColumnSize()) && g.Inside(starts[0])
    ensures starts[i] <= starts[i + 1] && g.Inside(starts[i + 1])
    ensures |streams[i]| <= (starts[i + 1] - starts[i]) * g.ColumnSize()
    ensures ReadColumns(QuiltBytes(streams, index, g, starts), g, starts[i], starts[i + 1])[..|streams[i]|]
         == streams[i]
  {
    var zeros := Zeros(g.rows * g.rowSize);
    var painted := Paint(zeros, streams, g, starts, |streams|);
    PaintedStream(zeros, streams, g, starts, |streams|, i);
    ChainedAscends(starts, streams, g.ColumnSize(), 0, i);
    RoomForStream(starts, streams, g, i);
    ReadFrame(painted, index, g, 0, starts[i], starts[i + 1]);
  }

  lemma IndexReadable(streams: seq<Bytes>, index: Bytes, g: Grid, starts: seq<nat>)
    requires g.Valid() && Room(starts, streams, g)
    requires starts[0] == CeilDiv(|index|, g.ColumnSize()) && g.Inside(starts[0])
    ensures |index| <= starts[0] * g.ColumnSize()
    ensures ReadColumns(QuiltBytes(streams, index, g, starts), g, 0, starts[0])[..|index|] == index
  {
    var painted := Paint(Zeros(g.rows * g.rowSize), streams, g, starts, |streams|);
    ReadAfterWrite(painted, index, g, 0, starts[0]);
  }

  // Column zero alone is the beginning of the first columns.
  lemma FirstColumn(data: Bytes, g: Grid, end: nat, k: nat)
    requires g.Valid() && |data| == g.rows * g.rowSize && 1 <= end && g.Inside(end) && g.Inside(1)
    requires k <= g.ColumnSize()
    ensures |ReadColumns(data, g, 0, 1)| == g.ColumnSize() <= |ReadColumns(data, g, 0, end)|
    ensures ReadColumns(data, g, 0, 1)[..k] == ReadColumns(data, g, 0, end)[..k]
  {
    MulMonotone(1, end, g.ColumnSize());
    var head, columns := ReadColumns(data, g, 0, 1), ReadColumns(data, g, 0, end);
    forall i | 0 <= i < k ensures head[i] == columns[i] {
    }
  }

  lemma PrefixInverts(length: nat, head: Bytes)
    requires length < U32_LIMIT && |head| >= QUILT_INDEX_PREFIX_SIZE
    requires head[..QUILT_INDEX_PREFIX_SIZE] == [QUILT_VERSION_BYTE] + U32(length)
    ensures ReadPrefix(head) == Parsed(length, head[QUILT_INDEX_PREFIX_SIZE..])
  {
    var tail := head[QUILT_INDEX_PREFIX_SIZE..];
    assert head == head[..QUILT_INDEX_PREFIX_SIZE] + tail;
    assert head[1..] == U32(length) + tail;
    U32Inverts(length, tail);
  }

  // ----- The round trip -----

  function CanonicalBatch(patches: seq<PatchInput>): (r: seq<PatchInput>)
    ensures |r| == |patches|
    ensures forall i :: 0 <= i < |r| ==> r[i] == Canonical(patches[i])
  {
    seq(|patches|, i requires 0 <= i < |patches| => Canonical(patches[i]))
  }

  // Chaining end columns from stream i on recovers the patches from patch i on.
  lemma {:induction false} PatchesRecovered(data: Bytes, g: Grid, nColumns: nat, ordered: seq<PatchInput>,
                                            starts: seq<nat>, i: nat)
    requires Storable(ordered) && i <= |ordered|
    requires g.Valid() && |data| == g.rows * g.rowSize && g.rowSize == g.symbol * nColumns
    requires Room(starts, Streams(ordered), g) && starts[|ordered|] <= nColumns
    requires forall j {:trigger ordered[j]} :: 0 <= j < |ordered| ==> StoredAt(data, g, Streams(ordered)[j], starts[j], starts[j + 1])
    ensures ReadPatches(data, g, nColumns, starts[i], Entries(Layouts(ordered, starts))[i..])
         == Some(CanonicalBatch(ordered)[i..])
    decreases |ordered| - i
  {
    hide MetadataProblem, Metadata, ReadColumns, ReadPatch, EncodeString, SortedTagEntries;
    var layouts := Layouts(ordered, starts);
    var entries := Entries(layouts)[i..];
    if i < |ordered| {
      assert Streams(ordered)[i] == Metadata(ordered[i]) + ordered[i].contents;
      RoomForStream(starts, Streams(ordered), g, i);
      ChainedAscends(starts, Streams(ordered), g.ColumnSize(), i + 1, |ordered|);
      assert StoredAt(data, g, Streams(ordered)[i], starts[i], starts[i + 1]) by { assert ordered[i] == ordered[i]; }
      hide StoredAt, Streams, Room;
      PatchRead(data, g, ordered[i], starts[i], starts[i + 1]);
      PatchesRecovered(data, g, nColumns, ordered, starts, i + 1);
      assert entries[0] == EntryFromLayout(layouts[i]);
      assert entries[1..] == Entries(layouts)[i + 1..];
      assert CanonicalBatch(ordered)[i..] == [Canonical(ordered[i])] + CanonicalBatch(ordered)[i + 1..];
    } else {
      assert entries == [] && CanonicalBatch(ordered)[i..] == [];
    }
  }

  lemma PatchRead(data: Bytes, g: Grid, patch: PatchInput, start: nat, end: nat)
    requires MetadataProblem(patch).None?
    requires g.Valid() && |data| == g.rows * g.rowSize
    requires StoredAt(data, g, Metadata(patch) + patch.contents, start, end)
    ensures var parse := ReadPatch(ReadColumns(data, g, start, end));
            parse.Parsed? && parse.value == Canonical(patch)
  {
    hide ReadPatch, MetadataProblem, Metadata, ReadColumns;
    var columns := ReadColumns(data, g, start, end);
    var stream := Metadata(patch) + patch.contents;
    assert columns == stream + columns[|stream|..];
    PatchInverts(patch, columns[|stream|..]);
  }

  ghost predicate StoredAt(data: Bytes, g: Grid, stream: Bytes, start: nat, end: nat)
    requires g.Valid() && |data| == g.rows * g.rowSize
  {
    && start <= end && g.Inside(end)
    && |stream| <= (end - start) * g.ColumnSize()
    && ReadColumns(data, g, start, end)[..|stream|] == stream
  }

  lemma GridRecovered(ordered: seq<PatchInput>, g: Grid, nColumns: nat, nShards: int)
    requires Storable(ordered) && g.Valid() && Roomy(ordered, g, nColumns)
    requires Packed(ordered, g, nColumns, nShards).Ok?
    ensures var quilt := Packed(ordered, g, nColumns, nShards).value;
            && nColumns >= 1 && |quilt.data| == g.rows * g.rowSize
            && ReadGrid(quilt.data, g, nColumns) == Some(CanonicalBatch(ordered))
  {
    hide EncodeIndex, PatchStarts, Streams, Entries, Layouts, IndexSize, ReadIndex, ReadPrefix, ReadPatches, QuiltBytes;
    var starts := PatchStarts(ordered, g.ColumnSize());
    var streams := Streams(ordered);
    var entries := Entries(Layouts(ordered, starts));
    var index := IndexBlob(entries);
    var length := |EncodeIndex(entries)|;
    var data := Packed(ordered, g, nColumns, nShards).value.data;
    RoomyIsRoom(ordered, g, nColumns);
    IndexBlobSize(ordered, Layouts(ordered, starts));
    ChainedAscends(starts, streams, g.ColumnSize(), 0, |ordered|);
    IndexReadable(streams, index, g, starts);
    EndInside(g, nColumns, 1);
    FirstColumn(data, g, starts[0], QUILT_INDEX_PREFIX_SIZE);
    var columns := ReadColumns(data, g, 0, starts[0]);
    IndexParts(columns, [QUILT_VERSION_BYTE] + U32(length), EncodeIndex(entries));
    PrefixInverts(length, ReadColumns(data, g, 0, 1));
    IndexInverts(entries, []);
    assert EncodeIndex(entries) + [] == EncodeIndex(entries);
    forall j {:trigger ordered[j]} | 0 <= j < |ordered|
      ensures StoredAt(data, g, streams[j], starts[j], starts[j + 1])
    {
      StreamReadable(streams, index, g, starts, j);
    }
    PatchesRecovered(data, g, nColumns, ordered, starts, 0);
    assert entries[0..] == entries;
    assert CanonicalBatch(ordered)[0..] == CanonicalBatch(ordered);
  }

  lemma IndexParts(columns: Bytes, prefix: Bytes, body: Bytes)
    requires |prefix + body| <= |columns| && columns[..|prefix + body|] == prefix + body
    ensures columns[..|prefix|] == prefix
    ensures columns[|prefix|..|prefix| + |body|] == body
  {
    var k := |prefix + body|;
    assert columns[..k][..|prefix|] == columns[..|prefix|];
    assert columns[..k][|prefix|..] == columns[|prefix|..|prefix| + |body|];
    assert (prefix + body)[..|prefix|] == prefix && (prefix + body)[|prefix|..] == body;
  }

  // What an accepted batch was packed with.
  lemma Accepted(patches: seq<PatchInput>, nShards: int, textOk: Text -> bool) returns (symbolSize: nat)
    requires Assembled(patches, nShards, textOk).Ok?
    ensures var ordered := SortBy(patches, PatchKey);
            var (nRows, nColumns) := RedStuff.SourceSymbolCounts(nShards);
            var g := QuiltGrid(symbolSize, nColumns, nRows);
            && nShards >= 1 && nRows >= 1 && nColumns >= 2
            && 0 < symbolSize <= RedStuff.RS2_MAX_SYMBOL_SIZE && symbolSize % 2 == 0
            && Storable(ordered) && Roomy(ordered, g, nColumns)
            && ChosenSymbolSize(BlobSizes(ordered), nColumns, nRows) == Ok(symbolSize)
            && Assembled(patches, nShards, textOk) == Packed(ordered, g, nColumns, nShards)
  {
    hide SortBy, Packed, Suitable, Roomy, FirstIdentifierProblem;
    var (nRows, nColumns) := RedStuff.SourceSymbolCounts(nShards);
    var ordered := SortBy(patches, PatchKey);
    assert 2 <= |BlobSizes(ordered)| <= nColumns;
    hide BlobSizes, ChosenSymbolSize;
    symbolSize := ChosenSymbolSize(BlobSizes(ordered), nColumns, nRows).value;
    ChosenSymbolSizeSuits(BlobSizes(ordered), nColumns, nRows);
    SuitableIsRoomy(ordered, symbolSize, nColumns, nRows);
    ManyShards(nShards, nColumns);
  }

  /** A reader that sees only the bytes of an assembled quilt recovers every patch's identifier, tags
      and contents, in identifier order. */
  lemma QuiltRoundTrip(patches: seq<PatchInput>, nShards: int, textOk: Text -> bool)
    requires Assembled(patches, nShards, textOk).Ok?
    ensures ReadQuilt(Assembled(patches, nShards, textOk).value.data, nShards)
         == Some(CanonicalBatch(SortBy(patches, PatchKey)))
  {
    var symbolSize := Accepted(patches, nShards, textOk);
    var (nRows, nColumns) := RedStuff.SourceSymbolCounts(nShards);
    var ordered := SortBy(patches, PatchKey);
    hide Assembled, Packed, Roomy, ReadGrid, ChosenSymbolSize, SortBy, Storable;
    GridRecovered(ordered, QuiltGrid(symbolSize, nColumns, nRows), nColumns, nShards);
    DataLength(symbolSize, nRows, nColumns, RedStuff.SymbolCount(nShards));
  }

  lemma ManyShards(nShards: int, nColumns: int)
    requires nColumns == RedStuff.SourceSymbolCounts(nShards).1 >= 2
    ensures nShards >= 1
  {
  }

  lemma DataLength(symbolSize: nat, nRows: nat, nColumns: nat, count: nat)
    requires symbolSize > 0 && count == nRows * nColumns > 0
    ensures var length := nRows * (symbolSize * nColumns);
            && length == symbolSize * count && length >= count
            && length % count == 0 && length / count == symbolSize
  {
    assert nRows * (symbolSize * nColumns) == symbolSize * (nRows * nColumns);
    DivModOf(symbolSize, 0, count);
    MulMonotone(1, symbolSize, count);
  }

  // ----- What assembly can and cannot do -----

  // Half-open runs of columns, each starting where the one before it ends, none past the last
  // column, after an index of at most ten columns.
  ghost predicate Consecutive(layouts: seq<PatchLayout>, nColumns: int) {
    && (layouts != [] ==> 1 <= layouts[0].startIndex <= MAX_NUM_SLIVERS_FOR_QUILT_INDEX)
    && (forall i :: 0 <= i < |layouts| ==> layouts[i].startIndex < layouts[i].endIndex <= nColumns)
    && (forall i, j :: 0 <= i < |layouts| && j == i + 1 < |layouts| ==> layouts[i].endIndex == layouts[j].startIndex)
  }

  ghost predicate StrictlyAscending(layouts: seq<PatchLayout>) {
    forall i, j :: 0 <= i < |layouts| && j == i + 1 < |layouts| ==>
      Before(layouts[i].identifier, layouts[j].identifier) && layouts[i].identifier != layouts[j].identifier
  }

  /** The patches take consecutive, non-empty runs of whole columns in strictly ascending identifier
      order. */
  lemma LayoutRanges(patches: seq<PatchInput>, nShards: int, textOk: Text -> bool)
    requires Assembled(patches, nShards, textOk).Ok?
    ensures var layouts := Assembled(patches, nShards, textOk).value.patches;
            && |layouts| == |patches|
            && Consecutive(layouts, RedStuff.SourceSymbolCounts(nShards).1)
            && StrictlyAscending(layouts)
  {
    var symbolSize := Accepted(patches, nShards, textOk);
    var (nRows, nColumns) := RedStuff.SourceSymbolCounts(nShards);
    var ordered := SortBy(patches, PatchKey);
    var g := QuiltGrid(symbolSize, nColumns, nRows);
    IdentifiersAscend(patches, nShards, textOk);
    hide Assembled, SortBy, Roomy, Consecutive, StrictlyAscending;
    PlanRanges(ordered, g, nColumns);
  }

  lemma PlanRanges(ordered: seq<PatchInput>, g: Grid, nColumns: nat)
    requires Storable(ordered) && g.Valid() && Roomy(ordered, g, nColumns)
    requires IdsAscend(ordered)
    ensures Consecutive(Layouts(ordered, PatchStarts(ordered, g.ColumnSize())), nColumns)
    ensures StrictlyAscending(Layouts(ordered, PatchStarts(ordered, g.ColumnSize())))
  {
    var starts := PatchStarts(ordered, g.ColumnSize());
    StreamsNonEmpty(ordered);
    hide Consecutive, StrictlyAscending, IdsAscend, Storable;
    RunsAscend(starts, Streams(ordered), g.ColumnSize(), nColumns);
    RangesFromStarts(ordered, starts, nColumns);
  }

  lemma StreamsNonEmpty(ordered: seq<PatchInput>)
    requires Storable(ordered)
    ensures forall i {:trigger Streams(ordered)[i]} :: 0 <= i < |ordered| ==> Streams(ordered)[i] != []
  {
    forall i {:trigger Streams(ordered)[i]} | 0 <= i < |ordered| ensures Streams(ordered)[i] != [] {
      assert |Metadata(ordered[i])| >= 1;
    }
  }

  // A stream takes at least one column.
  lemma RunsAscend(starts: seq<nat>, streams: seq<Bytes>, columnSize: int, nColumns: nat)
    requires columnSize > 0 && Chained(starts, streams, columnSize) && starts[|streams|] <= nColumns
    requires forall i {:trigger streams[i]} :: 0 <= i < |streams| ==> streams[i] != []
    ensures StartsAscend(starts, nColumns)
  {
    forall i, j | 0 <= i < |starts| && j == i + 1 < |starts| ensures starts[i] < starts[j] <= nColumns {
      ChainedAscends(starts, streams, columnSize, j, |streams|);
      assert streams[i] != [];
      CeilDivCovers(|streams[i]|, columnSize, 0);
    }
  }

  ghost predicate IdsAscend(patches: seq<PatchInput>) {
    forall i, j :: 0 <= i < |patches| && j == i + 1 < |patches| ==>
      Before(patches[i].identifier, patches[j].identifier) && patches[i].identifier != patches[j].identifier
  }

  ghost predicate StartsAscend(starts: seq<nat>, nColumns: int) {
    forall i, j :: 0 <= i < |starts| && j == i + 1 < |starts| ==> starts[i] < starts[j] <= nColumns
  }

  lemma RangesFromStarts(ordered: seq<PatchInput>, starts: seq<nat>, nColumns: nat)
    requires |starts| == |ordered| + 1 && 1 <= starts[0] <= MAX_NUM_SLIVERS_FOR_QUILT_INDEX
    requires StartsAscend(starts, nColumns)
    requires IdsAscend(ordered)
    ensures Consecutive(Layouts(ordered, starts), nColumns)
    ensures StrictlyAscending(Layouts(ordered, starts))
  {
    var layouts := Layouts(ordered, starts);
    forall i, j | 0 <= i < |layouts| && j == i + 1 < |layouts|
      ensures Before(layouts[i].identifier, layouts[j].identifier)
      ensures layouts[i].identifier != layouts[j].identifier
    {
      assert layouts[i].identifier == ordered[i].identifier && layouts[j].identifier == ordered[j].identifier;
    }
  }

  lemma IdentifiersAscend(patches: seq<PatchInput>, nShards: int, textOk: Text -> bool)
    requires Assembled(patches, nShards, textOk).Ok?
    ensures IdsAscend(SortBy(patches, PatchKey))
  {
    var ordered := SortBy(patches, PatchKey);
    var ids := Keys(ordered, PatchKey);
    assert FirstIdentifierProblem(ids, {}, textOk).None?;
    hide *;
    NoProblemDistinct(ids, {}, textOk);
    SortByAscends(patches, PatchKey);
    IdsFromKeys(ordered, ids);
  }

  lemma IdsFromKeys(ordered: seq<PatchInput>, ids: seq<Text>)
    requires ids == Keys(ordered, PatchKey) && Ascending(ids) && Distinct(ids)
    ensures IdsAscend(ordered)
  {
    forall i, j | 0 <= i < |ordered| && j == i + 1 < |ordered|
      ensures Before(ordered[i].identifier, ordered[j].identifier)
      ensures ordered[i].identifier != ordered[j].identifier
    {
      AscendingStep(ids, i);
      assert ids[i] == PatchKey(ordered[i]) && ids[j] == PatchKey(ordered[j]);
    }
  }

  lemma {:induction false} AscendingStep(ks: seq<Bytes>, i: nat)
    requires Ascending(ks) && i + 1 < |ks|
    ensures Before(ks[i], ks[i + 1])
  {
    if i > 0 {
      AscendingStep(ks[1..], i - 1);
    }
  }

  /** Of the errors the code can raise, these never happen: a packing failure after the search, an
      index over its ten columns, an index that changed size. A column number overflows only for a
      committee of more than 65535 columns, and the index length only for one of more than 6553
      rows. */
  lemma ErrorsThatRemain(patches: seq<PatchInput>, nShards: int, textOk: Text -> bool)
    ensures var r := Assembled(patches, nShards, textOk);
            var (nRows, nColumns) := RedStuff.SourceSymbolCounts(nShards);
            && r != Err(BadSize(CannotPack)) && r != Err(BadSize(NoBlobs))
            && r != Err(IndexColumns) && r != Err(IndexSizeChanged)
            && (r == Err(EndIndexOverflow) ==> nColumns >= U16_LIMIT)
            && (r == Err(IndexLengthOverflow) ==> nRows > 6553)
  {
    var r := Assembled(patches, nShards, textOk);
    var (nRows, nColumns) := RedStuff.SourceSymbolCounts(nShards);
    var ordered := SortBy(patches, PatchKey);
    FirstProblemKind(Keys(ordered, PatchKey), {}, textOk);
    FirstMetadataKind(ordered);
    if patches != [] && FirstIdentifierProblem(Keys(ordered, PatchKey), {}, textOk).None?
       && FirstMetadataProblem(ordered).None? {
      assert |BlobSizes(ordered)| >= 2;
      if ChosenSymbolSize(BlobSizes(ordered), nColumns, nRows).Ok? {
        var symbolSize := ChosenSymbolSize(BlobSizes(ordered), nColumns, nRows).value;
        ChosenSymbolSizeSuits(BlobSizes(ordered), nColumns, nRows);
        SuitableIsRoomy(ordered, symbolSize, nColumns, nRows);
        hide SortBy, Keys, ChosenSymbolSize, BlobSizes, Suitable;
        PackedErrors(ordered, QuiltGrid(symbolSize, nColumns, nRows), nColumns, nShards);
      }
    }
  }

  lemma {:induction false} FirstProblemKind(ids: seq<Text>, seen: set<Text>, textOk: Text -> bool)
    ensures var p := FirstIdentifierProblem(ids, seen, textOk);
            p.Some? ==>
              (p.value.EmptyIdentifier? || p.value.IdentifierOversize? || p.value.IdentifierRejected?
               || p.value.DuplicateIdentifier?)
    decreases |ids|
  {
    if ids != [] {
      FirstProblemKind(ids[1..], seen + {ids[0]}, textOk);
    }
  }

  lemma {:induction false} FirstMetadataKind(patches: seq<PatchInput>)
    ensures var p := FirstMetadataProblem(patches);
            p.Some? ==> p.value.BadMetadata?
  {
    if patches != [] {
      FirstMetadataKind(patches[1..]);
    }
  }

  lemma PackedErrors(ordered: seq<PatchInput>, g: Grid, nColumns: nat, nShards: int)
    requires Storable(ordered) && g.Valid() && Roomy(ordered, g, nColumns)
    requires g.symbol <= RedStuff.RS2_MAX_SYMBOL_SIZE
    ensures var r := Packed(ordered, g, nColumns, nShards);
            && (r.Err? ==> r.error.EndIndexOverflow? || r.error.IndexLengthOverflow?)
            && (r == Err(EndIndexOverflow) ==> nColumns >= U16_LIMIT)
            && (r == Err(IndexLengthOverflow) ==> g.rows > 6553)
  {
    hide EncodeIndex, Roomy, QuiltBytes;
    if nColumns < U16_LIMIT { EndsWithin(ordered, g, nColumns); }
    if g.rows <= 6553 { IndexShort(ordered, g, nColumns); }
  }

  lemma EndsWithin(ordered: seq<PatchInput>, g: Grid, nColumns: nat)
    requires Storable(ordered) && g.Valid() && Roomy(ordered, g, nColumns) && nColumns < U16_LIMIT
    ensures EndsFit(Entries(Layouts(ordered, PatchStarts(ordered, g.ColumnSize()))))
  {
    var starts := PatchStarts(ordered, g.ColumnSize());
    var layouts := Layouts(ordered, starts);
    hide PatchStarts, Streams;
    forall i | 0 <= i < |layouts| ensures Entries(layouts)[i].endIndex < U16_LIMIT {
      ChainedAscends(starts, Streams(ordered), g.ColumnSize(), i + 1, |ordered|);
    }
  }

  lemma IndexShort(ordered: seq<PatchInput>, g: Grid, nColumns: nat)
    requires Storable(ordered) && g.Valid() && Roomy(ordered, g, nColumns)
    requires g.symbol <= RedStuff.RS2_MAX_SYMBOL_SIZE && g.rows <= 6553
    ensures var entries := Entries(Layouts(ordered, PatchStarts(ordered, g.ColumnSize())));
            EndsFit(entries) ==> |EncodeIndex(entries)| < U32_LIMIT
  {
    hide EncodeIndex, Streams;
    var entries := Entries(Layouts(ordered, PatchStarts(ordered, g.ColumnSize())));
    if EndsFit(entries) {
      PlaceholderSize(entries, Placeholders(ordered));
      hide PatchStarts;
      CeilDivCovers(IndexSize(ordered), g.ColumnSize(), MAX_NUM_SLIVERS_FOR_QUILT_INDEX);
      ColumnAtMost(g);
    }
  }

  lemma ColumnAtMost(g: Grid)
    requires g.Valid() && g.symbol <= RedStuff.RS2_MAX_SYMBOL_SIZE && g.rows <= 6553
    ensures g.ColumnSize() <= 6553 * RedStuff.RS2_MAX_SYMBOL_SIZE
  {
    MulMonotone(g.rows, 6553, g.symbol);
  }

  // ----- The encoder's view of an assembled quilt -----

  /** The RedStuff encoder derives the very symbol size the quilt was built with, and accepts it. */
  lemma GeometryRederived(patches: seq<PatchInput>, nShards: int, textOk: Text -> bool)
    requires Assembled(patches, nShards, textOk).Ok?
    ensures var data := Assembled(patches, nShards, textOk).value.data;
            var (nRows, nColumns) := RedStuff.SourceSymbolCounts(nShards);
            var chosen := ChosenSymbolSize(BlobSizes(SortBy(patches, PatchKey)), nColumns, nRows);
            && nShards >= 1 && chosen.Ok?
            && RedStuff.SymbolSize(|data|, nShards) == chosen.value
            && |data| == chosen.value * RedStuff.SymbolCount(nShards)
            && |data| <= RedStuff.MaxBlobSize(nShards)
  {
    var symbolSize := Accepted(patches, nShards, textOk);
    var (nRows, nColumns) := RedStuff.SourceSymbolCounts(nShards);
    var ordered := SortBy(patches, PatchKey);
    hide Assembled, Packed, Roomy, ReadGrid, ChosenSymbolSize, SortBy, Storable;
    GridRecovered(ordered, QuiltGrid(symbolSize, nColumns, nRows), nColumns, nShards);
    DataLength(symbolSize, nRows, nColumns, RedStuff.SymbolCount(nShards));
    ExactMultiple(symbolSize, |Assembled(patches, nShards, textOk).value.data|, nShards);
  }

  lemma ExactMultiple(symbolSize: nat, length: nat, nShards: int)
    requires nShards >= 1 && symbolSize > 0 && symbolSize % 2 == 0
    requires length == symbolSize * RedStuff.SymbolCount(nShards)
    requires symbolSize <= RedStuff.RS2_MAX_SYMBOL_SIZE
    ensures RedStuff.SymbolSize(length, nShards) == symbolSize
    ensures length <= RedStuff.MaxBlobSize(nShards)
  {
    var count := RedStuff.SymbolCount(nShards);
    MulMonotone(1, symbolSize, count);
    CeilDivExact(symbolSize, count);
    RedStuff.EncodableIffWithinLimit(length, nShards, RedStuff.MaxNFaulty(nShards));
  }

  // ----- What nothing is written to -----

  lemma {:induction false} PaintElsewhere(buffer: Bytes, streams: seq<Bytes>, g: Grid, starts: seq<nat>, count: nat, p: nat)
    requires g.Valid() && |buffer| == g.rows * g.rowSize && count <= |streams| && Room(starts, streams, g) && p < |buffer|
    requires forall i, k {:trigger g.Position(starts[i], k)} ::
               0 <= i < count && 0 <= k < |streams[i]| ==> g.Position(starts[i], k) != p
    ensures Paint(buffer, streams, g, starts, count)[p] == buffer[p]
    decreases count
  {
    if count > 0 {
      PaintElsewhere(buffer, streams, g, starts, count - 1, p);
      RoomForStream(starts, streams, g, count - 1);
      ScatterElsewhere(Paint(buffer, streams, g, starts, count - 1), streams[count - 1], g, starts[count - 1], p);
    }
  }

  // No byte of the index or of a patch lands here.
  ghost predicate Unreached(patches: seq<PatchInput>, layouts: seq<PatchLayout>, g: Grid, p: nat)
    requires g.Valid() && Storable(patches) && |layouts| == |patches|
  {
    && (forall i, k {:trigger g.Position(layouts[i].startIndex, k)} ::
          0 <= i < |layouts| && 0 <= k < |Streams(patches)[i]| ==> g.Position(layouts[i].startIndex, k) != p)
    && forall k {:trigger g.Position(0, k)} :: 0 <= k < IndexSize(patches) ==> g.Position(0, k) != p
  }

  lemma PackedPadding(ordered: seq<PatchInput>, g: Grid, nColumns: nat, nShards: int, p: nat)
    requires Storable(ordered) && g.Valid() && Roomy(ordered, g, nColumns) && Packed(ordered, g, nColumns, nShards).Ok?
    requires var quilt := Packed(ordered, g, nColumns, nShards).value;
             p < |quilt.data| && |quilt.patches| == |ordered| && Unreached(ordered, quilt.patches, g, p)
    ensures Packed(ordered, g, nColumns, nShards).value.data[p] == 0
  {
    var starts, streams := PatchStarts(ordered, g.ColumnSize()), Streams(ordered);
    var layouts := Layouts(ordered, starts);
    RoomyIsRoom(ordered, g, nColumns);
    IndexBlobSize(ordered, layouts);
    assert Packed(ordered, g, nColumns, nShards).value.data == QuiltBytes(streams, IndexBlob(Entries(layouts)), g, starts);
    hide PatchStarts, Streams, QuiltBytes, IndexBlob, EncodeIndex, Roomy, IndexSize, Room, Packed, Unreached, Storable;
    UnreachedStreams(ordered, starts, g, p);
    BytesPadding(streams, IndexBlob(Entries(layouts)), g, starts, p);
  }

  lemma UnreachedStreams(ordered: seq<PatchInput>, starts: seq<nat>, g: Grid, p: nat)
    requires g.Valid() && Storable(ordered) && |starts| == |ordered| + 1
    requires Unreached(ordered, Layouts(ordered, starts), g, p)
    ensures forall i, k {:trigger g.Position(starts[i], k)} ::
              0 <= i < |ordered| && 0 <= k < |Streams(ordered)[i]| ==> g.Position(starts[i], k) != p
    ensures forall k {:trigger g.Position(0, k)} :: 0 <= k < IndexSize(ordered) ==> g.Position(0, k) != p
  {
    hide Streams, IndexSize, Grid.Position;
    forall i, k {:trigger g.Position(starts[i], k)} | 0 <= i < |ordered| && 0 <= k < |Streams(ordered)[i]|
      ensures g.Position(starts[i], k) != p
    {
      assert g.Position(Layouts(ordered, starts)[i].startIndex, k) != p;
    }
  }

  lemma BytesPadding(streams: seq<Bytes>, index: Bytes, g: Grid, starts: seq<nat>, p: nat)
    requires g.Valid() && Room(starts, streams, g) && g.Inside(CeilDiv(|index|, g.ColumnSize())) && p < g.rows * g.rowSize
    requires forall i, k {:trigger g.Position(starts[i], k)} ::
               0 <= i < |streams| && 0 <= k < |streams[i]| ==> g.Position(starts[i], k) != p
    requires forall k {:trigger g.Position(0, k)} :: 0 <= k < |index| ==> g.Position(0, k) != p
    ensures QuiltBytes(streams, index, g, starts)[p] == 0
  {
    var painted := Paint(Zeros(g.rows * g.rowSize), streams, g, starts, |streams|);
    InsideFits(g, 0, |index|);
    hide Paint, Zeros, Room, Scatter;
    PaintElsewhere(Zeros(g.rows * g.rowSize), streams, g, starts, |streams|, p);
    ScatterElsewhere(painted, index, g, 0, p);
    ZeroAt(g.rows * g.rowSize, p);
  }

  lemma ZeroAt(n: nat, p: nat)
    requires p < n
    ensures Zeros(n)[p] == 0
  {
  }

  /** Every byte of a packed quilt that no byte of its index or its patches is sent to is zero. */
  lemma PaddingIsZero(patches: seq<PatchInput>, nShards: int, textOk: Text -> bool, p: nat) returns (g: Grid)
    requires Assembled(patches, nShards, textOk).Ok?
    ensures var quilt, ordered := Assembled(patches, nShards, textOk).value, SortBy(patches, PatchKey);
            var (nRows, nColumns) := RedStuff.SourceSymbolCounts(nShards);
            && g.Valid() && Storable(ordered) && |quilt.patches| == |ordered|
            && g.rows == nRows && g.rowSize == g.symbol * nColumns && |quilt.data| == g.rows * g.rowSize
            && (p < |quilt.data| && Unreached(ordered, quilt.patches, g, p) ==> quilt.data[p] == 0)
  {
    var symbolSize := Accepted(patches, nShards, textOk);
    var (nRows, nColumns) := RedStuff.SourceSymbolCounts(nShards);
    var ordered := SortBy(patches, PatchKey);
    g := QuiltGrid(symbolSize, nColumns, nRows);
    var quilt := Assembled(patches, nShards, textOk).value;
    hide Assembled, Roomy, SortBy, Storable, ChosenSymbolSize, Unreached, QuiltBytes;
    if p < |quilt.data| && Unreached(ordered, quilt.patches, g, p) {
      PackedPadding(ordered, g, nColumns, nShards, p);
    }
  }

  // ----- Order independence -----

  /** Permuting the batch changes nothing: not the bytes, not the layouts, not the error raised. */
  lemma ListingOrderForgotten(a: seq<PatchInput>, b: seq<PatchInput>, nShards: int, textOk: Text -> bool)
    requires multiset(a) == multiset(b)
    ensures Assembled(a, nShards, textOk) == Assembled(b, nShards, textOk)
  {
    hide SortBy, Keys, Distinct, BlobSizes, ChosenSymbolSize, Packed, FirstMetadataProblem, FirstIdentifierProblem;
    hide Storable, Suitable, Roomy, RedStuff.SourceSymbolCounts;
    assert |multiset(a)| == |a| && |multiset(b)| == |b|;
    SortByForgetsOrder(a, b, PatchKey);
    var ids := Keys(SortBy(a, PatchKey), PatchKey);
    if FirstIdentifierProblem(ids, {}, textOk).None? {
      NoProblemDistinct(ids, {}, textOk);
      assert SortBy(a, PatchKey) == SortBy(b, PatchKey);
    }
  }

  ghost predicate SameExceptTagOrder(a: PatchInput, b: PatchInput) {
    a.identifier == b.identifier && a.contents == b.contents && multiset(a.tags) == multiset(b.tags)
  }

  // The same patches in the same places, each with its tags in an order of its own.
  ghost predicate Retagged(a: seq<PatchInput>, b: seq<PatchInput>) {
    && |a| == |b|
    && forall i :: 0 <= i < |a| ==> IsDict(a[i].tags) && SameExceptTagOrder(a[i], b[i])
  }

  lemma {:induction false} RetaggedInsert(x: PatchInput, y: PatchInput, a: seq<PatchInput>, b: seq<PatchInput>)
    requires Retagged([x], [y]) && Retagged(a, b)
    ensures Retagged(Insert(x, a, PatchKey), Insert(y, b, PatchKey))
  {
    hide Retagged, Before;
    RetaggedHead([x], [y]);
    RetaggedLength(a, b);
    if a == [] {
      assert b == [];
    } else {
      RetaggedHead(a, b);
      if Before(PatchKey(x), PatchKey(a[0])) {
        RetaggedJoin([x], [y], a, b);
      } else {
        RetaggedInsert(x, y, a[1..], b[1..]);
        RetaggedJoin([a[0]], [b[0]], Insert(x, a[1..], PatchKey), Insert(y, b[1..], PatchKey));
      }
    }
  }

  lemma RetaggedHead(a: seq<PatchInput>, b: seq<PatchInput>)
    requires Retagged(a, b) && a != []
    ensures b != [] && PatchKey(a[0]) == PatchKey(b[0])
    ensures Retagged([a[0]], [b[0]]) && Retagged(a[1..], b[1..])
  {
    SameFields(a[0], b[0]);
    hide SameExceptTagOrder, IsDict;
    forall i | 0 <= i < |a[1..]| ensures IsDict(a[1..][i].tags) && SameExceptTagOrder(a[1..][i], b[1..][i]) {
      assert a[1..][i] == a[i + 1] && b[1..][i] == b[i + 1];
    }
  }

  lemma RetaggedJoin(a: seq<PatchInput>, b: seq<PatchInput>, c: seq<PatchInput>, d: seq<PatchInput>)
    requires Retagged(a, b) && Retagged(c, d)
    ensures Retagged(a + c, b + d)
  {
    hide SameExceptTagOrder, IsDict;
  }

  lemma {:induction false} RetaggedSort(a: seq<PatchInput>, b: seq<PatchInput>)
    requires Retagged(a, b)
    ensures Retagged(SortBy(a, PatchKey), SortBy(b, PatchKey))
  {
    if a != [] {
      RetaggedSort(a[1..], b[1..]);
      assert Retagged([a[0]], [b[0]]);
      RetaggedInsert(a[0], b[0], SortBy(a[1..], PatchKey), SortBy(b[1..], PatchKey));
    }
  }

  lemma SameFields(a: PatchInput, b: PatchInput)
    requires SameExceptTagOrder(a, b)
    ensures a.identifier == b.identifier && a.contents == b.contents
  {
  }

  // Everything stored of a patch is a function of its tag mapping.
  lemma RetaggedPatch(a: PatchInput, b: PatchInput)
    requires IsDict(a.tags) && SameExceptTagOrder(a, b)
    ensures SortedTagEntries(a.tags) == SortedTagEntries(b.tags)
    ensures MetadataProblem(a) == MetadataProblem(b)
    ensures MetadataProblem(a).None? ==> Metadata(a) == Metadata(b)
  {
    hide SortedTagEntries, EncodeString, EncodeTags, U32, U16;
    assert |multiset(a.tags)| == |a.tags| && |multiset(b.tags)| == |b.tags|;
    TagOrderForgotten(a.tags, b.tags);
  }

  lemma {:induction false} RetaggedProblem(a: seq<PatchInput>, b: seq<PatchInput>)
    requires Retagged(a, b)
    ensures FirstMetadataProblem(a) == FirstMetadataProblem(b)
  {
    if a != [] {
      RetaggedPatch(a[0], b[0]);
      RetaggedProblem(a[1..], b[1..]);
    }
  }

  lemma RetaggedPlan(a: seq<PatchInput>, b: seq<PatchInput>)
    requires Retagged(a, b) && Storable(a)
    ensures Storable(b)
    ensures Keys(a, PatchKey) == Keys(b, PatchKey)
    ensures Streams(a) == Streams(b)
    ensures Placeholders(a) == Placeholders(b)
    ensures BlobSizes(a) == BlobSizes(b)
    ensures forall starts: seq<nat> :: |starts| == |a| + 1 ==> Entries(Layouts(a, starts)) == Entries(Layouts(b, starts))
  {
    hide SortedTagEntries, Metadata, MetadataProblem, EncodeIndex, SameExceptTagOrder;
    forall i | 0 <= i < |a|
      ensures a[i].identifier == b[i].identifier && a[i].contents == b[i].contents
      ensures MetadataProblem(b[i]).None? && Metadata(a[i]) == Metadata(b[i])
      ensures SortedTagEntries(a[i].tags) == SortedTagEntries(b[i].tags)
    {
      RetaggedPatch(a[i], b[i]);
      assert SameExceptTagOrder(a[i], b[i]) && a[i].identifier == b[i].identifier && a[i].contents == b[i].contents by {
        SameFields(a[i], b[i]);
      }
    }
    forall starts: seq<nat> | |starts| == |a| + 1
      ensures Entries(Layouts(a, starts)) == Entries(Layouts(b, starts))
    {
    }
  }

  ghost predicate SameLayouts(a: seq<PatchLayout>, b: seq<PatchLayout>) {
    && |a| == |b|
    && forall i :: 0 <= i < |a| ==>
         && a[i].identifier == b[i].identifier && multiset(a[i].tags) == multiset(b[i].tags)
         && a[i].startIndex == b[i].startIndex && a[i].endIndex == b[i].endIndex
  }

  // Equal as Python values: layouts hold tags as dicts, whose equality ignores insertion order.
  ghost predicate SameOutcome(a: Result<AssembledQuilt, AssemblyError>, b: Result<AssembledQuilt, AssemblyError>) {
    match (a, b)
    case (Err(e), Err(e')) => e == e'
    case (Ok(q), Ok(q')) => q.data == q'.data && q.nShards == q'.nShards && SameLayouts(q.patches, q'.patches)
    case _ => false
  }

  lemma RetaggedRoomy(a: seq<PatchInput>, b: seq<PatchInput>, g: Grid, nColumns: nat)
    requires Retagged(a, b) && Storable(a) && g.Valid() && Roomy(a, g, nColumns)
    ensures Storable(b) && Roomy(b, g, nColumns)
    ensures PatchStarts(a, g.ColumnSize()) == PatchStarts(b, g.ColumnSize())
  {
    hide Retagged, Storable, Streams, EncodeIndex, Placeholders, CeilDiv;
    RetaggedPlan(a, b);
    RetaggedLength(a, b);
    SameStarts(a, b, g.ColumnSize());
    hide PatchStarts;
  }

  lemma SameStarts(a: seq<PatchInput>, b: seq<PatchInput>, columnSize: int)
    requires Storable(a) && Storable(b) && columnSize > 0
    requires Streams(a) == Streams(b) && Placeholders(a) == Placeholders(b)
    ensures PatchStarts(a, columnSize) == PatchStarts(b, columnSize)
  {
    hide Streams, Placeholders, Storable;
    assert IndexSize(a) == IndexSize(b);
  }

  lemma RetaggedLength(a: seq<PatchInput>, b: seq<PatchInput>)
    requires Retagged(a, b)
    ensures |a| == |b|
  {
  }

  lemma RetaggedLayouts(a: seq<PatchInput>, b: seq<PatchInput>, starts: seq<nat>)
    requires Retagged(a, b) && |starts| == |a| + 1
    ensures |a| == |b| && SameLayouts(Layouts(a, starts), Layouts(b, starts))
  {
    forall i | 0 <= i < |a|
      ensures a[i].identifier == b[i].identifier && multiset(a[i].tags) == multiset(b[i].tags)
    {
      assert SameExceptTagOrder(a[i], b[i]);
    }
  }

  lemma RetaggedPacked(a: seq<PatchInput>, b: seq<PatchInput>, g: Grid, nColumns: nat, nShards: int)
    requires Retagged(a, b) && Storable(a) && g.Valid() && Roomy(a, g, nColumns)
    ensures Storable(b) && Roomy(b, g, nColumns)
    ensures SameOutcome(Packed(a, g, nColumns, nShards), Packed(b, g, nColumns, nShards))
  {
    hide Retagged, Storable, EncodeIndex, IndexBlob, QuiltBytes, PatchStarts, Roomy, Entries, Streams, SameLayouts;
    hide Layouts, EndsFit, Grid.Inside, Grid.ColumnSize, Room;
    RetaggedRoomy(a, b, g, nColumns);
    RetaggedPlan(a, b);
    RetaggedLayouts(a, b, PatchStarts(a, g.ColumnSize()));
  }

  /** The order the batch was listed in and the order any patch's tags were inserted in do not
      matter: the bytes, the layouts and the error, if there is one, are the same. */
  lemma BatchOrderForgotten(a: seq<PatchInput>, listed: seq<PatchInput>, b: seq<PatchInput>, nShards: int,
                            textOk: Text -> bool)
    requires multiset(a) == multiset(listed) && Retagged(listed, b)
    ensures SameOutcome(Assembled(a, nShards, textOk), Assembled(b, nShards, textOk))
  {
    hide Packed, Roomy, ChosenSymbolSize, BlobSizes, SameOutcome, Storable, Suitable, FirstIdentifierProblem, SortBy;
    ListingOrderForgotten(a, listed, nShards, textOk);
    RetaggedSort(listed, b);
    var ordered, ordered' := SortBy(listed, PatchKey), SortBy(b, PatchKey);
    RetaggedKeys(ordered, ordered');
    RetaggedProblem(ordered, ordered');
    var (nRows, nColumns) := RedStuff.SourceSymbolCounts(nShards);
    if FirstMetadataProblem(ordered).None? {
      AllStorable(ordered);
      RetaggedPlan(ordered, ordered');
      if listed != [] && FirstIdentifierProblem(Keys(ordered, PatchKey), {}, textOk).None?
         && ChosenSymbolSize(BlobSizes(ordered), nColumns, nRows).Ok? {
        assert Assembled(listed, nShards, textOk).Ok? || Assembled(listed, nShards, textOk).Err?;
        var symbolSize := ChosenSymbolSize(BlobSizes(ordered), nColumns, nRows).value;
        SizesChosen(ordered, nColumns, nRows);
        ChosenSymbolSizeSuits(BlobSizes(ordered), nColumns, nRows);
        SuitableIsRoomy(ordered, symbolSize, nColumns, nRows);
        RetaggedPacked(ordered, ordered', QuiltGrid(symbolSize, nColumns, nRows), nColumns, nShards);
      }
    }
    SameErrors(Assembled(listed, nShards, textOk), Assembled(b, nShards, textOk));
  }

  lemma SameErrors(a: Result<AssembledQuilt, AssemblyError>, b: Result<AssembledQuilt, AssemblyError>)
    ensures a == b && a.Err? ==> SameOutcome(a, b)
  {
  }

  lemma AllStorable(patches: seq<PatchInput>)
    requires FirstMetadataProblem(patches).None?
    ensures Storable(patches)
  {
  }

  lemma SizesChosen(patches: seq<PatchInput>, nColumns: int, nRows: int)
    requires Storable(patches)
    requires 0 < |BlobSizes(patches)| <= nColumns ==> nRows > 0
    requires ChosenSymbolSize(BlobSizes(patches), nColumns, nRows).Ok?
    ensures 0 < |BlobSizes(patches)| <= nColumns
  {
  }

  lemma RetaggedKeys(a: seq<PatchInput>, b: seq<PatchInput>)
    requires Retagged(a, b)
    ensures Keys(a, PatchKey) == Keys(b, PatchKey)
  {
    forall i | 0 <= i < |a| ensures Keys(a, PatchKey)[i] == Keys(b, PatchKey)[i] {
      assert SameExceptTagOrder(a[i], b[i]);
    }
  }
}
