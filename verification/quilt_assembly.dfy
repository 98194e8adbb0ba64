/** Assembling a batch of blobs into one quilt, and reading it back from its bytes alone. */
module QuiltAssembly {
  import opened Common
  import opened Arithmetic
  import opened Bcs
  import opened Ordering
  import opened QuiltIndex
  import opened QuiltMatrix
  import opened QuiltSize
  import RedStuff

  datatype AssembledQuilt = AssembledQuilt(data: Bytes, patches: seq<PatchLayout>, nShards: int)

  datatype AssemblyError =
    | NoPatches
    | EmptyIdentifier
    | IdentifierOversize(identifier: Text)
    | IdentifierRejected(identifier: Text)
    | DuplicateIdentifier(identifier: Text)
    | BadMetadata(reason: MetadataError)
    | BadSize(why: SizeError)
    | IndexColumns
    | EndIndexOverflow
    | IndexLengthOverflow
    | IndexSizeChanged

  function PatchKey(patch: PatchInput): Bytes { patch.identifier }

  // ----- Checks on the sorted batch -----

  // `textOk` stands for the two rules that need Unicode tables: no trailing whitespace, no
  // control characters.
  function IdentifierProblem(identifier: Text, textOk: Text -> bool): Option<AssemblyError> {
    if identifier == [] then Some(EmptyIdentifier)
    else if |identifier| > MAX_BLOB_IDENTIFIER_BYTES_LENGTH then Some(IdentifierOversize(identifier))
    else if !textOk(identifier) then Some(IdentifierRejected(identifier))
    else None
  }

  function FirstIdentifierProblem(ids: seq<Text>, seen: set<Text>, textOk: Text -> bool): Option<AssemblyError>
    decreases |ids|
  {
    if ids == [] then None
    else if IdentifierProblem(ids[0], textOk).Some? then IdentifierProblem(ids[0], textOk)
    else if ids[0] in seen then Some(DuplicateIdentifier(ids[0]))
    else FirstIdentifierProblem(ids[1..], seen + {ids[0]}, textOk)
  }

  lemma {:induction false} NoProblemDistinct(ids: seq<Text>, seen: set<Text>, textOk: Text -> bool)
    requires FirstIdentifierProblem(ids, seen, textOk).None?
    ensures Distinct(ids)
    ensures forall i :: 0 <= i < |ids| ==> ids[i] !in seen
    decreases |ids|
  {
    if ids != [] {
      NoProblemDistinct(ids[1..], seen + {ids[0]}, textOk);
      forall i, j | 0 <= i < j < |ids| ensures ids[i] != ids[j] {
        assert ids[j] == ids[1..][j - 1];
        if i > 0 { assert ids[i] == ids[1..][i - 1]; }
      }
      forall i | 0 <= i < |ids| ensures ids[i] !in seen {
        if i > 0 { assert ids[i] == ids[1..][i - 1]; }
      }
    }
  }

  function FirstMetadataProblem(patches: seq<PatchInput>): (r: Option<AssemblyError>)
    ensures r.None? ==> forall i :: 0 <= i < |patches| ==> MetadataProblem(patches[i]).None?
  {
    if patches == [] then None
    else match MetadataProblem(patches[0])
      case Some(e) => Some(BadMetadata(e))
      case None => FirstMetadataProblem(patches[1..])
  }

  // ----- The plan: what goes where -----

  ghost predicate Storable(patches: seq<PatchInput>) {
    forall i :: 0 <= i < |patches| ==> MetadataProblem(patches[i]).None?
  }

  function Streams(patches: seq<PatchInput>): (r: seq<Bytes>)
    requires Storable(patches)
    ensures |r| == |patches|
    ensures forall i :: 0 <= i < |r| ==> r[i] == Metadata(patches[i]) + patches[i].contents
  {
    seq(|patches|, i requires 0 <= i < |patches| => Metadata(patches[i]) + patches[i].contents)
  }

  function Lengths(streams: seq<Bytes>): (r: seq<nat>)
    ensures |r| == |streams|
    ensures forall i :: 0 <= i < |r| ==> r[i] == |streams[i]|
  {
    seq(|streams|, i requires 0 <= i < |streams| => |streams[i]|)
  }

  function Placeholders(patches: seq<PatchInput>): (r: seq<IndexEntry>)
    ensures |r| == |patches| && EndsFit(r)
    ensures forall i :: 0 <= i < |r| ==>
              r[i] == IndexEntry(0, patches[i].identifier, SortedTagEntries(patches[i].tags))
  {
    seq(|patches|, i requires 0 <= i < |patches| =>
      IndexEntry(0, patches[i].identifier, SortedTagEntries(patches[i].tags)))
  }

  function IndexSize(patches: seq<PatchInput>): nat {
    QUILT_INDEX_PREFIX_SIZE + |EncodeIndex(Placeholders(patches))|
  }

  function BlobSizes(patches: seq<PatchInput>): seq<nat>
    requires Storable(patches)
  {
    [IndexSize(patches)] + Lengths(Streams(patches))
  }

  // Where each stream starts, one after the other from column `first`, and where the last ends.
  function Starts(lengths: seq<nat>, first: nat, columnSize: int): (r: seq<nat>)
    requires columnSize > 0
    ensures |r| == |lengths| + 1 && r[0] == first
    ensures forall i {:trigger lengths[i]} :: 0 <= i < |lengths| ==> r[i + 1] == r[i] + CeilDiv(lengths[i], columnSize)
    ensures r[|lengths|] == first + Columns(lengths, columnSize)
  {
    if lengths == [] then [first]
    else
      var rest := Starts(lengths[1..], first + CeilDiv(lengths[0], columnSize), columnSize);
      assert forall i {:trigger lengths[i]} :: 0 < i < |lengths| ==> lengths[i] == lengths[1..][i - 1];
      [first] + rest
  }

  // Stream i runs from column starts[i] up to column starts[i + 1], the first of the next stream.
  ghost predicate Chained(starts: seq<nat>, streams: seq<Bytes>, columnSize: int)
    requires columnSize > 0
  {
    && |starts| == |streams| + 1
    && forall i {:trigger streams[i]} :: 0 <= i < |streams| ==>
         starts[i + 1] == starts[i] + CeilDiv(|streams[i]|, columnSize)
  }

  function PatchStarts(patches: seq<PatchInput>, columnSize: int): (r: seq<nat>)
    requires Storable(patches) && columnSize > 0
    ensures |r| == |patches| + 1 && Chained(r, Streams(patches), columnSize)
    ensures r[0] == CeilDiv(IndexSize(patches), columnSize)
    ensures r[|patches|] == Columns(BlobSizes(patches), columnSize)
  {
    var lengths := Lengths(Streams(patches));
    var r := Starts(lengths, CeilDiv(IndexSize(patches), columnSize), columnSize);
    assert BlobSizes(patches)[1..] == lengths;
    assert forall i {:trigger Streams(patches)[i]} :: 0 <= i < |patches| ==> lengths[i] == |Streams(patches)[i]|;
    r
  }

  lemma {:induction false} ChainedAscends(starts: seq<nat>, streams: seq<Bytes>, columnSize: int, i: nat, j: nat)
    requires columnSize > 0 && Chained(starts, streams, columnSize)
    requires i <= j <= |streams|
    ensures starts[i] <= starts[j]
    decreases j - i
  {
    if i < j {
      assert streams[i] == streams[i];
      ChainedAscends(starts, streams, columnSize, i + 1, j);
    }
  }

  function Layouts(patches: seq<PatchInput>, starts: seq<nat>): (r: seq<PatchLayout>)
    requires |starts| == |patches| + 1
    ensures |r| == |patches|
    ensures forall i {:trigger r[i]} :: 0 <= i < |r| ==>
              r[i] == PatchLayout(patches[i].identifier, patches[i].tags, starts[i], starts[i + 1])
  {
    seq(|patches|, i requires 0 <= i < |patches| =>
      PatchLayout(patches[i].identifier, patches[i].tags, starts[i], starts[i + 1]))
  }

  function Entries(layouts: seq<PatchLayout>): (r: seq<IndexEntry>)
    ensures |r| == |layouts|
    ensures forall i :: 0 <= i < |r| ==> r[i] == EntryFromLayout(layouts[i])
  {
    seq(|layouts|, i requires 0 <= i < |layouts| => EntryFromLayout(layouts[i]))
  }

  function IndexBlob(entries: seq<IndexEntry>): Bytes
    requires EndsFit(entries) && |EncodeIndex(entries)| < U32_LIMIT
  {
    [QUILT_VERSION_BYTE] + U32(|EncodeIndex(entries)|) + EncodeIndex(entries)
  }

  // Every stream ends inside the matrix.
  ghost predicate Room(starts: seq<nat>, streams: seq<Bytes>, g: Grid)
    requires g.Valid()
  {
    Chained(starts, streams, g.ColumnSize()) && g.Inside(starts[|streams|])
  }

  lemma RoomForStream(starts: seq<nat>, streams: seq<Bytes>, g: Grid, i: nat)
    requires g.Valid() && Room(starts, streams, g) && i < |streams|
    ensures starts[i + 1] == starts[i] + CeilDiv(|streams[i]|, g.ColumnSize())
    ensures g.Inside(starts[i]) && g.Inside(starts[i + 1])
    ensures Fits(g.rows * g.rowSize, g, starts[i], 0, |streams[i]|)
  {
    ChainedAscends(starts, streams, g.ColumnSize(), i, |streams|);
    ChainedAscends(starts, streams, g.ColumnSize(), i + 1, |streams|);
    MulMonotone(starts[i], starts[|streams|], g.symbol);
    MulMonotone(starts[i + 1], starts[|streams|], g.symbol);
    assert streams[i] == streams[i];
    InsideFits(g, starts[i], |streams[i]|);
  }

  // The buffer once the first `count` streams have been written one after the other.
  ghost function Paint(buffer: Bytes, streams: seq<Bytes>, g: Grid, starts: seq<nat>, count: nat): (r: Bytes)
    requires g.Valid() && |buffer| == g.rows * g.rowSize && count <= |streams|
    requires Room(starts, streams, g)
    ensures |r| == |buffer|
    decreases count
  {
    if count == 0 then buffer
    else
      RoomForStream(starts, streams, g, count - 1);
      Scatter(Paint(buffer, streams, g, starts, count - 1), streams[count - 1], g, starts[count - 1], 0)
  }

  // ----- What assembly returns -----

  ghost function ChosenSymbolSize(sizes: seq<nat>, nColumns: int, nRows: int): Result<nat, SizeError>
    requires 0 < |sizes| <= nColumns ==> nRows > 0
  {
    if sizes == [] then Err(NoBlobs)
    else if |sizes| > nColumns then Err(TooManyBlobs)
    else
      var least := LeastSuitable(sizes, nColumns, nRows, MAX_NUM_SLIVERS_FOR_QUILT_INDEX);
      var even := least + least % 2;
      LeastEven(sizes, nColumns, nRows, MAX_NUM_SLIVERS_FOR_QUILT_INDEX, least, even);
      if even > RedStuff.RS2_MAX_SYMBOL_SIZE then Err(SymbolTooLarge) else Ok(even)
  }

  lemma ChosenSymbolSizeSuits(sizes: seq<nat>, nColumns: int, nRows: int)
    requires 0 < |sizes| <= nColumns && nRows > 0
    ensures var r := ChosenSymbolSize(sizes, nColumns, nRows);
            r.Ok? ==>
              && r.value <= RedStuff.RS2_MAX_SYMBOL_SIZE
              && IsLeastEvenSuitable(sizes, nColumns, nRows, MAX_NUM_SLIVERS_FOR_QUILT_INDEX, r.value)
  {
    var least := LeastSuitable(sizes, nColumns, nRows, MAX_NUM_SLIVERS_FOR_QUILT_INDEX);
    LeastEven(sizes, nColumns, nRows, MAX_NUM_SLIVERS_FOR_QUILT_INDEX, least, least + least % 2);
  }

  function QuiltGrid(symbolSize: nat, nColumns: nat, nRows: nat): (g: Grid)
    ensures symbolSize > 0 && nRows > 0 ==> g.Valid()
  {
    Grid(symbolSize * nColumns, nRows, symbolSize)
  }

  // The matrix has room for the index, in its capped share, and for every patch after it.
  ghost predicate Roomy(patches: seq<PatchInput>, g: Grid, nColumns: nat)
    requires Storable(patches) && g.Valid()
  {
    var starts := PatchStarts(patches, g.ColumnSize());
    && 1 <= starts[0] <= MAX_NUM_SLIVERS_FOR_QUILT_INDEX
    && starts[|patches|] <= nColumns
    && QUILT_INDEX_PREFIX_SIZE <= g.ColumnSize()
    && g.rowSize == g.symbol * nColumns
  }

  lemma SuitableIsRoomy(patches: seq<PatchInput>, symbolSize: nat, nColumns: nat, nRows: nat)
    requires Storable(patches) && nRows > 0 && symbolSize > 0
    requires Suitable(BlobSizes(patches), nColumns, nRows, MAX_NUM_SLIVERS_FOR_QUILT_INDEX, symbolSize)
    ensures Roomy(patches, QuiltGrid(symbolSize, nColumns, nRows), nColumns)
  {
    var g := QuiltGrid(symbolSize, nColumns, nRows);
    var size := IndexSize(patches);
    assert BlobSizes(patches)[0] == size > 0;
    hide IndexSize, Streams, BlobSizes, Columns;
    assert g.ColumnSize() == symbolSize * nRows;
    CeilDivCovers(size, g.ColumnSize(), 0);
  }

  lemma RoomyIsRoom(patches: seq<PatchInput>, g: Grid, nColumns: nat)
    requires Storable(patches) && g.Valid() && Roomy(patches, g, nColumns)
    ensures Room(PatchStarts(patches, g.ColumnSize()), Streams(patches), g)
    ensures g.Inside(PatchStarts(patches, g.ColumnSize())[0])
    ensures g.Inside(nColumns)
  {
    var starts := PatchStarts(patches, g.ColumnSize());
    hide PatchStarts, Streams, Storable, CeilDiv, Columns;
    ChainedAscends(starts, Streams(patches), g.ColumnSize(), 0, |patches|);
    hide Chained;
    InsideUpTo(g, starts[|patches|], nColumns);
    InsideUpTo(g, starts[0], nColumns);
    InsideUpTo(g, nColumns, nColumns);
  }

  lemma InsideUpTo(g: Grid, end: nat, nColumns: nat)
    requires g.rowSize == g.symbol * nColumns && end <= nColumns
    ensures g.Inside(end)
  {
    MulMonotone(end, nColumns, g.symbol);
  }

  /** The result of assembly as a function of the batch. */
  ghost function Assembled(patches: seq<PatchInput>, nShards: int, textOk: Text -> bool)
    : Result<AssembledQuilt, AssemblyError>
  {
    if patches == [] then Err(NoPatches) else
    var (nRows, nColumns) := RedStuff.SourceSymbolCounts(nShards);
    var ordered := SortBy(patches, PatchKey);
    var ids := Keys(ordered, PatchKey);
    if FirstIdentifierProblem(ids, {}, textOk).Some? then Err(FirstIdentifierProblem(ids, {}, textOk).value)
    else if FirstMetadataProblem(ordered).Some? then Err(FirstMetadataProblem(ordered).value) else
    match ChosenSymbolSize(BlobSizes(ordered), nColumns, nRows)
    case Err(e) => Err(BadSize(e))
    case Ok(symbolSize) =>
      ChosenSymbolSizeSuits(BlobSizes(ordered), nColumns, nRows);
      SuitableIsRoomy(ordered, symbolSize, nColumns, nRows);
      Packed(ordered, QuiltGrid(symbolSize, nColumns, nRows), nColumns, nShards)
  }

  ghost function Packed(ordered: seq<PatchInput>, g: Grid, nColumns: nat, nShards: int)
    : Result<AssembledQuilt, AssemblyError>
    requires Storable(ordered) && g.Valid() && Roomy(ordered, g, nColumns)
  {
    var starts := PatchStarts(ordered, g.ColumnSize());
    var layouts := Layouts(ordered, starts);
    if !EndsFit(Entries(layouts)) then Err(EndIndexOverflow)
    else if |EncodeIndex(Entries(layouts))| >= U32_LIMIT then Err(IndexLengthOverflow)
    else
      RoomyIsRoom(ordered, g, nColumns);
      IndexBlobSize(ordered, layouts);
      Ok(AssembledQuilt(QuiltBytes(Streams(ordered), IndexBlob(Entries(layouts)), g, starts), layouts, nShards))
  }

  // Every stream in its columns, and the index over the first ones.
  ghost function QuiltBytes(streams: seq<Bytes>, index: Bytes, g: Grid, starts: seq<nat>): (r: Bytes)
    requires g.Valid() && Room(starts, streams, g) && g.Inside(CeilDiv(|index|, g.ColumnSize()))
    ensures |r| == g.rows * g.rowSize
  {
    WithIndex(Paint(Zeros(g.rows * g.rowSize), streams, g, starts, |streams|), index, g)
  }

  // The buffer with an index blob written from column zero.
  ghost function WithIndex(buffer: Bytes, index: Bytes, g: Grid): (r: Bytes)
    requires g.Valid() && |buffer| == g.rows * g.rowSize && g.Inside(CeilDiv(|index|, g.ColumnSize()))
    ensures |r| == |buffer|
  {
    InsideFits(g, 0, |index|);
    Scatter(buffer, index, g, 0, 0)
  }

  function Zeros(n: nat): (r: Bytes)
    ensures |r| == n
  {
    seq(n, _ => 0)
  }

  // The index is as long as its placeholder was, so it fits the columns set aside for it.
  lemma IndexBlobSize(ordered: seq<PatchInput>, layouts: seq<PatchLayout>)
    requires |layouts| == |ordered| && EndsFit(Entries(layouts))
    requires |EncodeIndex(Entries(layouts))| < U32_LIMIT
    requires forall i :: 0 <= i < |ordered| ==>
               layouts[i].identifier == ordered[i].identifier && layouts[i].tags == ordered[i].tags
    ensures |IndexBlob(Entries(layouts))| == IndexSize(ordered)
  {
    PlaceholderSize(Entries(layouts), Placeholders(ordered));
  }

  // ----- The algorithm -----

  method CheckIdentifiers(ordered: seq<PatchInput>, textOk: Text -> bool) returns (r: Option<AssemblyError>)
    ensures r == FirstIdentifierProblem(Keys(ordered, PatchKey), {}, textOk)
  {
    ghost var ids := Keys(ordered, PatchKey);
    var seen: set<Text> := {};
    for i := 0 to |ordered|
      invariant FirstIdentifierProblem(ids, {}, textOk) == FirstIdentifierProblem(ids[i..], seen, textOk)
    {
      assert ids[i..][0] == ordered[i].identifier && ids[i..][1..] == ids[i + 1..];
      var problem := IdentifierProblem(ordered[i].identifier, textOk);
      if problem.Some? {
        return problem;
      }
      if ordered[i].identifier in seen {
        return Some(DuplicateIdentifier(ordered[i].identifier));
      }
      seen := seen + {ordered[i].identifier};
    }
    return None;
  }

  method CollectMetadata(ordered: seq<PatchInput>) returns (r: Result<seq<Bytes>, AssemblyError>)
    ensures r.Err? ==> FirstMetadataProblem(ordered) == Some(r.error)
    ensures r.Ok? ==> FirstMetadataProblem(ordered).None? && |r.value| == |ordered|
    ensures r.Ok? ==> forall i :: 0 <= i < |ordered| ==> r.value[i] == Metadata(ordered[i])
  {
    var metadata: seq<Bytes> := [];
    for i := 0 to |ordered|
      invariant |metadata| == i
      invariant FirstMetadataProblem(ordered) == FirstMetadataProblem(ordered[i..])
      invariant forall j :: 0 <= j < i ==> MetadataProblem(ordered[j]).None? && metadata[j] == Metadata(ordered[j])
    {
      assert ordered[i..][0] == ordered[i] && ordered[i..][1..] == ordered[i + 1..];
      var meta := BlobMetadata(ordered[i]);
      if meta.Err? {
        return Err(BadMetadata(meta.error));
      }
      metadata := metadata + [meta.value];
    }
    return Ok(metadata);
  }

  lemma GridFromSizes(g: Grid)
    requires g.Valid()
    ensures g.ColumnSize() % g.symbol == 0
    ensures Grid(g.rowSize, g.ColumnSize() / g.symbol, g.symbol) == g
  {
    Divides(g.symbol, g.rows);
    assert g.ColumnSize() == g.symbol * g.rows;
  }

  // Writing where the matrix has room raises none of the writer's errors.
  method WriteFitting(quilt: array<byte>, blob: Bytes, g: Grid, startColumn: nat, prefix: Option<Bytes>)
    returns (columns: nat)
    requires g.Valid() && g.rowSize % g.symbol == 0
    requires Fits(quilt.Length, g, startColumn, 0, |prefix.GetOr([]) + blob|)
    modifies quilt
    ensures columns == CeilDiv(|prefix.GetOr([]) + blob|, g.ColumnSize())
    ensures quilt[..] == Scatter(old(quilt[..]), prefix.GetOr([]) + blob, g, startColumn, 0)
  {
    GridFromSizes(g);
    var written := WriteBlobToQuilt(quilt, blob, g.rowSize, g.ColumnSize(), g.symbol, startColumn, prefix);
    assert written.Ok? by {
      if written.Err? {
        match written.error {
          case RowSizeIndivisible =>
          case ColumnSizeIndivisible =>
          case PastEnd =>
        }
      }
    }
    return written.value;
  }

  function LayoutOf(patch: PatchInput, startColumn: nat, endColumn: nat): PatchLayout {
    PatchLayout(patch.identifier, patch.tags, startColumn, endColumn)
  }

  // The layouts of the first patches.
  ghost predicate AreLayouts(layouts: seq<PatchLayout>, patches: seq<PatchInput>, starts: seq<nat>)
    requires |starts| == |patches| + 1
  {
    && |layouts| <= |patches|
    && forall i {:trigger layouts[i]} :: 0 <= i < |layouts| ==>
         layouts[i] == LayoutOf(patches[i], starts[i], starts[i + 1])
  }

  lemma LayoutsDetermined(layouts: seq<PatchLayout>, patches: seq<PatchInput>, starts: seq<nat>)
    requires |starts| == |patches| + 1 && AreLayouts(layouts, patches, starts) && |layouts| == |patches|
    ensures layouts == Layouts(patches, starts)
  {
    forall i | 0 <= i < |layouts| ensures layouts[i] == Layouts(patches, starts)[i] {
    }
  }

  lemma LayoutAppended(layouts: seq<PatchLayout>, patches: seq<PatchInput>, starts: seq<nat>, i: nat, layout: PatchLayout)
    requires |starts| == |patches| + 1 && i == |layouts| < |patches| && AreLayouts(layouts, patches, starts)
    requires layout == LayoutOf(patches[i], starts[i], starts[i + 1])
    ensures AreLayouts(layouts + [layout], patches, starts)
  {
  }

  // Writes one patch's stream where its column starts.
  method WritePatch(quilt: array<byte>, contents: Bytes, prefix: Bytes, g: Grid, startColumn: nat, i: nat,
                    ghost original: Bytes, ghost streams: seq<Bytes>, ghost starts: seq<nat>)
    returns (columns: nat)
    requires g.Valid() && g.rowSize % g.symbol == 0 && quilt.Length == |original| == g.rows * g.rowSize
    requires Room(starts, streams, g) && i < |streams| && streams[i] == prefix + contents
    requires startColumn == starts[i] && quilt[..] == Paint(original, streams, g, starts, i)
    modifies quilt
    ensures startColumn + columns == starts[i + 1]
    ensures quilt[..] == Paint(original, streams, g, starts, i + 1)
  {
    RoomForStream(starts, streams, g, i);
    hide Room, Scatter, Fits;
    assert Some(prefix).GetOr([]) + contents == streams[i];
    columns := WriteFitting(quilt, contents, g, startColumn, Some(prefix));
  }

  ghost predicate Described(metadata: seq<Bytes>, ordered: seq<PatchInput>)
    requires Storable(ordered)
  {
    |metadata| == |ordered| && forall i :: 0 <= i < |ordered| ==> metadata[i] == Metadata(ordered[i])
  }

  lemma StreamAt(ordered: seq<PatchInput>, metadata: seq<Bytes>, i: nat)
    requires Storable(ordered) && Described(metadata, ordered) && i < |ordered|
    ensures |metadata| == |Streams(ordered)| == |ordered|
    ensures Streams(ordered)[i] == metadata[i] + ordered[i].contents
  {
  }

  method WritePatches(quilt: array<byte>, ordered: seq<PatchInput>, metadata: seq<Bytes>, g: Grid,
                      indexColumns: nat, ghost starts: seq<nat>)
    returns (layouts: seq<PatchLayout>)
    requires Storable(ordered) && g.Valid() && quilt.Length == g.rows * g.rowSize
    requires g.rowSize % g.symbol == 0 && Room(starts, Streams(ordered), g)
    requires Described(metadata, ordered) && |starts| == |ordered| + 1 && starts[0] == indexColumns
    modifies quilt
    ensures layouts == Layouts(ordered, starts)
    ensures quilt[..] == Paint(old(quilt[..]), Streams(ordered), g, starts, |ordered|)
  {
    ghost var streams, original := Streams(ordered), quilt[..];
    var currentColumn := indexColumns;
    layouts := [];
    assert AreLayouts([], ordered, starts);
    assert Paint(original, streams, g, starts, 0) == original;
    assert |metadata| == |ordered|;
    hide Room, AreLayouts, LayoutOf, Described, Paint, Streams, Storable, Layouts;
    for i := 0 to |ordered|
      invariant |layouts| == i && AreLayouts(layouts, ordered, starts)
      invariant currentColumn == starts[i]
      invariant quilt[..] == Paint(original, streams, g, starts, i)
    {
      StreamAt(ordered, metadata, i);
      var startColumn := currentColumn;
      var columns := WritePatch(quilt, ordered[i].contents, metadata[i], g, startColumn, i, original, streams, starts);
      currentColumn := currentColumn + columns;
      assert startColumn == starts[i] && currentColumn == starts[i + 1];
      var layout := LayoutOf(ordered[i], startColumn, currentColumn);
      LayoutAppended(layouts, ordered, starts, i, layout);
      layouts := layouts + [layout];
    }
    LayoutsDetermined(layouts, ordered, starts);
  }

  /** Packs a batch of blobs into one quilt for a committee's shard count. */
  method AssembleQuilt(patches: seq<PatchInput>, nShards: int, textOk: Text -> bool)
    returns (r: Result<AssembledQuilt, AssemblyError>)
    ensures r == Assembled(patches, nShards, textOk)
  {
    hide Suitable, SortBy, Keys, BlobSizes, Packed, EncodeIndex, ChosenSymbolSize;
    if patches == [] {
      return Err(NoPatches);
    }
    var (nRows, nColumns) := RedStuff.SourceSymbolCounts(nShards);
    var ordered := SortBy(patches, PatchKey);
    var problem := CheckIdentifiers(ordered, textOk);
    if problem.Some? {
      return Err(problem.value);
    }
    var metadata := CollectMetadata(ordered);
    if metadata.Err? {
      return Err(metadata.error);
    }
    var indexSize := QUILT_INDEX_PREFIX_SIZE + |EncodeIndex(Placeholders(ordered))|;
    var blobSizes := [indexSize] + StreamSizes(metadata.value, ordered);
    SizesAgree(metadata.value, ordered);
    var size := ComputeSymbolSize(blobSizes, nColumns, nRows, MAX_NUM_SLIVERS_FOR_QUILT_INDEX);
    ChosenIsComputed(blobSizes, nColumns, nRows, size);
    if size.Err? {
      return Err(BadSize(size.error));
    }
    SuitableIsRoomy(ordered, size.value, nColumns, nRows);
    r := PackQuilt(ordered, metadata.value, indexSize, size.value, nColumns, nRows, nShards);
  }

  function StreamSizes(metadata: seq<Bytes>, ordered: seq<PatchInput>): (r: seq<nat>)
    requires |metadata| == |ordered|
    ensures |r| == |ordered|
    ensures forall i :: 0 <= i < |r| ==> r[i] == |metadata[i]| + |ordered[i].contents|
  {
    seq(|ordered|, i requires 0 <= i < |ordered| => |metadata[i]| + |ordered[i].contents|)
  }

  lemma SizesAgree(metadata: seq<Bytes>, ordered: seq<PatchInput>)
    requires |metadata| == |ordered| && Storable(ordered)
    requires forall i :: 0 <= i < |ordered| ==> metadata[i] == Metadata(ordered[i])
    ensures [IndexSize(ordered)] + StreamSizes(metadata, ordered) == BlobSizes(ordered)
  {
    var sizes, lengths := StreamSizes(metadata, ordered), Lengths(Streams(ordered));
    forall i | 0 <= i < |ordered| ensures sizes[i] == lengths[i] {
    }
    assert sizes == lengths;
  }

  // The search's result is the one the specification chooses.
  lemma ChosenIsComputed(sizes: seq<nat>, nColumns: int, nRows: int, r: Result<nat, SizeError>)
    requires |sizes| > 0 && (|sizes| <= nColumns ==> nRows > 0)
    requires r == Err(TooManyBlobs) <==> |sizes| > nColumns
    requires r != Err(NoBlobs) && r != Err(CannotPack)
    requires r == Err(SymbolTooLarge)
        <==> |sizes| <= nColumns && !Suitable(sizes, nColumns, nRows, MAX_NUM_SLIVERS_FOR_QUILT_INDEX,
                                              RedStuff.RS2_MAX_SYMBOL_SIZE)
    requires r.Ok? ==> IsLeastEvenSuitable(sizes, nColumns, nRows, MAX_NUM_SLIVERS_FOR_QUILT_INDEX, r.value)
    requires r.Ok? ==> r.value <= RedStuff.RS2_MAX_SYMBOL_SIZE
    ensures r == ChosenSymbolSize(sizes, nColumns, nRows)
  {
    hide Suitable, LeastSuitable, Max, LowerBound, UpperBound;
    if r.Err? {
      match r.error {
        case NoBlobs =>
        case TooManyBlobs =>
        case CannotPack =>
        case SymbolTooLarge =>
      }
    }
    if |sizes| <= nColumns {
      var least := LeastSuitable(sizes, nColumns, nRows, MAX_NUM_SLIVERS_FOR_QUILT_INDEX);
      LeastEven(sizes, nColumns, nRows, MAX_NUM_SLIVERS_FOR_QUILT_INDEX, least, least + least % 2);
    }
  }

  method WriteIndex(quilt: array<byte>, ordered: seq<PatchInput>, layouts: seq<PatchLayout>, indexSize: nat,
                    g: Grid)
    returns (problem: Option<AssemblyError>)
    requires g.Valid() && g.rowSize % g.symbol == 0 && quilt.Length == g.rows * g.rowSize
    requires |layouts| == |ordered| && indexSize == IndexSize(ordered)
    requires forall i :: 0 <= i < |ordered| ==>
               layouts[i].identifier == ordered[i].identifier && layouts[i].tags == ordered[i].tags
    requires g.Inside(CeilDiv(indexSize, g.ColumnSize()))
    modifies quilt
    ensures problem == if !EndsFit(Entries(layouts)) then Some(EndIndexOverflow)
                       else if |EncodeIndex(Entries(layouts))| >= U32_LIMIT then Some(IndexLengthOverflow)
                       else None
    ensures problem.None? ==>
              && |IndexBlob(Entries(layouts))| == indexSize
              && quilt[..] == WithIndex(old(quilt[..]), IndexBlob(Entries(layouts)), g)
  {
    var entries := Entries(layouts);
    if i :| 0 <= i < |entries| && entries[i].endIndex >= U16_LIMIT {
      return Some(EndIndexOverflow);
    }
    var indexBytes := EncodeIndex(entries);
    if |indexBytes| >= U32_LIMIT {
      return Some(IndexLengthOverflow);
    }
    var indexBlob := [QUILT_VERSION_BYTE] + U32(|indexBytes|) + indexBytes;
    IndexBlobSize(ordered, layouts);
    if |indexBlob| != indexSize {
      return Some(IndexSizeChanged);
    }
    InsideFits(g, 0, |indexBlob|);
    assert None.GetOr([]) + indexBlob == indexBlob;
    var _ := WriteFitting(quilt, indexBlob, g, 0, None);
    return None;
  }

  method PackQuilt(ordered: seq<PatchInput>, metadata: seq<Bytes>, indexSize: nat, symbolSize: nat,
                   nColumns: nat, nRows: nat, nShards: int)
    returns (r: Result<AssembledQuilt, AssemblyError>)
    requires Storable(ordered) && nRows > 0 && symbolSize > 0
    requires Roomy(ordered, QuiltGrid(symbolSize, nColumns, nRows), nColumns)
    requires |metadata| == |ordered| && indexSize == IndexSize(ordered)
    requires forall i :: 0 <= i < |ordered| ==> metadata[i] == Metadata(ordered[i])
    ensures r == Packed(ordered, QuiltGrid(symbolSize, nColumns, nRows), nColumns, nShards)
  {
    hide Paint, PatchStarts, Streams, EncodeIndex, Entries, Layouts, IndexSize, WithIndex;
    var g := QuiltGrid(symbolSize, nColumns, nRows);
    ghost var starts := PatchStarts(ordered, g.ColumnSize());
    var indexColumns := CeilDiv(indexSize, g.ColumnSize());
    if indexColumns > MAX_NUM_SLIVERS_FOR_QUILT_INDEX {
      return Err(IndexColumns);
    }
    Divides(symbolSize, nColumns);
    RoomyIsRoom(ordered, g, nColumns);
    var quilt := new byte[g.rows * g.rowSize](_ => 0);
    assert quilt[..] == Zeros(g.rows * g.rowSize);
    var layouts := WritePatches(quilt, ordered, metadata, g, indexColumns, starts);
    var problem := WriteIndex(quilt, ordered, layouts, indexSize, g);
    if problem.Some? {
      return Err(problem.value);
    }
    return Ok(AssembledQuilt(quilt[..], layouts, nShards));
  }

  lemma Divides(d: nat, n: nat)
    requires d > 0
    ensures (d * n) % d == 0 && (d * n) / d == n
  {
    DivModOf(n, 0, d);
  }
}
