/** Which batches are packed and why the others are refused, said of the sizes in bytes alone. */
module QuiltAcceptance {
  import opened Common
  import opened Arithmetic
  import opened Bcs
  import opened Ordering
  import opened QuiltIndex
  import opened QuiltMatrix
  import opened QuiltSize
  import opened QuiltAssembly
  import QuiltReader
  import RedStuff

  // ----- Sizes in bytes -----

  // The base-128 digits of a length.
  function LengthPrefix(n: nat): nat { if n < 128 then 1 else 1 + LengthPrefix(n / 128) }

  function StringSize(s: Text): nat { LengthPrefix(|s|) + |s| }

  function TagRunSize(tags: seq<Tag>): nat {
    if tags == [] then 0 else StringSize(tags[0].key) + StringSize(tags[0].value) + TagRunSize(tags[1..])
  }

  function TagsSize(tags: seq<Tag>): nat { LengthPrefix(|tags|) + TagRunSize(tags) }

  // What a patch stores after its six-byte header.
  function PayloadSize(patch: PatchInput): nat {
    2 + StringSize(patch.identifier) + (if patch.tags == [] then 0 else 2 + TagsSize(patch.tags)) + |patch.contents|
  }

  function IndexRunSize(patches: seq<PatchInput>): nat {
    if patches == [] then 0
    else 2 + StringSize(patches[0].identifier) + TagsSize(patches[0].tags) + IndexRunSize(patches[1..])
  }

  // The index, and then each patch.
  function StoredSizes(patches: seq<PatchInput>): (r: seq<nat>)
    ensures |r| == |patches| + 1 && r[0] == 5 + LengthPrefix(|patches|) + IndexRunSize(patches)
    ensures forall i :: 0 <= i < |patches| ==> r[i + 1] == 6 + PayloadSize(patches[i])
  {
    [5 + LengthPrefix(|patches|) + IndexRunSize(patches)]
    + seq(|patches|, i requires 0 <= i < |patches| => 6 + PayloadSize(patches[i]))
  }

  lemma {:induction false} UlebSize(n: nat)
    ensures |Uleb(n)| == LengthPrefix(n)
  {
    if n >= 128 { UlebSize(n / 128); }
  }

  lemma StringSized(s: Text)
    ensures |EncodeString(s)| == StringSize(s)
  {
    UlebSize(|s|);
  }

  lemma {:induction false} TagRunSized(tags: seq<Tag>)
    ensures |EncodeRun(tags, EncodeTag)| == TagRunSize(tags)
  {
    if tags != [] {
      StringSized(tags[0].key);
      StringSized(tags[0].value);
      TagRunSized(tags[1..]);
    }
  }

  lemma {:induction false} TagRunInserted(tag: Tag, tags: seq<Tag>)
    ensures TagRunSize(Insert(tag, tags, TagKey))
         == StringSize(tag.key) + StringSize(tag.value) + TagRunSize(tags)
  {
    if tags == [] {
      assert [tag][1..] == [];
    } else if Before(TagKey(tag), TagKey(tags[0])) {
      assert ([tag] + tags)[1..] == tags;
    } else {
      TagRunInserted(tag, tags[1..]);
      assert ([tags[0]] + Insert(tag, tags[1..], TagKey))[1..] == Insert(tag, tags[1..], TagKey);
    }
  }

  lemma {:induction false} TagRunSorted(tags: seq<Tag>)
    ensures TagRunSize(SortBy(tags, TagKey)) == TagRunSize(tags)
  {
    if tags != [] {
      TagRunSorted(tags[1..]);
      TagRunInserted(tags[0], SortBy(tags[1..], TagKey));
    }
  }

  lemma TagsSized(tags: seq<Tag>)
    ensures |SerializeTags(tags)| == TagsSize(tags)
    ensures |EncodeTags(SortedTagEntries(tags))| == TagsSize(tags)
  {
    TagRunSorted(tags);
    TagRunSized(SortBy(tags, TagKey));
    UlebSize(|tags|);
    hide SortBy, EncodeRun, TagRunSize, Uleb;
  }

  lemma PayloadSized(patch: PatchInput)
    ensures PayloadLength(patch) == PayloadSize(patch)
  {
    StringSized(patch.identifier);
    TagsSized(patch.tags);
    hide EncodeString, SerializeTags, TagsSize, StringSize;
  }

  // ----- What fits its header -----

  predicate HeaderFits(patch: PatchInput) {
    && StringSize(patch.identifier) < 65535 && PayloadSize(patch) <= 4294967295
    && (patch.tags != [] ==> TagsSize(patch.tags) < 65536)
  }

  // Which field is too long, in the order they are looked at.
  predicate Overlong(patch: PatchInput, reason: MetadataError) {
    match reason
    case IdentifierTooLong => StringSize(patch.identifier) >= 65535
    case PayloadTooLarge => StringSize(patch.identifier) < 65535 && PayloadSize(patch) > 4294967295
    case TagsTooLong =>
      StringSize(patch.identifier) < 65535 && PayloadSize(patch) <= 4294967295 && TagsSize(patch.tags) >= 65536
      && patch.tags != []
  }

  lemma MetadataExact(patch: PatchInput)
    ensures MetadataProblem(patch).None? <==> HeaderFits(patch)
    ensures forall reason :: MetadataProblem(patch) == Some(reason) <==> Overlong(patch, reason)
  {
    StringSized(patch.identifier);
    TagsSized(patch.tags);
    PayloadSized(patch);
    hide EncodeString, SerializeTags, PayloadLength, StringSize, TagsSize, PayloadSize;
  }

  ghost predicate FirstOverlong(patches: seq<PatchInput>, reason: MetadataError) {
    exists k :: 0 <= k < |patches| && Overlong(patches[k], reason) && forall j :: 0 <= j < k ==> HeaderFits(patches[j])
  }

  lemma {:induction false} FirstMetadataExact(patches: seq<PatchInput>)
    ensures match FirstMetadataProblem(patches)
            case None => forall i :: 0 <= i < |patches| ==> HeaderFits(patches[i])
            case Some(e) => e.BadMetadata? && FirstOverlong(patches, e.reason)
  {
    if patches != [] {
      MetadataExact(patches[0]);
      FirstMetadataExact(patches[1..]);
      hide HeaderFits, Overlong, MetadataProblem;
      match MetadataProblem(patches[0])
      case Some(reason) =>
        assert Overlong(patches[0], reason);
      case None =>
        match FirstMetadataProblem(patches[1..])
        case None =>
          assert forall i :: 1 <= i < |patches| ==> patches[i] == patches[1..][i - 1];
        case Some(e) =>
          var k :| 0 <= k < |patches[1..]| && Overlong(patches[1..][k], e.reason)
                   && forall j :: 0 <= j < k ==> HeaderFits(patches[1..][j]);
          assert Overlong(patches[k + 1], e.reason);
          assert forall j :: 1 <= j < k + 1 ==> patches[j] == patches[1..][j - 1];
    }
  }

  // ----- Identifiers -----

  predicate Fine(ids: seq<Text>, k: nat, textOk: Text -> bool)
    requires k < |ids|
  {
    1 <= |ids[k]| <= 65535 && textOk(ids[k]) && ids[k] !in ids[..k]
  }

  // What is wrong with an identifier, in the order the rules are applied.
  predicate Offence(ids: seq<Text>, k: nat, textOk: Text -> bool, e: AssemblyError)
    requires k < |ids|
  {
    var id := ids[k];
    match e
    case EmptyIdentifier => id == []
    case IdentifierOversize(which) => which == id && |id| > 65535
    case IdentifierRejected(which) => which == id && 1 <= |id| <= 65535 && !textOk(id)
    case DuplicateIdentifier(which) => which == id && 1 <= |id| <= 65535 && textOk(id) && id in ids[..k]
    case _ => false
  }

  ghost predicate FirstOffence(ids: seq<Text>, textOk: Text -> bool, e: AssemblyError) {
    exists k :: 0 <= k < |ids| && Offence(ids, k, textOk, e) && forall j :: 0 <= j < k ==> Fine(ids, j, textOk)
  }

  ghost predicate AllFine(ids: seq<Text>, textOk: Text -> bool) { forall k :: 0 <= k < |ids| ==> Fine(ids, k, textOk) }

  // The check from the k-th identifier on, those before it seen.
  lemma {:induction false} IdentifiersExact(ids: seq<Text>, k: nat, seen: set<Text>, textOk: Text -> bool)
    requires k <= |ids| && seen == (set id | id in ids[..k]) && forall j :: 0 <= j < k ==> Fine(ids, j, textOk)
    ensures match FirstIdentifierProblem(ids[k..], seen, textOk)
            case None => AllFine(ids, textOk)
            case Some(e) => FirstOffence(ids, textOk, e)
    decreases |ids| - k
  {
    if k < |ids| {
      assert ids[k..][0] == ids[k] && ids[k..][1..] == ids[k + 1..];
      var problem := IdentifierProblem(ids[k], textOk);
      if problem.Some? {
        assert Offence(ids, k, textOk, problem.value);
      } else if ids[k] in seen {
        assert Offence(ids, k, textOk, DuplicateIdentifier(ids[k]));
      } else {
        assert ids[..k + 1] == ids[..k] + [ids[k]];
        assert Fine(ids, k, textOk);
        IdentifiersExact(ids, k + 1, seen + {ids[k]}, textOk);
      }
    }
  }

  /** The check of the identifiers finds nothing exactly when each has 1 to 65535 bytes, passes the rules on
      its text and is new; what it finds is wrong with the first for which that fails, by the first rule. */
  lemma CheckExact(ids: seq<Text>, textOk: Text -> bool)
    ensures FirstIdentifierProblem(ids, {}, textOk).None? <==> AllFine(ids, textOk)
    ensures forall e :: FirstIdentifierProblem(ids, {}, textOk) == Some(e) <==> FirstOffence(ids, textOk, e)
  {
    assert ids[0..] == ids && (set id | id in ids[..0]) == {};
    IdentifiersExact(ids, 0, {}, textOk);
    hide FirstIdentifierProblem;
    forall e | FirstOffence(ids, textOk, e)
      ensures !AllFine(ids, textOk) && forall e' :: FirstOffence(ids, textOk, e') ==> e == e'
    {
      OneOffence(ids, textOk, e);
    }
  }

  lemma OneOffence(ids: seq<Text>, textOk: Text -> bool, e: AssemblyError)
    requires FirstOffence(ids, textOk, e)
    ensures !AllFine(ids, textOk) && forall e' :: FirstOffence(ids, textOk, e') ==> e == e'
  {
    var k :| 0 <= k < |ids| && Offence(ids, k, textOk, e) && forall j :: 0 <= j < k ==> Fine(ids, j, textOk);
    assert !Fine(ids, k, textOk);
    forall e' | FirstOffence(ids, textOk, e') ensures e == e' {
      var l :| 0 <= l < |ids| && Offence(ids, l, textOk, e') && forall j :: 0 <= j < l ==> Fine(ids, j, textOk);
      assert !Fine(ids, l, textOk);
      assert k == l;
    }
  }

  // ----- The sizes the geometry is computed from -----

  lemma {:induction false} IndexRunSized(patches: seq<PatchInput>)
    ensures |EncodeRun(Placeholders(patches), EncodeEntry)| == IndexRunSize(patches)
  {
    if patches != [] {
      var entries := Placeholders(patches);
      assert entries[1..] == Placeholders(patches[1..]);
      StringSized(patches[0].identifier);
      TagsSized(patches[0].tags);
      IndexRunSized(patches[1..]);
      hide EncodeTags, EncodeString, SortedTagEntries, Placeholders, TagsSize, StringSize;
      assert |EncodeEntry(entries[0])| == 2 + StringSize(patches[0].identifier) + TagsSize(patches[0].tags);
    }
  }

  lemma IndexSized(patches: seq<PatchInput>)
    ensures IndexSize(patches) == StoredSizes(patches)[0]
  {
    IndexRunSized(patches);
    UlebSize(|patches|);
    hide EncodeRun, Uleb, IndexRunSize;
  }

  lemma StreamSized(patch: PatchInput)
    requires MetadataProblem(patch).None?
    ensures |Metadata(patch) + patch.contents| == 6 + PayloadSize(patch)
    ensures Metadata(patch)[0] == 1 && Metadata(patch)[5] == if patch.tags == [] then 0 else 1
  {
    PayloadSized(patch);
    hide EncodeString, SerializeTags, PayloadSize;
  }

  lemma StoredSized(patches: seq<PatchInput>)
    requires Storable(patches)
    ensures BlobSizes(patches) == StoredSizes(patches)
  {
    IndexSized(patches);
    hide IndexSize, Metadata, StoredSizes;
    forall i | 0 <= i < |patches| ensures Lengths(Streams(patches))[i] == StoredSizes(patches)[i + 1] {
      StreamSized(patches[i]);
    }
  }

  // ----- What is packed, and why the rest is not -----

  ghost predicate Apart(patches: seq<PatchInput>) {
    forall i, j :: 0 <= i < j < |patches| ==> patches[i].identifier != patches[j].identifier
  }

  // Identifiers and headers are all right.
  ghost predicate Presentable(patches: seq<PatchInput>, textOk: Text -> bool) {
    && patches != [] && Apart(patches)
    && forall patch :: patch in patches ==>
         1 <= |patch.identifier| <= 65535 && textOk(patch.identifier) && HeaderFits(patch)
  }

  // A symbol within the encoder's limit suits the sizes: there is a column for each of them, and the
  // largest symbol leaves room for them, with the index in at most ten columns.
  ghost predicate Packable(sizes: seq<nat>, nShards: int, f: int) {
    |sizes| <= nShards - f && Suitable(sizes, nShards - f, nShards - 2 * f, 10, 65534)
  }

  // The least even symbol size that suits the sizes.
  ghost predicate Chosen(sizes: seq<nat>, nShards: int, f: int, size: nat) {
    IsLeastEvenSuitable(sizes, nShards - f, nShards - 2 * f, 10, size)
  }

  // With the least such symbol no column number and no index length overflows.
  ghost predicate Numbered(sizes: seq<nat>, nShards: int, f: int)
    requires |sizes| > 0
  {
    && (forall size: nat :: Chosen(sizes, nShards, f, size) ==>
          LastColumn(sizes, size * (nShards - 2 * f)) < 65536)
    && sizes[0] < 5 + 4294967296
  }

  function LastColumn(sizes: seq<nat>, columnSize: int): int {
    if columnSize > 0 then Columns(sizes, columnSize) else 0
  }

  ghost predicate Acceptable(patches: seq<PatchInput>, nShards: int, f: int, textOk: Text -> bool) {
    var sizes := StoredSizes(SortBy(patches, PatchKey));
    Presentable(patches, textOk) && Packable(sizes, nShards, f) && Numbered(sizes, nShards, f)
  }

  lemma SortedPresentable(patches: seq<PatchInput>, textOk: Text -> bool)
    requires patches != []
    ensures var ordered := SortBy(patches, PatchKey);
            Presentable(patches, textOk) <==>
            AllFine(Keys(ordered, PatchKey), textOk) && forall i :: 0 <= i < |ordered| ==> HeaderFits(ordered[i])
  {
    var ordered := SortBy(patches, PatchKey);
    hide SortBy, HeaderFits, Keys;
    SameMembers(patches, ordered);
    var ids := Keys(ordered, PatchKey);
    if AllFine(ids, textOk) && forall i :: 0 <= i < |ordered| ==> HeaderFits(ordered[i]) {
      FineApart(ordered, textOk);
      DistinctPermuted(ordered, patches);
      forall patch | patch in patches
        ensures 1 <= |patch.identifier| <= 65535 && textOk(patch.identifier) && HeaderFits(patch)
      {
        var k :| 0 <= k < |ordered| && ordered[k] == patch;
        assert Fine(ids, k, textOk);
      }
    }
    if Presentable(patches, textOk) {
      DistinctPermuted(patches, ordered);
      forall k | 0 <= k < |ids| ensures Fine(ids, k, textOk) {
        assert ordered[k] in patches;
        forall j | 0 <= j < k ensures ids[..k][j] != ids[k] {
          assert ordered[j].identifier != ordered[k].identifier;
        }
      }
    }
  }

  lemma SameMembers(a: seq<PatchInput>, b: seq<PatchInput>)
    requires multiset(a) == multiset(b)
    ensures forall x :: x in a <==> x in b
  {
    assert forall x :: x in a <==> x in multiset(a);
    assert forall x :: x in b <==> x in multiset(b);
  }

  lemma FineApart(ordered: seq<PatchInput>, textOk: Text -> bool)
    requires AllFine(Keys(ordered, PatchKey), textOk)
    ensures Apart(ordered)
  {
    var ids := Keys(ordered, PatchKey);
    hide Keys;
    forall i, j | 0 <= i < j < |ordered| ensures ordered[i].identifier != ordered[j].identifier {
      assert Fine(ids, j, textOk) && ids[..j][i] == ids[i];
    }
  }

  lemma DistinctPermuted(a: seq<PatchInput>, b: seq<PatchInput>)
    requires multiset(a) == multiset(b) && Apart(a)
    ensures Apart(b)
  {
    forall i, j | 0 <= i < j < |b| ensures b[i].identifier != b[j].identifier {
      SameMembers(a, b);
      assert b[i] in a && b[j] in a;
      var k :| 0 <= k < |a| && a[k] == b[i];
      var l :| 0 <= l < |a| && a[l] == b[j];
      if k == l {
        TwiceCounts(b, i, j);
        OnceOnly(a, k);
        assert false;
      }
    }
  }

  lemma OnceOnly(a: seq<PatchInput>, k: nat)
    requires Apart(a) && k < |a|
    ensures multiset(a)[a[k]] == 1
  {
    var before, after := a[..k], a[k + 1..];
    assert a == before + ([a[k]] + after);
    forall i | 0 <= i < k ensures before[i] != a[k] { assert a[i].identifier != a[k].identifier; }
    forall i | 0 <= i < |after| ensures after[i] != a[k] { assert a[k + 1 + i].identifier != a[k].identifier; }
  }

  // Why a batch is not packed. No two of these hold of one batch, and none of an acceptable one.
  ghost predicate Refused(patches: seq<PatchInput>, nShards: int, f: int, textOk: Text -> bool, e: AssemblyError) {
    var ordered := SortBy(patches, PatchKey);
    var ids, sizes := Keys(ordered, PatchKey), StoredSizes(ordered);
    match e
    case NoPatches => patches == []
    case BadMetadata(reason) => patches != [] && AllFine(ids, textOk) && FirstOverlong(ordered, reason)
    case BadSize(TooManyBlobs) => Presentable(patches, textOk) && |patches| + 1 > nShards - f
    case BadSize(SymbolTooLarge) =>
      && Presentable(patches, textOk) && |patches| + 1 <= nShards - f
      && !Suitable(sizes, nShards - f, nShards - 2 * f, 10, 65534)
    case EndIndexOverflow =>
      && Presentable(patches, textOk) && Packable(sizes, nShards, f)
      && exists size: nat :: Chosen(sizes, nShards, f, size)
                             && LastColumn(sizes, size * (nShards - 2 * f)) >= 65536
    case IndexLengthOverflow =>
      && Presentable(patches, textOk) && Packable(sizes, nShards, f)
      && (forall size: nat :: Chosen(sizes, nShards, f, size) ==>
            LastColumn(sizes, size * (nShards - 2 * f)) < 65536)
      && sizes[0] >= 5 + 4294967296
    case _ => patches != [] && FirstOffence(ids, textOk, e)
  }

  // The symbol chosen, exactly when the sizes can be packed.
  lemma ChosenExact(sizes: seq<nat>, nColumns: int, nRows: int)
    requires |sizes| > 0 && nRows > 0
    ensures var r := ChosenSymbolSize(sizes, nColumns, nRows);
            match r
            case Err(NoBlobs) => false
            case Err(TooManyBlobs) => |sizes| > nColumns
            case Err(CannotPack) => false
            case Err(SymbolTooLarge) => |sizes| <= nColumns && !Suitable(sizes, nColumns, nRows, 10, 65534)
            case Ok(size) =>
              && |sizes| <= nColumns && Suitable(sizes, nColumns, nRows, 10, 65534) && size <= 65534
              && forall other: nat :: IsLeastEvenSuitable(sizes, nColumns, nRows, 10, other) <==> other == size
  {
    if |sizes| <= nColumns {
      var least := LeastSuitable(sizes, nColumns, nRows, 10);
      LeastEven(sizes, nColumns, nRows, 10, least, least + least % 2);
      hide Suitable, LeastSuitable;
    }
  }

  lemma ChosenIs(sizes: seq<nat>, nShards: int, f: int, nColumns: int, nRows: int, size: nat)
    requires nColumns == nShards - f && nRows == nShards - 2 * f
    requires forall other: nat :: IsLeastEvenSuitable(sizes, nColumns, nRows, 10, other) <==> other == size
    ensures forall other: nat :: Chosen(sizes, nShards, f, other) <==> other == size
  {
    hide IsLeastEvenSuitable;
  }

  lemma LastEnds(ordered: seq<PatchInput>, g: Grid, nColumns: nat)
    requires Storable(ordered) && g.Valid() && Roomy(ordered, g, nColumns) && ordered != []
    ensures EndsFit(Entries(Layouts(ordered, PatchStarts(ordered, g.ColumnSize())))) <==>
            Columns(BlobSizes(ordered), g.ColumnSize()) < 65536
  {
    var starts := PatchStarts(ordered, g.ColumnSize());
    var layouts := Layouts(ordered, starts);
    var entries := Entries(layouts);
    hide PatchStarts, Streams, BlobSizes, Columns;
    assert entries[|ordered| - 1].endIndex == starts[|ordered|];
    forall i | 0 <= i < |ordered| ensures entries[i].endIndex <= starts[|ordered|] {
      ChainedAscends(starts, Streams(ordered), g.ColumnSize(), i + 1, |ordered|);
    }
  }

  lemma PackedExact(ordered: seq<PatchInput>, g: Grid, nColumns: nat, nShards: int)
    requires Storable(ordered) && g.Valid() && Roomy(ordered, g, nColumns) && ordered != []
    ensures var r, sizes := Packed(ordered, g, nColumns, nShards), StoredSizes(ordered);
            match r
            case Ok(quilt) =>
              && Columns(sizes, g.ColumnSize()) < 65536 && sizes[0] < 5 + 4294967296
              && |quilt.data| == g.rows * g.rowSize && quilt.nShards == nShards
            case Err(EndIndexOverflow) => Columns(sizes, g.ColumnSize()) >= 65536
            case Err(IndexLengthOverflow) => Columns(sizes, g.ColumnSize()) < 65536 && sizes[0] >= 5 + 4294967296
            case _ => false
  {
    LastEnds(ordered, g, nColumns);
    StoredSized(ordered);
    IndexSized(ordered);
    var entries := Entries(Layouts(ordered, PatchStarts(ordered, g.ColumnSize())));
    if EndsFit(entries) { PlaceholderSize(entries, Placeholders(ordered)); }
    hide PatchStarts, Streams, BlobSizes, Columns, EncodeIndex, StoredSizes, Roomy, QuiltBytes;
  }

  // What comes of a batch: it is acceptable and packed into a matrix of the committee's shape, or refused.
  ghost predicate Outcome(patches: seq<PatchInput>, nShards: int, f: int, textOk: Text -> bool,
                          r: Result<AssembledQuilt, AssemblyError>)
  {
    match r
    case Ok(quilt) =>
      && Acceptable(patches, nShards, f, textOk) && quilt.nShards == nShards
      && exists size: nat ::
           && Chosen(StoredSizes(SortBy(patches, PatchKey)), nShards, f, size)
           && |quilt.data| == (nShards - 2 * f) * (size * (nShards - f))
    case Err(e) => Refused(patches, nShards, f, textOk, e)
  }

  // The rest of the way for a batch whose identifiers and headers are all right.
  lemma SizedOutcome(patches: seq<PatchInput>, ordered: seq<PatchInput>, nShards: int, f: int, textOk: Text -> bool)
    requires RedStuff.MostFaulty(f, nShards) && Presentable(patches, textOk)
    requires Checked(patches, ordered, nShards, textOk, nShards - 2 * f, nShards - f)
    ensures Outcome(patches, nShards, f, textOk, Assembled(patches, nShards, textOk))
  {
    hide *;
    var nRows, nColumns := nShards - 2 * f, nShards - f;
    var sizes := StoredSizes(ordered);
    RowsIfColumns(nShards, f);
    SizesOf(patches, ordered, nShards, textOk, nRows, nColumns);
    if |sizes| > nColumns {
      TooMany(sizes, nColumns, nRows);
      AssembledUnsized(patches, ordered, nShards, textOk, nRows, nColumns, TooManyBlobs);
      TooManyOutcome(patches, ordered, nShards, f, textOk);
    } else {
      ChosenExact(sizes, nColumns, nRows);
      var r := ChosenSymbolSize(sizes, nColumns, nRows);
      if r.Ok? {
        PackedOutcome(patches, ordered, nShards, f, textOk, r.value);
      } else {
        AssembledUnsized(patches, ordered, nShards, textOk, nRows, nColumns, r.error);
        TooLargeOutcome(patches, ordered, nShards, f, textOk, r.error);
      }
    }
  }

  lemma PackedOutcome(patches: seq<PatchInput>, ordered: seq<PatchInput>, nShards: int, f: int, textOk: Text -> bool,
                      size: nat)
    requires RedStuff.MostFaulty(f, nShards) && Presentable(patches, textOk)
    requires Checked(patches, ordered, nShards, textOk, nShards - 2 * f, nShards - f)
    requires nShards - 2 * f >= 1 && |StoredSizes(ordered)| <= nShards - f
    requires ChosenSymbolSize(StoredSizes(ordered), nShards - f, nShards - 2 * f) == Ok(size)
    ensures Outcome(patches, nShards, f, textOk, Assembled(patches, nShards, textOk))
  {
    hide *;
    SizesOf(patches, ordered, nShards, textOk, nShards - 2 * f, nShards - f);
    ChosenExact(StoredSizes(ordered), nShards - f, nShards - 2 * f);
    ChosenIs(StoredSizes(ordered), nShards, f, nShards - f, nShards - 2 * f, size);
    var g := AssembledPacked(patches, ordered, nShards, textOk, nShards - 2 * f, nShards - f, size);
    PackedExact(ordered, g, nShards - f, nShards);
    ChosenOutcome(patches, ordered, nShards, f, textOk, size, g, Assembled(patches, nShards, textOk));
  }

  lemma SizesOf(patches: seq<PatchInput>, ordered: seq<PatchInput>, nShards: int, textOk: Text -> bool,
                nRows: int, nColumns: int)
    requires Checked(patches, ordered, nShards, textOk, nRows, nColumns)
    ensures Storable(ordered) && BlobSizes(ordered) == StoredSizes(ordered) && ordered == SortBy(patches, PatchKey)
    ensures |StoredSizes(ordered)| == |patches| + 1 == |ordered| + 1 >= 2
  {
    StoredSized(ordered);
    hide SortBy, StoredSizes, BlobSizes;
  }

  lemma TooManyOutcome(patches: seq<PatchInput>, ordered: seq<PatchInput>, nShards: int, f: int, textOk: Text -> bool)
    requires Presentable(patches, textOk) && |patches| + 1 > nShards - f
    ensures Outcome(patches, nShards, f, textOk, Err(BadSize(TooManyBlobs)))
  {
    hide Presentable, SortBy, StoredSizes, Keys;
  }

  lemma TooLargeOutcome(patches: seq<PatchInput>, ordered: seq<PatchInput>, nShards: int, f: int, textOk: Text -> bool,
                        e: SizeError)
    requires Presentable(patches, textOk) && ordered == SortBy(patches, PatchKey) && |patches| + 1 <= nShards - f
    requires e == SymbolTooLarge && !Suitable(StoredSizes(ordered), nShards - f, nShards - 2 * f, 10, 65534)
    ensures Outcome(patches, nShards, f, textOk, Err(BadSize(e)))
  {
    hide Presentable, SortBy, StoredSizes, Keys, Suitable;
  }

  lemma RowsIfColumns(nShards: int, f: int)
    requires RedStuff.MostFaulty(f, nShards)
    ensures nShards - f >= 2 ==> nShards - 2 * f >= 1
  {
  }

  // How assembly goes on once identifiers and headers are found right.
  ghost predicate Checked(patches: seq<PatchInput>, ordered: seq<PatchInput>, nShards: int, textOk: Text -> bool,
                          nRows: int, nColumns: int)
  {
    && patches != [] && ordered == SortBy(patches, PatchKey) && |ordered| == |patches|
    && RedStuff.SourceSymbolCounts(nShards) == (nRows, nColumns) && (nColumns >= 2 ==> nRows >= 1)
    && FirstIdentifierProblem(Keys(ordered, PatchKey), {}, textOk).None? && FirstMetadataProblem(ordered).None?
  }

  lemma AssembledUnsized(patches: seq<PatchInput>, ordered: seq<PatchInput>, nShards: int, textOk: Text -> bool,
                         nRows: int, nColumns: int, e: SizeError)
    requires Checked(patches, ordered, nShards, textOk, nRows, nColumns)
    requires BlobSizes(ordered) == StoredSizes(ordered)
    requires ChosenSymbolSize(StoredSizes(ordered), nColumns, nRows) == Err(e)
    ensures Assembled(patches, nShards, textOk) == Err(BadSize(e))
  {
    hide RedStuff.SourceSymbolCounts, SortBy, Keys, FirstIdentifierProblem, Packed, BlobSizes, ChosenSymbolSize, StoredSizes;
  }

  lemma AssembledPacked(patches: seq<PatchInput>, ordered: seq<PatchInput>, nShards: int, textOk: Text -> bool,
                        nRows: nat, nColumns: nat, size: nat) returns (g: Grid)
    requires Checked(patches, ordered, nShards, textOk, nRows, nColumns) && nRows > 0
    requires BlobSizes(ordered) == StoredSizes(ordered) && |StoredSizes(ordered)| <= nColumns
    requires ChosenSymbolSize(StoredSizes(ordered), nColumns, nRows) == Ok(size)
    ensures size > 0 && g == QuiltGrid(size, nColumns, nRows) && g.Valid() && Storable(ordered)
    ensures Roomy(ordered, g, nColumns) && Assembled(patches, nShards, textOk) == Packed(ordered, g, nColumns, nShards)
  {
    g := QuiltGrid(size, nColumns, nRows);
    ChosenSymbolSizeSuits(BlobSizes(ordered), nColumns, nRows);
    SuitableIsRoomy(ordered, size, nColumns, nRows);
    hide RedStuff.SourceSymbolCounts, SortBy, Keys, FirstIdentifierProblem, Packed, BlobSizes, ChosenSymbolSize, StoredSizes,
         Suitable, Roomy;
  }

  lemma ChosenOutcome(patches: seq<PatchInput>, ordered: seq<PatchInput>, nShards: int, f: int, textOk: Text -> bool,
                      size: nat, g: Grid, r: Result<AssembledQuilt, AssemblyError>)
    requires Presentable(patches, textOk) && ordered == SortBy(patches, PatchKey)
    requires nShards - f >= 0 && nShards - 2 * f >= 1 && size > 0 && g == QuiltGrid(size, nShards - f, nShards - 2 * f)
    requires var sizes := StoredSizes(ordered);
             && |sizes| <= nShards - f && Suitable(sizes, nShards - f, nShards - 2 * f, 10, 65534)
             && forall other: nat :: Chosen(sizes, nShards, f, other) <==> other == size
    requires var sizes := StoredSizes(ordered);
             match r
             case Ok(quilt) =>
               && Columns(sizes, g.ColumnSize()) < 65536 && sizes[0] < 5 + 4294967296
               && |quilt.data| == g.rows * g.rowSize && quilt.nShards == nShards
             case Err(EndIndexOverflow) => Columns(sizes, g.ColumnSize()) >= 65536
             case Err(IndexLengthOverflow) => Columns(sizes, g.ColumnSize()) < 65536 && sizes[0] >= 5 + 4294967296
             case _ => false
    ensures Outcome(patches, nShards, f, textOk, r)
  {
    hide *;
    var sizes := StoredSizes(ordered);
    GridSizes(size, nShards - f, nShards - 2 * f);
    LastColumnIs(sizes, size * (nShards - 2 * f));
    match r {
      case Ok(quilt) => ChosenAccepted(patches, nShards, f, textOk, size, quilt, sizes);
      case Err(e) => ChosenOverflows(patches, nShards, f, textOk, size, sizes, e);
    }
  }

  lemma GridSizes(size: nat, nColumns: nat, nRows: nat)
    requires size > 0 && nRows > 0
    ensures var g := QuiltGrid(size, nColumns, nRows);
            && g.Valid() && g.ColumnSize() == size * nRows && size * nRows > 0
            && g.rows * g.rowSize == nRows * (size * nColumns)
  {
  }

  lemma LastColumnIs(sizes: seq<nat>, columnSize: int)
    requires columnSize > 0
    ensures LastColumn(sizes, columnSize) == Columns(sizes, columnSize)
  {
  }

  lemma ChosenAccepted(patches: seq<PatchInput>, nShards: int, f: int, textOk: Text -> bool, size: nat,
                       quilt: AssembledQuilt, sizes: seq<nat>)
    requires Presentable(patches, textOk) && sizes == StoredSizes(SortBy(patches, PatchKey))
    requires |sizes| <= nShards - f && Suitable(sizes, nShards - f, nShards - 2 * f, 10, 65534)
    requires forall other: nat :: Chosen(sizes, nShards, f, other) <==> other == size
    requires LastColumn(sizes, size * (nShards - 2 * f)) < 65536 && sizes[0] < 5 + 4294967296
    requires |quilt.data| == (nShards - 2 * f) * (size * (nShards - f)) && quilt.nShards == nShards
    ensures Outcome(patches, nShards, f, textOk, Ok(quilt))
  {
    hide StoredSizes, Presentable, SortBy, Columns, Chosen, Suitable, LastColumn;
    assert Chosen(sizes, nShards, f, size);
  }

  lemma ChosenOverflows(patches: seq<PatchInput>, nShards: int, f: int, textOk: Text -> bool, size: nat,
                        sizes: seq<nat>, e: AssemblyError)
    requires Presentable(patches, textOk) && sizes == StoredSizes(SortBy(patches, PatchKey))
    requires |sizes| <= nShards - f && Suitable(sizes, nShards - f, nShards - 2 * f, 10, 65534)
    requires forall other: nat :: Chosen(sizes, nShards, f, other) <==> other == size
    requires e == EndIndexOverflow || e == IndexLengthOverflow
    requires e == EndIndexOverflow ==> LastColumn(sizes, size * (nShards - 2 * f)) >= 65536
    requires e == IndexLengthOverflow ==>
               LastColumn(sizes, size * (nShards - 2 * f)) < 65536 && sizes[0] >= 5 + 4294967296
    ensures Outcome(patches, nShards, f, textOk, Err(e))
  {
    hide StoredSizes, Presentable, SortBy, Columns, Chosen, Suitable, LastColumn, Keys;
    assert Chosen(sizes, nShards, f, size);
  }

  lemma TooMany(sizes: seq<nat>, nColumns: int, nRows: int)
    requires |sizes| > nColumns && sizes != []
    ensures ChosenSymbolSize(sizes, nColumns, nRows) == Err(TooManyBlobs)
  {
  }

  /** Every batch has the outcome its sizes in bytes, its identifiers and the shard count call for. */
  lemma AssemblyOutcome(patches: seq<PatchInput>, nShards: int, f: int, textOk: Text -> bool)
    requires RedStuff.MostFaulty(f, nShards)
    ensures Outcome(patches, nShards, f, textOk, Assembled(patches, nShards, textOk))
  {
    var ordered := SortBy(patches, PatchKey);
    var ids := Keys(ordered, PatchKey);
    if patches == [] {
      hide StoredSizes;
    } else if FirstIdentifierProblem(ids, {}, textOk).Some? {
      CheckExact(ids, textOk);
      QuiltReader.FirstProblemKind(ids, {}, textOk);
      hide RedStuff.SourceSymbolCounts, SortBy, Keys, FirstIdentifierProblem, FirstMetadataProblem, FirstOffence, StoredSizes;
      assert FirstOffence(ids, textOk, FirstIdentifierProblem(ids, {}, textOk).value);
    } else if FirstMetadataProblem(ordered).Some? {
      CheckExact(ids, textOk);
      FirstMetadataExact(ordered);
      hide RedStuff.SourceSymbolCounts, SortBy, Keys, FirstIdentifierProblem, FirstMetadataProblem, AllFine, FirstOverlong,
           StoredSizes;
    } else {
      RedStuff.SourceCountsExact(nShards, f);
      RowsIfColumns(nShards, f);
      CheckExact(ids, textOk);
      FirstMetadataExact(ordered);
      SortedPresentable(patches, textOk);
      hide RedStuff.SourceSymbolCounts, SortBy, Keys, FirstIdentifierProblem, FirstMetadataProblem, AllFine, Presentable;
      SizedOutcome(patches, ordered, nShards, f, textOk);
    }
  }

  lemma NotBoth(patches: seq<PatchInput>, nShards: int, f: int, textOk: Text -> bool, e: AssemblyError)
    requires Acceptable(patches, nShards, f, textOk)
    ensures !Refused(patches, nShards, f, textOk, e)
  {
    var ordered := SortBy(patches, PatchKey);
    var ids := Keys(ordered, PatchKey);
    SortedPresentable(patches, textOk);
    hide SortBy, Keys, Presentable, StoredSizes, Suitable, Chosen, LastColumn, HeaderFits;
    if FirstOffence(ids, textOk, e) { OneOffence(ids, textOk, e); }
    hide FirstOffence, AllFine;
    if e.BadMetadata? && FirstOverlong(ordered, e.reason) { OverlongUnfit(ordered, e.reason); }
  }

  lemma OverlongUnfit(patches: seq<PatchInput>, reason: MetadataError)
    requires FirstOverlong(patches, reason)
    ensures exists k :: 0 <= k < |patches| && !HeaderFits(patches[k])
  {
    hide StringSize, PayloadSize, TagsSize;
  }

  /** A batch is packed exactly when it is not empty, its identifiers are distinct, have 1 to 65535 bytes and
      pass the rules on their text, the fields of its headers and its index fit their widths, and the largest
      symbol leaves room for it. */
  lemma AcceptanceIff(patches: seq<PatchInput>, nShards: int, f: int, textOk: Text -> bool)
    requires RedStuff.MostFaulty(f, nShards)
    ensures Assembled(patches, nShards, textOk).Ok? <==> Acceptable(patches, nShards, f, textOk)
  {
    AssemblyOutcome(patches, nShards, f, textOk);
    var r := Assembled(patches, nShards, textOk);
    hide Assembled, Acceptable, Refused;
    if r.Err? && Acceptable(patches, nShards, f, textOk) {
      NotBoth(patches, nShards, f, textOk, r.error);
    }
  }
}
