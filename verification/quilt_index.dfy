/** What a quilt stores besides contents: each packed blob's inline metadata and the index entries,
    with the parsers a reader of the format applies to them. */
module QuiltIndex {
  import opened Common
  import opened Bcs
  import opened Ordering

  const QUILT_VERSION_BYTE: byte := 1
  const HAS_TAGS_FLAG: byte := 1
  const QUILT_PATCH_BLOB_HEADER_SIZE := 6
  const BLOB_IDENTIFIER_SIZE_BYTES_LENGTH := 2
  const TAGS_SIZE_BYTES_LENGTH := 2
  const MAX_BLOB_IDENTIFIER_BYTES_LENGTH := 65535
  const MAX_SERIALIZED_BLOB_SIZE := 4294967295

  datatype Tag = Tag(key: Text, value: Text)

  // A patch's tags are a Python dict: entries in insertion order, no two with the same key.
  datatype PatchInput = PatchInput(identifier: Text, contents: Bytes, tags: seq<Tag>)

  datatype PatchLayout = PatchLayout(identifier: Text, tags: seq<Tag>, startIndex: nat, endIndex: nat)

  datatype IndexEntry = IndexEntry(endIndex: nat, identifier: Text, tags: seq<Tag>)

  // ----- Tags -----

  function TagKey(tag: Tag): Bytes { EncodeString(tag.key) }

  ghost predicate IsDict(tags: seq<Tag>) {
    forall i, j :: 0 <= i < j < |tags| ==> tags[i].key != tags[j].key
  }

  function SortedTagEntries(tags: seq<Tag>): seq<Tag> {
    SortBy(tags, TagKey)
  }

  // The entry order is a function of the mapping, not of how the caller listed it.
  lemma TagOrderForgotten(tags: seq<Tag>, tags': seq<Tag>)
    requires IsDict(tags) && multiset(tags) == multiset(tags')
    ensures SortedTagEntries(tags) == SortedTagEntries(tags')
  {
    SortByForgetsOrder(tags, tags', TagKey);
    SortedKeysDistinct(tags, SortBy(tags, TagKey));
    hide SortBy, Keys;
  }

  lemma SortedKeysDistinct(tags: seq<Tag>, sorted: seq<Tag>)
    requires IsDict(tags) && multiset(tags) == multiset(sorted)
    ensures Distinct(Keys(sorted, TagKey))
  {
    hide Keys, TagKey, IsDict;
    forall i, j | 0 <= i < j < |sorted| ensures TagKey(sorted[i]) != TagKey(sorted[j]) {
      KeysStayApart(tags, sorted, i, j);
      KeysDiffer(sorted[i], sorted[j]);
    }
  }

  lemma KeysDiffer(a: Tag, b: Tag)
    requires a.key != b.key
    ensures TagKey(a) != TagKey(b)
  {
    if EncodeString(a.key) == EncodeString(b.key) {
      EncodeStringInjective(a.key, b.key);
    }
  }

  lemma KeysStayApart(tags: seq<Tag>, sorted: seq<Tag>, i: nat, j: nat)
    requires IsDict(tags) && multiset(tags) == multiset(sorted)
    requires i < j < |sorted|
    ensures sorted[i].key != sorted[j].key
  {
    var a, b := sorted[i], sorted[j];
    assert a in multiset(tags) && b in multiset(tags);
    var p :| 0 <= p < |tags| && tags[p] == a;
    var q :| 0 <= q < |tags| && tags[q] == b;
    if p == q {
      TwiceCounts(sorted, i, j);
      OnceCounts(tags, p);
      assert false;
    }
  }

  lemma OnceCounts(tags: seq<Tag>, p: nat)
    requires IsDict(tags) && p < |tags|
    ensures multiset(tags)[tags[p]] == 1
  {
    var before, after := tags[..p], tags[p + 1..];
    assert tags == before + ([tags[p]] + after);
    forall k | 0 <= k < p ensures before[k] != tags[p] {
      assert tags[k].key != tags[p].key;
    }
    forall k | 0 <= k < |after| ensures after[k] != tags[p] {
      assert tags[p + 1 + k].key != tags[p].key;
    }
  }

  // Whether the length prefix of an m-byte string precedes that of an n-byte one.
  predicate PrefixFirst(m: nat, n: nat) {
    if m < 128 || n < 128 then m < n
    else if m % 128 != n % 128 then m % 128 < n % 128
    else PrefixFirst(m / 128, n / 128)
  }

  lemma {:induction false} PrefixDecides(m: nat, n: nat, a: Bytes, b: Bytes)
    requires m != n
    ensures Before(Uleb(m) + a, Uleb(n) + b) <==> PrefixFirst(m, n)
  {
    var x, y := Uleb(m) + a, Uleb(n) + b;
    if m >= 128 && n >= 128 && m % 128 == n % 128 {
      assert m / 128 != n / 128 by {
        assert m == m / 128 * 128 + m % 128 && n == n / 128 * 128 + n % 128;
      }
      PrefixDecides(m / 128, n / 128, a, b);
      assert x[1..] == Uleb(m / 128) + a && y[1..] == Uleb(n / 128) + b;
    }
  }

  // Keys of different lengths are ordered by their length prefixes alone. A shorter key comes
  // first whenever it has fewer than 128 bytes; past that the low seven bits of the length lead.
  lemma KeyOrder(a: Tag, b: Tag)
    requires |a.key| != |b.key|
    ensures Before(TagKey(a), TagKey(b)) <==> PrefixFirst(|a.key|, |b.key|)
    ensures |a.key| < |b.key| && |a.key| < 128 ==> Before(TagKey(a), TagKey(b))
    ensures |a.key| < |b.key| < 128 * 128 ==>
              (Before(TagKey(a), TagKey(b)) <==> |a.key| < 128 || |a.key| % 128 <= |b.key| % 128)
  {
    PrefixDecides(|a.key|, |b.key|, a.key, b.key);
    if 128 <= |a.key| < |b.key| < 128 * 128 && |a.key| % 128 == |b.key| % 128 {
      assert |a.key| / 128 < 128 && |b.key| / 128 < 128;
      assert |a.key| == |a.key| / 128 * 128 + |a.key| % 128;
      assert |b.key| == |b.key| / 128 * 128 + |b.key| % 128;
    }
  }

  lemma SortOfTwo(first: Tag, second: Tag)
    requires !Before(TagKey(first), TagKey(second))
    ensures SortedTagEntries([first, second]) == [second, first]
  {
    hide Before, TagKey;
    assert [first, second][1..] == [second] && [second][1..] == [];
    assert SortBy([second], TagKey) == Insert(second, [], TagKey) == [second];
    assert Insert(first, [second], TagKey) == [second] + Insert(first, [], TagKey);
  }

  // A 256-byte key is stored ahead of a 129-byte one.
  lemma LongerKeyFirst(long: Tag, short: Tag)
    requires |long.key| == 256 && |short.key| == 129
    ensures SortedTagEntries([short, long]) == [long, short]
  {
    KeyOrder(long, short);
    KeyOrder(short, long);
    hide *;
    SortOfTwo(short, long);
  }

  function EncodeTag(tag: Tag): Bytes {
    EncodeString(tag.key) + EncodeString(tag.value)
  }

  function EncodeTags(tags: seq<Tag>): (r: Bytes)
    ensures |r| >= 1
  {
    EncodeVector(tags, EncodeTag)
  }

  function SerializeTags(tags: seq<Tag>): (r: Bytes)
    ensures |r| >= 1
  {
    EncodeTags(SortedTagEntries(tags))
  }

  function ReadTag(bs: Bytes): Parse<Tag> {
    var (key, rest) :- ReadString(bs);
    var (value, rest) :- ReadString(rest);
    Parsed(Tag(key, value), rest)
  }

  function ReadTags(bs: Bytes): Parse<seq<Tag>> {
    ReadVector(bs, ReadTag)
  }

  lemma TagInverts(tag: Tag, rest: Bytes)
    ensures ReadTag(EncodeTag(tag) + rest) == Parsed(tag, rest)
  {
    assert EncodeTag(tag) + rest == EncodeString(tag.key) + (EncodeString(tag.value) + rest);
    StringInverts(tag.key, EncodeString(tag.value) + rest);
    StringInverts(tag.value, rest);
  }

  lemma TagsInvert(tags: seq<Tag>, rest: Bytes)
    ensures ReadTags(EncodeTags(tags) + rest) == Parsed(tags, rest)
  {
    forall tag, tail ensures ReadTag(EncodeTag(tag) + tail) == Parsed(tag, tail) {
      TagInverts(tag, tail);
    }
    VectorInverts(tags, rest, EncodeTag, ReadTag);
  }

  // ----- A packed blob's inline metadata -----

  datatype MetadataError = IdentifierTooLong | PayloadTooLarge | TagsTooLong

  function TagSection(patch: PatchInput): Bytes
    requires patch.tags != [] ==> |SerializeTags(patch.tags)| < U16_LIMIT
  {
    if patch.tags == [] then [] else U16(|SerializeTags(patch.tags)|) + SerializeTags(patch.tags)
  }

  // Bytes the identifier section, the tag section and the contents take.
  function PayloadLength(patch: PatchInput): nat {
    BLOB_IDENTIFIER_SIZE_BYTES_LENGTH + |EncodeString(patch.identifier)|
    + (if patch.tags == [] then 0 else TAGS_SIZE_BYTES_LENGTH + |SerializeTags(patch.tags)|)
    + |patch.contents|
  }

  function MetadataProblem(patch: PatchInput): Option<MetadataError> {
    if |EncodeString(patch.identifier)| >= MAX_BLOB_IDENTIFIER_BYTES_LENGTH then Some(IdentifierTooLong)
    else if PayloadLength(patch) > MAX_SERIALIZED_BLOB_SIZE then Some(PayloadTooLarge)
    else if patch.tags != [] && |SerializeTags(patch.tags)| >= U16_LIMIT then Some(TagsTooLong)
    else None
  }

  // The bytes that precede a patch's contents in its columns.
  function Metadata(patch: PatchInput): Bytes
    requires MetadataProblem(patch).None?
  {
    var identifier := EncodeString(patch.identifier);
    [QUILT_VERSION_BYTE] + U32(PayloadLength(patch))
    + [Mask(patch)]
    + U16(|identifier|) + identifier
    + TagSection(patch)
  }

  /** Builds one packed blob's inline metadata. The tag length is the one field the source packs
      without checking it first: its overflow is an error of a different kind from the other two. */
  method BlobMetadata(patch: PatchInput) returns (r: Result<Bytes, MetadataError>)
    ensures r.Err? <==> MetadataProblem(patch).Some?
    ensures r.Err? ==> MetadataProblem(patch) == Some(r.error)
    ensures r.Ok? ==> r.value == Metadata(patch)
  {
    var identifierBytes := EncodeString(patch.identifier);
    if |identifierBytes| >= MAX_BLOB_IDENTIFIER_BYTES_LENGTH {
      return Err(IdentifierTooLong);
    }
    var tagBytes := if patch.tags != [] then Some(SerializeTags(patch.tags)) else None;
    var metadataSize := QUILT_PATCH_BLOB_HEADER_SIZE + BLOB_IDENTIFIER_SIZE_BYTES_LENGTH + |identifierBytes|;
    var mask: byte := 0;
    if tagBytes.Some? {
      metadataSize := metadataSize + TAGS_SIZE_BYTES_LENGTH + |tagBytes.value|;
      mask := HAS_TAGS_FLAG;
    }
    var payloadLength := metadataSize - QUILT_PATCH_BLOB_HEADER_SIZE + |patch.contents|;
    assert payloadLength == PayloadLength(patch);
    if payloadLength > MAX_SERIALIZED_BLOB_SIZE {
      return Err(PayloadTooLarge);
    }
    var buffer: Bytes := [QUILT_VERSION_BYTE];
    buffer := buffer + U32(payloadLength);
    buffer := buffer + [mask];
    buffer := buffer + U16(|identifierBytes|);
    buffer := buffer + identifierBytes;
    if tagBytes.Some? {
      if |tagBytes.value| >= U16_LIMIT {
        return Err(TagsTooLong);
      }
      buffer := buffer + (U16(|tagBytes.value|) + tagBytes.value);
    }
    assert patch.tags == [] ==> buffer + TagSection(patch) == buffer;
    return Ok(buffer);
  }

  // ----- Reading a packed blob back -----

  function ReadWhole<T>(parse: Parse<T>): Parse<T> {
    if parse.Parsed? && parse.rest != [] then Malformed else parse
  }

  function ReadTagSection(bs: Bytes, mask: byte): Parse<seq<Tag>> {
    if mask % 2 == 0 then Parsed([], bs)
    else
      var (length, rest) :- ReadU16(bs);
      var (run, rest) :- ReadRun(rest, length);
      var (tags, _) :- ReadWhole(ReadTags(run));
      Parsed(tags, rest)
  }

  // Identifier, tags and contents, to the end of the payload.
  function ReadPayload(payload: Bytes, mask: byte): Parse<PatchInput> {
    var (identifierLength, body) :- ReadU16(payload);
    var (identifierBytes, body) :- ReadRun(body, identifierLength);
    var (identifier, _) :- ReadWhole(ReadString(identifierBytes));
    var (tags, contents) :- ReadTagSection(body, mask);
    Parsed(PatchInput(identifier, contents, tags), [])
  }

  // A header, then a payload of the length it gives.
  function ReadPatch(bs: Bytes): Parse<PatchInput> {
    var (version, afterVersion) :- ReadU8(bs);
    if version != QUILT_VERSION_BYTE then Malformed else
    var (length, afterLength) :- ReadU32(afterVersion);
    var (mask, afterHeader) :- ReadU8(afterLength);
    var (payload, rest) :- ReadRun(afterHeader, length);
    var (patch, _) :- ReadPayload(payload, mask);
    Parsed(patch, rest)
  }

  // What a reader can hope to recover of a patch: everything but its tags' insertion order.
  function Canonical(patch: PatchInput): PatchInput {
    patch.(tags := SortedTagEntries(patch.tags))
  }

  lemma TagSectionInverts(patch: PatchInput, mask: byte, rest: Bytes)
    requires MetadataProblem(patch).None?
    requires mask == if patch.tags == [] then 0 else HAS_TAGS_FLAG
    ensures ReadTagSection(TagSection(patch) + rest, mask) == Parsed(SortedTagEntries(patch.tags), rest)
  {
    if patch.tags == [] {
      assert [] + rest == rest;
    } else {
      var run := SerializeTags(patch.tags);
      assert U16(|run|) + run + rest == U16(|run|) + (run + rest);
      U16Inverts(|run|, run + rest);
      RunInverts(run, rest);
      TagsInvert(SortedTagEntries(patch.tags), []);
      assert run + [] == run;
    }
  }

  function Mask(patch: PatchInput): byte {
    if patch.tags == [] then 0 else HAS_TAGS_FLAG
  }

  lemma PayloadInverts(patch: PatchInput)
    requires MetadataProblem(patch).None?
    ensures var identifier := EncodeString(patch.identifier);
            var payload := U16(|identifier|) + (identifier + (TagSection(patch) + patch.contents));
            && |payload| == PayloadLength(patch)
            && ReadPayload(payload, Mask(patch)) == Parsed(Canonical(patch), [])
  {
    var identifier := EncodeString(patch.identifier);
    var afterIdentifier := TagSection(patch) + patch.contents;
    U16Inverts(|identifier|, identifier + afterIdentifier);
    RunInverts(identifier, afterIdentifier);
    StringInverts(patch.identifier, []);
    assert identifier + [] == identifier;
    TagSectionInverts(patch, Mask(patch), patch.contents);
  }

  lemma HeaderInverts(payload: Bytes, mask: byte, padding: Bytes)
    requires |payload| < U32_LIMIT
    ensures var stream := [QUILT_VERSION_BYTE] + (U32(|payload|) + ([mask] + (payload + padding)));
            ReadPatch(stream) == match ReadPayload(payload, mask)
                                 case Malformed => Malformed
                                 case Parsed(patch, _) => Parsed(patch, padding)
  {
    var afterLength := [mask] + (payload + padding);
    var afterVersion := U32(|payload|) + afterLength;
    assert ([QUILT_VERSION_BYTE] + afterVersion)[1..] == afterVersion;
    U32Inverts(|payload|, afterLength);
    assert afterLength[1..] == payload + padding;
    RunInverts(payload, padding);
  }

  // Parsing a stored stream gives the patch back, whatever follows it in its last column.
  lemma PatchInverts(patch: PatchInput, padding: Bytes)
    requires MetadataProblem(patch).None?
    ensures ReadPatch(Metadata(patch) + patch.contents + padding) == Parsed(Canonical(patch), padding)
  {
    var identifier := EncodeString(patch.identifier);
    var payload := U16(|identifier|) + (identifier + (TagSection(patch) + patch.contents));
    PayloadInverts(patch);
    HeaderInverts(payload, Mask(patch), padding);
    StreamShape([QUILT_VERSION_BYTE], U32(|payload|), [Mask(patch)], U16(|identifier|), identifier,
                TagSection(patch), patch.contents, padding);
  }

  lemma StreamShape(a: Bytes, b: Bytes, c: Bytes, d: Bytes, e: Bytes, f: Bytes, g: Bytes, h: Bytes)
    ensures a + b + c + d + e + f + g + h == a + (b + (c + ((d + (e + (f + g))) + h)))
  {
  }

  // ----- The index -----

  // An entry takes the layout's end column, identifier and sorted tags; the start is not stored.
  function EntryFromLayout(layout: PatchLayout): IndexEntry {
    IndexEntry(layout.endIndex, layout.identifier, SortedTagEntries(layout.tags))
  }

  function EncodeEntry(entry: IndexEntry): Bytes
    requires entry.endIndex < U16_LIMIT
  {
    U16(entry.endIndex) + EncodeString(entry.identifier) + EncodeTags(entry.tags)
  }

  ghost predicate EndsFit(entries: seq<IndexEntry>) {
    forall i :: 0 <= i < |entries| ==> entries[i].endIndex < U16_LIMIT
  }

  function EncodeIndex(entries: seq<IndexEntry>): Bytes
    requires EndsFit(entries)
  {
    EncodeVector(entries, EncodeEntry)
  }

  function ReadEntry(bs: Bytes): Parse<IndexEntry> {
    var (end, afterEnd) :- ReadU16(bs);
    var (identifier, afterIdentifier) :- ReadString(afterEnd);
    var (tags, rest) :- ReadTags(afterIdentifier);
    Parsed(IndexEntry(end, identifier, tags), rest)
  }

  function ReadIndex(bs: Bytes): Parse<seq<IndexEntry>> {
    ReadVector(bs, ReadEntry)
  }

  lemma EntryInverts(entry: IndexEntry, rest: Bytes)
    requires entry.endIndex < U16_LIMIT
    ensures ReadEntry(EncodeEntry(entry) + rest) == Parsed(entry, rest)
  {
    var afterIdentifier := EncodeTags(entry.tags) + rest;
    var afterEnd := EncodeString(entry.identifier) + afterIdentifier;
    assert EncodeEntry(entry) + rest == U16(entry.endIndex) + afterEnd;
    U16Inverts(entry.endIndex, afterEnd);
    StringInverts(entry.identifier, afterIdentifier);
    TagsInvert(entry.tags, rest);
  }

  lemma IndexInverts(entries: seq<IndexEntry>, rest: Bytes)
    requires EndsFit(entries)
    ensures ReadIndex(EncodeIndex(entries) + rest) == Parsed(entries, rest)
  {
    forall entry: IndexEntry, tail | entry.endIndex < U16_LIMIT
      ensures ReadEntry(EncodeEntry(entry) + tail) == Parsed(entry, tail)
    {
      EntryInverts(entry, tail);
    }
    VectorInverts(entries, rest, EncodeEntry, ReadEntry);
  }

  // The end columns are fixed-width, so an index with placeholders for them has its final size.
  lemma PlaceholderSize(a: seq<IndexEntry>, b: seq<IndexEntry>)
    requires EndsFit(a) && EndsFit(b) && |a| == |b|
    requires forall i :: 0 <= i < |a| ==> a[i].identifier == b[i].identifier && a[i].tags == b[i].tags
    ensures |EncodeIndex(a)| == |EncodeIndex(b)|
  {
    RunSize(a, b, EncodeEntry);
  }
}
