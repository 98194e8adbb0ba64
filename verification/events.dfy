/** Finding the object a Walrus event names: the hand-written parser of the BCS event envelope, and the
    positional layouts of the payloads. */
module Events {
  import opened Common
  import Bcs

  const MAX_ULEB_BYTES := 6
  const ADDRESS_LENGTH := 32

  // ----- Bounded LEB128 -----

  // The general LEB128 reading at an offset, if it takes no more than six bytes.
  function UlebAt(raw: Bytes, offset: nat): (r: Option<(nat, nat)>)
    ensures r.Some? ==> offset < r.value.1 <= |raw|
  {
    if offset > |raw| then None
    else match Bcs.ReadUleb(raw[offset..])
      case Malformed => None
      case Parsed(value, rest) =>
        if |raw| - offset - |rest| <= MAX_ULEB_BYTES then Some((value, |raw| - |rest|)) else None
  }

  function Power(k: nat): nat { if k == 0 then 1 else 128 * Power(k - 1) }

  // What reading the remaining bytes makes of the whole, when k bytes so far gave this value.
  function Lifted(value: nat, k: nat, parse: Bcs.Parse<nat>): Bcs.Parse<nat> {
    match parse
    case Malformed => Bcs.Malformed
    case Parsed(high, rest) => Bcs.Parsed(value + Power(k) * high, rest)
  }

  lemma LiftStep(bs: Bytes, value: nat, k: nat)
    requires bs != [] && bs[0] >= 128
    ensures Lifted(value, k, Bcs.ReadUleb(bs)) == Lifted(value + bs[0] % 128 * Power(k), k + 1, Bcs.ReadUleb(bs[1..]))
  {
    assert bs[0] % 128 == bs[0] - 128;
    match Bcs.ReadUleb(bs[1..]) {
      case Malformed =>
      case Parsed(high, _) => Regroup(Power(k), high, bs[0] - 128);
    }
  }

  lemma LiftEnd(bs: Bytes, value: nat, k: nat)
    requires bs != [] && bs[0] < 128
    ensures Lifted(value, k, Bcs.ReadUleb(bs)) == Bcs.Parsed(value + bs[0] % 128 * Power(k), bs[1..])
  {
  }

  lemma BitsFit(value: nat, bits: nat, power: nat)
    requires value < power && bits < 128
    ensures value + bits * power < 128 * power
  {
    assert (bits + 1) * power <= 128 * power;
  }

  lemma Regroup(p: nat, high: nat, low: nat)
    ensures p * (high * 128 + low) == low * p + 128 * p * high
  {
  }

  // After k continuation bytes from the offset, the value so far is all that reading has left behind.
  ghost predicate Midway(raw: Bytes, offset: nat, k: nat, value: nat) {
    && k <= MAX_ULEB_BYTES && value < Power(k)
    && (k > 0 ==> offset + k <= |raw|)
    && (offset + k <= |raw| ==> Bcs.ReadUleb(raw[offset..]) == Lifted(value, k, Bcs.ReadUleb(raw[offset + k..])))
  }

  lemma MidwayStarts(raw: Bytes, offset: nat)
    ensures Midway(raw, offset, 0, 0)
  {
  }

  lemma MidwayStep(raw: Bytes, offset: nat, k: nat, value: nat)
    requires Midway(raw, offset, k, value) && k < MAX_ULEB_BYTES && offset + k < |raw|
    ensures var more := value + raw[offset + k] % 128 * Power(k);
            if raw[offset + k] < 128 then UlebAt(raw, offset) == Some((more, offset + k + 1))
            else Midway(raw, offset, k + 1, more)
  {
    var rest := raw[offset + k..];
    assert rest[0] == raw[offset + k] && rest[1..] == raw[offset + k + 1..];
    assert Power(k + 1) == 128 * Power(k);
    hide Lifted, Bcs.ReadUleb, Power;
    if rest[0] < 128 {
      LiftEnd(rest, value, k);
    } else {
      assert value + rest[0] % 128 * Power(k) < Power(k + 1) by { BitsFit(value, rest[0] % 128, Power(k)); }
      LiftStep(rest, value, k);
    }
  }

  lemma MidwayEnds(raw: Bytes, offset: nat, k: nat, value: nat)
    requires Midway(raw, offset, k, value) && (k == MAX_ULEB_BYTES || offset + k >= |raw|)
    ensures UlebAt(raw, offset).None?
  {
  }

  /** Reads seven bits a byte, least significant first, giving up after six bytes. The shifted bits never
      overlap those already read, so adding them is the same as combining them bit by bit. */
  method ReadUleb(raw: Bytes, offset: nat) returns (r: Option<(nat, nat)>)
    ensures r == UlebAt(raw, offset)
  {
    hide Midway, UlebAt, Power, Shifted;
    var value: nat, shift: nat, index: nat := 0, 0, offset;
    ghost var k: nat := 0;
    MidwayStarts(raw, offset);
    while index < |raw|
      invariant index == offset + k && shift == 7 * k && k < MAX_ULEB_BYTES && Midway(raw, offset, k, value)
      decreases |raw| - index
    {
      var b := raw[index];
      MidwayStep(raw, offset, k, value);
      ShiftedPower(k);
      value := value + b % 128 * Shifted(shift);
      index := index + 1;
      if b < 128 {
        return Some((value, index));
      }
      shift := shift + 7;
      k := k + 1;
      if shift > 35 {
        MidwayEnds(raw, offset, k, value);
        return None;
      }
    }
    MidwayEnds(raw, offset, k, value);
    return None;
  }

  // 1 << shift.
  function Shifted(shift: nat): nat { if shift == 0 then 1 else 2 * Shifted(shift - 1) }

  lemma {:induction false} ShiftedPower(k: nat)
    ensures Shifted(7 * k) == Power(k)
  {
    if k > 0 {
      ShiftedPower(k - 1);
      SevenBits(7 * k - 7);
    }
  }

  lemma SevenBits(shift: nat)
    ensures Shifted(shift + 7) == 128 * Shifted(shift)
  {
    assert Shifted(shift + 2) == 4 * Shifted(shift);
    assert Shifted(shift + 4) == 4 * Shifted(shift + 2);
    assert Shifted(shift + 6) == 4 * Shifted(shift + 4);
  }

  // A length in at most six bytes, nothing left over. More bytes than needed are accepted.
  ghost predicate IsLength(run: Bytes, n: nat) {
    |run| <= MAX_ULEB_BYTES && Bcs.ReadUleb(run) == Bcs.Parsed(n, [])
  }

  lemma {:induction false} RunReads(run: Bytes, n: nat, rest: Bytes)
    requires Bcs.ReadUleb(run) == Bcs.Parsed(n, [])
    ensures Bcs.ReadUleb(run + rest) == Bcs.Parsed(n, rest)
    decreases |run|
  {
    assert (run + rest)[1..] == run[1..] + rest;
    if run[0] < 128 {
      assert run[1..] == [];
    } else {
      RunReads(run[1..], n / 128, rest);
    }
  }

  lemma {:induction false} ReadSplits(bs: Bytes)
    ensures match Bcs.ReadUleb(bs)
            case Malformed => true
            case Parsed(n, rest) =>
              |rest| <= |bs| && bs[|bs| - |rest|..] == rest
              && Bcs.ReadUleb(bs[..|bs| - |rest|]) == Bcs.Parsed(n, [])
    decreases |bs|
  {
    if bs != [] && bs[0] >= 128 {
      ReadSplits(bs[1..]);
      match Bcs.ReadUleb(bs[1..]) {
        case Malformed =>
        case Parsed(_, rest) => assert bs[..|bs| - |rest|][1..] == bs[1..][..|bs| - 1 - |rest|];
      }
    }
  }

  // A length written at an offset is read there, whatever surrounds it.
  lemma UlebReads(before: Bytes, run: Bytes, n: nat, rest: Bytes)
    requires IsLength(run, n)
    ensures UlebAt(before + run + rest, |before|) == Some((n, |before| + |run|))
  {
    assert (before + run + rest)[|before|..] == run + rest;
    RunReads(run, n, rest);
  }

  // What is read at an offset is a length written there.
  lemma UlebWritten(raw: Bytes, offset: nat)
    requires UlebAt(raw, offset).Some?
    ensures var (n, next) := UlebAt(raw, offset).value; offset < next <= |raw| && IsLength(raw[offset..next], n)
  {
    ReadSplits(raw[offset..]);
    var (n, next) := UlebAt(raw, offset).value;
    assert raw[offset..][..next - offset] == raw[offset..next];
  }

  /** LEB128 encodings of at most six bytes are exactly those of the numbers below 128 to the sixth, so
      these are the lengths the parser reads back from a canonical encoder. */
  lemma CanonicalLength(n: nat)
    ensures IsLength(Bcs.Uleb(n), n) <==> n < Power(MAX_ULEB_BYTES)
  {
    Bcs.UlebInverts(n, []);
    assert Bcs.Uleb(n) + [] == Bcs.Uleb(n);
    UlebLength(n, MAX_ULEB_BYTES);
  }

  lemma {:induction false} UlebLength(n: nat, k: nat)
    requires k >= 1
    ensures |Bcs.Uleb(n)| <= k <==> n < Power(k)
    decreases k
  {
    if k == 1 {
      assert Power(1) == 128 * Power(0);
    } else if n >= 128 {
      UlebLength(n / 128, k - 1);
      assert n < 128 * Power(k - 1) <==> n / 128 < Power(k - 1);
    } else {
      UlebLength(n, k - 1);
      assert Power(k - 1) >= 1 by { PowerPositive(k - 1); }
    }
  }

  lemma PowerPositive(k: nat)
    ensures Power(k) >= 1
  {
  }

  // ----- The envelope -----

  function SkipUlebBytes(raw: Bytes, offset: nat): Option<nat> {
    match UlebAt(raw, offset)
    case None => None
    case Some((length, next)) => if next + length <= |raw| then Some(next + length) else None
  }

  // Everything an event wraps around its payload, as written: each length in its own bytes.
  datatype Envelope = Envelope(package: Bytes, moduleLength: Bytes, moduleName: Bytes, sender: Bytes, address: Bytes,
                               structModuleLength: Bytes, structModule: Bytes, nameLength: Bytes, name: Bytes,
                               typeParameterCount: Bytes, payloadLength: Bytes)

  ghost predicate WellFormed(e: Envelope, payload: Bytes) {
    && |e.package| == |e.sender| == |e.address| == ADDRESS_LENGTH
    && IsLength(e.moduleLength, |e.moduleName|) && IsLength(e.structModuleLength, |e.structModule|)
    && IsLength(e.nameLength, |e.name|) && IsLength(e.typeParameterCount, 0) && IsLength(e.payloadLength, |payload|)
  }

  function ToModule(e: Envelope): Bytes { e.package + e.moduleLength + e.moduleName }

  function ToStructModule(e: Envelope): Bytes {
    ToModule(e) + (e.sender + e.address) + e.structModuleLength + e.structModule
  }

  function ToName(e: Envelope): Bytes { ToStructModule(e) + e.nameLength + e.name }

  function Wrap(e: Envelope, payload: Bytes): Bytes {
    ToName(e) + e.typeParameterCount + e.payloadLength + payload
  }

  // The offset of the type-parameter count: past the addresses and the three names.
  function AfterNames(raw: Bytes): Option<nat> {
    if ADDRESS_LENGTH > |raw| then None
    else match SkipUlebBytes(raw, ADDRESS_LENGTH)
      case None => None
      case Some(o) =>
        if o + 2 * ADDRESS_LENGTH > |raw| then None
        else match SkipUlebBytes(raw, o + 2 * ADDRESS_LENGTH)
          case None => None
          case Some(p) => SkipUlebBytes(raw, p)
  }

  function Payload(raw: Bytes): Option<Bytes> {
    match AfterNames(raw)
    case None => None
    case Some(o) =>
      match UlebAt(raw, o)
      case None => None
      case Some((count, p)) =>
        if count != 0 then None
        else match UlebAt(raw, p)
          case None => None
          case Some((length, q)) => if q + length == |raw| then Some(raw[q..]) else None
  }

  method SkipNames(raw: Bytes) returns (r: Option<nat>)
    ensures r == AfterNames(raw)
  {
    var offset := 32;
    if offset > |raw| {
      return None;
    }
    var skipped := SkipUlebBytes(raw, offset);
    if skipped.None? {
      return None;
    }
    offset := skipped.value + 32 + 32;
    if offset > |raw| {
      return None;
    }
    ghost var start: nat := offset;
    assert SkipUlebBytes(raw, ADDRESS_LENGTH) == Some(start - 2 * ADDRESS_LENGTH) && start <= |raw|;
    hide SkipUlebBytes;
    for i := 0 to 2
      invariant i == 0 ==> offset == start
      invariant i == 1 ==> SkipUlebBytes(raw, start) == Some(offset)
      invariant i == 2 ==> AfterNames(raw) == Some(offset)
    {
      skipped := SkipUlebBytes(raw, offset);
      if skipped.None? {
        return None;
      }
      offset := skipped.value;
    }
    return Some(offset);
  }

  /** Unwraps the event envelope, checking every hop against the buffer. */
  method EventPayload(raw: Bytes) returns (r: Option<Bytes>)
    ensures r == Payload(raw)
  {
    hide AfterNames, UlebAt;
    var offset := SkipNames(raw);
    if offset.None? {
      return None;
    }
    var read := ReadUleb(raw, offset.value);
    if read.None? {
      return None;
    }
    var (count, afterCount) := read.value;
    if count != 0 {
      return None;
    }
    read := ReadUleb(raw, afterCount);
    if read.None? {
      return None;
    }
    var (length, begin) := read.value;
    if begin + length != |raw| {
      return None;
    }
    assert raw[begin..begin + length] == raw[begin..];
    return Some(raw[begin..begin + length]);
  }

  lemma SkipReads(before: Bytes, run: Bytes, text: Bytes, rest: Bytes)
    requires IsLength(run, |text|)
    ensures SkipUlebBytes(before + run + text + rest, |before|) == Some(|before| + |run| + |text|)
  {
    assert before + run + text + rest == before + run + (text + rest);
    UlebReads(before, run, |text|, text + rest);
  }

  lemma Regrouped(a: Bytes, b: Bytes, c: Bytes, d: Bytes)
    ensures a + b + c + d == a + (b + c + d)
  {
  }

  lemma NamesAhead(e: Envelope, tail: Bytes)
    requires |e.package| == |e.sender| == |e.address| == ADDRESS_LENGTH
    requires IsLength(e.moduleLength, |e.moduleName|) && IsLength(e.structModuleLength, |e.structModule|)
    requires IsLength(e.nameLength, |e.name|)
    ensures AfterNames(ToName(e) + tail) == Some(|ToName(e)|)
  {
    var afterModule := e.nameLength + e.name + tail;
    hide SkipUlebBytes, IsLength, ToName, ToStructModule, ToModule;
    NameSplit(e, tail);
    NameRead(e, tail);
    StructModuleRead(e, afterModule);
    ModuleRead(e, afterModule);
  }

  lemma NameSplit(e: Envelope, tail: Bytes)
    ensures ToName(e) + tail == ToStructModule(e) + (e.nameLength + e.name + tail)
  {
    hide ToStructModule;
    Regrouped(ToStructModule(e), e.nameLength, e.name, tail);
  }

  lemma NamesRead(e: Envelope, payload: Bytes)
    requires WellFormed(e, payload)
    ensures AfterNames(Wrap(e, payload)) == Some(|ToName(e)|)
  {
    Regrouped(ToName(e), e.typeParameterCount, e.payloadLength, payload);
    NamesAhead(e, e.typeParameterCount + e.payloadLength + payload);
  }

  lemma NameRead(e: Envelope, rest: Bytes)
    requires IsLength(e.nameLength, |e.name|)
    ensures SkipUlebBytes(ToName(e) + rest, |ToStructModule(e)|) == Some(|ToName(e)|)
  {
    SkipReads(ToStructModule(e), e.nameLength, e.name, rest);
  }

  lemma StructModuleRead(e: Envelope, rest: Bytes)
    requires IsLength(e.structModuleLength, |e.structModule|) && |e.sender| == |e.address| == ADDRESS_LENGTH
    ensures SkipUlebBytes(ToStructModule(e) + rest, |ToModule(e)| + 2 * ADDRESS_LENGTH) == Some(|ToStructModule(e)|)
  {
    SkipReads(ToModule(e) + (e.sender + e.address), e.structModuleLength, e.structModule, rest);
  }

  lemma ModuleRead(e: Envelope, afterModule: Bytes)
    requires IsLength(e.moduleLength, |e.moduleName|) && |e.package| == |e.sender| == |e.address| == ADDRESS_LENGTH
    ensures SkipUlebBytes(ToStructModule(e) + afterModule, ADDRESS_LENGTH) == Some(|ToModule(e)|)
    ensures |ToModule(e)| + 2 * ADDRESS_LENGTH <= |ToStructModule(e)|
  {
    var both := e.sender + e.address;
    var mid := e.structModuleLength + e.structModule + afterModule;
    var rest := both + mid;
    SkipReads(e.package, e.moduleLength, e.moduleName, rest);
    hide SkipUlebBytes, IsLength, ToModule;
    Regrouped(ToModule(e) + both, e.structModuleLength, e.structModule, afterModule);
    assert ToModule(e) + both + mid == ToModule(e) + rest;
  }

  lemma TailRead(before: Bytes, count: Bytes, length: Bytes, payload: Bytes)
    requires IsLength(count, 0) && IsLength(length, |payload|)
    ensures var raw := before + count + length + payload;
            && UlebAt(raw, |before|) == Some((0, |before + count|))
            && UlebAt(raw, |before + count|) == Some((|payload|, |before + count + length|))
            && |before + count + length| + |payload| == |raw| && raw[|before + count + length|..] == payload
  {
    hide IsLength, UlebAt;
    UlebReads(before + count, length, |payload|, payload);
    assert before + count + length + payload == before + count + (length + payload);
    UlebReads(before, count, 0, length + payload);
  }

  /** Unwrapping inverts wrapping, for every non-generic event whose lengths take at most six bytes. */
  lemma PayloadInverts(e: Envelope, payload: Bytes)
    requires WellFormed(e, payload)
    ensures Payload(Wrap(e, payload)) == Some(payload)
  {
    NamesRead(e, payload);
    TailRead(ToName(e), e.typeParameterCount, e.payloadLength, payload);
    hide AfterNames, UlebAt, IsLength, ToName;
  }

  /** A generic event is refused, whatever follows its type-parameter count. */
  lemma GenericRefused(e: Envelope, count: nat, rest: Bytes)
    requires |e.package| == |e.sender| == |e.address| == ADDRESS_LENGTH
    requires IsLength(e.moduleLength, |e.moduleName|) && IsLength(e.structModuleLength, |e.structModule|)
    requires IsLength(e.nameLength, |e.name|) && IsLength(e.typeParameterCount, count) && count > 0
    ensures Payload(ToName(e) + e.typeParameterCount + rest).None?
  {
    var plain := e.(typeParameterCount := [], payloadLength := []);
    var tail := e.typeParameterCount + rest;
    assert ToName(plain) == ToName(e);
    NamesAhead(e, tail);
    assert ToName(e) + e.typeParameterCount + rest == ToName(e) + tail;
    UlebReads(ToName(e), e.typeParameterCount, count, rest);
    hide AfterNames, UlebAt, IsLength, ToName;
  }

  lemma SkipWritten(raw: Bytes, offset: nat) returns (next: nat)
    requires SkipUlebBytes(raw, offset).Some?
    ensures LengthAt(raw, offset, next, SkipUlebBytes(raw, offset).value)
  {
    UlebWritten(raw, offset);
    next := UlebAt(raw, offset).value.1;
  }

  // Between a and b stands the length of what runs from b to c.
  ghost predicate LengthAt(raw: Bytes, a: nat, b: nat, c: nat) {
    a <= b <= c <= |raw| && IsLength(raw[a..b], c - b)
  }

  lemma Slices(raw: Bytes, a: nat, b: nat, c: nat)
    requires a <= b <= c <= |raw|
    ensures raw[..a] + raw[a..b] + raw[b..c] == raw[..c]
  {
  }

  // Where the parts of an envelope end: the three names with their lengths, the count, the last length.
  datatype Cuts = Cuts(k: nat, o: nat, l: nat, p: nat, m: nat, q: nat, c: nat, n: nat)

  predicate InOrder(raw: Bytes, t: Cuts) {
    32 <= t.k <= t.o && t.o + 64 <= t.l <= t.p <= t.m <= t.q <= t.c <= t.n <= |raw|
  }

  function CutAt(raw: Bytes, t: Cuts): Envelope
    requires InOrder(raw, t)
  {
    Envelope(raw[..32], raw[32..t.k], raw[t.k..t.o], raw[t.o..t.o + 32], raw[t.o + 32..t.o + 64], raw[t.o + 64..t.l],
             raw[t.l..t.p], raw[t.p..t.m], raw[t.m..t.q], raw[t.q..t.c], raw[t.c..t.n])
  }

  lemma CutRejoins(raw: Bytes, t: Cuts)
    requires InOrder(raw, t)
    ensures Wrap(CutAt(raw, t), raw[t.n..]) == raw
  {
    var e := CutAt(raw, t);
    assert ToModule(e) == raw[..t.o] by { Slices(raw, 32, t.k, t.o); }
    assert e.sender + e.address == raw[t.o..t.o + 64];
    assert raw[..t.o] + raw[t.o..t.o + 64] == raw[..t.o + 64];
    assert ToStructModule(e) == raw[..t.p] by { Slices(raw, t.o + 64, t.l, t.p); }
    hide ToModule;
    assert ToName(e) == raw[..t.q] by { Slices(raw, t.p, t.m, t.q); }
    hide ToStructModule;
    Slices(raw, t.q, t.c, t.n);
    assert raw[..t.n] + raw[t.n..] == raw;
  }

  ghost predicate LengthsAt(raw: Bytes, t: Cuts) {
    && LengthAt(raw, 32, t.k, t.o) && LengthAt(raw, t.o + 64, t.l, t.p) && LengthAt(raw, t.p, t.m, t.q)
    && t.q <= t.c && LengthAt(raw, t.c, t.n, |raw|) && IsLength(raw[t.q..t.c], 0)
  }

  lemma CutWellFormed(raw: Bytes, t: Cuts)
    requires LengthsAt(raw, t)
    ensures InOrder(raw, t) && WellFormed(CutAt(raw, t), raw[t.n..])
  {
    hide IsLength;
  }

  lemma NamesWritten(raw: Bytes) returns (k: nat, o: nat, l: nat, p: nat, m: nat)
    requires AfterNames(raw).Some?
    ensures LengthAt(raw, 32, k, o) && LengthAt(raw, o + 64, l, p) && LengthAt(raw, p, m, AfterNames(raw).value)
  {
    k := SkipWritten(raw, 32);
    o := SkipUlebBytes(raw, 32).value;
    l := SkipWritten(raw, o + 64);
    p := SkipUlebBytes(raw, o + 64).value;
    m := SkipWritten(raw, p);
    hide LengthAt, SkipUlebBytes;
  }

  // Where the parts of a buffer that unwraps end.
  lemma NamesThere(raw: Bytes)
    requires Payload(raw).Some?
    ensures AfterNames(raw).Some?
  {
    hide AfterNames, UlebAt;
  }

  lemma Unwrap(raw: Bytes) returns (t: Cuts)
    requires Payload(raw).Some?
    ensures LengthsAt(raw, t) && t.n <= |raw| && Payload(raw).value == raw[t.n..]
  {
    hide *;
    NamesThere(raw);
    var q := AfterNames(raw).value;
    var k, o, l, p, m := NamesWritten(raw);
    var c, n := TailWritten(raw, q);
    t := Cuts(k, o, l, p, m, q, c, n);
    PartsWritten(raw, t);
  }

  lemma PartsWritten(raw: Bytes, t: Cuts)
    requires LengthAt(raw, 32, t.k, t.o) && LengthAt(raw, t.o + 64, t.l, t.p) && LengthAt(raw, t.p, t.m, t.q)
    requires t.q <= t.c <= |raw| && LengthAt(raw, t.c, t.n, |raw|) && IsLength(raw[t.q..t.c], 0)
    ensures LengthsAt(raw, t)
  {
  }

  lemma TailWritten(raw: Bytes, q: nat) returns (c: nat, n: nat)
    requires Payload(raw).Some? && AfterNames(raw) == Some(q)
    ensures q <= c <= |raw| && n <= |raw| && LengthAt(raw, c, n, |raw|) && IsLength(raw[q..c], 0)
    ensures Payload(raw).value == raw[n..]
  {
    hide AfterNames, IsLength, UlebAt;
    UlebWritten(raw, q);
    c := UlebAt(raw, q).value.1;
    UlebWritten(raw, c);
    n := UlebAt(raw, c).value.1;
  }

  /** A payload is returned exactly for the buffers that are an envelope around it, so it is always the
      buffer's exact tail; over-long but bounded length encodings are accepted. */
  lemma PayloadExact(raw: Bytes, payload: Bytes)
    ensures Payload(raw) == Some(payload) <==> exists e :: WellFormed(e, payload) && raw == Wrap(e, payload)
  {
    if Payload(raw) == Some(payload) {
      var t := Unwrap(raw);
      CutWellFormed(raw, t);
      CutRejoins(raw, t);
    }
    if e :| WellFormed(e, payload) && raw == Wrap(e, payload) {
      PayloadInverts(e, payload);
    }
  }

  // ----- The object an event names -----

  // A field of a Move struct and its size in bytes; none of these fields carries a length.
  type Layout = seq<(string, nat)>

  function EventLayout(structName: string): Option<Layout> {
    if structName == "BlobRegistered" then
      Some([("epoch", 4), ("blob_id", 32), ("size", 8), ("encoding_type", 1), ("end_epoch", 4), ("deletable", 1),
            ("object_id", 32)])
    else if structName == "BlobCertified" then
      Some([("epoch", 4), ("blob_id", 32), ("end_epoch", 4), ("deletable", 1), ("object_id", 32), ("is_extension", 1)])
    else if structName == "BlobDeleted" then
      Some([("epoch", 4), ("blob_id", 32), ("end_epoch", 4), ("object_id", 32), ("was_certified", 1)])
    else if structName == "InvalidBlobID" then Some([("epoch", 4), ("blob_id", 32)])
    else None
  }

  function Size(layout: Layout): nat {
    if layout == [] then 0 else layout[0].1 + Size(layout[1..])
  }

  // Where a field starts, if the layout has it.
  function FieldOffset(layout: Layout, name: string): Option<nat> {
    if layout == [] then None
    else if layout[0].0 == name then Some(0)
    else match FieldOffset(layout[1..], name)
      case None => None
      case Some(offset) => Some(layout[0].1 + offset)
  }

  // The place just after the last "::", or 0.
  function AfterSeparator(text: string): (r: nat)
    ensures r <= |text|
  {
    if |text| < 2 then 0
    else if text[|text| - 2..] == "::" then |text|
    else AfterSeparator(text[..|text| - 1])
  }

  function StructName(eventType: string): string { eventType[AfterSeparator(eventType)..] }

  /** The struct name is what follows the last separator, whatever module path stands before it, exactly
      when it contains no separator and does not start with a colon. */
  lemma StructNameExact(path: string, name: string)
    ensures StructName(path + "::" + name) == name <==> AfterSeparator(":" + name) == 0
  {
    var text := path + "::" + name;
    SeparatorWithin(path + ":", ":" + name);
    assert text == path + ":" + (":" + name);
    var k := AfterSeparator(":" + name);
    if k > 0 {
      assert |StructName(text)| == |name| + 1 - k;
      SeparatorLength(":" + name);
    } else {
      NoSeparator(path, name);
      assert text[|path| + 2..] == name;
    }
  }

  // A separator found inside the end of a text is found there in the whole text.
  lemma {:induction false} SeparatorWithin(before: string, text: string)
    ensures AfterSeparator(text) > 0 ==> AfterSeparator(before + text) == |before| + AfterSeparator(text)
    decreases |text|
  {
    if |text| >= 2 {
      assert (before + text)[|before + text| - 2..] == text[|text| - 2..];
      if text[|text| - 2..] != "::" {
        assert (before + text)[..|before + text| - 1] == before + text[..|text| - 1];
        SeparatorWithin(before, text[..|text| - 1]);
      }
    }
  }

  lemma {:induction false} SeparatorLength(text: string)
    ensures AfterSeparator(text) == 0 || AfterSeparator(text) >= 2
    decreases |text|
  {
    if |text| >= 2 {
      SeparatorLength(text[..|text| - 1]);
    }
  }

  lemma {:induction false} NoSeparator(path: string, name: string)
    requires AfterSeparator(":" + name) == 0
    ensures AfterSeparator(path + "::" + name) == |path| + 2
    decreases |name|
  {
    var text := path + "::" + name;
    if name == [] {
      assert text[|text| - 2..] == "::";
    } else {
      var short := name[..|name| - 1];
      assert (":" + name)[|name| - 1..] == text[|text| - 2..];
      assert (":" + name)[..|name|] == ":" + short;
      assert text[..|text| - 1] == path + "::" + short;
      NoSeparator(path, short);
    }
  }

  const DIGITS := "0123456789abcdef"

  function Hex(bytes: Bytes): string {
    if bytes == [] then ""
    else [DIGITS[bytes[0] / 16], DIGITS[bytes[0] % 16]] + Hex(bytes[1..])
  }

  function ObjectId(eventType: string, contents: Bytes): Option<string> {
    match EventLayout(StructName(eventType))
    case None => None
    case Some(layout) =>
      match Payload(contents)
      case None => None
      case Some(payload) =>
        if |payload| != Size(layout) then None
        else match FieldOffset(layout, "object_id")
          case None => None
          case Some(offset) =>
            if offset + 32 <= |payload| then Some("0x" + Hex(payload[offset..offset + 32])) else None
  }

  /** Decodes the object identifier an event carries, checking the payload's size before reading a field. */
  method EventObjectId(eventType: string, contents: Bytes) returns (r: Option<string>)
    ensures r == ObjectId(eventType, contents)
  {
    hide EventLayout, StructName, Payload, Hex;
    var layout := EventLayout(StructName(eventType));
    if layout.None? {
      return None;
    }
    var payload := EventPayload(contents);
    if payload.None? {
      return None;
    }
    if |payload.value| != Size(layout.value) {
      return None;
    }
    var offset := 0;
    for i := 0 to |layout.value|
      invariant offset + Size(layout.value[i..]) == Size(layout.value)
      invariant FieldOffset(layout.value, "object_id")
             == match FieldOffset(layout.value[i..], "object_id") case None => None case Some(o) => Some(offset + o)
    {
      var (name, size) := layout.value[i];
      assert layout.value[i..][1..] == layout.value[i + 1..];
      if name == "object_id" {
        LayoutFields(StructName(eventType), i);
        return Some("0x" + Hex(payload.value[offset..offset + size]));
      }
      offset := offset + size;
    }
    return None;
  }

  lemma LayoutFields(structName: string, i: nat)
    requires var layout := EventLayout(structName);
             layout.Some? && i < |layout.value| && layout.value[i].0 == "object_id"
    ensures EventLayout(structName).value[i].1 == 32
  {
  }

  // ----- Exactly the declared bytes -----

  function FieldIndex(layout: Layout, name: string): (r: Option<nat>)
    ensures r.Some? ==> r.value < |layout| && layout[r.value].0 == name
  {
    if layout == [] then None
    else if layout[0].0 == name then Some(0)
    else match FieldIndex(layout[1..], name)
      case None => None
      case Some(i) => Some(i + 1)
  }

  function Joined(fields: seq<Bytes>): Bytes {
    if fields == [] then [] else fields[0] + Joined(fields[1..])
  }

  // One run of bytes per field, each of the declared size.
  ghost predicate Fits(layout: Layout, fields: seq<Bytes>) {
    |fields| == |layout| && forall i :: 0 <= i < |layout| ==> |fields[i]| == layout[i].1
  }

  lemma {:induction false} FieldFound(layout: Layout, fields: seq<Bytes>, name: string)
    requires Fits(layout, fields)
    ensures |Joined(fields)| == Size(layout)
    ensures FieldOffset(layout, name).Some? <==> FieldIndex(layout, name).Some?
    ensures FieldIndex(layout, name).Some? ==>
              var (o, i) := (FieldOffset(layout, name).value, FieldIndex(layout, name).value);
              o + layout[i].1 <= |Joined(fields)| && Joined(fields)[o..o + layout[i].1] == fields[i]
    decreases |layout|
  {
    if layout != [] {
      FieldFound(layout[1..], fields[1..], name);
      var rest := Joined(fields[1..]);
      assert Joined(fields)[|fields[0]|..] == rest;
      if layout[0].0 == name {
        assert (fields[0] + rest)[..|fields[0]|] == fields[0];
      } else if FieldIndex(layout[1..], name).Some? {
        var (o, i) := (FieldOffset(layout[1..], name).value, FieldIndex(layout[1..], name).value);
        var size := layout[1..][i].1;
        assert rest[o..o + size] == (fields[0] + rest)[|fields[0]| + o..|fields[0]| + o + size];
      }
    }
  }

  function Split(layout: Layout, payload: Bytes): (fields: seq<Bytes>)
    requires |payload| == Size(layout)
    ensures |fields| == |layout| && (forall i :: 0 <= i < |layout| ==> |fields[i]| == layout[i].1)
    ensures Joined(fields) == payload
  {
    if layout == [] then []
    else
      var size := layout[0].1;
      assert payload == payload[..size] + payload[size..];
      [payload[..size]] + Split(layout[1..], payload[size..])
  }

  // The event is an envelope around fields of the declared sizes, and this is its object identifier.
  ghost predicate Names(eventType: string, contents: Bytes, e: Envelope, fields: seq<Bytes>, id: Bytes) {
    var layout := EventLayout(StructName(eventType));
    && layout.Some? && Fits(layout.value, fields) && WellFormed(e, Joined(fields)) && contents == Wrap(e, Joined(fields))
    && FieldIndex(layout.value, "object_id").Some? && id == fields[FieldIndex(layout.value, "object_id").value]
  }

  lemma ObjectFieldSize(structName: string)
    requires EventLayout(structName).Some? && FieldIndex(EventLayout(structName).value, "object_id").Some?
    ensures var layout := EventLayout(structName).value; layout[FieldIndex(layout, "object_id").value].1 == 32
  {
    LayoutFields(structName, FieldIndex(EventLayout(structName).value, "object_id").value);
  }

  lemma NamedIsDecoded(eventType: string, contents: Bytes, e: Envelope, fields: seq<Bytes>, id: Bytes)
    requires Names(eventType, contents, e, fields, id)
    ensures ObjectId(eventType, contents) == Some("0x" + Hex(id)) && |id| == 32
  {
    var layout := EventLayout(StructName(eventType)).value;
    ObjectFieldSize(StructName(eventType));
    FieldFound(layout, fields, "object_id");
    PayloadInverts(e, Joined(fields));
    hide EventLayout, StructName, Payload, Wrap, Hex, WellFormed;
  }

  lemma DecodedIsNamed(eventType: string, contents: Bytes) returns (e: Envelope, fields: seq<Bytes>, id: Bytes)
    requires ObjectId(eventType, contents).Some?
    ensures Names(eventType, contents, e, fields, id)
  {
    var layout := EventLayout(StructName(eventType)).value;
    var payload := Payload(contents).value;
    fields := Split(layout, payload);
    PayloadExact(contents, payload);
    e :| WellFormed(e, payload) && contents == Wrap(e, payload);
    FieldFound(layout, fields, "object_id");
    id := fields[FieldIndex(layout, "object_id").value];
  }

  /** An object identifier is returned exactly for an envelope around fields of the declared sizes, and
      it spells the 32 bytes of the field declared as the object identifier. */
  lemma ObjectIdExact(eventType: string, contents: Bytes, text: string)
    ensures ObjectId(eventType, contents) == Some(text)
       <==> exists e, fields, id :: Names(eventType, contents, e, fields, id) && text == "0x" + Hex(id)
  {
    if ObjectId(eventType, contents) == Some(text) {
      var e, fields, id := DecodedIsNamed(eventType, contents);
      NamedIsDecoded(eventType, contents, e, fields, id);
    }
    if e, fields, id :| Names(eventType, contents, e, fields, id) && text == "0x" + Hex(id) {
      NamedIsDecoded(eventType, contents, e, fields, id);
    }
  }

  // How many bytes an event of this struct carries, and at which the object identifier starts.
  function IdPlace(structName: string): Option<(nat, nat)> {
    match structName
    case "BlobRegistered" => Some((82, 50))
    case "BlobCertified" => Some((74, 41))
    case "BlobDeleted" => Some((73, 40))
    case _ => None
  }

  // An envelope around a payload of the size of its struct, and the 32 bytes where the identifier stands.
  ghost predicate PlacedAt(eventType: string, contents: Bytes, e: Envelope, payload: Bytes, text: string) {
    var place := IdPlace(StructName(eventType));
    && place.Some? && WellFormed(e, payload) && contents == Wrap(e, payload) && |payload| == place.value.0
    && place.value.1 + 32 <= |payload| && text == "0x" + Hex(payload[place.value.1..place.value.1 + 32])
  }

  lemma PlacesOfLayouts(structName: string)
    ensures match IdPlace(structName)
            case Some((size, offset)) =>
              && EventLayout(structName).Some? && Size(EventLayout(structName).value) == size
              && FieldOffset(EventLayout(structName).value, "object_id") == Some(offset)
            case None =>
              EventLayout(structName).Some? ==> FieldOffset(EventLayout(structName).value, "object_id").None?
  {
    RegisteredPlace();
    CertifiedPlace();
    DeletedPlace();
    InvalidPlace();
    hide Size, FieldOffset;
  }

  lemma RegisteredPlace()
    ensures var layout := EventLayout("BlobRegistered").value;
            Size(layout) == 82 && FieldOffset(layout, "object_id") == Some(50)
  {
    var layout := EventLayout("BlobRegistered").value;
    var a, b, c := layout[1..], layout[1..][1..], layout[1..][1..][1..];
    var d, e, f := c[1..], c[1..][1..], c[1..][1..][1..];
    assert Size(f) == 32 + Size(f[1..]) && Size(d) == 37 && Size(b) == 46;
    assert FieldOffset(f, "object_id") == Some(0) && FieldOffset(d, "object_id") == Some(5);
  }

  lemma CertifiedPlace()
    ensures var layout := EventLayout("BlobCertified").value;
            Size(layout) == 74 && FieldOffset(layout, "object_id") == Some(41)
  {
  }

  lemma DeletedPlace()
    ensures var layout := EventLayout("BlobDeleted").value;
            Size(layout) == 73 && FieldOffset(layout, "object_id") == Some(40)
  {
  }

  lemma InvalidPlace()
    ensures FieldOffset(EventLayout("InvalidBlobID").value, "object_id").None?
  {
  }

  /** In absolute terms, the identifier is the 32 bytes at offset 50 of the 82 a registration carries, at 41
      of the 74 of a certification, at 40 of the 73 of a deletion; no other event names an object. */
  lemma ObjectIdPlaced(eventType: string, contents: Bytes, text: string)
    ensures ObjectId(eventType, contents) == Some(text)
       <==> exists e, payload :: PlacedAt(eventType, contents, e, payload, text)
  {
    PlacesOfLayouts(StructName(eventType));
    hide EventLayout, StructName, Payload, Wrap, Hex, WellFormed, Size, FieldOffset, IdPlace;
    if ObjectId(eventType, contents) == Some(text) {
      var payload := Payload(contents).value;
      PayloadExact(contents, payload);
      var e :| WellFormed(e, payload) && contents == Wrap(e, payload);
      assert PlacedAt(eventType, contents, e, payload, text);
    }
    if e, payload :| PlacedAt(eventType, contents, e, payload, text) {
      PayloadInverts(e, payload);
    }
  }

  // What a hexadecimal digit stands for.
  function DigitValue(c: char): int {
    if '0' <= c <= '9' then c as int - '0' as int
    else if 'a' <= c <= 'f' then c as int - 'a' as int + 10
    else -1
  }

  // Two digits a byte, the first weighing sixteen.
  function ReadHex(text: string): seq<int> {
    if |text| < 2 then [] else [16 * DigitValue(text[0]) + DigitValue(text[1])] + ReadHex(text[2..])
  }

  lemma DigitsStand(k: nat)
    requires k < 16
    ensures DigitValue(DIGITS[k]) == k
  {
  }

  /** Read in base sixteen, two digits a byte, the text gives the bytes. */
  lemma {:induction false} HexReads(bytes: Bytes)
    ensures |Hex(bytes)| == 2 * |bytes| && ReadHex(Hex(bytes)) == bytes
  {
    if bytes != [] {
      HexReads(bytes[1..]);
      DigitsStand(bytes[0] / 16);
      DigitsStand(bytes[0] % 16);
      var text := Hex(bytes);
      assert text[2..] == Hex(bytes[1..]);
      assert text[0] == DIGITS[bytes[0] / 16] && text[1] == DIGITS[bytes[0] % 16];
      hide Hex, DigitValue;
      assert 16 * (bytes[0] / 16) + bytes[0] % 16 == bytes[0];
      assert bytes == [bytes[0]] + bytes[1..];
    }
  }

  /** The text determines the bytes. */
  lemma HexInjective(a: Bytes, b: Bytes)
    requires Hex(a) == Hex(b)
    ensures a == b
  {
    HexReads(a);
    HexReads(b);
  }
}
