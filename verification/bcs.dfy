/** The binary encodings a quilt is built from: fixed-width little-endian integers, and the BCS
    strings and vectors that carry an unsigned LEB128 length. */
module Bcs {
  import opened Common
  import opened Arithmetic

  // What a decoder makes of a prefix of its input, and the input left over.
  datatype Parse<+T> = Malformed | Parsed(value: T, rest: Bytes) {
    predicate IsFailure() { Malformed? }
    function PropagateFailure<U>(): Parse<U> requires Malformed? { Malformed }
    function Extract(): (T, Bytes) requires Parsed? { (value, rest) }
  }

  // ----- Fixed-width little-endian integers -----

  const U16_LIMIT := 0x1_0000
  const U32_LIMIT := 0x1_0000_0000

  function U16(v: nat): (r: Bytes)
    requires v < U16_LIMIT
    ensures |r| == 2
  {
    [v % 256, v / 256]
  }

  function U32(v: nat): (r: Bytes)
    requires v < U32_LIMIT
    ensures |r| == 4
  {
    [v % 256, v / 256 % 256, v / 0x1_0000 % 256, v / 0x100_0000]
  }

  function ReadU8(bs: Bytes): Parse<byte> {
    if |bs| < 1 then Malformed else Parsed(bs[0], bs[1..])
  }

  function ReadU16(bs: Bytes): Parse<nat> {
    if |bs| < 2 then Malformed else Parsed(bs[0] as int + 0x100 * (bs[1] as int), bs[2..])
  }

  function ReadU32(bs: Bytes): Parse<nat> {
    if |bs| < 4 then Malformed
    else
      var low := bs[0] as int + 0x100 * (bs[1] as int);
      Parsed(low + 0x1_0000 * (bs[2] as int) + 0x100_0000 * (bs[3] as int), bs[4..])
  }

  function ReadRun(bs: Bytes, length: nat): (r: Parse<Bytes>)
  {
    if |bs| < length then Malformed else Parsed(bs[..length], bs[length..])
  }

  lemma U16Inverts(v: nat, rest: Bytes)
    requires v < U16_LIMIT
    ensures ReadU16(U16(v) + rest) == Parsed(v, rest)
  {
    assert (U16(v) + rest)[2..] == rest;
  }

  lemma U32Inverts(v: nat, rest: Bytes)
    requires v < U32_LIMIT
    ensures ReadU32(U32(v) + rest) == Parsed(v, rest)
  {
    var bs := U32(v) + rest;
    assert bs[4..] == rest;
    assert bs[0] == v % 256 && bs[1] == v / 256 % 256 && bs[2] == v / 0x1_0000 % 256 && bs[3] == v / 0x100_0000;
    FourDigits(v);
    hide U32;
  }

  lemma FourDigits(v: nat)
    ensures v % 256 + 0x100 * (v / 256 % 256) + 0x1_0000 * (v / 0x1_0000 % 256) + 0x100_0000 * (v / 0x100_0000) == v
  {
    var a, b := v / 256, v / 0x1_0000;
    assert b == a / 256 && v / 0x100_0000 == b / 256;
    assert v == 256 * a + v % 256 && a == 256 * b + a % 256 && b == 256 * (b / 256) + b % 256;
  }

  lemma RunInverts(run: Bytes, rest: Bytes)
    ensures ReadRun(run + rest, |run|) == Parsed(run, rest)
  {
    assert (run + rest)[..|run|] == run && (run + rest)[|run|..] == rest;
  }

  // ----- Unsigned LEB128 -----

  function Uleb(v: nat): (r: Bytes)
    ensures |r| >= 1
  {
    if v < 128 then [v] else [v % 128 + 128] + Uleb(v / 128)
  }

  function ReadUleb(bs: Bytes): (r: Parse<nat>)
    ensures r.Parsed? ==> |r.rest| < |bs|
  {
    if bs == [] then Malformed
    else if bs[0] < 128 then Parsed(bs[0], bs[1..])
    else match ReadUleb(bs[1..])
      case Malformed => Malformed
      case Parsed(high, rest) => Parsed(high * 128 + (bs[0] - 128), rest)
  }

  lemma {:induction false} UlebInverts(v: nat, rest: Bytes)
    ensures ReadUleb(Uleb(v) + rest) == Parsed(v, rest)
  {
    if v < 128 {
      assert ([v] + rest)[1..] == rest;
    } else {
      UlebInverts(v / 128, rest);
      assert (Uleb(v) + rest)[1..] == Uleb(v / 128) + rest;
    }
  }

  // ----- Strings -----

  function EncodeString(s: Text): (r: Bytes)
    ensures |r| > |s|
  {
    Uleb(|s|) + s
  }

  function ReadString(bs: Bytes): (r: Parse<Text>)
    ensures r.Parsed? ==> |r.rest| < |bs|
  {
    match ReadUleb(bs)
    case Malformed => Malformed
    case Parsed(length, tail) => ReadRun(tail, length)
  }

  lemma StringInverts(s: Text, rest: Bytes)
    ensures ReadString(EncodeString(s) + rest) == Parsed(s, rest)
  {
    assert EncodeString(s) + rest == Uleb(|s|) + (s + rest);
    UlebInverts(|s|, s + rest);
    RunInverts(s, rest);
  }

  lemma EncodeStringInjective(a: Text, b: Text)
    requires EncodeString(a) == EncodeString(b)
    ensures a == b
  {
    StringInverts(a, []);
    StringInverts(b, []);
  }

  // ----- Vectors: a LEB128 count, then the elements end to end -----

  function EncodeRun<T>(xs: seq<T>, encode: T --> Bytes): Bytes
    requires forall i :: 0 <= i < |xs| ==> encode.requires(xs[i])
  {
    if xs == [] then [] else encode(xs[0]) + EncodeRun(xs[1..], encode)
  }

  function EncodeVector<T>(xs: seq<T>, encode: T --> Bytes): (r: Bytes)
    requires forall i :: 0 <= i < |xs| ==> encode.requires(xs[i])
    ensures |r| >= 1
  {
    Uleb(|xs|) + EncodeRun(xs, encode)
  }

  function ReadVectorRun<T>(bs: Bytes, count: nat, read: Bytes -> Parse<T>): Parse<seq<T>>
    decreases count
  {
    if count == 0 then Parsed([], bs)
    else match read(bs)
      case Malformed => Malformed
      case Parsed(x, rest) =>
        match ReadVectorRun(rest, count - 1, read)
        case Malformed => Malformed
        case Parsed(xs, rest) => Parsed([x] + xs, rest)
  }

  function ReadVector<T>(bs: Bytes, read: Bytes -> Parse<T>): Parse<seq<T>> {
    match ReadUleb(bs)
    case Malformed => Malformed
    case Parsed(count, rest) => ReadVectorRun(rest, count, read)
  }

  // The element reader undoes the element encoder, whatever comes after the element.
  ghost predicate Undoes<T(!new)>(read: Bytes -> Parse<T>, encode: T --> Bytes) {
    forall x, rest :: encode.requires(x) ==> read(encode(x) + rest) == Parsed(x, rest)
  }

  lemma {:induction false} RunUndone<T(!new)>(xs: seq<T>, rest: Bytes, encode: T --> Bytes, read: Bytes -> Parse<T>)
    requires forall i :: 0 <= i < |xs| ==> encode.requires(xs[i])
    requires Undoes(read, encode)
    ensures ReadVectorRun(EncodeRun(xs, encode) + rest, |xs|, read) == Parsed(xs, rest)
  {
    if xs == [] {
      assert EncodeRun(xs, encode) + rest == rest;
    } else {
      var tail := EncodeRun(xs[1..], encode) + rest;
      assert EncodeRun(xs, encode) + rest == encode(xs[0]) + tail;
      RunUndone(xs[1..], rest, encode, read);
      assert xs == [xs[0]] + xs[1..];
    }
  }

  lemma VectorInverts<T(!new)>(xs: seq<T>, rest: Bytes, encode: T --> Bytes, read: Bytes -> Parse<T>)
    requires forall i :: 0 <= i < |xs| ==> encode.requires(xs[i])
    requires Undoes(read, encode)
    ensures ReadVector(EncodeVector(xs, encode) + rest, read) == Parsed(xs, rest)
  {
    assert EncodeVector(xs, encode) + rest == Uleb(|xs|) + (EncodeRun(xs, encode) + rest);
    UlebInverts(|xs|, EncodeRun(xs, encode) + rest);
    RunUndone(xs, rest, encode, read);
  }

  // The size of a vector depends only on the sizes of its elements.
  lemma {:induction false} RunSize<T>(xs: seq<T>, ys: seq<T>, encode: T --> Bytes)
    requires |xs| == |ys|
    requires forall i :: 0 <= i < |xs| ==> encode.requires(xs[i]) && encode.requires(ys[i])
    requires forall i :: 0 <= i < |xs| ==> |encode(xs[i])| == |encode(ys[i])|
    ensures |EncodeRun(xs, encode)| == |EncodeRun(ys, encode)|
  {
    if xs != [] {
      RunSize(xs[1..], ys[1..], encode);
    }
  }
}
