/** Quorum arithmetic, the signer bitmap, and building a certificate from confirmations. */
module Certification {
  import opened Common
  import RedStuff

  // ----- Thresholds -----

  predicate IsQuorum(weight: int, nShards: int) { 3 * weight >= 2 * nShards + 1 }

  // Python's // floors, so negating twice rounds up.
  function MinWeightForQuorum(nShards: int): int { -((-(2 * nShards + 1)) / 3) }

  predicate IsAboveValidity(weight: int, nShards: int) { 3 * weight >= nShards + 1 }

  function MinWeightForValidity(nShards: int): int { -((-(nShards + 1)) / 3) }

  // The thresholds are the least weights that pass their tests; quorum coincides with the number of
  // correct shards for every shard count, and validity is always out of the faulty shards' reach.
  lemma Thresholds(weight: int, nShards: int)
    ensures IsQuorum(weight, nShards) <==> 3 * weight > 2 * nShards
    ensures IsAboveValidity(weight, nShards) <==> 3 * weight > nShards
    ensures IsQuorum(weight, nShards) <==> weight >= MinWeightForQuorum(nShards)
    ensures IsAboveValidity(weight, nShards) <==> weight >= MinWeightForValidity(nShards)
    ensures MinWeightForQuorum(nShards) == RedStuff.MinNCorrect(nShards)
    ensures MinWeightForValidity(nShards) > RedStuff.MaxNFaulty(nShards)
    ensures MinWeightForQuorum(nShards) + MinWeightForValidity(nShards) > nShards
  {
  }

  // ----- The signer bitmap -----

  datatype BitmapError = NegativeSize | PositionOutside(position: int) | TooShort

  function Bit(k: nat): bv8
    requires k < 8
  {
    match k
    case 0 => 1 case 1 => 2 case 2 => 4 case 3 => 8
    case 4 => 16 case 5 => 32 case 6 => 64 case _ => 128
  }

  predicate HasBit(b: bv8, k: nat) requires k < 8 { b & Bit(k) != 0 }

  lemma SetBit(b: bv8, k: nat, j: nat)
    requires k < 8 && j < 8
    ensures HasBit(b | Bit(k), j) <==> HasBit(b, j) || j == k
  {
    BitOr(b, Bit(k), Bit(j));
    BitsApart(k, j);
    hide Bit;
  }

  lemma BitOr(b: bv8, m: bv8, n: bv8)
    ensures (b | m) & n == (b & n) | (m & n)
    ensures (b & n) | (m & n) != 0 <==> b & n != 0 || m & n != 0
  {
  }

  lemma BitsApart(k: nat, j: nat)
    requires k < 8 && j < 8
    ensures Bit(k) & Bit(j) != 0 <==> k == j
  {
  }

  function Power2(k: nat): (r: nat)
    ensures r > 0
  {
    if k == 0 then 1 else 2 * Power2(k - 1)
  }

  // The binary digit of weight 2 to the k in a byte read as a number.
  function Digit(b: bv8, k: nat): nat { (b as int / Power2(k)) % 2 }

  lemma BitIsDigit(b: bv8, k: nat)
    requires k < 8
    ensures HasBit(b, k) <==> Digit(b, k) == 1
  {
    PowersOfTwo();
    hide Power2;
    match k
    case 0 => Digit1(b);
    case 1 => Digit2(b);
    case 2 => Digit4(b);
    case 3 => Digit8(b);
    case 4 => Digit16(b);
    case 5 => Digit32(b);
    case 6 => Digit64(b);
    case 7 => Digit128(b);
  }

  lemma PowersOfTwo()
    ensures Power2(0) == 1 && Power2(1) == 2 && Power2(2) == 4 && Power2(3) == 8
    ensures Power2(4) == 16 && Power2(5) == 32 && Power2(6) == 64 && Power2(7) == 128
  {
  }

  lemma Digit1(b: bv8) ensures b & 1 != 0 <==> b as int / 1 % 2 == 1 {}

  lemma Digit2(b: bv8) ensures b & 2 != 0 <==> b as int / 2 % 2 == 1 {}

  lemma Digit4(b: bv8) ensures b & 4 != 0 <==> b as int / 4 % 2 == 1 {}

  lemma Digit8(b: bv8) ensures b & 8 != 0 <==> b as int / 8 % 2 == 1 {}

  lemma Digit16(b: bv8) ensures b & 16 != 0 <==> b as int / 16 % 2 == 1 {}

  lemma Digit32(b: bv8) ensures b & 32 != 0 <==> b as int / 32 % 2 == 1 {}

  lemma Digit64(b: bv8) ensures b & 64 != 0 <==> b as int / 64 % 2 == 1 {}

  lemma Digit128(b: bv8) ensures b & 128 != 0 <==> b as int / 128 % 2 == 1 {}

  // Whether the bit of a committee position is set.
  predicate Marked(bitmap: seq<bv8>, position: nat)
    requires position / 8 < |bitmap|
  {
    HasBit(bitmap[position / 8], position % 8)
  }

  // Read as a number with its first byte weighing least, the bitmap is the sum of 2 to the p over the
  // positions p: each of its binary digits is one exactly at a position listed.
  ghost predicate Digits(bitmap: seq<bv8>, positions: seq<int>) {
    forall p: nat :: p < 8 * |bitmap| ==> (Digit(bitmap[p / 8], p % 8) == 1 <==> p in positions)
  }

  lemma MarkedDigits(bitmap: seq<bv8>, positions: seq<int>)
    requires forall p: nat :: p < 8 * |bitmap| ==> (HasBit(bitmap[p / 8], p % 8) <==> p in positions)
    ensures Digits(bitmap, positions)
  {
    hide HasBit, Digit;
    forall p: nat | p < 8 * |bitmap| ensures Digit(bitmap[p / 8], p % 8) == 1 <==> p in positions {
      BitIsDigit(bitmap[p / 8], p % 8);
    }
  }

  /** Sets one bit per signer in a bitmap of one bit per committee member. */
  method PackSignersBitmap(positions: seq<int>, size: int) returns (r: Result<seq<bv8>, BitmapError>)
    ensures r == Err(NegativeSize) <==> size < 0
    ensures r.Ok? <==> size >= 0 && forall i :: 0 <= i < |positions| ==> 0 <= positions[i] < size
    ensures r.Ok? ==> |r.value| == (size + 7) / 8
    ensures r.Ok? ==> forall p: nat :: p < size ==> (Marked(r.value, p) <==> p in positions)
    ensures r.Ok? ==> Digits(r.value, positions)
    ensures r.Err? && size >= 0 ==>
              r.error.PositionOutside? && r.error.position in positions && !(0 <= r.error.position < size)
  {
    if size < 0 {
      return Err(NegativeSize);
    }
    var bitmap := new bv8[(size + 7) / 8](_ => 0);
    for i := 0 to |positions|
      invariant forall k :: 0 <= k < i ==> 0 <= positions[k] < size
      invariant forall p: nat :: p < 8 * bitmap.Length ==> (HasBit(bitmap[p / 8], p % 8) <==> p in positions[..i])
    {
      var position := positions[i];
      if position < 0 || position >= size {
        return Err(PositionOutside(position));
      }
      ghost var before := bitmap[..];
      bitmap[position / 8] := bitmap[position / 8] | Bit(position % 8);
      forall p: nat | p < 8 * bitmap.Length
        ensures HasBit(bitmap[p / 8], p % 8) <==> p in positions[..i + 1]
      {
        SetBit(before[p / 8], position % 8, p % 8);
        assert positions[..i + 1] == positions[..i] + [position];
        assert before[p / 8] == bitmap[p / 8] || p / 8 == position / 8;
        assert p == position <==> p / 8 == position / 8 && p % 8 == position % 8;
      }
    }
    assert positions[..|positions|] == positions;
    MarkedDigits(bitmap[..], positions);
    return Ok(bitmap[..]);
  }

  function MarkedBelow(bitmap: seq<bv8>, n: nat): (r: seq<nat>)
    requires n <= 8 * |bitmap|
    ensures forall p: nat :: p in r <==> p < n && Marked(bitmap, p)
    ensures forall i, j :: 0 <= i < j < |r| ==> r[i] < r[j]
  {
    if n == 0 then []
    else
      var rest := MarkedBelow(bitmap, n - 1);
      assert forall i :: 0 <= i < |rest| ==> rest[i] < n - 1 by {
        forall i | 0 <= i < |rest| ensures rest[i] < n - 1 { assert rest[i] in rest; }
      }
      if Marked(bitmap, n - 1) then rest + [n - 1] else rest
  }

  function UnpackSignersBitmap(bitmap: seq<bv8>, size: int): Result<seq<nat>, BitmapError> {
    if size < 0 then Err(NegativeSize)
    else if |bitmap| < (size + 7) / 8 then Err(TooShort)
    else Ok(MarkedBelow(bitmap, size))
  }

  /** A bitmap of enough bytes unpacks to the positions below the size whose binary digits are one, in
      ascending order, whatever its spare bits say. */
  lemma UnpackExact(bitmap: seq<bv8>, size: int)
    ensures UnpackSignersBitmap(bitmap, size) == Err(NegativeSize) <==> size < 0
    ensures UnpackSignersBitmap(bitmap, size) == Err(TooShort) <==> size >= 0 && 8 * |bitmap| < size
    ensures 0 <= size <= 8 * |bitmap| ==>
              var r := UnpackSignersBitmap(bitmap, size);
              && r.Ok? && StrictlyAscending(r.value)
              && forall p: nat :: p in r.value <==> p < size && Digit(bitmap[p / 8], p % 8) == 1
  {
    if 0 <= size <= 8 * |bitmap| {
      forall p: nat | p < size ensures Marked(bitmap, p) <==> Digit(bitmap[p / 8], p % 8) == 1 {
        BitIsDigit(bitmap[p / 8], p % 8);
      }
    }
    hide Digit, HasBit;
  }

  predicate StrictlyAscending(xs: seq<int>) {
    forall i, j :: 0 <= i < j < |xs| ==> xs[i] < xs[j]
  }

  lemma EmptyTogether(a: seq<int>, b: seq<int>)
    requires forall x :: x in a <==> x in b
    ensures a == [] <==> b == []
  {
    if a != [] {
      var x := a[0];
      assert x in a;
      assert x in b;
    }
    if b != [] {
      var x := b[0];
      assert x in b;
      assert x in a;
    }
  }

  lemma {:induction false} AscendingDetermined(a: seq<int>, b: seq<int>)
    requires StrictlyAscending(a) && StrictlyAscending(b)
    requires forall x :: x in a <==> x in b
    ensures a == b
    decreases |a|
  {
    EmptyTogether(a, b);
    if a != [] {
      assert a[|a| - 1] in a && a[|a| - 1] in b;
      var m, n := |a| - 1, |b| - 1;
      assert b[n] in a;
      forall x ensures x in a[..m] <==> x in b[..n] {
        LastIsGreatest(a, x);
        LastIsGreatest(b, x);
      }
      AscendingDetermined(a[..m], b[..n]);
      assert a == a[..m] + [a[m]] && b == b[..n] + [b[n]];
    }
  }

  lemma LastIsGreatest(a: seq<int>, x: int)
    requires StrictlyAscending(a) && a != []
    ensures x in a[..|a| - 1] <==> x in a && x != a[|a| - 1]
    ensures x in a ==> x <= a[|a| - 1]
  {
    assert a == a[..|a| - 1] + [a[|a| - 1]];
  }

  // A bitmap packed from ascending positions unpacks to exactly them.
  lemma UnpackInverts(bitmap: seq<bv8>, positions: seq<int>, size: nat)
    requires |bitmap| == (size + 7) / 8 && StrictlyAscending(positions)
    requires forall p :: p in positions ==> 0 <= p < size
    requires forall p: nat :: p < size ==> (Marked(bitmap, p) <==> p in positions)
    ensures UnpackSignersBitmap(bitmap, size) == Ok(positions)
  {
    AscendingDetermined(MarkedBelow(bitmap, size), positions);
  }

  // ----- Building a certificate -----

  datatype Confirmation = Confirmation(nodeId: Text, position: int, weight: int, publicKey: Bytes,
                                       message: Bytes, signature: Bytes)

  datatype Certificate = Certificate(message: Bytes, aggregate: Bytes, bitmap: seq<bv8>, positions: seq<int>,
                                     weight: int)

  // The signature library, which this model does not look into. None stands for the ValueError it
  // raises on input it cannot parse.
  datatype Bls = Bls(aggregate: seq<Bytes> -> Option<Bytes>,
                     verifyAggregate: (Bytes, seq<Bytes>, Bytes) -> Option<bool>,
                     verify: (Bytes, Bytes, Bytes) -> Option<bool>)

  datatype CertificateError =
    | NoConfirmations
    | MessageMismatch
    | Unattributable
    | AllInvalid
    | UnparsedAggregate
    | DuplicatePosition
    | QuorumNotReached
    | BadPosition

  function Signatures(confirmations: seq<Confirmation>): (r: seq<Bytes>)
    ensures |r| == |confirmations|
    ensures forall i :: 0 <= i < |r| ==> r[i] == confirmations[i].signature
  {
    seq(|confirmations|, i requires 0 <= i < |confirmations| => confirmations[i].signature)
  }

  function PublicKeys(confirmations: seq<Confirmation>): (r: seq<Bytes>)
    ensures |r| == |confirmations|
    ensures forall i :: 0 <= i < |r| ==> r[i] == confirmations[i].publicKey
  {
    seq(|confirmations|, i requires 0 <= i < |confirmations| => confirmations[i].publicKey)
  }

  // The signatures of one message, one per key, each verifying on its own.
  ghost predicate AllVerify(bls: Bls, keys: seq<Bytes>, signatures: seq<Bytes>, message: Bytes) {
    && |keys| == |signatures| > 0
    && forall i :: 0 <= i < |keys| ==> bls.verify(keys[i], signatures[i], message) == Some(true)
  }

  ghost predicate AggregateVerifies(bls: Bls, keys: seq<Bytes>, signatures: seq<Bytes>, message: Bytes) {
    && bls.aggregate(signatures).Some?
    && bls.verifyAggregate(bls.aggregate(signatures).value, keys, message) == Some(true)
  }

  // What the certificates rest on: aggregating individually valid signatures verifies.
  ghost predicate SoundBls(bls: Bls) {
    forall keys, signatures, message :: AllVerify(bls, keys, signatures, message) ==>
      AggregateVerifies(bls, keys, signatures, message)
  }

  function Weight(confirmations: seq<Confirmation>): int {
    if confirmations == [] then 0
    else Weight(confirmations[..|confirmations| - 1]) + confirmations[|confirmations| - 1].weight
  }

  function Good(bls: Bls, confirmations: seq<Confirmation>, message: Bytes): (r: seq<Confirmation>)
    ensures |r| <= |confirmations|
    ensures forall c :: c in r <==> c in confirmations && bls.verify(c.publicKey, c.signature, message) == Some(true)
    ensures |r| == |confirmations| ==> r == confirmations
  {
    if confirmations == [] then []
    else
      var n := |confirmations| - 1;
      var rest, last := Good(bls, confirmations[..n], message), confirmations[n];
      assert confirmations == confirmations[..n] + [last];
      if bls.verify(last.publicKey, last.signature, message) == Some(true) then rest + [last] else rest
  }

  function ReferenceMessage(confirmations: seq<Confirmation>, expected: Option<Bytes>): Bytes
    requires confirmations != []
  {
    if expected.Some? then expected.value else confirmations[0].message
  }

  // All of them when their aggregate verifies, else those that verify on their own.
  ghost function Retained(bls: Bls, confirmations: seq<Confirmation>, message: Bytes): seq<Confirmation> {
    if AggregateVerifies(bls, PublicKeys(confirmations), Signatures(confirmations), message) then confirmations
    else Good(bls, confirmations, message)
  }

  ghost predicate DistinctPositions(confirmations: seq<Confirmation>) {
    forall i, j :: 0 <= i < j < |confirmations| ==> confirmations[i].position != confirmations[j].position
  }

  ghost predicate Disagree(confirmations: seq<Confirmation>, message: Bytes) {
    exists c :: c in confirmations && c.message != message
  }

  ghost predicate SomeOutside(confirmations: seq<Confirmation>, size: int) {
    exists c :: c in confirmations && !(0 <= c.position < size)
  }

  // Why no certificate is built, in the order the checks are made; None when one is.
  ghost function Refusal(bls: Bls, confirmations: seq<Confirmation>, size: int, nShards: int, expected: Option<Bytes>)
    : Option<CertificateError>
  {
    if confirmations == [] then Some(NoConfirmations) else
    var message := ReferenceMessage(confirmations, expected);
    var kept := Retained(bls, confirmations, message);
    var fallback := !AggregateVerifies(bls, PublicKeys(confirmations), Signatures(confirmations), message);
    if Disagree(confirmations, message) then Some(MessageMismatch)
    else if fallback && |kept| == |confirmations| then Some(Unattributable)
    else if fallback && kept == [] then Some(AllInvalid)
    else if bls.aggregate(Signatures(kept)).None? then Some(UnparsedAggregate)
    else if !DistinctPositions(kept) then Some(DuplicatePosition)
    else if !IsQuorum(Weight(kept), nShards) then Some(QuorumNotReached)
    else if SomeOutside(kept, size) then Some(BadPosition)
    else None
  }

  // A certificate stands for exactly these confirmations of this message.
  ghost predicate Certifies(bls: Bls, kept: seq<Confirmation>, size: int, nShards: int, message: Bytes, cert: Certificate) {
    && cert.message == message
    && bls.aggregate(Signatures(kept)) == Some(cert.aggregate)
    && StrictlyAscending(cert.positions)
    && (forall p :: p in cert.positions <==> p in Positions(kept))
    && (forall p :: p in cert.positions ==> 0 <= p < size)
    && |cert.positions| == |kept|
    && |cert.bitmap| == (size + 7) / 8 && Digits(cert.bitmap, cert.positions)
    && UnpackSignersBitmap(cert.bitmap, size) == Ok(cert.positions)
    && cert.weight == Weight(kept)
    && IsQuorum(cert.weight, nShards)
  }

  function InsertPosition(x: int, xs: seq<int>): (r: seq<int>)
    requires StrictlyAscending(xs) && x !in xs
    ensures StrictlyAscending(r) && |r| == |xs| + 1
    ensures forall y :: y in r <==> y == x || y in xs
  {
    if xs == [] then [x]
    else
      var n := |xs| - 1;
      var last := xs[n];
      assert xs == xs[..n] + [last];
      assert forall i :: 0 <= i < n ==> xs[..n][i] < last;
      if x > last then xs + [x]
      else
        var r := InsertPosition(x, xs[..n]);
        forall i | 0 <= i < |r| ensures r[i] < last { assert r[i] in r; }
        r + [last]
  }

  method AggregateFirst(bls: Bls, confirmations: seq<Confirmation>, message: Bytes)
    returns (aggregate: Option<Bytes>, verified: bool)
    ensures aggregate == bls.aggregate(Signatures(confirmations))
    ensures verified <==> AggregateVerifies(bls, PublicKeys(confirmations), Signatures(confirmations), message)
  {
    aggregate := bls.aggregate(Signatures(confirmations));
    verified := false;
    if aggregate.Some? {
      var answer := bls.verifyAggregate(aggregate.value, PublicKeys(confirmations), message);
      verified := answer == Some(true);
    }
  }

  method ExcludeBad(bls: Bls, confirmations: seq<Confirmation>, message: Bytes)
    returns (good: seq<Confirmation>, bad: nat)
    ensures good == Good(bls, confirmations, message)
    ensures bad + |good| == |confirmations|
  {
    good, bad := [], 0;
    for i := 0 to |confirmations|
      invariant good == Good(bls, confirmations[..i], message) && bad + |good| == i
    {
      assert confirmations[..i + 1][..i] == confirmations[..i];
      var verified := bls.verify(confirmations[i].publicKey, confirmations[i].signature, message);
      if verified.None? {
        bad := bad + 1;
      } else if !verified.value {
        bad := bad + 1;
      } else {
        good := good + [confirmations[i]];
      }
    }
    assert confirmations[..|confirmations|] == confirmations;
  }

  ghost function Positions(confirmations: seq<Confirmation>): set<int> {
    set c | c in confirmations :: c.position
  }

  lemma PositionsStep(kept: seq<Confirmation>, i: nat)
    requires i < |kept| && DistinctPositions(kept[..i])
    ensures Positions(kept[..i + 1]) == Positions(kept[..i]) + {kept[i].position}
    ensures kept[i].position in Positions(kept[..i]) ==> !DistinctPositions(kept)
    ensures kept[i].position !in Positions(kept[..i]) ==> DistinctPositions(kept[..i + 1])
    ensures Weight(kept[..i + 1]) == Weight(kept[..i]) + kept[i].weight
  {
    assert kept[..i + 1][..i] == kept[..i] && kept[..i + 1] == kept[..i] + [kept[i]];
    if kept[i].position in Positions(kept[..i]) {
      var c :| c in kept[..i] && c.position == kept[i].position;
      var k :| 0 <= k < i && kept[..i][k] == c;
      assert kept[k].position == kept[i].position;
    } else {
      forall k | 0 <= k < i ensures kept[k].position != kept[i].position {
        assert kept[..i][k] in kept[..i];
      }
    }
  }

  // The positions of the confirmations and their summed weight, unless a position repeats.
  method CountOnce(kept: seq<Confirmation>) returns (seen: set<int>, weight: int, repeated: bool)
    ensures repeated <==> !DistinctPositions(kept)
    ensures !repeated ==> weight == Weight(kept) && |seen| == |kept| && seen == Positions(kept)
  {
    hide DistinctPositions, Positions, Weight;
    seen, weight := {}, 0;
    assert kept[..0] == [] && Positions([]) == {} && DistinctPositions([]) && Weight([]) == 0 by {
      CountNone();
    }
    for i := 0 to |kept|
      invariant DistinctPositions(kept[..i])
      invariant weight == Weight(kept[..i]) && |seen| == i && seen == Positions(kept[..i])
    {
      PositionsStep(kept, i);
      if kept[i].position in seen {
        return seen, weight, true;
      }
      seen := seen + {kept[i].position};
      weight := weight + kept[i].weight;
    }
    assert kept[..|kept|] == kept;
    return seen, weight, false;
  }

  // The positions in ascending order, which is all a sort of their set can give.
  method SortPositions(kept: seq<Confirmation>) returns (sorted: seq<int>)
    requires DistinctPositions(kept)
    ensures StrictlyAscending(sorted) && |sorted| == |kept|
    ensures forall p :: p in sorted <==> p in Positions(kept)
  {
    sorted := [];
    for i := 0 to |kept|
      invariant StrictlyAscending(sorted) && |sorted| == i
      invariant forall p :: p in sorted <==> p in Positions(kept[..i])
    {
      assert DistinctPositions(kept[..i]);
      PositionsStep(kept, i);
      sorted := InsertPosition(kept[i].position, sorted);
    }
    assert kept[..|kept|] == kept;
  }

  lemma CountNone()
    ensures Positions([]) == {} && DistinctPositions([]) && Weight([]) == 0
  {
  }

  /** Builds a certificate from confirmations: the aggregate of all of them when it verifies, else of
      those that verify one by one. The re-aggregated signature is not verified again. */
  method BuildCertificate(bls: Bls, confirmations: seq<Confirmation>, size: int, nShards: int,
                          expected: Option<Bytes>)
    returns (r: Result<Certificate, CertificateError>)
    ensures r.Err? ==> Refusal(bls, confirmations, size, nShards, expected) == Some(r.error)
    ensures r.Ok? ==>
              && Refusal(bls, confirmations, size, nShards, expected) == None
              && var message := ReferenceMessage(confirmations, expected);
                 Certifies(bls, Retained(bls, confirmations, message), size, nShards, message, r.value)
  {
    if confirmations == [] {
      return Err(NoConfirmations);
    }
    var message := ReferenceMessage(confirmations, expected);
    for i := 0 to |confirmations|
      invariant forall k :: 0 <= k < i ==> confirmations[k].message == message
    {
      if confirmations[i].message != message {
        assert confirmations[i] in confirmations;
        return Err(MessageMismatch);
      }
    }
    var aggregate, verified := AggregateFirst(bls, confirmations, message);
    var kept := confirmations;
    if !verified {
      var good, bad := ExcludeBad(bls, confirmations, message);
      if bad == 0 {
        return Err(Unattributable);
      }
      if good == [] {
        return Err(AllInvalid);
      }
      kept := good;
      aggregate := bls.aggregate(Signatures(kept));
      if aggregate.None? {
        return Err(UnparsedAggregate);
      }
    }
    hide AggregateVerifies, Good;
    r := Assemble(bls, kept, size, nShards, message, aggregate.value);
  }

  // The checks and the assembly both branches share.
  method Assemble(bls: Bls, kept: seq<Confirmation>, size: int, nShards: int, message: Bytes, aggregate: Bytes)
    returns (r: Result<Certificate, CertificateError>)
    requires kept != [] && bls.aggregate(Signatures(kept)) == Some(aggregate)
    ensures r == Err(DuplicatePosition) <==> !DistinctPositions(kept)
    ensures r == Err(QuorumNotReached) <==> DistinctPositions(kept) && !IsQuorum(Weight(kept), nShards)
    ensures r == Err(BadPosition)
       <==> DistinctPositions(kept) && IsQuorum(Weight(kept), nShards)
            && SomeOutside(kept, size)
    ensures r.Ok? || r.error in {DuplicatePosition, QuorumNotReached, BadPosition}
    ensures r.Ok? ==> Certifies(bls, kept, size, nShards, message, r.value)
  {
    var seen, weight, repeated := CountOnce(kept);
    if repeated {
      return Err(DuplicatePosition);
    }
    if !IsQuorum(weight, nShards) {
      return Err(QuorumNotReached);
    }
    var positions := SortPositions(kept);
    var bitmap := PackSignersBitmap(positions, size);
    OutsideExists(kept, positions, size);
    match bitmap {
      case Err(_) =>
        return Err(BadPosition);
      case Ok(bits) =>
        UnpackInverts(bits, positions, size);
        return Ok(Certificate(message, aggregate, bits, positions, weight));
    }
  }

  lemma OutsideExists(kept: seq<Confirmation>, positions: seq<int>, size: int)
    requires forall p :: p in positions <==> p in Positions(kept)
    requires kept != []
    ensures (size >= 0 && forall i :: 0 <= i < |positions| ==> 0 <= positions[i] < size)
       <==> !SomeOutside(kept, size)
  {
    if c :| c in kept && !(0 <= c.position < size) {
      assert c.position in positions;
      var i :| 0 <= i < |positions| && positions[i] == c.position;
    }
    if i :| 0 <= i < |positions| && !(0 <= positions[i] < size) {
      assert positions[i] in positions;
      var c :| c in kept && c.position == positions[i];
    }
    if size < 0 {
      assert kept[0] in kept;
    }
  }

  // ----- What a certificate is worth -----

  predicate VerifyCertificate(bls: Bls, cert: Certificate, keys: seq<Bytes>) {
    bls.verifyAggregate(cert.aggregate, keys, cert.message) == Some(true)
  }

  /** Any certificate built verifies against the keys of the confirmations it retained, in both
      branches, when aggregating valid signatures does. */
  lemma CertificateVerifies(bls: Bls, confirmations: seq<Confirmation>, size: int, nShards: int,
                            expected: Option<Bytes>, cert: Certificate)
    requires SoundBls(bls) && confirmations != []
    requires Refusal(bls, confirmations, size, nShards, expected).None?
    requires var message := ReferenceMessage(confirmations, expected);
             Certifies(bls, Retained(bls, confirmations, message), size, nShards, message, cert)
    ensures var kept := Retained(bls, confirmations, ReferenceMessage(confirmations, expected));
            && VerifyCertificate(bls, cert, PublicKeys(kept))
            && (forall c :: c in kept ==> c in confirmations && c.message == cert.message)
  {
    var message := ReferenceMessage(confirmations, expected);
    var kept := Retained(bls, confirmations, message);
    if !AggregateVerifies(bls, PublicKeys(confirmations), Signatures(confirmations), message) {
      GoodAggregates(bls, confirmations, message);
    }
  }

  /** With a sound library the guards against it never fire, and a bad signature costs its signer
      only: when all agree on the message at distinct positions in range, a certificate is built if
      the confirmations that verify on their own reach quorum. */
  lemma BadSignersExcluded(bls: Bls, confirmations: seq<Confirmation>, size: int, nShards: nat,
                           expected: Option<Bytes>)
    requires SoundBls(bls) && confirmations != []
    ensures Refusal(bls, confirmations, size, nShards, expected) != Some(Unattributable)
    ensures Refusal(bls, confirmations, size, nShards, expected) != Some(UnparsedAggregate)
    ensures var message := ReferenceMessage(confirmations, expected);
            Orderly(confirmations, size, message) && IsQuorum(Weight(Good(bls, confirmations, message)), nShards)
            ==> Refusal(bls, confirmations, size, nShards, expected).None?
  {
    var message := ReferenceMessage(confirmations, expected);
    FallbackAggregates(bls, confirmations, message);
    if Orderly(confirmations, size, message) {
      RetainedOrderly(bls, confirmations, size, message);
      OrderlyPasses(confirmations, size, message);
      OrderlyPasses(Retained(bls, confirmations, message), size, message);
      CountNone();
    }
    hide SoundBls, AggregateVerifies, Good, Retained, DistinctPositions, Disagree, SomeOutside, Orderly, Weight;
  }

  lemma OrderlyPasses(confirmations: seq<Confirmation>, size: int, message: Bytes)
    requires Orderly(confirmations, size, message)
    ensures DistinctPositions(confirmations) && !Disagree(confirmations, message) && !SomeOutside(confirmations, size)
  {
  }

  lemma FallbackAggregates(bls: Bls, confirmations: seq<Confirmation>, message: Bytes)
    requires SoundBls(bls)
    ensures var kept := Retained(bls, confirmations, message);
            && (kept != [] ==> bls.aggregate(Signatures(kept)).Some?)
            && (kept != [] && |kept| == |confirmations| ==>
                  AggregateVerifies(bls, PublicKeys(confirmations), Signatures(confirmations), message))
  {
    hide Good;
    if Good(bls, confirmations, message) != [] {
      GoodAggregates(bls, confirmations, message);
    }
  }

  lemma RetainedOrderly(bls: Bls, confirmations: seq<Confirmation>, size: int, message: Bytes)
    requires Orderly(confirmations, size, message)
    ensures Orderly(Retained(bls, confirmations, message), size, message)
    ensures Weight(Good(bls, confirmations, message)) <= Weight(Retained(bls, confirmations, message))
  {
    GoodDistinct(bls, confirmations, message);
    GoodWeighsLess(bls, confirmations, message);
    hide Good, DistinctPositions, AggregateVerifies, Weight;
  }

  // Distinct positions in range, weights that are shard counts, and one message.
  ghost predicate Orderly(confirmations: seq<Confirmation>, size: int, message: Bytes) {
    && DistinctPositions(confirmations)
    && forall c :: c in confirmations ==> 0 <= c.position < size && c.weight >= 0 && c.message == message
  }

  lemma GoodAggregates(bls: Bls, confirmations: seq<Confirmation>, message: Bytes)
    requires SoundBls(bls) && Good(bls, confirmations, message) != []
    ensures var good := Good(bls, confirmations, message);
            AggregateVerifies(bls, PublicKeys(good), Signatures(good), message)
  {
    var good := Good(bls, confirmations, message);
    forall i | 0 <= i < |good|
      ensures bls.verify(PublicKeys(good)[i], Signatures(good)[i], message) == Some(true)
    {
      assert good[i] in good;
    }
    assert AllVerify(bls, PublicKeys(good), Signatures(good), message);
  }

  lemma AppendDistinct(rest: seq<Confirmation>, confirmations: seq<Confirmation>)
    requires confirmations != [] && DistinctPositions(confirmations) && DistinctPositions(rest)
    requires forall c :: c in rest ==> c in confirmations[..|confirmations| - 1]
    ensures DistinctPositions(rest + [confirmations[|confirmations| - 1]])
    ensures DistinctPositions(confirmations[..|confirmations| - 1])
  {
    var n := |confirmations| - 1;
    forall i | 0 <= i < |rest| ensures rest[i].position != confirmations[n].position {
      assert rest[i] in rest;
      var k :| 0 <= k < n && confirmations[..n][k] == rest[i];
      assert confirmations[k].position != confirmations[n].position;
    }
  }

  lemma {:induction false} GoodDistinct(bls: Bls, confirmations: seq<Confirmation>, message: Bytes)
    requires DistinctPositions(confirmations)
    ensures DistinctPositions(Good(bls, confirmations, message))
    decreases |confirmations|
  {
    if confirmations != [] {
      var n := |confirmations| - 1;
      AppendDistinct([], confirmations);
      GoodDistinct(bls, confirmations[..n], message);
      hide DistinctPositions;
      AppendDistinct(Good(bls, confirmations[..n], message), confirmations);
    }
  }

  lemma {:induction false} GoodWeighsLess(bls: Bls, confirmations: seq<Confirmation>, message: Bytes)
    requires forall c :: c in confirmations ==> c.weight >= 0
    ensures Weight(Good(bls, confirmations, message)) <= Weight(confirmations)
    decreases |confirmations|
  {
    if confirmations != [] {
      var n := |confirmations| - 1;
      var rest, last := Good(bls, confirmations[..n], message), confirmations[n];
      assert confirmations == confirmations[..n] + [last];
      assert last.weight >= 0;
      GoodWeighsLess(bls, confirmations[..n], message);
      WeightAppend(rest, last);
    }
  }

  lemma WeightAppend(confirmations: seq<Confirmation>, last: Confirmation)
    ensures Weight(confirmations + [last]) == Weight(confirmations) + last.weight
  {
    var all := confirmations + [last];
    assert all[..|all| - 1] == confirmations;
  }
}
