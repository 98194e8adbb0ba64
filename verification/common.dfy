/** Datatypes and orders shared by the whole model. */
module Common {

  datatype Option<+T> = None | Some(value: T) {
    function GetOr(default: T): T { if Some? then value else default }
  }

  datatype Result<+T, +E> = Ok(value: T) | Err(error: E)

  type byte = b: int | 0 <= b < 256

  type Bytes = seq<byte>

  // A Python string, held as its UTF-8 bytes. Comparing strings by code point and
  // comparing their UTF-8 encodings byte by byte give the same order.
  type Text = Bytes
}

/** Integer division that rounds up, and the uniqueness of quotient and remainder. */
module Arithmetic {

  function CeilDiv(numerator: int, denominator: int): (r: int)
    requires denominator > 0
    ensures numerator >= 0 ==> r >= 0
  {
    -((-numerator) / denominator)
  }

  // The one property of the rounded-up quotient that everything else uses: it is the least
  // multiple count that covers the numerator.
  lemma CeilDivCovers(numerator: int, denominator: int, q: int)
    requires denominator > 0
    ensures CeilDiv(numerator, denominator) <= q <==> numerator <= q * denominator
  {
    var f := (-numerator) / denominator;
    var m := (-numerator) % denominator;
    assert -numerator == f * denominator + m;
    if -f <= q {
      MulMonotone(-f, q, denominator);
      assert -f * denominator == numerator + m;
    } else {
      MulMonotone(q + 1, -f, denominator);
      assert (q + 1) * denominator == q * denominator + denominator;
      assert -f * denominator == numerator + m;
    }
  }

  lemma CeilDivExact(q: int, denominator: int)
    requires denominator > 0
    ensures CeilDiv(q * denominator, denominator) == q
  {
    CeilDivCovers(q * denominator, denominator, q);
    CeilDivCovers(q * denominator, denominator, q - 1);
    assert (q - 1) * denominator == q * denominator - denominator;
  }

  lemma MulMonotone(a: int, b: int, c: int)
    requires a <= b && c >= 0
    ensures a * c <= b * c
  {
  }

  lemma DivModUnique(q: int, r: int, q': int, r': int, d: int)
    requires 0 <= r < d && 0 <= r' < d
    requires q * d + r == q' * d + r'
    ensures q == q' && r == r'
  {
    if q < q' {
      MulMonotone(q + 1, q', d);
      assert false;
    }
    if q > q' {
      MulMonotone(q' + 1, q, d);
      assert false;
    }
  }

  lemma DivModOf(q: int, r: int, d: int)
    requires 0 <= r < d
    ensures (q * d + r) / d == q && (q * d + r) % d == r
  {
    var x := q * d + r;
    assert x == (x / d) * d + x % d;
    DivModUnique(x / d, x % d, q, r, d);
  }
}

/** Lexicographic order on byte strings, and Python's stable `sorted` with a byte-string key. */
module Ordering {
  import opened Common

  predicate Before(a: Bytes, b: Bytes) {
    if a == [] then true
    else if b == [] then false
    else a[0] < b[0] || (a[0] == b[0] && Before(a[1..], b[1..]))
  }

  lemma {:induction false} BeforeTotal(a: Bytes, b: Bytes)
    ensures Before(a, b) || Before(b, a)
  {
    if a != [] && b != [] {
      BeforeTotal(a[1..], b[1..]);
    }
  }

  lemma {:induction false} BeforeAntisymmetric(a: Bytes, b: Bytes)
    requires Before(a, b) && Before(b, a)
    ensures a == b
  {
    if a != [] && b != [] {
      BeforeAntisymmetric(a[1..], b[1..]);
      assert a == [a[0]] + a[1..] && b == [b[0]] + b[1..];
    }
  }

  lemma {:induction false} BeforeTransitive(a: Bytes, b: Bytes, c: Bytes)
    requires Before(a, b) && Before(b, c)
    ensures Before(a, c)
  {
    if a != [] && a[0] == b[0] == c[0] {
      BeforeTransitive(a[1..], b[1..], c[1..]);
    }
  }

  function Insert<T>(x: T, xs: seq<T>, key: T -> Bytes): (r: seq<T>)
    ensures |r| == |xs| + 1
    ensures multiset(r) == multiset(xs) + multiset{x}
  {
    if xs == [] then [x]
    else if Before(key(x), key(xs[0])) then
      [x] + xs
    else
      assert xs == [xs[0]] + xs[1..];
      [xs[0]] + Insert(x, xs[1..], key)
  }

  function SortBy<T>(xs: seq<T>, key: T -> Bytes): (r: seq<T>)
    ensures |r| == |xs|
    ensures multiset(r) == multiset(xs)
  {
    if xs == [] then []
    else
      assert xs == [xs[0]] + xs[1..];
      Insert(xs[0], SortBy(xs[1..], key), key)
  }

  function Keys<T>(xs: seq<T>, key: T -> Bytes): (r: seq<Bytes>)
    ensures |r| == |xs|
    ensures forall i :: 0 <= i < |xs| ==> r[i] == key(xs[i])
  {
    if xs == [] then [] else [key(xs[0])] + Keys(xs[1..], key)
  }

  predicate Ascending(ks: seq<Bytes>) {
    |ks| <= 1 || (Before(ks[0], ks[1]) && Ascending(ks[1..]))
  }

  ghost predicate Distinct<T>(xs: seq<T>) {
    forall i, j :: 0 <= i < j < |xs| ==> xs[i] != xs[j]
  }

  lemma TwiceCounts<T>(xs: seq<T>, i: nat, j: nat)
    requires i < j < |xs| && xs[i] == xs[j]
    ensures multiset(xs)[xs[i]] >= 2
  {
    assert xs == xs[..j] + ([xs[j]] + xs[j + 1..]);
    assert xs[..j][i] in multiset(xs[..j]);
  }

  lemma {:induction false} InsertAscends<T>(x: T, xs: seq<T>, key: T -> Bytes)
    requires Ascending(Keys(xs, key))
    ensures Ascending(Keys(Insert(x, xs, key), key))
  {
    if xs != [] && !Before(key(x), key(xs[0])) {
      BeforeTotal(key(x), key(xs[0]));
      assert Keys(xs, key)[1..] == Keys(xs[1..], key);
      InsertAscends(x, xs[1..], key);
      assert Keys(Insert(x, xs, key), key)[1..] == Keys(Insert(x, xs[1..], key), key);
    } else {
      assert Keys([x] + xs, key)[1..] == Keys(xs, key);
    }
  }

  lemma {:induction false} SortByAscends<T>(xs: seq<T>, key: T -> Bytes)
    ensures Ascending(Keys(SortBy(xs, key), key))
  {
    if xs != [] {
      SortByAscends(xs[1..], key);
      InsertAscends(xs[0], SortBy(xs[1..], key), key);
    }
  }

  lemma {:induction false} FirstIsLeast(ks: seq<Bytes>, i: nat)
    requires Ascending(ks) && i < |ks|
    ensures Before(ks[0], ks[i])
  {
    if i == 0 {
      BeforeReflexive(ks[0]);
    } else {
      FirstIsLeast(ks[1..], i - 1);
      BeforeTransitive(ks[0], ks[1], ks[i]);
    }
  }

  lemma RemoveFirst<T>(xs: seq<T>)
    requires xs != []
    ensures multiset(xs) == multiset(xs[1..]) + multiset{xs[0]}
  {
    assert xs == [xs[0]] + xs[1..];
  }

  // The least element of an ascending sequence comes first, so the multiset fixes the sequence.
  lemma {:induction false} AscendingUnique(a: seq<Bytes>, b: seq<Bytes>)
    requires Ascending(a) && Ascending(b)
    requires multiset(a) == multiset(b)
    ensures a == b
  {
    assert |multiset(a)| == |a| && |multiset(b)| == |b|;
    if a != [] {
      assert a[0] in multiset(b) && b[0] in multiset(a);
      var i :| 0 <= i < |b| && b[i] == a[0];
      var j :| 0 <= j < |a| && a[j] == b[0];
      FirstIsLeast(a, j);
      FirstIsLeast(b, i);
      BeforeAntisymmetric(a[0], b[0]);
      RemoveFirst(a);
      RemoveFirst(b);
      assert multiset(a[1..]) == multiset(a) - multiset{a[0]};
      assert multiset(b[1..]) == multiset(b) - multiset{b[0]};
      AscendingUnique(a[1..], b[1..]);
    }
  }

  lemma BeforeReflexive(a: Bytes)
    ensures Before(a, a)
  {
    BeforeTotal(a, a);
  }

  ghost function RemoveAt<T>(xs: seq<T>, i: nat): (r: seq<T>)
    requires i < |xs|
    ensures multiset(xs) == multiset(r) + multiset{xs[i]}
    ensures |r| == |xs| - 1
  {
    assert xs == xs[..i] + ([xs[i]] + xs[i + 1..]);
    xs[..i] + xs[i + 1..]
  }

  lemma KeysRemoveAt<T>(xs: seq<T>, i: nat, key: T -> Bytes)
    requires i < |xs|
    ensures multiset(Keys(xs, key)) == multiset(Keys(RemoveAt(xs, i), key)) + multiset{key(xs[i])}
  {
    var ks, rest := Keys(xs, key), RemoveAt(xs, i);
    hide Keys;
    forall j | 0 <= j < |rest| ensures Keys(rest, key)[j] == RemoveAt(ks, i)[j] {
      assert rest[j] == if j < i then xs[j] else xs[j + 1];
    }
    assert RemoveAt(ks, i) == Keys(rest, key);
  }

  lemma {:induction false} KeysMultiset<T>(xs: seq<T>, ys: seq<T>, key: T -> Bytes)
    requires multiset(xs) == multiset(ys)
    ensures multiset(Keys(xs, key)) == multiset(Keys(ys, key))
  {
    assert |multiset(xs)| == |xs| && |multiset(ys)| == |ys|;
    if xs != [] {
      assert xs[0] in multiset(ys);
      var i :| 0 <= i < |ys| && ys[i] == xs[0];
      assert multiset(RemoveAt(xs, 0)) == multiset(xs) - multiset{xs[0]};
      assert multiset(RemoveAt(ys, i)) == multiset(ys) - multiset{ys[i]};
      KeysMultiset(RemoveAt(xs, 0), RemoveAt(ys, i), key);
      KeysRemoveAt(xs, 0, key);
      KeysRemoveAt(ys, i, key);
    }
  }

  lemma DistinctKeysFixOrder<T>(a: seq<T>, b: seq<T>, key: T -> Bytes, i: nat)
    requires multiset(a) == multiset(b) && i < |a| == |b|
    requires Keys(a, key) == Keys(b, key) && Distinct(Keys(a, key))
    ensures a[i] == b[i]
  {
    assert a[i] in multiset(b);
    var j :| 0 <= j < |b| && b[j] == a[i];
    hide Keys;
    assert Keys(b, key)[j] == key(b[j]) && Keys(a, key)[i] == key(a[i]);
    assert i == j;
  }

  // Sorting forgets the order its input came in: the keys always, the elements when no two share
  // a key.
  lemma SortByForgetsOrder<T>(xs: seq<T>, ys: seq<T>, key: T -> Bytes)
    requires multiset(xs) == multiset(ys)
    ensures Keys(SortBy(xs, key), key) == Keys(SortBy(ys, key), key)
    ensures Distinct(Keys(SortBy(xs, key), key)) ==> SortBy(xs, key) == SortBy(ys, key)
  {
    var a, b := SortBy(xs, key), SortBy(ys, key);
    SortByAscends(xs, key);
    SortByAscends(ys, key);
    KeysMultiset(a, b, key);
    AscendingUnique(Keys(a, key), Keys(b, key));
    if Distinct(Keys(a, key)) {
      assert |multiset(a)| == |a| && |multiset(b)| == |b|;
      forall i | 0 <= i < |a| ensures a[i] == b[i] {
        DistinctKeysFixOrder(a, b, key, i);
      }
    }
  }
}
