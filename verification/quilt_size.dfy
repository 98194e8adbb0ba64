/** The binary search that picks a quilt's symbol size. */
module QuiltSize {
  import opened Common
  import opened Arithmetic
  import RedStuff

  const QUILT_INDEX_PREFIX_SIZE := 5
  const MAX_NUM_SLIVERS_FOR_QUILT_INDEX := 10

  datatype SizeError = NoBlobs | TooManyBlobs | CannotPack | SymbolTooLarge

  function Sum(xs: seq<nat>): nat {
    if xs == [] then 0 else xs[0] + Sum(xs[1..])
  }

  // Whole columns the blobs take, one after the other.
  function Columns(sizes: seq<nat>, columnSize: int): nat
    requires columnSize > 0
  {
    if sizes == [] then 0 else CeilDiv(sizes[0], columnSize) + Columns(sizes[1..], columnSize)
  }

  predicate CanBlobsFit(sizes: seq<nat>, nColumns: int, columnSize: int) {
    columnSize > 0 && Columns(sizes, columnSize) <= nColumns
  }

  // What a symbol size must do for a batch whose first element is the index: every blob in whole
  // columns, the index within its column cap, and one column long enough for the index prefix.
  predicate Suitable(sizes: seq<nat>, nColumns: int, nRows: int, maxIndexColumns: int, size: int)
  {
    && |sizes| > 0
    && CanBlobsFit(sizes, nColumns, size * nRows)
    && CeilDiv(sizes[0], size * nRows) <= maxIndexColumns
    && QUILT_INDEX_PREFIX_SIZE <= size * nRows
  }

  // ----- Monotonicity -----

  lemma CeilDivAntitone(a: nat, d: int, d': int)
    requires 0 < d <= d'
    ensures CeilDiv(a, d') <= CeilDiv(a, d)
  {
    var q := CeilDiv(a, d);
    CeilDivCovers(a, d, q);
    CeilDivCovers(a, d', q);
    assert q * d <= q * d' by { MulMonotone(d, d', q); }
  }

  lemma {:induction false} ColumnsAntitone(sizes: seq<nat>, d: int, d': int)
    requires 0 < d <= d'
    ensures Columns(sizes, d') <= Columns(sizes, d)
  {
    if sizes != [] {
      CeilDivAntitone(sizes[0], d, d');
      ColumnsAntitone(sizes[1..], d, d');
    }
  }

  // ----- The search's lower bounds -----

  lemma {:induction false} ColumnsCoverSum(sizes: seq<nat>, d: int)
    requires d > 0
    ensures Sum(sizes) <= Columns(sizes, d) * d
  {
    if sizes != [] {
      ColumnsCoverSum(sizes[1..], d);
      CeilDivCovers(sizes[0], d, CeilDiv(sizes[0], d));
      var c, cs := CeilDiv(sizes[0], d), Columns(sizes[1..], d);
      assert (c + cs) * d == c * d + cs * d;
    }
  }

  function LowerBound(sizes: seq<nat>, nColumns: int, nRows: int, maxIndexColumns: int): int
    requires |sizes| > 0 && nColumns > 0 && nRows > 0 && maxIndexColumns > 0
  {
    PositiveProduct(nColumns, nRows);
    PositiveProduct(nRows, maxIndexColumns);
    Max(Max(CeilDiv(Sum(sizes), nColumns * nRows), CeilDiv(sizes[0], nRows * maxIndexColumns)),
        CeilDiv(QUILT_INDEX_PREFIX_SIZE, nRows))
  }

  function Max(a: int, b: int): int { if a < b then b else a }

  lemma PositiveProduct(a: int, b: int)
    requires a > 0 && b > 0
    ensures a * b > 0
  {
    MulMonotone(1, a, b);
  }

  lemma IndexBound(indexSize: nat, nRows: int, maxIndexColumns: int, size: int)
    requires nRows > 0 && maxIndexColumns > 0 && nRows * maxIndexColumns > 0 && size * nRows > 0
    ensures CeilDiv(indexSize, size * nRows) <= maxIndexColumns
       <==> CeilDiv(indexSize, nRows * maxIndexColumns) <= size
  {
    CeilDivCovers(indexSize, size * nRows, maxIndexColumns);
    CeilDivCovers(indexSize, nRows * maxIndexColumns, size);
    assert size * (nRows * maxIndexColumns) == maxIndexColumns * (size * nRows);
  }

  lemma SumBound(sizes: seq<nat>, nColumns: int, nRows: int, size: int)
    requires nColumns * nRows > 0
    requires CanBlobsFit(sizes, nColumns, size * nRows)
    ensures CeilDiv(Sum(sizes), nColumns * nRows) <= size
  {
    var d := size * nRows;
    ColumnsCoverSum(sizes, d);
    MulMonotone(Columns(sizes, d), nColumns, d);
    assert size * (nColumns * nRows) == nColumns * d;
    CeilDivCovers(Sum(sizes), nColumns * nRows, size);
  }

  // At or above the lower bound, a size is suitable exactly when the blobs fit.
  lemma SuitableIffFits(sizes: seq<nat>, nColumns: int, nRows: int, maxIndexColumns: int, size: int)
    requires |sizes| > 0 && nColumns > 0 && nRows > 0 && maxIndexColumns > 0
    ensures Suitable(sizes, nColumns, nRows, maxIndexColumns, size)
       <==> LowerBound(sizes, nColumns, nRows, maxIndexColumns) <= size
            && CanBlobsFit(sizes, nColumns, size * nRows)
  {
    PositiveProduct(nColumns, nRows);
    PositiveProduct(nRows, maxIndexColumns);
    CeilDivCovers(QUILT_INDEX_PREFIX_SIZE, nRows, size);
    if CanBlobsFit(sizes, nColumns, size * nRows) {
      IndexBound(sizes[0], nRows, maxIndexColumns, size);
      SumBound(sizes, nColumns, nRows, size);
    }
  }

  lemma SuitableUpward(sizes: seq<nat>, nColumns: int, nRows: int, maxIndexColumns: int,
                       size: int, size': int)
    requires nRows > 0
    requires Suitable(sizes, nColumns, nRows, maxIndexColumns, size) && size <= size'
    ensures Suitable(sizes, nColumns, nRows, maxIndexColumns, size')
  {
    MulMonotone(size, size', nRows);
    ColumnsAntitone(sizes, size * nRows, size' * nRows);
    CeilDivAntitone(sizes[0], size * nRows, size' * nRows);
  }

  // ----- The search's upper bound -----

  function MaxOf(xs: seq<nat>): (m: nat)
    requires xs != []
    ensures forall i :: 0 <= i < |xs| ==> xs[i] <= m
  {
    if |xs| == 1 then xs[0] else Max(xs[0], MaxOf(xs[1..]))
  }

  lemma {:induction false} ColumnsWithin(sizes: seq<nat>, d: int, share: nat)
    requires d > 0
    requires forall i :: 0 <= i < |sizes| ==> sizes[i] <= share * d
    ensures Columns(sizes, d) <= |sizes| * share
  {
    if sizes != [] {
      CeilDivCovers(sizes[0], d, share);
      ColumnsWithin(sizes[1..], d, share);
      assert |sizes| * share == share + (|sizes| - 1) * share;
    }
  }

  function UpperBound(sizes: seq<nat>, nColumns: int, nRows: int): int
    requires 0 < |sizes| <= nColumns && nRows > 0
  {
    ShareIsPositive(|sizes|, nColumns);
    PositiveProduct(nColumns / |sizes|, nRows);
    CeilDiv(MaxOf(sizes), nColumns / |sizes| * nRows)
  }

  lemma ShareIsPositive(count: int, nColumns: int)
    requires 0 < count <= nColumns
    ensures nColumns / count >= 1 && count * (nColumns / count) <= nColumns
  {
    var q, r := nColumns / count, nColumns % count;
    assert nColumns == q * count + r;
    if q <= 0 {
      MulMonotone(q, 0, count);
      assert false;
    }
  }

  // An equal share of the columns for every blob is enough.
  lemma UpperBoundFits(sizes: seq<nat>, nColumns: int, nRows: int)
    requires 0 < |sizes| <= nColumns && nRows > 0
    requires UpperBound(sizes, nColumns, nRows) > 0
    ensures CanBlobsFit(sizes, nColumns, UpperBound(sizes, nColumns, nRows) * nRows)
  {
    var size := UpperBound(sizes, nColumns, nRows);
    var share := nColumns / |sizes|;
    ShareIsPositive(|sizes|, nColumns);
    PositiveProduct(share, nRows);
    PositiveProduct(size, nRows);
    CeilDivCovers(MaxOf(sizes), share * nRows, size);
    assert size * (share * nRows) == share * (size * nRows);
    ColumnsWithin(sizes, size * nRows, share);
  }

  // ----- The search -----

  /** Returns the least even symbol size that suits the batch, or says why there is none. The
      packing error the source raises after its search never occurs. */
  method ComputeSymbolSize(sizes: seq<nat>, nColumns: int, nRows: int, maxIndexColumns: int)
    returns (r: Result<nat, SizeError>)
    requires 0 < |sizes| <= nColumns ==> nRows > 0
    requires maxIndexColumns > 0
    ensures r == Err(NoBlobs) <==> sizes == []
    ensures r == Err(TooManyBlobs) <==> sizes != [] && |sizes| > nColumns
    ensures r != Err(CannotPack)
    ensures r == Err(SymbolTooLarge)
       <==> 0 < |sizes| <= nColumns
            && !Suitable(sizes, nColumns, nRows, maxIndexColumns, RedStuff.RS2_MAX_SYMBOL_SIZE)
    ensures r.Ok? ==> IsLeastEvenSuitable(sizes, nColumns, nRows, maxIndexColumns, r.value)
    ensures r.Ok? ==> r.value <= RedStuff.RS2_MAX_SYMBOL_SIZE
  {
    hide Suitable, IsLeastSuitable, LowerBound, UpperBound, Columns;
    if sizes == [] {
      return Err(NoBlobs);
    }
    if |sizes| > nColumns {
      return Err(TooManyBlobs);
    }
    var minVal := LowerBound(sizes, nColumns, nRows, maxIndexColumns);
    var maxVal := UpperBound(sizes, nColumns, nRows);
    ghost var least := LeastSuitable(sizes, nColumns, nRows, maxIndexColumns);
    while minVal < maxVal
      invariant LowerBound(sizes, nColumns, nRows, maxIndexColumns) <= minVal
      invariant minVal <= least <= Max(minVal, maxVal)
      decreases maxVal - minVal
    {
      var mid := (minVal + maxVal) / 2;
      FitsFromLeast(sizes, nColumns, nRows, maxIndexColumns, least, mid);
      if CanBlobsFit(sizes, nColumns, mid * nRows) {
        maxVal := mid;
      } else {
        minVal := mid + 1;
      }
    }
    var symbolSize := CeilDiv(minVal, RedStuff.RS2_REQUIRED_ALIGNMENT) * RedStuff.RS2_REQUIRED_ALIGNMENT;
    CeilDivCovers(minVal, 2, CeilDiv(minVal, 2));
    CeilDivCovers(minVal, 2, CeilDiv(minVal, 2) - 1);
    LeastEven(sizes, nColumns, nRows, maxIndexColumns, least, symbolSize);
    if !CanBlobsFit(sizes, nColumns, symbolSize * nRows) {
      return Err(CannotPack);
    }
    if symbolSize > RedStuff.RS2_MAX_SYMBOL_SIZE {
      return Err(SymbolTooLarge);
    }
    return Ok(symbolSize);
  }

  ghost predicate IsLeastEvenSuitable(sizes: seq<nat>, nColumns: int, nRows: int,
                                      maxIndexColumns: int, size: int)
  {
    && size > 0 && size % 2 == 0
    && Suitable(sizes, nColumns, nRows, maxIndexColumns, size)
    && forall s :: s % 2 == 0 && Suitable(sizes, nColumns, nRows, maxIndexColumns, s) ==> size <= s
  }

  ghost predicate IsLeastSuitable(sizes: seq<nat>, nColumns: int, nRows: int, maxIndexColumns: int,
                                  size: int)
  {
    && Suitable(sizes, nColumns, nRows, maxIndexColumns, size)
    && forall s :: s < size ==> !Suitable(sizes, nColumns, nRows, maxIndexColumns, s)
  }

  // The search starts with a suitable size at its top.
  lemma TopSuitable(sizes: seq<nat>, nColumns: int, nRows: int, maxIndexColumns: int)
    requires 0 < |sizes| <= nColumns && nRows > 0 && maxIndexColumns > 0
    ensures LowerBound(sizes, nColumns, nRows, maxIndexColumns) > 0
    ensures Suitable(sizes, nColumns, nRows, maxIndexColumns,
                     Max(LowerBound(sizes, nColumns, nRows, maxIndexColumns),
                         UpperBound(sizes, nColumns, nRows)))
  {
    var top := Max(LowerBound(sizes, nColumns, nRows, maxIndexColumns), UpperBound(sizes, nColumns, nRows));
    CeilDivCovers(QUILT_INDEX_PREFIX_SIZE, nRows, 0);
    SuitableIffFits(sizes, nColumns, nRows, maxIndexColumns, top);
    PositiveProduct(top, nRows);
    var high := UpperBound(sizes, nColumns, nRows);
    if high > 0 {
      UpperBoundFits(sizes, nColumns, nRows);
      MulMonotone(high, top, nRows);
      ColumnsAntitone(sizes, high * nRows, top * nRows);
    } else {
      AllEmptyTakeNoColumns(sizes, nColumns, nRows, top * nRows);
    }
  }

  ghost function LeastSuitable(sizes: seq<nat>, nColumns: int, nRows: int, maxIndexColumns: int): (least: int)
    requires 0 < |sizes| <= nColumns && nRows > 0 && maxIndexColumns > 0
    ensures IsLeastSuitable(sizes, nColumns, nRows, maxIndexColumns, least)
    ensures LowerBound(sizes, nColumns, nRows, maxIndexColumns) <= least
    ensures least <= Max(LowerBound(sizes, nColumns, nRows, maxIndexColumns),
                         UpperBound(sizes, nColumns, nRows))
  {
    var low := LowerBound(sizes, nColumns, nRows, maxIndexColumns);
    TopSuitable(sizes, nColumns, nRows, maxIndexColumns);
    var least := FirstSuitable(sizes, nColumns, nRows, maxIndexColumns, low,
                               Max(low, UpperBound(sizes, nColumns, nRows)));
    assert forall s :: s < low ==> !Suitable(sizes, nColumns, nRows, maxIndexColumns, s) by {
      forall s | s < low ensures !Suitable(sizes, nColumns, nRows, maxIndexColumns, s) {
        SuitableIffFits(sizes, nColumns, nRows, maxIndexColumns, s);
      }
    }
    least
  }

  ghost function FirstSuitable(sizes: seq<nat>, nColumns: int, nRows: int, maxIndexColumns: int,
                               low: int, high: int): (r: int)
    requires low <= high && Suitable(sizes, nColumns, nRows, maxIndexColumns, high)
    ensures low <= r <= high && Suitable(sizes, nColumns, nRows, maxIndexColumns, r)
    ensures forall s :: low <= s < r ==> !Suitable(sizes, nColumns, nRows, maxIndexColumns, s)
    decreases high - low
  {
    if low == high || Suitable(sizes, nColumns, nRows, maxIndexColumns, low) then low
    else FirstSuitable(sizes, nColumns, nRows, maxIndexColumns, low + 1, high)
  }

  // Probing at or above the lower bound tells on which side of the probe the answer lies.
  lemma FitsFromLeast(sizes: seq<nat>, nColumns: int, nRows: int, maxIndexColumns: int, least: int, probe: int)
    requires 0 < |sizes| <= nColumns && nRows > 0 && maxIndexColumns > 0
    requires IsLeastSuitable(sizes, nColumns, nRows, maxIndexColumns, least)
    requires LowerBound(sizes, nColumns, nRows, maxIndexColumns) <= probe
    ensures CanBlobsFit(sizes, nColumns, probe * nRows) <==> least <= probe
  {
    SuitableIffFits(sizes, nColumns, nRows, maxIndexColumns, probe);
    if least <= probe {
      SuitableUpward(sizes, nColumns, nRows, maxIndexColumns, least, probe);
    }
  }

  // Rounding the least suitable size up to even gives the least even suitable size.
  lemma LeastEven(sizes: seq<nat>, nColumns: int, nRows: int, maxIndexColumns: int, least: int, even: int)
    requires 0 < |sizes| <= nColumns && nRows > 0 && maxIndexColumns > 0
    requires IsLeastSuitable(sizes, nColumns, nRows, maxIndexColumns, least)
    requires even % 2 == 0 && least <= even <= least + 1
    ensures IsLeastEvenSuitable(sizes, nColumns, nRows, maxIndexColumns, even)
    ensures CanBlobsFit(sizes, nColumns, even * nRows)
    ensures forall s :: s % 2 == 0 && even <= s ==> Suitable(sizes, nColumns, nRows, maxIndexColumns, s)
  {
    if least <= 0 {
      MulMonotone(least, 0, nRows);
      assert false;
    }
    SuitableUpward(sizes, nColumns, nRows, maxIndexColumns, least, even);
    forall s | s % 2 == 0 && even <= s ensures Suitable(sizes, nColumns, nRows, maxIndexColumns, s) {
      SuitableUpward(sizes, nColumns, nRows, maxIndexColumns, even, s);
    }
  }

  lemma AllEmptyTakeNoColumns(sizes: seq<nat>, nColumns: int, nRows: int, d: int)
    requires 0 < |sizes| <= nColumns && nRows > 0 && d > 0
    requires UpperBound(sizes, nColumns, nRows) <= 0
    ensures CanBlobsFit(sizes, nColumns, d)
  {
    var share := nColumns / |sizes|;
    ShareIsPositive(|sizes|, nColumns);
    PositiveProduct(share, nRows);
    CeilDivCovers(MaxOf(sizes), share * nRows, 0);
    ColumnsWithin(sizes, d, 0);
  }
}
