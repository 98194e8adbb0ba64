/** The column-major byte matrix of a quilt: where a stream byte lands, the writer that runs down
    columns symbol by symbol, and the reader that runs down the same columns. */
module QuiltMatrix {
  import opened Common
  import opened Arithmetic

  // A matrix of `rows` rows, each `rowSize` bytes long, cut into symbols of `symbol` bytes.
  datatype Grid = Grid(rowSize: nat, rows: nat, symbol: nat) {
    predicate Valid() { rows > 0 && symbol > 0 }

    function ColumnSize(): (r: nat)
      requires Valid()
      ensures r > 0
    {
      MulMonotone(1, rows, symbol);
      rows * symbol
    }

    function Row(k: nat): nat requires Valid() { k / symbol % rows }

    function Column(start: nat, k: nat): nat requires Valid() { start + k / symbol / rows }

    // Where byte k of a stream that starts at column `start` lands.
    function Position(start: nat, k: nat): nat
      requires Valid()
    {
      Row(k) * rowSize + Column(start, k) * symbol + k % symbol
    }

    // Columns [0, end) lie inside the row.
    predicate Inside(end: nat) { end * symbol <= rowSize }
  }

  // ----- Geometry -----

  lemma PositionStep(g: Grid, start: nat, k: nat, j: nat)
    requires g.Valid() && j < g.symbol - k % g.symbol
    ensures g.Position(start, k + j) == g.Position(start, k) + j
  {
    var q, r := k / g.symbol, k % g.symbol;
    assert k == q * g.symbol + r;
    DivModOf(q, r + j, g.symbol);
  }

  // After a symbol is filled, the writer moves one row down, or to the top of the next column.
  lemma NextSymbol(g: Grid, start: nat, k: nat, k': nat)
    requires g.Valid() && k' == k + (g.symbol - k % g.symbol)
    ensures k' % g.symbol == 0
    ensures g.Row(k') == (g.Row(k) + 1) % g.rows
    ensures g.Column(start, k') == if g.Row(k') == 0 then g.Column(start, k) + 1 else g.Column(start, k)
  {
    var q := k / g.symbol;
    assert k == q * g.symbol + k % g.symbol;
    assert (q + 1) * g.symbol == q * g.symbol + g.symbol;
    DivModOf(q + 1, 0, g.symbol);
    var c, r := q / g.rows, q % g.rows;
    assert q == c * g.rows + r;
    if r + 1 < g.rows {
      DivModOf(c, r + 1, g.rows);
      DivModOf(0, r + 1, g.rows);
    } else {
      assert (c + 1) * g.rows == c * g.rows + g.rows;
      DivModOf(c + 1, 0, g.rows);
      DivModOf(1, 0, g.rows);
    }
  }

  lemma QuotientBelow(k: nat, n: nat, d: nat)
    requires d > 0 && k < n * d
    ensures k / d < n
  {
    var q := k / d;
    assert k == q * d + k % d;
    if q >= n {
      MulMonotone(n, q, d);
      assert false;
    }
  }

  lemma Associate(a: nat, b: nat, c: nat)
    ensures a * (b * c) == (a * b) * c
  {
  }

  // The whole columns that k bytes of a stream fill.
  function ColumnsBefore(k: nat, rows: nat, symbol: nat): nat
    requires rows > 0 && symbol > 0
  {
    k / symbol / rows
  }

  lemma QuotientTwice(k: nat, columns: nat, rows: nat, symbol: nat, size: nat)
    requires rows > 0 && symbol > 0 && size == rows * symbol && k < columns * size
    ensures ColumnsBefore(k, rows, symbol) < columns
  {
    Associate(columns, rows, symbol);
    QuotientBelow(k, columns * rows, symbol);
    QuotientBelow(k / symbol, columns, rows);
  }

  lemma ColumnBound(g: Grid, start: nat, k: nat, columns: nat)
    requires g.Valid() && k < columns * g.ColumnSize()
    ensures start <= g.Column(start, k) < start + columns
  {
    hide *;
    GridParts(g, start, k);
    QuotientTwice(k, columns, g.rows, g.symbol, g.ColumnSize());
  }

  lemma GridParts(g: Grid, start: nat, k: nat)
    requires g.Valid()
    ensures g.rows > 0 && g.symbol > 0 && g.ColumnSize() == g.rows * g.symbol
    ensures g.Column(start, k) == start + ColumnsBefore(k, g.rows, g.symbol)
  {
  }

  lemma PositionSplit(g: Grid, start: nat, k: nat)
    requires g.Valid() && g.Inside(g.Column(start, k) + 1)
    ensures var offset := g.Column(start, k) * g.symbol + k % g.symbol;
            0 <= offset < g.rowSize && g.Position(start, k) == g.Row(k) * g.rowSize + offset
  {
    assert (g.Column(start, k) + 1) * g.symbol == g.Column(start, k) * g.symbol + g.symbol;
  }

  // No two bytes share a place, within one stream or across streams.
  lemma PositionInjective(g: Grid, start: nat, k: nat, start': nat, k': nat)
    requires g.Valid()
    requires g.Inside(g.Column(start, k) + 1) && g.Inside(g.Column(start', k') + 1)
    requires g.Position(start, k) == g.Position(start', k')
    ensures g.Column(start, k) == g.Column(start', k')
    ensures start == start' ==> k == k'
  {
    PositionSplit(g, start, k);
    PositionSplit(g, start', k');
    var c, c' := g.Column(start, k), g.Column(start', k');
    var r, r' := k % g.symbol, k' % g.symbol;
    DivModUnique(g.Row(k), c * g.symbol + r, g.Row(k'), c' * g.symbol + r', g.rowSize);
    DivModUnique(c, r, c', r', g.symbol);
    if start == start' {
      var q, q' := k / g.symbol, k' / g.symbol;
      assert q == (q / g.rows) * g.rows + q % g.rows;
      assert q' == (q' / g.rows) * g.rows + q' % g.rows;
      assert k == q * g.symbol + r && k' == q' * g.symbol + r';
    }
  }

  lemma PositionInBuffer(g: Grid, start: nat, k: nat)
    requires g.Valid() && g.Inside(g.Column(start, k) + 1)
    ensures g.Position(start, k) < g.rows * g.rowSize
  {
    PositionSplit(g, start, k);
    MulMonotone(g.Row(k) + 1, g.rows, g.rowSize);
    assert (g.Row(k) + 1) * g.rowSize == g.Row(k) * g.rowSize + g.rowSize;
  }

  // ----- Writing byte by byte -----

  ghost predicate Fits(length: nat, g: Grid, start: nat, offset: nat, count: nat)
    requires g.Valid()
  {
    forall k {:trigger g.Position(start, k)} :: offset <= k < offset + count ==> g.Position(start, k) < length
  }

  // The buffer after bytes offset, offset + 1, ... of a stream are put in their places in turn.
  ghost function Scatter(buffer: Bytes, data: Bytes, g: Grid, start: nat, offset: nat): (r: Bytes)
    requires g.Valid() && Fits(|buffer|, g, start, offset, |data|)
    ensures |r| == |buffer|
  {
    if data == [] then buffer
    else
      var n := |data| - 1;
      var before := Scatter(buffer, data[..n], g, start, offset);
      before[g.Position(start, offset + n) := data[n]]
  }

  // Writing a stream in two runs that share one offset is writing it in one.
  lemma {:induction false} ScatterConcat(buffer: Bytes, a: Bytes, b: Bytes, g: Grid, start: nat, offset: nat)
    requires g.Valid() && Fits(|buffer|, g, start, offset, |a| + |b|)
    ensures Scatter(Scatter(buffer, a, g, start, offset), b, g, start, offset + |a|)
         == Scatter(buffer, a + b, g, start, offset)
  {
    if b == [] {
      assert a + b == a;
    } else {
      var n := |b| - 1;
      ScatterConcat(buffer, a, b[..n], g, start, offset);
      assert (a + b)[..|a| + n] == a + b[..n];
    }
  }

  // A run inside one symbol is one slice assignment.
  lemma {:induction false} ScatterRun(buffer: Bytes, run: Bytes, g: Grid, start: nat, offset: nat)
    requires g.Valid() && Fits(|buffer|, g, start, offset, |run|)
    requires 0 < |run| <= g.symbol - offset % g.symbol
    ensures var at := g.Position(start, offset);
            at + |run| <= |buffer|
              && Scatter(buffer, run, g, start, offset) == buffer[..at] + run + buffer[at + |run|..]
  {
    var n := |run| - 1;
    var at := g.Position(start, offset);
    PositionStep(g, start, offset, n);
    if n > 0 {
      ScatterRun(buffer, run[..n], g, start, offset);
    } else {
      assert run[..n] == [];
    }
    assert Scatter(buffer, run[..n], g, start, offset) == buffer[..at] + run[..n] + buffer[at + n..];
  }

  // A place no stream byte is sent to keeps its byte.
  lemma {:induction false} ScatterElsewhere(buffer: Bytes, data: Bytes, g: Grid, start: nat, p: nat)
    requires g.Valid() && Fits(|buffer|, g, start, 0, |data|) && p < |buffer|
    requires forall k {:trigger g.Position(start, k)} :: 0 <= k < |data| ==> g.Position(start, k) != p
    ensures Scatter(buffer, data, g, start, 0)[p] == buffer[p]
  {
    if data != [] {
      ScatterElsewhere(buffer, data[..|data| - 1], g, start, p);
      assert g.Position(start, 0 + (|data| - 1)) != p;
    }
  }

  // A stream byte is in its place at the end, when no later one is sent there.
  lemma {:induction false} ScatterPlaces(buffer: Bytes, data: Bytes, g: Grid, start: nat, k: nat)
    requires g.Valid() && Fits(|buffer|, g, start, 0, |data|) && k < |data|
    requires forall k' {:trigger g.Position(start, k')} ::
               k < k' < |data| ==> g.Position(start, k') != g.Position(start, k)
    ensures Scatter(buffer, data, g, start, 0)[g.Position(start, k)] == data[k]
  {
    var n := |data| - 1;
    if k < n {
      ScatterPlaces(buffer, data[..n], g, start, k);
      assert g.Position(start, 0 + n) != g.Position(start, k);
    } else {
      assert g.Position(start, 0 + n) == g.Position(start, k);
    }
  }

  // ----- The writer -----

  // An in-place slice assignment that stays within the buffer.
  method AssignSlice(quilt: array<byte>, at: nat, run: Bytes)
    requires at + |run| <= quilt.Length
    modifies quilt
    ensures quilt[..] == old(quilt[..])[..at] + run + old(quilt[..])[at + |run|..]
  {
    forall j | 0 <= j < |run| {
      quilt[at + j] := run[j];
    }
  }

  // A slice that ends past the buffer has a last byte that does not fit.
  lemma PastTheEnd(size: nat, g: Grid, start: nat, offset: nat, index: nat, length: nat, count: nat)
    requires g.Valid() && 0 < length && index + length <= count
    requires length <= g.symbol - (offset + index) % g.symbol && g.Position(start, offset + index) + length > size
    ensures !Fits(size, g, start, offset, count)
  {
    PositionStep(g, start, offset + index, length - 1);
    assert g.Position(start, offset + (index + length - 1)) >= size;
    hide Grid.Position;
  }

  method WriteBytes(quilt: array<byte>, data: Bytes, g: Grid, start: nat, bytesWritten: nat)
    returns (ok: bool)
    requires g.Valid()
    modifies quilt
    ensures ok <==> Fits(quilt.Length, g, start, bytesWritten, |data|)
    ensures ok ==> quilt[..] == Scatter(old(quilt[..]), data, g, start, bytesWritten)
  {
    var symbolsToSkip := bytesWritten / g.symbol;
    var remainingOffset := bytesWritten % g.symbol;
    var currentCol := start + symbolsToSkip / g.rows;
    var currentRow := symbolsToSkip % g.rows;
    var index := 0;
    assert data[..0] == [];
    hide Grid.Row, Grid.Column;
    while index < |data|
      invariant 0 <= index <= |data|
      invariant index < |data| ==> At(g, start, bytesWritten + index, currentRow, currentCol, remainingOffset)
      invariant Fits(quilt.Length, g, start, bytesWritten, index)
      invariant quilt[..] == Scatter(old(quilt[..]), data[..index], g, start, bytesWritten)
    {
      var baseIndex := currentRow * g.rowSize + currentCol * g.symbol;
      var startIndex := baseIndex + remainingOffset;
      var length := Min(g.symbol - remainingOffset, |data| - index);
      if startIndex + length > quilt.Length {
        PastTheEnd(quilt.Length, g, start, bytesWritten, index, length, |data|);
        return false;
      }
      ChunkStep(old(quilt[..]), data, g, start, bytesWritten, index, length);
      AssignSlice(quilt, startIndex, data[index..index + length]);
      if index + length < |data| {
        NextSymbol(g, start, bytesWritten + index, bytesWritten + index + length);
      }
      index := index + length;
      remainingOffset := 0;
      currentRow := (currentRow + 1) % g.rows;
      if currentRow == 0 {
        currentCol := currentCol + 1;
      }
    }
    assert data[..index] == data;
    return true;
  }

  function Min(a: int, b: int): int { if a < b then a else b }

  // The writer's row, column and offset within the symbol are those of stream byte k.
  ghost predicate At(g: Grid, start: nat, k: nat, row: int, column: int, offset: int)
    requires g.Valid()
  {
    row == g.Row(k) && column == g.Column(start, k) && offset == k % g.symbol
  }

  // A chunk that ends by the end of its symbol and of the buffer extends what has been written.
  lemma ChunkStep(original: Bytes, data: Bytes, g: Grid, start: nat, offset: nat, index: nat, length: nat)
    requires g.Valid() && Fits(|original|, g, start, offset, index)
    requires index + length <= |data| && 0 < length <= g.symbol - (offset + index) % g.symbol
    requires g.Position(start, offset + index) + length <= |original|
    ensures Fits(|original|, g, start, offset, index + length)
    ensures var before := Scatter(original, data[..index], g, start, offset);
            var at := g.Position(start, offset + index);
            && before[..at] + data[index..index + length] + before[at + length..]
               == Scatter(original, data[..index + length], g, start, offset)
  {
    hide Fits, Scatter;
    FitsExtend(|original|, g, start, offset, index, length);
    ChunkWritten(original, data[..index], data[index..index + length], g, start, offset);
    assert data[..index] + data[index..index + length] == data[..index + length];
  }

  lemma ChunkWritten(original: Bytes, head: Bytes, run: Bytes, g: Grid, start: nat, offset: nat)
    requires g.Valid() && Fits(|original|, g, start, offset, |head|)
    requires Fits(|original|, g, start, offset, |head| + |run|)
    requires Fits(|original|, g, start, offset + |head|, |run|)
    requires 0 < |run| <= g.symbol - (offset + |head|) % g.symbol
    ensures var before := Scatter(original, head, g, start, offset);
            var at := g.Position(start, offset + |head|);
            && at + |run| <= |before|
            && before[..at] + run + before[at + |run|..] == Scatter(original, head + run, g, start, offset)
  {
    var before := Scatter(original, head, g, start, offset);
    ScatterRun(before, run, g, start, offset + |head|);
    ScatterConcat(original, head, run, g, start, offset);
  }

  lemma FitsExtend(length: nat, g: Grid, start: nat, offset: nat, count: nat, run: nat)
    requires g.Valid() && Fits(length, g, start, offset, count)
    requires run <= g.symbol - (offset + count) % g.symbol
    requires g.Position(start, offset + count) + run <= length
    ensures Fits(length, g, start, offset, count + run)
    ensures Fits(length, g, start, offset + count, run)
  {
    forall k | offset + count <= k < offset + count + run
      ensures g.Position(start, k) < length
    {
      PositionStep(g, start, offset + count, k - (offset + count));
    }
  }

  datatype WriteError = RowSizeIndivisible | ColumnSizeIndivisible | PastEnd

  /** Writes the prefix and then the blob as one stream down the columns from `startColumn`, and
      returns how many whole columns that took. */
  method WriteBlobToQuilt(quilt: array<byte>, blob: Bytes, rowSize: nat, columnSize: nat,
                          symbolSize: nat, startColumn: nat, prefix: Option<Bytes>)
    returns (r: Result<nat, WriteError>)
    requires symbolSize > 0 && columnSize > 0
    modifies quilt
    ensures r == Err(RowSizeIndivisible) <==> rowSize % symbolSize != 0
    ensures r == Err(ColumnSizeIndivisible) <==> rowSize % symbolSize == 0 && columnSize % symbolSize != 0
    ensures rowSize % symbolSize == 0 && columnSize % symbolSize == 0 ==>
              var g := Grid(rowSize, columnSize / symbolSize, symbolSize);
              var stream := prefix.GetOr([]) + blob;
              && g.Valid() && g.ColumnSize() == columnSize
              && (r == Err(PastEnd) <==> !Fits(quilt.Length, g, startColumn, 0, |stream|))
              && (r.Ok? ==> r.value == CeilDiv(|stream|, columnSize))
              && (r.Ok? ==> quilt[..] == Scatter(old(quilt[..]), stream, g, startColumn, 0))
  {
    if rowSize % symbolSize != 0 {
      return Err(RowSizeIndivisible);
    }
    if columnSize % symbolSize != 0 {
      return Err(ColumnSizeIndivisible);
    }
    var nRows := columnSize / symbolSize;
    assert columnSize == nRows * symbolSize;
    var g := Grid(rowSize, nRows, symbolSize);
    ghost var stream := prefix.GetOr([]) + blob;
    var bytesWritten := 0;
    if prefix.Some? {
      var ok := WriteBytes(quilt, prefix.value, g, startColumn, bytesWritten);
      if !ok {
        assert !Fits(quilt.Length, g, startColumn, 0, |stream|);
        return Err(PastEnd);
      }
      bytesWritten := bytesWritten + |prefix.value|;
    }
    ghost var middle := quilt[..];
    var ok := WriteBytes(quilt, blob, g, startColumn, bytesWritten);
    if !ok {
      assert !Fits(quilt.Length, g, startColumn, 0, |stream|);
      return Err(PastEnd);
    }
    bytesWritten := bytesWritten + |blob|;
    assert Fits(quilt.Length, g, startColumn, 0, |stream|);
    ScatterConcat(old(quilt[..]), prefix.GetOr([]), blob, g, startColumn, 0);
    return Ok(CeilDiv(bytesWritten, columnSize));
  }

  // Columns inside the matrix always leave room for their stream.
  lemma InsideFits(g: Grid, start: nat, count: nat)
    requires g.Valid()
    requires g.Inside(start + CeilDiv(count, g.ColumnSize()))
    ensures Fits(g.rows * g.rowSize, g, start, 0, count)
  {
    forall k | 0 <= k < count ensures g.Position(start, k) < g.rows * g.rowSize {
      StreamColumn(g, start, count, k);
      PositionInBuffer(g, start, k);
    }
  }

  // Every byte of a stream stays within the columns the stream is charged for.
  lemma StreamColumn(g: Grid, start: nat, count: nat, k: nat)
    requires g.Valid() && k < count
    ensures start <= g.Column(start, k) < start + CeilDiv(count, g.ColumnSize())
    ensures g.Inside(start + CeilDiv(count, g.ColumnSize())) ==> g.Inside(g.Column(start, k) + 1)
  {
    var columns := CeilDiv(count, g.ColumnSize());
    CeilDivCovers(count, g.ColumnSize(), columns);
    ColumnBound(g, start, k, columns);
    MulMonotone(g.Column(start, k) + 1, start + columns, g.symbol);
  }

  // ----- Reading -----

  // Columns [start, end), read from the top of the first to the bottom of the last.
  function ReadColumns(buffer: Bytes, g: Grid, start: nat, end: nat): (r: Bytes)
    requires g.Valid() && start <= end && g.Inside(end) && |buffer| == g.rows * g.rowSize
    ensures |r| == (end - start) * g.ColumnSize()
  {
    seq((end - start) * g.ColumnSize(), k requires 0 <= k < (end - start) * g.ColumnSize() =>
      ColumnBound(g, start, k, end - start);
      MulMonotone(g.Column(start, k) + 1, end, g.symbol);
      PositionInBuffer(g, start, k);
      buffer[g.Position(start, k)])
  }

  // Reading back the columns a stream was written to yields the stream.
  lemma StreamApart(g: Grid, start: nat, count: nat, k: nat, k': nat)
    requires g.Valid() && k < count && k' < count && k != k' && g.Inside(start + CeilDiv(count, g.ColumnSize()))
    ensures g.Position(start, k) != g.Position(start, k')
  {
    StreamColumn(g, start, count, k);
    StreamColumn(g, start, count, k');
    if g.Position(start, k') == g.Position(start, k) {
      PositionInjective(g, start, k, start, k');
    }
  }

  lemma ReadAfterWrite(buffer: Bytes, data: Bytes, g: Grid, start: nat, end: nat)
    requires g.Valid() && |buffer| == g.rows * g.rowSize
    requires end == start + CeilDiv(|data|, g.ColumnSize()) && g.Inside(end)
    ensures Fits(|buffer|, g, start, 0, |data|)
    ensures |data| <= (end - start) * g.ColumnSize()
    ensures ReadColumns(Scatter(buffer, data, g, start, 0), g, start, end)[..|data|] == data
  {
    InsideFits(g, start, |data|);
    CeilDivCovers(|data|, g.ColumnSize(), end - start);
    var after := Scatter(buffer, data, g, start, 0);
    var read := ReadColumns(after, g, start, end);
    forall k | 0 <= k < |data| ensures read[k] == data[k] {
      var p := g.Position(start, k);
      assert p < |buffer|;
      forall k' {:trigger g.Position(start, k')} | k < k' < |data| ensures g.Position(start, k') != p {
        StreamApart(g, start, |data|, k, k');
      }
      ScatterPlaces(buffer, data, g, start, k);
    }
  }

  // Writing to some columns leaves what other columns read as they were.
  lemma ReadFrame(buffer: Bytes, data: Bytes, g: Grid, start: nat, first: nat, last: nat)
    requires g.Valid() && |buffer| == g.rows * g.rowSize
    requires first <= last && g.Inside(last)
    requires g.Inside(start + CeilDiv(|data|, g.ColumnSize()))
    requires last <= start || start + CeilDiv(|data|, g.ColumnSize()) <= first
    ensures Fits(|buffer|, g, start, 0, |data|)
    ensures ReadColumns(Scatter(buffer, data, g, start, 0), g, first, last) == ReadColumns(buffer, g, first, last)
  {
    InsideFits(g, start, |data|);
    var after := Scatter(buffer, data, g, start, 0);
    forall k | 0 <= k < (last - first) * g.ColumnSize()
      ensures ReadColumns(after, g, first, last)[k] == ReadColumns(buffer, g, first, last)[k]
    {
      ColumnBound(g, first, k, last - first);
      MulMonotone(g.Column(first, k) + 1, last, g.symbol);
      PositionInBuffer(g, first, k);
      var p := g.Position(first, k);
      forall k' {:trigger g.Position(start, k')} | 0 <= k' < |data| ensures g.Position(start, k') != p {
        StreamColumn(g, start, |data|, k');
        if g.Position(start, k') == p {
          PositionInjective(g, first, k, start, k');
        }
      }
      ScatterElsewhere(buffer, data, g, start, p);
    }
  }
}
