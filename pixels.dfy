/**
 * The pixel grid: Height rows of Width pixels, row-major, loaded from and
 * stored to the byte stream that follows the headers (three bytes per pixel in
 * Blue, Green, Red order, no row padding).
 */
module PixelGrid {
  import opened CArith
  import opened Wrappers
  import opened Streams
  import opened Sequences

  datatype Pixel = Pixel(Red: Byte, Green: Byte, Blue: Byte)

  /** `struct Pixel` as it lies in memory and on disk: Blue, Green, Red. */
  function PixelBytes(p: Pixel): (b: seq<Byte>)
    ensures |b| == 3
  {
    [p.Blue, p.Green, p.Red]
  }

  function DecodePixel(b: seq<Byte>): Pixel
    requires |b| == 3
  {
    Pixel(b[2], b[1], b[0])
  }

  lemma PixelRoundTrip(p: Pixel, b: seq<Byte>)
    ensures DecodePixel(PixelBytes(p)) == p
    ensures |b| == 3 ==> PixelBytes(DecodePixel(b)) == b
  {
  }

  /** `g` has `rows` rows of `cols` pixels each. */
  ghost predicate IsGrid(g: seq<seq<Pixel>>, rows: nat, cols: nat)
  {
    |g| == rows && forall r :: 0 <= r < rows ==> |g[r]| == cols
  }

  /** The first `n` pixels of row `r` of a two-dimensional array. */
  function RowCells(a: array2<Pixel>, r: nat, n: nat): (row: seq<Pixel>)
    reads a
    requires r < a.Length0 && n <= a.Length1
    ensures |row| == n
  {
    if n == 0 then [] else RowCells(a, r, n - 1) + [a[r, n - 1]]
  }

  /** The first `m` rows of a two-dimensional array. */
  function RowsUpTo(a: array2<Pixel>, m: nat): (g: seq<seq<Pixel>>)
    reads a
    requires m <= a.Length0
    ensures IsGrid(g, m, a.Length1)
  {
    if m == 0 then [] else RowsUpTo(a, m - 1) + [RowCells(a, m - 1, a.Length1)]
  }

  /** The pixels of a two-dimensional array, row by row. */
  function Cells(a: array2<Pixel>): (g: seq<seq<Pixel>>)
    reads a
    ensures IsGrid(g, a.Length0, a.Length1)
  {
    RowsUpTo(a, a.Length0)
  }

  lemma {:induction false} RowCellsAt(a: array2<Pixel>, r: nat, n: nat, c: nat)
    requires r < a.Length0 && c < n <= a.Length1
    ensures RowCells(a, r, n)[c] == a[r, c]
    decreases n
  {
    if c < n - 1 {
      RowCellsAt(a, r, n - 1, c);
    }
  }

  lemma {:induction false} RowsUpToAt(a: array2<Pixel>, m: nat, r: nat, c: nat)
    requires r < m <= a.Length0 && c < a.Length1
    ensures RowsUpTo(a, m)[r][c] == a[r, c]
    decreases m
  {
    if r < m - 1 {
      RowsUpToAt(a, m - 1, r, c);
    } else {
      RowCellsAt(a, r, a.Length1, c);
    }
  }

  /** Each pixel of `Cells(a)` is the array's pixel at the same row and column. */
  lemma CellsAt(a: array2<Pixel>, r: nat, c: nat)
    requires r < a.Length0 && c < a.Length1
    ensures Cells(a)[r][c] == a[r, c]
  {
    RowsUpToAt(a, a.Length0, r, c);
  }

  // ---------------------------------------------------------------- layout

  /** The number of pixels in `rows` full rows of `cols` pixels, counted row by row. */
  function PixelCount(rows: nat, cols: nat): (n: nat)
    ensures cols == 0 ==> n == 0
  {
    if rows == 0 then 0 else PixelCount(rows - 1, cols) + cols
  }

  /** The length of the stream of `rows` rows of `cols` three-byte pixels. */
  function GridSize(rows: nat, cols: nat): nat
  {
    3 * PixelCount(rows, cols)
  }

  /** Where pixel (r, c), number `PixelCount(r, cols) + c` in row-major order, starts in the stream. */
  function PixelOffset(r: nat, c: nat, cols: nat): nat
  {
    3 * (PixelCount(r, cols) + c)
  }

  lemma {:induction false} PixelCountIsProduct(rows: nat, cols: nat)
    ensures PixelCount(rows, cols) == rows * cols
  {
    if rows > 0 {
      PixelCountIsProduct(rows - 1, cols);
      MulPred(rows, cols);
    }
  }

  lemma MulPred(n: nat, x: nat)
    requires n > 0
    ensures (n - 1) * x + x == n * x
  {
  }

  /** One more row adds one row of pixels. */
  lemma PixelCountStep(rows: nat, cols: nat)
    ensures PixelCount(rows + 1, cols) == PixelCount(rows, cols) + cols
  {
  }

  lemma {:induction false} PixelCountMonotone(r: nat, rows: nat, cols: nat)
    requires r <= rows
    ensures PixelCount(r, cols) <= PixelCount(rows, cols)
  {
    if r < rows {
      PixelCountMonotone(r, rows - 1, cols);
    }
  }

  /** Every pixel of the grid lies inside its stream. */
  lemma OffsetBound(rows: nat, cols: nat, r: nat, c: nat)
    requires r < rows && c < cols
    ensures PixelOffset(r, c, cols) + 3 <= GridSize(rows, cols)
  {
    PixelCountStep(r, cols);
    PixelCountMonotone(r + 1, rows, cols);
  }

  lemma DivThree(x: int, k: int)
    requires 3 * k <= x < 3 * k + 3
    ensures x / 3 == k
  {
  }

  lemma MulMonotone(a: nat, b: nat, x: nat)
    ensures a <= b ==> a * x <= b * x
  {
  }

  lemma MulSucc(a: nat, x: nat)
    ensures (a + 1) * x == a * x + x
  {
  }

  /** Pixel number `count` in row-major order is in row `count / cols`, column `count % cols`. */
  lemma RowMajor(r: nat, c: nat, cols: nat, count: nat)
    requires c < cols && count == PixelCount(r, cols) + c
    ensures count / cols == r && count % cols == c
  {
    PixelCountIsProduct(r, cols);
    DivModUnique(count, cols, r, c);
  }

  /** Euclidean division has one quotient and remainder. */
  lemma DivModUnique(x: nat, d: nat, q: nat, m: nat)
    requires m < d && x == q * d + m
    ensures x / d == q && x % d == m
  {
    var q', m' := x / d, x % d;
    MulSucc(q, d);
    MulSucc(q', d);
    MulMonotone(q + 1, q', d);
    MulMonotone(q' + 1, q, d);
  }

  // ---------------------------------------------------------------- encoding

  /** The bytes of one row, pixel after pixel. */
  function RowBytes(row: seq<Pixel>): (b: seq<Byte>)
    ensures |b| == 3 * |row|
  {
    if row == [] then [] else RowBytes(row[..|row| - 1]) + PixelBytes(row[|row| - 1])
  }

  /** The bytes of a grid, row after row, with no padding. */
  function GridBytes(g: seq<seq<Pixel>>): seq<Byte>
  {
    if g == [] then [] else GridBytes(g[..|g| - 1]) + RowBytes(g[|g| - 1])
  }

  lemma {:induction false} GridBytesLength(g: seq<seq<Pixel>>, rows: nat, cols: nat)
    requires IsGrid(g, rows, cols)
    ensures |GridBytes(g)| == GridSize(rows, cols)
  {
    if rows > 0 {
      assert IsGrid(g[..rows - 1], rows - 1, cols);
      GridBytesLength(g[..rows - 1], rows - 1, cols);
      PixelCountStep(rows - 1, cols);
    }
  }

  // ---------------------------------------------------------------- decoding

  /** `cols` pixels from `3 * cols` bytes. */
  function DecodeRow(b: seq<Byte>, cols: nat): (row: seq<Pixel>)
    requires |b| == 3 * cols
    ensures |row| == cols
  {
    if cols == 0 then [] else DecodeRow(b[..|b| - 3], cols - 1) + [DecodePixel(b[|b| - 3..])]
  }

  /** `rows` rows of `cols` pixels from a stream of that size, row after row. */
  function DecodeGrid(b: seq<Byte>, rows: nat, cols: nat): (g: seq<seq<Pixel>>)
    requires |b| == GridSize(rows, cols)
    ensures |g| == rows
    decreases rows
  {
    if rows == 0 then []
    else
      PixelCountStep(rows - 1, cols);
      DecodeGrid(b[..|b| - 3 * cols], rows - 1, cols) + [DecodeRow(b[|b| - 3 * cols..], cols)]
  }

  lemma {:induction false} DecodeRowBytes(b: seq<Byte>, cols: nat)
    requires |b| == 3 * cols
    ensures RowBytes(DecodeRow(b, cols)) == b
  {
    if cols > 0 {
      var init, last := b[..|b| - 3], b[|b| - 3..];
      var row := DecodeRow(b, cols);
      assert row == DecodeRow(init, cols - 1) + [DecodePixel(last)];
      SplitAppend(DecodeRow(init, cols - 1), [DecodePixel(last)]);
      DecodeRowBytes(init, cols - 1);
      PixelRoundTrip(row[cols - 1], last);
      SplitAt(b, |b| - 3);
    }
  }

  /** Decoding a stream and encoding the grid again gives back the stream. */
  lemma {:induction false} DecodeGridBytes(b: seq<Byte>, rows: nat, cols: nat)
    requires |b| == GridSize(rows, cols)
    ensures IsGrid(DecodeGrid(b, rows, cols), rows, cols)
    ensures GridBytes(DecodeGrid(b, rows, cols)) == b
    decreases rows
  {
    DecodeGridShape(b, rows, cols);
    if rows > 0 {
      PixelCountStep(rows - 1, cols);
      var init, last := b[..|b| - 3 * cols], b[|b| - 3 * cols..];
      var g := DecodeGrid(b, rows, cols);
      assert g == DecodeGrid(init, rows - 1, cols) + [DecodeRow(last, cols)];
      SplitAppend(DecodeGrid(init, rows - 1, cols), [DecodeRow(last, cols)]);
      DecodeGridBytes(init, rows - 1, cols);
      DecodeRowBytes(last, cols);
      SplitAt(b, |b| - 3 * cols);
    }
  }

  lemma {:induction false} DecodeGridShape(b: seq<Byte>, rows: nat, cols: nat)
    requires |b| == GridSize(rows, cols)
    ensures IsGrid(DecodeGrid(b, rows, cols), rows, cols)
    decreases rows
  {
    if rows > 0 {
      PixelCountStep(rows - 1, cols);
      var init := b[..|b| - 3 * cols];
      DecodeGridShape(init, rows - 1, cols);
    }
  }

  lemma {:induction false} RowBytesDecode(row: seq<Pixel>)
    ensures DecodeRow(RowBytes(row), |row|) == row
  {
    if row != [] {
      var b := RowBytes(row);
      var init := row[..|row| - 1];
      RowBytesDecode(init);
      assert b[..|b| - 3] == RowBytes(init);
      assert b[|b| - 3..] == PixelBytes(row[|row| - 1]);
      InitLast(row);
    }
  }

  /** Encoding a grid and decoding the stream again gives back the grid. */
  lemma {:induction false} GridBytesDecode(g: seq<seq<Pixel>>, rows: nat, cols: nat)
    requires IsGrid(g, rows, cols)
    ensures |GridBytes(g)| == GridSize(rows, cols)
    ensures DecodeGrid(GridBytes(g), rows, cols) == g
  {
    GridBytesLength(g, rows, cols);
    if rows > 0 {
      PixelCountStep(rows - 1, cols);
      var b := GridBytes(g);
      var init, last := g[..rows - 1], g[rows - 1];
      assert IsGrid(init, rows - 1, cols);
      GridBytesLength(init, rows - 1, cols);
      GridBytesDecode(init, rows - 1, cols);
      assert b[..|b| - 3 * cols] == GridBytes(init);
      assert b[|b| - 3 * cols..] == RowBytes(last);
      RowBytesDecode(last);
      InitLast(g);
    }
  }

  lemma {:induction false} DecodeRowAt(b: seq<Byte>, cols: nat, c: nat)
    requires |b| == 3 * cols && c < cols
    ensures DecodeRow(b, cols)[c] == DecodePixel(b[3 * c..3 * c + 3])
  {
    if c < cols - 1 {
      DecodeRowAt(b[..|b| - 3], cols - 1, c);
      SliceOfPrefix(b, |b| - 3, 3 * c, 3 * c + 3);
    }
  }

  /** Pixel (r, c) of the decoded grid comes from the three bytes at its offset. */
  lemma {:induction false} DecodeGridAt(b: seq<Byte>, rows: nat, cols: nat, r: nat, c: nat)
    requires |b| == GridSize(rows, cols) && r < rows && c < cols
    ensures PixelOffset(r, c, cols) + 3 <= |b|
    ensures |DecodeGrid(b, rows, cols)[r]| == cols
    ensures DecodeGrid(b, rows, cols)[r][c] == DecodePixel(b[PixelOffset(r, c, cols)..PixelOffset(r, c, cols) + 3])
    decreases rows
  {
    OffsetBound(rows, cols, r, c);
    PixelCountStep(rows - 1, cols);
    var o := PixelOffset(r, c, cols);
    var init, last := b[..|b| - 3 * cols], b[|b| - 3 * cols..];
    assert DecodeGrid(b, rows, cols) == DecodeGrid(init, rows - 1, cols) + [DecodeRow(last, cols)];
    if r < rows - 1 {
      DecodeGridAt(init, rows - 1, cols, r, c);
      SliceOfPrefix(b, |b| - 3 * cols, o, o + 3);
    } else {
      DecodeRowAt(last, cols, c);
      assert o == |b| - 3 * cols + 3 * c;
      SliceOfSuffix(b, |b| - 3 * cols, 3 * c, 3 * c + 3);
    }
  }

  /** The three bytes at `3 * c` in the bytes of a row encode its pixel `c`. */
  lemma {:induction false} RowBytesAt(row: seq<Pixel>, c: nat)
    requires c < |row|
    ensures RowBytes(row)[3 * c..3 * c + 3] == PixelBytes(row[c])
  {
    var init := row[..|row| - 1];
    if c < |row| - 1 {
      RowBytesAt(init, c);
      var b := RowBytes(row);
      assert b == RowBytes(init) + PixelBytes(row[|row| - 1]);
      assert b[3 * c..3 * c + 3] == RowBytes(init)[3 * c..3 * c + 3];
    }
  }

  /** Row `r` of a grid occupies the bytes from `GridSize(r, cols)` to `GridSize(r + 1, cols)` of its stream. */
  lemma {:induction false} GridBytesRow(g: seq<seq<Pixel>>, rows: nat, cols: nat, r: nat)
    requires IsGrid(g, rows, cols) && r < rows
    ensures GridSize(r + 1, cols) <= |GridBytes(g)|
    ensures GridBytes(g)[GridSize(r, cols)..GridSize(r + 1, cols)] == RowBytes(g[r])
  {
    GridBytesLength(g, rows, cols);
    PixelCountStep(r, cols);
    PixelCountMonotone(r + 1, rows, cols);
    var init := g[..rows - 1];
    assert IsGrid(init, rows - 1, cols);
    GridBytesLength(init, rows - 1, cols);
    var b, head, tail := GridBytes(g), GridBytes(init), RowBytes(g[rows - 1]);
    assert b == head + tail;
    SplitAppend(head, tail);
    if r < rows - 1 {
      GridBytesRow(init, rows - 1, cols, r);
      assert init[r] == g[r];
      PixelCountMonotone(r + 1, rows - 1, cols);
      SliceOfPrefix(b, |head|, GridSize(r, cols), GridSize(r + 1, cols));
    } else {
      assert GridSize(r, cols) == |head| && GridSize(r + 1, cols) == |b|;
      assert b[|head|..|b|] == b[|head|..];
    }
  }

  // ---------------------------------------------------------------- load and store

  /** Which pixel a transfer stopped at, with the number of pixels moved before it. */
  datatype Shortfall = Shortfall(count: nat, row: nat, col: nat)

  /** Pixel number `count` in row-major order of a grid `cols` pixels wide, found row by row. */
  function StopAt(count: nat, cols: nat): (s: Shortfall)
    requires cols > 0
    ensures s.count == count && s.col < cols
  {
    if count < cols then Shortfall(count, 0, count)
    else
      var above := StopAt(count - cols, cols);
      Shortfall(count, above.row + 1, above.col)
  }

  /** Pixel (r, c) is pixel number `PixelCount(r, cols) + c`. */
  lemma {:induction false} StopAtPosition(r: nat, c: nat, cols: nat)
    requires c < cols
    ensures StopAt(PixelCount(r, cols) + c, cols) == Shortfall(PixelCount(r, cols) + c, r, c)
  {
    if r > 0 {
      StopAtPosition(r - 1, c, cols);
    }
  }

  /** The row and column of pixel number `count` are its quotient and remainder by the width. */
  lemma StopAtDivMod(count: nat, cols: nat)
    requires cols > 0
    ensures StopAt(count, cols) == Shortfall(count, count / cols, count % cols)
  {
    var s := StopAt(count, cols);
    StopAtRow(count, cols);
    RowMajor(s.row, s.col, cols, count);
  }

  lemma {:induction false} StopAtRow(count: nat, cols: nat)
    requires cols > 0
    ensures count == PixelCount(StopAt(count, cols).row, cols) + StopAt(count, cols).col
    decreases count
  {
    if count >= cols {
      StopAtRow(count - cols, cols);
    }
  }

  /**
   * Where a pixel-by-pixel transfer of a `size`-byte stream stops when only
   * `room` bytes can move: nowhere when it fits, otherwise at the first pixel
   * whose three bytes do not.
   */
  function TransferStop(room: nat, size: nat, cols: nat): Option<Shortfall>
    requires size <= room || cols > 0
  {
    if size <= room then None else Some(StopAt(room / 3, cols))
  }

  /** How many bytes of a `size`-byte stream such a transfer moves. */
  function Transferred(room: nat, size: nat): nat
  {
    if size <= room then size else 3 * (room / 3)
  }

  /** A transfer that stops moves exactly the whole pixels before its stop, and no fewer than fit. */
  lemma TransferStopMeaning(room: nat, size: nat, cols: nat)
    requires size <= room || cols > 0
    ensures TransferStop(room, size, cols).None? <==> size <= room
    ensures TransferStop(room, size, cols).Some? ==>
      var s := TransferStop(room, size, cols).value;
      Transferred(room, size) == 3 * s.count <= room < 3 * s.count + 3
      && s.row == s.count / cols && s.col == s.count % cols
  {
    if size > room {
      StopAtDivMod(room / 3, cols);
    }
  }

  /** A transfer whose room ends inside pixel (row, column) of a rows-by-cols grid stops at that pixel. */
  lemma StopInRow(room: nat, rows: nat, cols: nat, row: nat, column: nat)
    requires row < rows && column < cols
    requires 3 * (PixelCount(row, cols) + column) <= room < 3 * (PixelCount(row, cols) + column) + 3
    ensures TransferStop(room, GridSize(rows, cols), cols) == Some(Shortfall(PixelCount(row, cols) + column, row, column))
    ensures Transferred(room, GridSize(rows, cols)) == 3 * (PixelCount(row, cols) + column)
  {
    OffsetBound(rows, cols, row, column);
    DivThree(room, PixelCount(row, cols) + column);
    StopAtPosition(row, column, cols);
  }

  /** Pixels (r, c) before (row, column) in row-major order hold what `b` has at their offsets. */
  ghost predicate LoadedUpTo(pix: array2<Pixel>, b: seq<Byte>, row: nat, column: nat)
    reads pix
  {
    forall r, c :: 0 <= r < pix.Length0 && 0 <= c < pix.Length1 && (r < row || (r == row && c < column)) ==>
      PixelOffset(r, c, pix.Length1) + 3 <= |b|
      && pix[r, c] == DecodePixel(b[PixelOffset(r, c, pix.Length1)..PixelOffset(r, c, pix.Length1) + 3])
  }

  /** Two grids of the same shape that agree pixel by pixel are equal. */
  lemma GridsEqual<T>(g: seq<seq<T>>, d: seq<seq<T>>, rows: nat, cols: nat)
    requires |g| == rows && |d| == rows
    requires forall r :: 0 <= r < rows ==> |g[r]| == cols && |d[r]| == cols
    requires forall r, c :: 0 <= r < rows && 0 <= c < cols ==> g[r][c] == d[r][c]
    ensures g == d
  {
    forall r | 0 <= r < rows
      ensures g[r] == d[r]
    {
    }
  }

  /** A grid whose every pixel matches the bytes at its offset is the decoded grid. */
  lemma LoadedGrid(pix: array2<Pixel>, b: seq<Byte>)
    requires GridSize(pix.Length0, pix.Length1) <= |b|
    requires LoadedUpTo(pix, b, pix.Length0, 0)
    ensures Cells(pix) == DecodeGrid(b[..GridSize(pix.Length0, pix.Length1)], pix.Length0, pix.Length1)
  {
    var rows, cols := pix.Length0, pix.Length1;
    var prefix := b[..GridSize(rows, cols)];
    var g, d := Cells(pix), DecodeGrid(prefix, rows, cols);
    DecodeGridBytes(prefix, rows, cols);
    forall r, c | 0 <= r < rows && 0 <= c < cols
      ensures g[r][c] == d[r][c]
    {
      CellsAt(pix, r, c);
      DecodeGridAt(prefix, rows, cols, r, c);
      var o := PixelOffset(r, c, cols);
      SliceOfPrefix(b, GridSize(rows, cols), o, o + 3);
    }
    GridsEqual(g, d, rows, cols);
  }

  /** Loads the grid that `pix` stands for, one three-byte `fread` per pixel, row-major; the first short read ends the load. */
  method LoadPixels(f: InputFile, pix: array2<Pixel>) returns (failure: Option<Shortfall>)
    requires f.Valid()
    modifies f, pix
    ensures f.Valid()
    ensures failure == TransferStop(|old(f.Remaining())|, GridSize(pix.Length0, pix.Length1), pix.Length1)
    ensures failure.Some? ==> f.pos == |f.data|
    ensures failure.None? ==> f.pos == old(f.pos) + GridSize(pix.Length0, pix.Length1)
    ensures failure.None? ==>
      Cells(pix) == DecodeGrid(old(f.Remaining())[..GridSize(pix.Length0, pix.Length1)], pix.Length0, pix.Length1)
  {
    var rows, cols := pix.Length0, pix.Length1;
    ghost var p0 := f.pos;
    ghost var rest := f.Remaining();
    var row, pixelCount := 0, 0;
    while row < rows
      invariant 0 <= row <= rows && f.Valid() && rest == f.data[p0..]
      invariant pixelCount == PixelCount(row, cols) && f.pos == p0 + 3 * pixelCount
      invariant LoadedUpTo(pix, rest, row, 0)
    {
      var stopped;
      stopped, pixelCount := LoadRow(f, pix, row, pixelCount, p0, rest);
      if stopped.Some? {
        StopInRow(|rest|, rows, cols, row, stopped.value);
        return Some(Shortfall(pixelCount, row, stopped.value));
      }
      PixelCountStep(row, cols);
      row := row + 1;
    }
    LoadedGrid(pix, rest);
    failure := None;
  }

  /** Loads row `row` of the grid, counting pixels on from `pixelCount`; the first short read ends the row. */
  method LoadRow(f: InputFile, pix: array2<Pixel>, row: nat, pixelCount: nat, ghost p0: nat, ghost rest: seq<Byte>)
    returns (stopped: Option<nat>, count: nat)
    requires f.Valid() && p0 <= |f.data| && rest == f.data[p0..] && row < pix.Length0
    requires pixelCount == PixelCount(row, pix.Length1) && f.pos == p0 + 3 * pixelCount
    requires LoadedUpTo(pix, rest, row, 0)
    modifies f, pix
    ensures f.Valid()
    ensures stopped.None? ==>
      count == pixelCount + pix.Length1 && f.pos == p0 + 3 * count && LoadedUpTo(pix, rest, row + 1, 0)
    ensures stopped.Some? ==>
      stopped.value < pix.Length1 && f.pos == |f.data| && count == pixelCount + stopped.value
      && 3 * count <= |rest| < 3 * count + 3
  {
    var cols := pix.Length1;
    var column := 0;
    count := pixelCount;
    while column < cols
      invariant 0 <= column <= cols && f.Valid()
      invariant count == pixelCount + column && f.pos == p0 + 3 * count
      invariant LoadedUpTo(pix, rest, row, column)
    {
      var onePixel := f.Read(3);
      if onePixel.None? {
        return Some(column), count;
      }
      ghost var o := PixelOffset(row, column, cols);
      assert onePixel.value == rest[o..o + 3];
      label before:
      pix[row, column] := DecodePixel(onePixel.value);
      forall r, c | 0 <= r < pix.Length0 && 0 <= c < cols && (r < row || (r == row && c < column + 1))
        ensures PixelOffset(r, c, cols) + 3 <= |rest|
        ensures pix[r, c] == DecodePixel(rest[PixelOffset(r, c, cols)..PixelOffset(r, c, cols) + 3])
      {
        if r != row || c != column {
          assert pix[r, c] == old@before(pix[r, c]);
        }
      }
      count := count + 1;
      column := column + 1;
    }
    stopped := None;
  }

  /** Stores row `row` of a grid, one three-byte `fwrite` per pixel; the first failed write ends the row. */
  method StoreRow(out: OutputFile, pix: array2<Pixel>, row: nat, ghost line: seq<Byte>) returns (stopped: Option<nat>)
    requires out.Valid() && row < pix.Length0 && line == RowBytes(Cells(pix)[row])
    modifies out
    ensures out.Valid()
    ensures var b0 := old(out.bytes);
      && (stopped.None? <==> |b0| + |line| <= out.capacity)
      && (stopped.None? ==> out.bytes == b0 + line)
      && (stopped.Some? ==>
            var c := stopped.value;
            c < pix.Length1 && |b0| + 3 * c <= out.capacity < |b0| + 3 * c + 3
            && out.bytes == b0 + line[..3 * c])
  {
    var cols := pix.Length1;
    ghost var b0 := out.bytes;
    var column := 0;
    while column < cols
      invariant 0 <= column <= cols && out.Valid()
      invariant out.bytes == b0 + line[..3 * column]
    {
      RowBytesAt(Cells(pix)[row], column);
      CellsAt(pix, row, column);
      var ok := out.Write(PixelBytes(pix[row, column]));
      if !ok {
        return Some(column);
      }
      PrefixExtend(line, 3 * column, 3 * column + 3);
      column := column + 1;
    }
    assert line[..3 * column] == line;
    stopped := None;
  }

  /** After a row of the stream is appended to the bytes before it, the output holds the stream up to the row's end. */
  lemma RowStored(b0: seq<Byte>, whole: seq<Byte>, start: nat, size: nat, out: seq<Byte>)
    requires start + size <= |whole|
    requires out == (b0 + whole[..start]) + whole[start..start + size]
    ensures out == b0 + whole[..start + size]
  {
    PrefixExtend(whole, start, start + size);
    AppendAssoc(b0, whole[..start], whole[start..start + size]);
  }

  /** A row cut short after `k` bytes leaves the output holding the stream up to that point. */
  lemma RowCut(b0: seq<Byte>, whole: seq<Byte>, start: nat, size: nat, k: nat, out: seq<Byte>)
    requires start + size <= |whole| && k <= size
    requires out == (b0 + whole[..start]) + whole[start..start + size][..k]
    ensures |out| == |b0| + start + k
    ensures out == b0 + whole[..start + k]
  {
    PrefixInto(whole, start, size, k);
    AppendAssoc(b0, whole[..start], whole[start..start + size][..k]);
  }

  /** A store whose room runs out at pixel (row, column) has written the bytes before it and stops there. */
  lemma StoppedInRow(b0: seq<Byte>, whole: seq<Byte>, bytes: seq<Byte>, capacity: nat, rows: nat, cols: nat, row: nat, column: nat)
    requires |whole| == GridSize(rows, cols) && row < rows && column < cols
    requires GridSize(row + 1, cols) <= |whole|
    requires bytes == (b0 + whole[..GridSize(row, cols)]) + whole[GridSize(row, cols)..GridSize(row, cols) + 3 * cols][..3 * column]
    requires |b0| + GridSize(row, cols) + 3 * column <= capacity < |b0| + GridSize(row, cols) + 3 * column + 3
    ensures TransferStop(capacity - |b0|, GridSize(rows, cols), cols) == Some(Shortfall(PixelCount(row, cols) + column, row, column))
    ensures bytes == b0 + whole[..Transferred(capacity - |b0|, GridSize(rows, cols))]
  {
    PixelCountStep(row, cols);
    RowCut(b0, whole, GridSize(row, cols), 3 * cols, 3 * column, bytes);
    StopInRow(capacity - |b0|, rows, cols, row, column);
  }

  /** Stores a grid, one three-byte `fwrite` per pixel, row-major; the first failed write ends the store. */
  method StorePixels(out: OutputFile, pix: array2<Pixel>) returns (failure: Option<Shortfall>)
    requires out.Valid()
    modifies out
    ensures out.Valid()
    ensures |GridBytes(Cells(pix))| == GridSize(pix.Length0, pix.Length1)
    ensures failure == TransferStop(out.capacity - |old(out.bytes)|, GridSize(pix.Length0, pix.Length1), pix.Length1)
    ensures out.bytes == old(out.bytes) + GridBytes(Cells(pix))[..Transferred(out.capacity - |old(out.bytes)|, GridSize(pix.Length0, pix.Length1))]
  {
    ghost var g := Cells(pix);
    GridBytesLength(g, pix.Length0, pix.Length1);
    failure := StoreRows(out, pix, g, GridBytes(g));
    assert g == Cells(pix);
  }

  /** The loop of `StorePixels`, over the grid `g` and the byte stream `whole` the array holds. */
  method StoreRows(out: OutputFile, pix: array2<Pixel>, ghost g: seq<seq<Pixel>>, ghost whole: seq<Byte>) returns (failure: Option<Shortfall>)
    requires out.Valid() && g == Cells(pix) && whole == GridBytes(g)
    requires |whole| == GridSize(pix.Length0, pix.Length1)
    modifies out
    ensures out.Valid()
    ensures failure == TransferStop(out.capacity - |old(out.bytes)|, GridSize(pix.Length0, pix.Length1), pix.Length1)
    ensures out.bytes == old(out.bytes) + whole[..Transferred(out.capacity - |old(out.bytes)|, GridSize(pix.Length0, pix.Length1))]
  {
    var rows, cols := pix.Length0, pix.Length1;
    ghost var b0 := out.bytes;
    var row, pixelCount := 0, 0;
    while row < rows
      invariant 0 <= row <= rows && out.Valid()
      invariant pixelCount == PixelCount(row, cols) && GridSize(row, cols) <= |whole|
      invariant out.bytes == b0 + whole[..GridSize(row, cols)]
    {
      assert g == Cells(pix);
      var stopped := StoreNextRow(out, pix, g, whole, b0, row);
      if stopped.Some? {
        return Some(Shortfall(pixelCount + stopped.value, row, stopped.value));
      }
      PixelCountStep(row, cols);
      pixelCount := pixelCount + cols;
      row := row + 1;
    }
    assert whole[..GridSize(rows, cols)] == whole;
    failure := None;
  }

  /** One pass of the row loop of `StorePixels`: stores row `row` after the rows before it. */
  method StoreNextRow(out: OutputFile, pix: array2<Pixel>, ghost g: seq<seq<Pixel>>, ghost whole: seq<Byte>, ghost b0: seq<Byte>, row: nat)
    returns (stopped: Option<nat>)
    requires out.Valid() && g == Cells(pix) && whole == GridBytes(g)
    requires |whole| == GridSize(pix.Length0, pix.Length1) && row < pix.Length0
    requires GridSize(row, pix.Length1) <= |whole| && out.bytes == b0 + whole[..GridSize(row, pix.Length1)]
    modifies out
    ensures out.Valid()
    ensures stopped.None? ==>
      GridSize(row + 1, pix.Length1) <= |whole| && out.bytes == b0 + whole[..GridSize(row + 1, pix.Length1)]
    ensures stopped.Some? ==> |b0| <= out.capacity
    ensures stopped.Some? ==>
      TransferStop(out.capacity - |b0|, GridSize(pix.Length0, pix.Length1), pix.Length1)
      == Some(Shortfall(PixelCount(row, pix.Length1) + stopped.value, row, stopped.value))
    ensures stopped.Some? ==> out.bytes == b0 + whole[..Transferred(out.capacity - |b0|, GridSize(pix.Length0, pix.Length1))]
  {
    GridBytesRow(g, pix.Length0, pix.Length1, row);
    PixelCountStep(row, pix.Length1);
    ghost var start := GridSize(row, pix.Length1);
    stopped := StoreRow(out, pix, row, whole[start..start + 3 * pix.Length1]);
    if stopped.Some? {
      StoppedInRow(b0, whole, out.bytes, out.capacity, pix.Length0, pix.Length1, row, stopped.value);
    } else {
      RowStored(b0, whole, start, 3 * pix.Length1, out.bytes);
    }
  }
}
