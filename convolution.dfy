/**
 * The edge filter: the 3 by 3 Laplacian kernel applied to each interior pixel,
 * channel by channel, the signed sum mapped to a byte by one of four modes;
 * pixels on the border of the grid are copied unchanged.
 */
module Convolution {
  import opened CArith
  import opened PixelGrid

  /** The four commands. */
  datatype Mode = Trunc | Center | Mag | Scale

  /** The three colour channels of a pixel, each summed separately. */
  datatype Channel = RedChannel | GreenChannel | BlueChannel

  function Intensity(p: Pixel, ch: Channel): Byte
  {
    match ch
    case RedChannel => p.Red
    case GreenChannel => p.Green
    case BlueChannel => p.Blue
  }

  /** The kernel `Matrix` (a `const char` table, its entries read as signed values). */
  const Kernel: seq<seq<int>> := [[0, -1, 0], [-1, 4, -1], [0, -1, 0]]

  // ---------------------------------------------------------------- channel sums

  /** The 3 by 3 neighbourhood of pixel (r, c) lies inside the grid. */
  predicate Inside(g: seq<seq<Pixel>>, r: int, c: int)
  {
    1 <= r && r + 1 < |g| && 1 <= c && c + 1 < |g[r - 1]| && c + 1 < |g[r]| && c + 1 < |g[r + 1]|
  }

  /** Kernel cell (i, j) times the channel value of the neighbour it covers. */
  function Term(g: seq<seq<Pixel>>, r: int, c: int, ch: Channel, i: nat, j: nat): int
    requires Inside(g, r, c) && i < 3 && j < 3
  {
    Intensity(g[r - 1 + i][c - 1 + j], ch) * Kernel[i][j]
  }

  /** The first `j` terms of kernel row `i`. */
  function RowSum(g: seq<seq<Pixel>>, r: int, c: int, ch: Channel, i: nat, j: nat): int
    requires Inside(g, r, c) && i < 3 && j <= 3
  {
    if j == 0 then 0 else RowSum(g, r, c, ch, i, j - 1) + Term(g, r, c, ch, i, j - 1)
  }

  /** The terms of the first `i` kernel rows, in the order the 3 by 3 loop adds them. */
  function WindowSum(g: seq<seq<Pixel>>, r: int, c: int, ch: Channel, i: nat): int
    requires Inside(g, r, c) && i <= 3
  {
    if i == 0 then 0 else WindowSum(g, r, c, ch, i - 1) + RowSum(g, r, c, ch, i - 1, 3)
  }

  /** The channel sum of pixel (r, c): `red_result`, `green_result` or `blue_result` after the 3 by 3 loop. */
  function KernelSum(g: seq<seq<Pixel>>, r: int, c: int, ch: Channel): int
    requires Inside(g, r, c)
  {
    WindowSum(g, r, c, ch, 3)
  }

  lemma RowSumThree(g: seq<seq<Pixel>>, r: int, c: int, ch: Channel, i: nat)
    requires Inside(g, r, c) && i < 3
    ensures RowSum(g, r, c, ch, i, 3) == Term(g, r, c, ch, i, 0) + Term(g, r, c, ch, i, 1) + Term(g, r, c, ch, i, 2)
  {
    assert RowSum(g, r, c, ch, i, 1) == Term(g, r, c, ch, i, 0);
    assert RowSum(g, r, c, ch, i, 2) == Term(g, r, c, ch, i, 0) + Term(g, r, c, ch, i, 1);
  }

  /** The sum is the discrete Laplacian: four times the centre less the four edge neighbours. */
  lemma KernelSumIsLaplacian(g: seq<seq<Pixel>>, r: int, c: int, ch: Channel)
    requires Inside(g, r, c)
    ensures KernelSum(g, r, c, ch) ==
      4 * Intensity(g[r][c], ch) - Intensity(g[r - 1][c], ch) - Intensity(g[r + 1][c], ch)
      - Intensity(g[r][c - 1], ch) - Intensity(g[r][c + 1], ch)
  {
    RowSumThree(g, r, c, ch, 0);
    RowSumThree(g, r, c, ch, 1);
    RowSumThree(g, r, c, ch, 2);
    assert WindowSum(g, r, c, ch, 1) == RowSum(g, r, c, ch, 0, 3);
    assert WindowSum(g, r, c, ch, 2) == RowSum(g, r, c, ch, 0, 3) + RowSum(g, r, c, ch, 1, 3);
  }

  /** Every channel sum lies in [-1020, 1020]. */
  lemma KernelSumBounds(g: seq<seq<Pixel>>, r: int, c: int, ch: Channel)
    requires Inside(g, r, c)
    ensures -1020 <= KernelSum(g, r, c, ch) <= 1020
  {
    KernelSumIsLaplacian(g, r, c, ch);
  }

  /** A pixel whose four edge neighbours all equal it has channel sums 0. */
  lemma FlatNeighbourhood(g: seq<seq<Pixel>>, r: int, c: int, ch: Channel)
    requires Inside(g, r, c)
    requires g[r - 1][c] == g[r + 1][c] == g[r][c - 1] == g[r][c + 1] == g[r][c]
    ensures KernelSum(g, r, c, ch) == 0
  {
    KernelSumIsLaplacian(g, r, c, ch);
  }

  // ---------------------------------------------------------------- modes

  /** Clamping to [0, 255]. */
  function Clamp(x: int): Byte
  {
    if x < 0 then 0 else if x > 255 then 255 else x
  }

  /** `new_pixel_color` for a channel sum `s` under `mode`. */
  function MapSum(mode: Mode, s: int): Byte
  {
    match mode
    case Trunc => Narrow(s)
    case Center => Clamp(s + 128)
    case Mag => if Abs(s) > 255 then 255 else Abs(s)
    case Scale => Narrow(TruncDiv8(s) + 128)
  }

  /** The clamped value is the byte nearest to `x`. */
  lemma ClampIsNearest(x: int, v: Byte)
    ensures Abs(x - Clamp(x)) <= Abs(x - v)
    ensures 0 <= x <= 255 ==> Clamp(x) == x
  {
  }

  lemma ClampMonotone(x: int, y: int)
    requires x <= y
    ensures Clamp(x) <= Clamp(y)
  {
  }

  /** `trunc` keeps the sum modulo 256: it wraps (300 becomes 44) rather than clamps. */
  lemma TruncWraps(s: int)
    ensures MapSum(Trunc, s + 256) == MapSum(Trunc, s)
    ensures 0 <= s < 256 ==> MapSum(Trunc, s) == s
    ensures MapSum(Trunc, 300) == 44 && MapSum(Trunc, -1) == 255
  {
  }

  /** `center` gives the byte nearest to the sum shifted up by 128, and keeps the order of sums. */
  lemma CenterMeaning(s: int, t: int, v: Byte)
    ensures Abs(s + 128 - MapSum(Center, s)) <= Abs(s + 128 - v)
    ensures s <= t ==> MapSum(Center, s) <= MapSum(Center, t)
  {
    ClampIsNearest(s + 128, v);
    if s <= t {
      ClampMonotone(s + 128, t + 128);
    }
  }

  /** `mag` is the magnitude of the sum, capped at 255, and ignores its sign. */
  lemma MagMeaning(s: int)
    ensures MapSum(Mag, s) == MapSum(Mag, -s)
    ensures Abs(s) <= 255 ==> MapSum(Mag, s) == Abs(s)
    ensures Abs(s) > 255 ==> MapSum(Mag, s) == 255
  {
  }

  /**
   * `scale` maps every possible sum into [1, 255] without wrapping, keeps the
   * order of sums, and treats opposite sums symmetrically about 128.
   */
  lemma ScaleMeaning(s: int, t: int)
    requires -1020 <= s <= 1020 && -1020 <= t <= 1020
    ensures 1 <= TruncDiv8(s) + 128 <= 255
    ensures MapSum(Scale, s) == TruncDiv8(s) + 128
    ensures MapSum(Scale, -s) == 256 - MapSum(Scale, s)
    ensures s <= t ==> MapSum(Scale, s) <= MapSum(Scale, t)
  {
    TruncDiv8Negate(s);
  }

  /** A zero sum gives 0 under `trunc` and `mag`, and 128 under `center` and `scale`. */
  lemma ZeroSum()
    ensures MapSum(Trunc, 0) == 0 && MapSum(Center, 0) == 128
    ensures MapSum(Mag, 0) == 0 && MapSum(Scale, 0) == 128
  {
  }

  // ---------------------------------------------------------------- the filtered grid

  /** Pixel (r, c) lies on the border of a rows-by-cols grid. */
  predicate OnBorder(rows: nat, cols: nat, r: nat, c: nat)
  {
    c == 0 || r == 0 || c == cols - 1 || r == rows - 1
  }

  lemma InteriorIsInside(g: seq<seq<Pixel>>, rows: nat, cols: nat, r: nat, c: nat)
    requires IsGrid(g, rows, cols) && r < rows && c < cols && !OnBorder(rows, cols, r, c)
    ensures Inside(g, r, c)
  {
    assert |g[r - 1]| == |g[r]| == |g[r + 1]| == cols;
  }

  /** Pixel (r, c) of the filtered grid. */
  function Filtered(g: seq<seq<Pixel>>, rows: nat, cols: nat, mode: Mode, r: nat, c: nat): Pixel
    requires IsGrid(g, rows, cols) && r < rows && c < cols
  {
    if OnBorder(rows, cols, r, c) then g[r][c]
    else
      InteriorIsInside(g, rows, cols, r, c);
      Pixel(MapSum(mode, KernelSum(g, r, c, RedChannel)),
            MapSum(mode, KernelSum(g, r, c, GreenChannel)),
            MapSum(mode, KernelSum(g, r, c, BlueChannel)))
  }

  /** The grid `pixel_transform` holds after the transform loop. */
  function Convolve(g: seq<seq<Pixel>>, rows: nat, cols: nat, mode: Mode): (t: seq<seq<Pixel>>)
    requires IsGrid(g, rows, cols)
    ensures IsGrid(t, rows, cols)
  {
    seq(rows, r requires 0 <= r < rows => seq(cols, c requires 0 <= c < cols => Filtered(g, rows, cols, mode, r, c)))
  }

  /** Border pixels pass through unchanged, whatever the mode. */
  lemma BorderUnchanged(g: seq<seq<Pixel>>, rows: nat, cols: nat, mode: Mode, r: nat, c: nat)
    requires IsGrid(g, rows, cols) && r < rows && c < cols && OnBorder(rows, cols, r, c)
    ensures Convolve(g, rows, cols, mode)[r][c] == g[r][c]
  {
  }

  /** Each channel of an interior pixel is the mapped Laplacian of that channel. */
  lemma InteriorFiltered(g: seq<seq<Pixel>>, rows: nat, cols: nat, mode: Mode, r: nat, c: nat, ch: Channel)
    requires IsGrid(g, rows, cols) && r < rows && c < cols && !OnBorder(rows, cols, r, c)
    ensures Intensity(Convolve(g, rows, cols, mode)[r][c], ch) == MapSum(mode,
      4 * Intensity(g[r][c], ch) - Intensity(g[r - 1][c], ch) - Intensity(g[r + 1][c], ch)
      - Intensity(g[r][c - 1], ch) - Intensity(g[r][c + 1], ch))
  {
    InteriorIsInside(g, rows, cols, r, c);
    KernelSumIsLaplacian(g, r, c, ch);
  }

  /** An interior pixel equal to its four edge neighbours becomes grey: 0 under `trunc` and `mag`, 128 under `center` and `scale`. */
  lemma FlatInterior(g: seq<seq<Pixel>>, rows: nat, cols: nat, mode: Mode, r: nat, c: nat)
    requires IsGrid(g, rows, cols) && r < rows && c < cols && !OnBorder(rows, cols, r, c)
    requires g[r - 1][c] == g[r + 1][c] == g[r][c - 1] == g[r][c + 1] == g[r][c]
    ensures var z := if mode in {Trunc, Mag} then 0 else 128;
      Convolve(g, rows, cols, mode)[r][c] == Pixel(z, z, z)
  {
    InteriorIsInside(g, rows, cols, r, c);
    FlatNeighbourhood(g, r, c, RedChannel);
    FlatNeighbourhood(g, r, c, GreenChannel);
    FlatNeighbourhood(g, r, c, BlueChannel);
  }

  /** A grid less than three pixels wide or high has no interior and passes through unchanged. */
  lemma SmallGridUnchanged(g: seq<seq<Pixel>>, rows: nat, cols: nat, mode: Mode)
    requires IsGrid(g, rows, cols) && (rows < 3 || cols < 3)
    ensures Convolve(g, rows, cols, mode) == g
  {
    var t := Convolve(g, rows, cols, mode);
    forall r, c | 0 <= r < rows && 0 <= c < cols
      ensures t[r][c] == g[r][c]
    {
      BorderUnchanged(g, rows, cols, mode, r, c);
    }
    GridsEqual(t, g, rows, cols);
  }

  // ---------------------------------------------------------------- the transform loop

  /** Maps one channel sum the way the branch for `mode` does, step by step. */
  method MapChannel(mode: Mode, sum: int) returns (color: Byte)
    ensures color == MapSum(mode, sum)
  {
    var result := sum;
    match mode {
      case Trunc =>
      case Center =>
        result := result + 128;
        if result < 0 { result := 0; }
        if result > 255 { result := 255; }
      case Mag =>
        result := Abs(result);
        if result > 255 { result := 255; }
      case Scale =>
        result := TruncDiv8(result);
        result := result + 128;
    }
    color := Narrow(result);
  }

  /** The 3 by 3 loop: the three channel sums around interior pixel (row, col). */
  method NeighbourhoodSums(pix: array2<Pixel>, row: nat, col: nat, ghost g: seq<seq<Pixel>>)
    returns (red: int, green: int, blue: int)
    requires g == Cells(pix) && Inside(g, row, col)
    ensures red == KernelSum(g, row, col, RedChannel)
    ensures green == KernelSum(g, row, col, GreenChannel)
    ensures blue == KernelSum(g, row, col, BlueChannel)
  {
    red, green, blue := 0, 0, 0;
    for i := 0 to 3
      invariant red == WindowSum(g, row, col, RedChannel, i)
      invariant green == WindowSum(g, row, col, GreenChannel, i)
      invariant blue == WindowSum(g, row, col, BlueChannel, i)
    {
      for j := 0 to 3
        invariant red == WindowSum(g, row, col, RedChannel, i) + RowSum(g, row, col, RedChannel, i, j)
        invariant green == WindowSum(g, row, col, GreenChannel, i) + RowSum(g, row, col, GreenChannel, i, j)
        invariant blue == WindowSum(g, row, col, BlueChannel, i) + RowSum(g, row, col, BlueChannel, i, j)
      {
        CellsAt(pix, row - 1 + i, col - 1 + j);
        var p := pix[row - 1 + i, col - 1 + j];
        red := red + p.Red * Kernel[i][j];
        green := green + p.Green * Kernel[i][j];
        blue := blue + p.Blue * Kernel[i][j];
      }
    }
  }

  /** Pixel (row, col) of `pixel_transform`: the border copy or the three mapped channel sums. */
  method TransformPixel(pix: array2<Pixel>, mode: Mode, row: nat, col: nat, ghost g: seq<seq<Pixel>>) returns (p: Pixel)
    requires g == Cells(pix) && row < pix.Length0 && col < pix.Length1
    ensures p == Filtered(g, pix.Length0, pix.Length1, mode, row, col)
  {
    if col == 0 || row == 0 || col == pix.Length1 - 1 || row == pix.Length0 - 1 {
      CellsAt(pix, row, col);
      p := pix[row, col];
    } else {
      InteriorIsInside(g, pix.Length0, pix.Length1, row, col);
      var red, green, blue := NeighbourhoodSums(pix, row, col, g);
      var newRed := MapChannel(mode, red);
      var newGreen := MapChannel(mode, green);
      var newBlue := MapChannel(mode, blue);
      p := Pixel(newRed, newGreen, newBlue);
    }
  }

  /** Pixels (r, c) before (row, col) in row-major order hold those of `t`. */
  ghost predicate FilledUpTo(out: array2<Pixel>, t: seq<seq<Pixel>>, row: nat, col: nat)
    reads out
    requires IsGrid(t, out.Length0, out.Length1)
  {
    forall r, c :: 0 <= r < out.Length0 && 0 <= c < out.Length1 && (r < row || (r == row && c < col)) ==>
      out[r, c] == t[r][c]
  }

  /** An array filled with every pixel of `t` holds `t`. */
  lemma FilledGrid(out: array2<Pixel>, t: seq<seq<Pixel>>)
    requires IsGrid(t, out.Length0, out.Length1) && FilledUpTo(out, t, out.Length0, 0)
    ensures Cells(out) == t
  {
    forall r, c | 0 <= r < out.Length0 && 0 <= c < out.Length1
      ensures Cells(out)[r][c] == t[r][c]
    {
      CellsAt(out, r, c);
    }
    GridsEqual(Cells(out), t, out.Length0, out.Length1);
  }

  /**
   * The transform loop: fills `out` (`pixel_transform`) from `pix` (`Pix`),
   * which it leaves as it is.
   */
  method Transform(pix: array2<Pixel>, out: array2<Pixel>, mode: Mode)
    requires out != pix && out.Length0 == pix.Length0 && out.Length1 == pix.Length1
    modifies out
    ensures Cells(out) == Convolve(Cells(pix), pix.Length0, pix.Length1, mode)
  {
    ghost var g := Cells(pix);
    ghost var t := Convolve(g, pix.Length0, pix.Length1, mode);
    for row := 0 to pix.Length0
      invariant g == Cells(pix)
      invariant FilledUpTo(out, t, row, 0)
    {
      TransformRow(pix, out, mode, row, g, t);
    }
    FilledGrid(out, t);
  }

  /** Row `row` of the transform loop. */
  method TransformRow(pix: array2<Pixel>, out: array2<Pixel>, mode: Mode, row: nat, ghost g: seq<seq<Pixel>>, ghost t: seq<seq<Pixel>>)
    requires out != pix && out.Length0 == pix.Length0 && out.Length1 == pix.Length1
    requires g == Cells(pix) && t == Convolve(g, pix.Length0, pix.Length1, mode) && row < pix.Length0
    requires FilledUpTo(out, t, row, 0)
    modifies out
    ensures FilledUpTo(out, t, row + 1, 0)
  {
    for col := 0 to pix.Length1
      invariant g == Cells(pix)
      invariant FilledUpTo(out, t, row, col)
    {
      var p := TransformPixel(pix, mode, row, col, g);
      label before:
      out[row, col] := p;
      forall r, c | 0 <= r < out.Length0 && 0 <= c < out.Length1 && (r < row || (r == row && c < col + 1))
        ensures out[r, c] == t[r][c]
      {
        if r != row || c != col {
          assert out[r, c] == old@before(out[r, c]);
        }
      }
    }
  }
}
