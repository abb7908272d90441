/**
 * Mask sampling and counting (src/emoji/mask.ts).
 *
 * An RGBA pixel buffer is downsampled to a boolean grid: every grid cell reads a
 * rectangle of source pixels with floored bounds, counts the pixels whose alpha
 * byte reaches a threshold and is `true` when strictly more than 30% of them do.
 * Rendering the glyph into the buffer (Canvas 2D) is not part of this model: the
 * buffer is an input.
 */
module Mask {
  import opened Options

  /** A row-major boolean grid: `mask[y][x]`, `true` = part of the shape. */
  type EmojiMask = seq<seq<bool>>

  newtype byte = b: int | 0 <= b < 256

  /** Alpha value from which a pixel counts as filled. */
  const ALPHA_THRESHOLD := 128

  /** `g` has `height` rows of `width` cells each. */
  predicate IsGrid(g: seq<seq<bool>>, width: int, height: int) {
    |g| == height && forall y :: 0 <= y < |g| ==> |g[y]| == width
  }

  /** `g` with cell (x, y) set to `true`. */
  function SetCell(g: seq<seq<bool>>, x: nat, y: nat): (r: seq<seq<bool>>)
    requires y < |g| && x < |g[y]|
    ensures |r| == |g|
    ensures forall j :: 0 <= j < |g| ==> |r[j]| == |g[j]|
    ensures r[y][x]
    ensures forall j, i :: 0 <= j < |g| && 0 <= i < |g[j]| && (j != y || i != x) ==> r[j][i] == g[j][i]
  {
    g[y := g[y][x := true]]
  }

  // ---------------------------------------------------------------------------
  // Counting true cells

  /** Number of `true` entries of one row. */
  function RowCount(row: seq<bool>): (n: nat)
    ensures n <= |row|
  {
    if row == [] then 0 else RowCount(row[..|row| - 1]) + (if row[|row| - 1] then 1 else 0)
  }

  /** Number of `true` cells of a mask, row by row. */
  function CountCells(mask: EmojiMask): nat {
    if mask == [] then 0 else CountCells(mask[..|mask| - 1]) + RowCount(mask[|mask| - 1])
  }

  /** countMaskCells: the nested loop over rows and cells. */
  method CountMaskCells(mask: EmojiMask) returns (count: nat)
    ensures count == CountCells(mask)
  {
    count := 0;
    var i := 0;
    while i < |mask|
      invariant 0 <= i <= |mask|
      invariant count == CountCells(mask[..i])
    {
      var row := mask[i];
      ghost var before := count;
      var j := 0;
      while j < |row|
        invariant 0 <= j <= |row|
        invariant count == before + RowCount(row[..j])
      {
        if row[j] {
          count := count + 1;
        }
        assert row[..j + 1][..j] == row[..j];
        j := j + 1;
      }
      assert row[..j] == row;
      assert mask[..i + 1][..i] == mask[..i];
      i := i + 1;
    }
    assert mask[..i] == mask;
  }

  lemma {:induction false} RowCountAllFalse(row: seq<bool>)
    requires forall i :: 0 <= i < |row| ==> !row[i]
    ensures RowCount(row) == 0
  {
    if row != [] {
      RowCountAllFalse(row[..|row| - 1]);
    }
  }

  lemma {:induction false} RowCountAllTrue(row: seq<bool>)
    requires forall i :: 0 <= i < |row| ==> row[i]
    ensures RowCount(row) == |row|
  {
    if row != [] {
      RowCountAllTrue(row[..|row| - 1]);
    }
  }

  /** A mask with no `true` cell counts 0. */
  lemma {:induction false} CountAllFalse(mask: EmojiMask)
    requires forall y, x :: 0 <= y < |mask| && 0 <= x < |mask[y]| ==> !mask[y][x]
    ensures CountCells(mask) == 0
  {
    if mask != [] {
      CountAllFalse(mask[..|mask| - 1]);
      RowCountAllFalse(mask[|mask| - 1]);
    }
  }

  /** An all-true rows x cols mask counts rows * cols. */
  lemma {:induction false} CountAllTrue(mask: EmojiMask, cols: nat)
    requires IsGrid(mask, cols, |mask|)
    requires forall y, x :: 0 <= y < |mask| && 0 <= x < |mask[y]| ==> mask[y][x]
    ensures CountCells(mask) == |mask| * cols
  {
    if mask != [] {
      CountAllTrue(mask[..|mask| - 1], cols);
      RowCountAllTrue(mask[|mask| - 1]);
      assert (|mask| - 1) * cols + cols == |mask| * cols;
    }
  }

  /** A width x height grid has at most width * height true cells. */
  lemma {:induction false} CountCellsBound(g: seq<seq<bool>>, width: nat)
    requires IsGrid(g, width, |g|)
    ensures CountCells(g) <= |g| * width
  {
    if g != [] {
      CountCellsBound(g[..|g| - 1], width);
      assert (|g| - 1) * width + width == |g| * width;
    }
  }

  /** Setting one cell of a row raises its count by one exactly when the cell was false. */
  lemma {:induction false} RowCountSet(row: seq<bool>, x: nat)
    requires x < |row|
    ensures RowCount(row[x := true]) == RowCount(row) + (if row[x] then 0 else 1)
  {
    var n := |row|;
    var row' := row[x := true];
    if x == n - 1 {
      assert row'[..n - 1] == row[..n - 1];
    } else {
      assert row'[..n - 1] == row[..n - 1][x := true];
      RowCountSet(row[..n - 1], x);
    }
  }

  /** Setting one cell of a grid raises its count by one exactly when the cell was false. */
  lemma {:induction false} CountSetCell(g: seq<seq<bool>>, x: nat, y: nat)
    requires y < |g| && x < |g[y]|
    ensures CountCells(SetCell(g, x, y)) == CountCells(g) + (if g[y][x] then 0 else 1)
  {
    var n := |g|;
    var g' := SetCell(g, x, y);
    if y == n - 1 {
      assert g'[..n - 1] == g[..n - 1];
      RowCountSet(g[y], x);
    } else {
      assert g'[..n - 1] == SetCell(g[..n - 1], x, y);
      CountSetCell(g[..n - 1], x, y);
    }
  }

  // ---------------------------------------------------------------------------
  // Sampling a pixel buffer

  /** ImageData: `width * height` RGBA pixels, four bytes each. */
  datatype ImageData = ImageData(width: nat, height: nat, data: seq<byte>)

  predicate ValidImage(img: ImageData) {
    |img.data| == img.width * img.height * 4
  }

  lemma PixelIndexInRange(img: ImageData, x: nat, y: nat)
    requires ValidImage(img) && x < img.width && y < img.height
    ensures (y * img.width + x) * 4 + 3 < |img.data|
  {
    var w, h := img.width, img.height;
    assert y * w + x < (y + 1) * w;
    assert (y + 1) * w <= h * w by {
      assert y + 1 <= h;
      MulMono(y + 1, h, w);
    }
  }

  lemma MulMono(a: nat, b: nat, c: nat)
    requires a <= b
    ensures a * c <= b * c
  {
  }

  /** Alpha byte of pixel (x, y): byte 3 of the pixel's RGBA quadruple. */
  function Alpha(img: ImageData, x: nat, y: nat): byte
    requires ValidImage(img) && x < img.width && y < img.height
  {
    PixelIndexInRange(img, x, y);
    img.data[(y * img.width + x) * 4 + 3]
  }

  /** Source pixel bound of grid line `g` when `size` pixels are split into `cells` cells. */
  function CellBound(g: nat, size: nat, cells: nat): nat
    requires cells > 0
  {
    g * size / cells
  }

  lemma DivMono(a: nat, b: nat, d: nat)
    requires a <= b && d > 0
    ensures a / d <= b / d
  {
    var qa, qb := a / d, b / d;
    assert qa * d <= a;
    assert b < (qb + 1) * d;
    if qa > qb {
      MulMono(qb + 1, qa, d);
    }
  }

  /** Cell bounds never decrease, start at 0 and end at the full size. */
  lemma CellBoundMono(g1: nat, g2: nat, size: nat, cells: nat)
    requires cells > 0 && g1 <= g2
    ensures CellBound(g1, size, cells) <= CellBound(g2, size, cells)
  {
    MulMono(g1, g2, size);
    DivMono(g1 * size, g2 * size, cells);
  }

  lemma DivMulCancel(a: nat, d: nat)
    requires d > 0
    ensures a * d / d == a
  {
    var q := a * d / d;
    assert q * d <= a * d < q * d + d;
    if q < a {
      MulMono(q + 1, a, d);
    } else if q > a {
      MulMono(a + 1, q, d);
    }
  }

  lemma CellBoundEnds(size: nat, cells: nat)
    requires cells > 0
    ensures CellBound(0, size, cells) == 0
    ensures CellBound(cells, size, cells) == size
  {
    assert cells * size == size * cells;
    DivMulCancel(size, cells);
  }

  /** Bounds of cell g lie within [0, size] and are ordered. */
  lemma CellBoundsInRange(g: nat, size: nat, cells: nat)
    requires cells > 0 && g < cells
    ensures CellBound(g, size, cells) <= CellBound(g + 1, size, cells) <= size
  {
    CellBoundMono(g, g + 1, size, cells);
    CellBoundMono(g + 1, cells, size, cells);
    CellBoundEnds(size, cells);
  }

  /** Pixel x lies in the range of grid cell g. */
  predicate InCell(g: nat, size: nat, cells: nat, x: nat)
    requires cells > 0
  {
    CellBound(g, size, cells) <= x < CellBound(g + 1, size, cells)
  }

  /** The cells' pixel ranges cover [0, size): every pixel x lies in some cell's range. */
  lemma CellRangesCover(size: nat, cells: nat, x: nat)
    requires cells > 0 && x < size
    ensures exists g :: 0 <= g < cells && InCell(g, size, cells, x)
  {
    CellBoundEnds(size, cells);
    CoveredUpTo(size, cells, cells, x);
  }

  /** The cells' pixel ranges are disjoint: no pixel lies in two cells' ranges. */
  lemma CellRangesDisjoint(size: nat, cells: nat, x: nat, g1: nat, g2: nat)
    requires cells > 0 && InCell(g1, size, cells, x) && InCell(g2, size, cells, x)
    ensures g1 == g2
  {
    if g1 < g2 {
      CellBoundMono(g1 + 1, g2, size, cells);
    } else if g2 < g1 {
      CellBoundMono(g2 + 1, g1, size, cells);
    }
  }

  lemma {:induction false} CoveredUpTo(size: nat, cells: nat, k: nat, x: nat)
    requires 0 < cells && 1 <= k <= cells && x < CellBound(k, size, cells)
    ensures exists g :: 0 <= g < k && InCell(g, size, cells, x)
  {
    if k == 1 {
      assert InCell(0, size, cells, x);
    } else if x < CellBound(k - 1, size, cells) {
      CoveredUpTo(size, cells, k - 1, x);
    } else {
      assert InCell(k - 1, size, cells, x);
    }
  }

  /** The pixel (x, y) counts as filled: its alpha reaches the threshold. */
  predicate PixelFilled(img: ImageData, x: nat, y: nat, threshold: int)
    requires ValidImage(img) && x < img.width && y < img.height
  {
    Alpha(img, x, y) as int >= threshold
  }

  /** Filled pixels of row y among columns [x0, x1). */
  function RowFilled(img: ImageData, y: nat, x0: nat, x1: nat, threshold: int): nat
    requires ValidImage(img) && y < img.height && x1 <= img.width
    decreases x1
  {
    if x1 <= x0 then 0
    else RowFilled(img, y, x0, x1 - 1, threshold) + (if PixelFilled(img, x1 - 1, y, threshold) then 1 else 0)
  }

  /** Filled pixels of the rectangle [x0, x1) x [y0, y1). */
  function RectFilled(img: ImageData, x0: nat, x1: nat, y0: nat, y1: nat, threshold: int): nat
    requires ValidImage(img) && x1 <= img.width && y1 <= img.height
    decreases y1
  {
    if y1 <= y0 then 0
    else RectFilled(img, x0, x1, y0, y1 - 1, threshold) + RowFilled(img, y1 - 1, x0, x1, threshold)
  }

  /**
   * Grid cell (gx, gy) is true iff its pixel range is non-empty and strictly more
   * than 30% of its pixels are filled (filled / total > 0.3, i.e. 10 * filled > 3 * total).
   */
  predicate CellFilled(img: ImageData, gridWidth: nat, gridHeight: nat, gx: nat, gy: nat, threshold: int)
    requires ValidImage(img) && gx < gridWidth && gy < gridHeight
  {
    CellBoundsInRange(gx, img.width, gridWidth);
    CellBoundsInRange(gy, img.height, gridHeight);
    var x0, x1 := CellBound(gx, img.width, gridWidth), CellBound(gx + 1, img.width, gridWidth);
    var y0, y1 := CellBound(gy, img.height, gridHeight), CellBound(gy + 1, img.height, gridHeight);
    var total := (x1 - x0) * (y1 - y0);
    total > 0 && 10 * RectFilled(img, x0, x1, y0, y1, threshold) > 3 * total
  }

  /** Row gy of the sampled mask. */
  function SampledRow(img: ImageData, gridWidth: nat, gridHeight: nat, gy: nat, threshold: int): seq<bool>
    requires ValidImage(img) && gy < gridHeight
  {
    seq(gridWidth, gx requires 0 <= gx < gridWidth => CellFilled(img, gridWidth, gridHeight, gx, gy, threshold))
  }

  /** The whole sampled mask, as the specification of sampleToMask. */
  function Sampled(img: ImageData, gridWidth: nat, gridHeight: nat, threshold: int): (mask: EmojiMask)
    requires ValidImage(img)
    ensures IsGrid(mask, gridWidth, gridHeight)
  {
    seq(gridHeight, gy requires 0 <= gy < gridHeight => SampledRow(img, gridWidth, gridHeight, gy, threshold))
  }

  /** sampleToMask: four nested loops over grid rows, grid cells and the cell's pixels. */
  method SampleToMask(img: ImageData, gridWidth: nat, gridHeight: nat, threshold: int) returns (mask: EmojiMask)
    requires ValidImage(img)
    ensures mask == Sampled(img, gridWidth, gridHeight, threshold)
  {
    mask := [];
    var gridY := 0;
    while gridY < gridHeight
      invariant 0 <= gridY <= gridHeight
      invariant |mask| == gridY
      invariant forall k :: 0 <= k < gridY ==> mask[k] == SampledRow(img, gridWidth, gridHeight, k, threshold)
    {
      var row: seq<bool> := [];
      var gridX := 0;
      while gridX < gridWidth
        invariant 0 <= gridX <= gridWidth
        invariant |row| == gridX
        invariant forall k :: 0 <= k < gridX ==> row[k] == CellFilled(img, gridWidth, gridHeight, k, gridY, threshold)
      {
        CellBoundsInRange(gridX, img.width, gridWidth);
        CellBoundsInRange(gridY, img.height, gridHeight);
        var startX := CellBound(gridX, img.width, gridWidth);
        var startY := CellBound(gridY, img.height, gridHeight);
        var endX := CellBound(gridX + 1, img.width, gridWidth);
        var endY := CellBound(gridY + 1, img.height, gridHeight);
        var filledCount, totalCount := CountCellPixels(img, startX, endX, startY, endY, threshold);
        row := row + [totalCount > 0 && 10 * filledCount > 3 * totalCount];
        gridX := gridX + 1;
      }
      mask := mask + [row];
      gridY := gridY + 1;
    }
  }

  lemma MulSucc(a: nat, b: nat)
    ensures a * b + a == a * (b + 1)
  {
  }

  /** The two inner loops of sampleToMask: filled and total pixel counts of one cell. */
  method CountCellPixels(img: ImageData, startX: nat, endX: nat, startY: nat, endY: nat, threshold: int)
    returns (filledCount: nat, totalCount: nat)
    requires ValidImage(img) && startX <= endX <= img.width && startY <= endY <= img.height
    ensures filledCount == RectFilled(img, startX, endX, startY, endY, threshold)
    ensures totalCount == (endX - startX) * (endY - startY)
  {
    filledCount, totalCount := 0, 0;
    var y := startY;
    while y < endY
      invariant startY <= y <= endY
      invariant filledCount == RectFilled(img, startX, endX, startY, y, threshold)
      invariant totalCount == (endX - startX) * (y - startY)
    {
      var x := startX;
      while x < endX
        invariant startX <= x <= endX
        invariant filledCount == RectFilled(img, startX, endX, startY, y, threshold) + RowFilled(img, y, startX, x, threshold)
        invariant totalCount == (endX - startX) * (y - startY) + (x - startX)
      {
        var alpha := Alpha(img, x, y);
        if alpha as int >= threshold {
          filledCount := filledCount + 1;
        }
        totalCount := totalCount + 1;
        x := x + 1;
      }
      MulSucc(endX - startX, y - startY);
      y := y + 1;
    }
  }

  lemma {:induction false} RowFilledNone(img: ImageData, y: nat, x0: nat, x1: nat, threshold: int)
    requires ValidImage(img) && y < img.height && x1 <= img.width
    requires forall x :: 0 <= x < img.width ==> Alpha(img, x, y) as int < threshold
    ensures RowFilled(img, y, x0, x1, threshold) == 0
  {
    if x1 > x0 {
      RowFilledNone(img, y, x0, x1 - 1, threshold);
    }
  }

  lemma {:induction false} RectFilledNone(img: ImageData, x0: nat, x1: nat, y0: nat, y1: nat, threshold: int)
    requires ValidImage(img) && x1 <= img.width && y1 <= img.height
    requires forall x, y :: 0 <= x < img.width && 0 <= y < img.height ==> Alpha(img, x, y) as int < threshold
    ensures RectFilled(img, x0, x1, y0, y1, threshold) == 0
  {
    if y1 > y0 {
      RectFilledNone(img, x0, x1, y0, y1 - 1, threshold);
      RowFilledNone(img, y1 - 1, x0, x1, threshold);
    }
  }

  /** A fully transparent buffer samples to an all-false mask for any positive threshold. */
  lemma TransparentGivesEmptyMask(img: ImageData, gridWidth: nat, gridHeight: nat, threshold: int)
    requires ValidImage(img) && threshold > 0
    requires forall x, y :: 0 <= x < img.width && 0 <= y < img.height ==> Alpha(img, x, y) == 0
    ensures forall gy, gx :: 0 <= gy < gridHeight && 0 <= gx < gridWidth ==>
      !Sampled(img, gridWidth, gridHeight, threshold)[gy][gx]
  {
    forall gy, gx | 0 <= gy < gridHeight && 0 <= gx < gridWidth
      ensures !CellFilled(img, gridWidth, gridHeight, gx, gy, threshold)
    {
      CellBoundsInRange(gx, img.width, gridWidth);
      CellBoundsInRange(gy, img.height, gridHeight);
      RectFilledNone(img, CellBound(gx, img.width, gridWidth), CellBound(gx + 1, img.width, gridWidth),
        CellBound(gy, img.height, gridHeight), CellBound(gy + 1, img.height, gridHeight), threshold);
    }
  }

  // ---------------------------------------------------------------------------
  // Levels built from a mask

  datatype EmojiMetadata = EmojiMetadata(emoji: string, name: string, difficulty: int, description: Option<string>)

  datatype EmojiLevel = EmojiLevel(width: int, height: int, metadata: EmojiMetadata, mask: EmojiMask, targetCells: nat)

  /** createLevel with a supplied mask: the target is the mask's true-cell count. */
  function CreateLevel(metadata: EmojiMetadata, width: int, height: int, mask: EmojiMask): (level: EmojiLevel)
    ensures level.width == width && level.height == height && level.metadata == metadata && level.mask == mask
    ensures level.targetCells == CountCells(mask)
  {
    EmojiLevel(width, height, metadata, mask, CountCells(mask))
  }

  /** A level built from a width x height mask targets at most width * height cells. */
  lemma CreateLevelTargetBound(metadata: EmojiMetadata, width: nat, height: nat, mask: EmojiMask)
    requires IsGrid(mask, width, height)
    ensures CreateLevel(metadata, width, height, mask).targetCells <= height * width
  {
    CountCellsBound(mask, width);
  }
}
