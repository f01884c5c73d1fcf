/** Tiling a list of images into a grid canvas: the canvas is `cols` tiles of the first
    image's width across and `rows` tiles of its height down, and image `i` is pasted in
    row-major order at column `i mod cols`, row `i div cols` (Python floor division). */
module ImageGrid {
  import opened Common

  /** Width and height of an image in pixels. */
  datatype ImageSize = ImageSize(width: nat, height: nat)

  /** The canvas size and the top-left corner of every paste, in paste order. */
  datatype Grid = Grid(width: int, height: int, boxes: seq<(int, int)>)

  /** Failures of the tiling: no first image to size the tiles, a canvas of negative size,
      a division by zero columns. */
  datatype GridError = NoImages | NegativeCanvasSize | ZeroColumns

  /** Python's `a // b`: the quotient rounded towards negative infinity. */
  function FloorDiv(a: int, b: int): int
    requires b != 0
  {
    if b > 0 || a % b == 0 then a / b else a / b - 1
  }

  /** Python's `a % b`: what is left after `b * (a // b)`; it has the sign of `b`. */
  function FloorMod(a: int, b: int): (m: int)
    requires b != 0
    ensures a == b * FloorDiv(a, b) + m
    ensures b > 0 ==> 0 <= m < b
    ensures b < 0 ==> b < m <= 0
  {
    if b > 0 || a % b == 0 then a % b else a % b + b
  }

  /** Top-left corner of the tile of image `i`. */
  function TileOrigin(i: int, cols: int, w: int, h: int): (int, int)
    requires cols != 0
  {
    (FloorMod(i, cols) * w, FloorDiv(i, cols) * h)
  }

  /** Creates the canvas from the first image's size and pastes every image at its tile. */
  method ImageGridOf(images: seq<ImageSize>, rows: int, cols: int) returns (r: Result<Grid, GridError>)
    ensures images == [] ==> r == Failure(NoImages)
    ensures images != [] && (cols * images[0].width < 0 || rows * images[0].height < 0) ==>
              r == Failure(NegativeCanvasSize)
    ensures r.Success? <==>
              images != [] && cols != 0 && cols * images[0].width >= 0 && rows * images[0].height >= 0
    ensures r.Failure? && images != [] && cols * images[0].width >= 0 && rows * images[0].height >= 0 ==>
              r == Failure(ZeroColumns)
    ensures r.Success? ==>
              && r.value.width == cols * images[0].width
              && r.value.height == rows * images[0].height
              && |r.value.boxes| == |images|
              && forall i :: 0 <= i < |images| ==>
                   r.value.boxes[i] == TileOrigin(i, cols, images[0].width, images[0].height)
  {
    if images == [] {
      return Failure(NoImages);
    }
    var w, h := images[0].width, images[0].height;
    if cols * w < 0 || rows * h < 0 {
      return Failure(NegativeCanvasSize);
    }
    var boxes: seq<(int, int)> := [];
    for i := 0 to |images|
      invariant |boxes| == i
      invariant i > 0 ==> cols != 0
      invariant forall k :: 0 <= k < i ==> cols != 0 && boxes[k] == TileOrigin(k, cols, w, h)
    {
      if cols == 0 {
        return Failure(ZeroColumns);
      }
      boxes := boxes + [(FloorMod(i, cols) * w, FloorDiv(i, cols) * h)];
    }
    return Success(Grid(cols * w, rows * h, boxes));
  }

  /** Multiplying by a non-negative factor keeps order. */
  lemma MulMonotone(a: int, b: int, c: int)
    requires a <= b && 0 <= c
    ensures a * c <= b * c
  {
    assert (b - a) * c >= 0;
  }

  /** For a positive column count and a non-negative index, the floor operations are the
      usual quotient and remainder. */
  lemma FloorMatchesEuclid(i: int, cols: int)
    requires 0 <= i && 0 < cols
    ensures FloorDiv(i, cols) == i / cols && FloorMod(i, cols) == i % cols
    ensures 0 <= i / cols && i == cols * (i / cols) + i % cols
  {
  }

  /** A positive factor can be cancelled from a strict inequality. */
  lemma CancelPositiveFactor(a: int, b: int, c: int)
    requires 0 < c && c * a < c * b
    ensures a < b
  {
    assert c * (b - a) == c * b - c * a;
  }

  /** Quotient and remainder are determined by `i == cols * q + m` with `0 <= m < cols`. */
  lemma DivModUnique(i: int, cols: int, q: int, m: int)
    requires 0 < cols && 0 <= m < cols && i == cols * q + m
    ensures i / cols == q && i % cols == m
  {
    var q', m' := i / cols, i % cols;
    assert cols * (q - q') == m' - m;
    assert -cols < m' - m < cols;
    if q != q' {
      if q < q' {
        MulMonotone(1, q' - q, cols);
      } else {
        MulMonotone(1, q - q', cols);
      }
    }
  }

  /** Every tile of an index inside the grid lies inside the canvas. */
  lemma TileInsideCanvas(i: int, rows: int, cols: int, w: nat, h: nat)
    requires 0 < cols && 0 <= i < rows * cols
    ensures 0 <= TileOrigin(i, cols, w, h).0 && TileOrigin(i, cols, w, h).0 + w <= cols * w
    ensures 0 <= TileOrigin(i, cols, w, h).1 && TileOrigin(i, cols, w, h).1 + h <= rows * h
  {
    FloorMatchesEuclid(i, cols);
    var q, m := i / cols, i % cols;
    MulMonotone(m + 1, cols, w);
    CancelPositiveFactor(q, rows, cols);
    MulMonotone(q + 1, rows, h);
  }

  /** Tiles of distinct indices never overlap (for tiles of positive size): they are apart by
      a whole tile width or a whole tile height. */
  lemma TilesDisjoint(i: int, j: int, cols: int, w: nat, h: nat)
    requires 0 < cols && 0 <= i && 0 <= j && i != j && 0 < w && 0 < h
    ensures var (xi, yi), (xj, yj) := TileOrigin(i, cols, w, h), TileOrigin(j, cols, w, h);
            xi + w <= xj || xj + w <= xi || yi + h <= yj || yj + h <= yi
  {
    FloorMatchesEuclid(i, cols);
    FloorMatchesEuclid(j, cols);
    var qi, mi, qj, mj := i / cols, i % cols, j / cols, j % cols;
    if mi < mj {
      MulMonotone(mi + 1, mj, w);
    } else if mj < mi {
      MulMonotone(mj + 1, mi, w);
    } else if qi < qj {
      MulMonotone(qi + 1, qj, h);
    } else if qj < qi {
      MulMonotone(qj + 1, qi, h);
    } else {
      assert false;
    }
  }

  /** Within a row, the next image sits one tile width to the right. */
  lemma NextInRow(i: int, cols: int, w: int, h: int)
    requires 0 < cols && 0 <= i && FloorMod(i, cols) + 1 < cols
    ensures TileOrigin(i + 1, cols, w, h) == (TileOrigin(i, cols, w, h).0 + w, TileOrigin(i, cols, w, h).1)
  {
    FloorMatchesEuclid(i, cols);
    var q, m := i / cols, i % cols;
    DivModUnique(i + 1, cols, q, m + 1);
    FloorMatchesEuclid(i + 1, cols);
    assert TileOrigin(i + 1, cols, w, h) == ((m + 1) * w, q * h);
    assert (m + 1) * w == m * w + w;
  }

  /** Image `i + cols` sits one tile height below image `i`. */
  lemma NextRow(i: int, cols: int, w: int, h: int)
    requires 0 < cols && 0 <= i
    ensures TileOrigin(i + cols, cols, w, h) == (TileOrigin(i, cols, w, h).0, TileOrigin(i, cols, w, h).1 + h)
  {
    FloorMatchesEuclid(i, cols);
    var q, m := i / cols, i % cols;
    DivModUnique(i + cols, cols, q + 1, m);
    FloorMatchesEuclid(i + cols, cols);
    assert TileOrigin(i + cols, cols, w, h) == (m * w, (q + 1) * h);
    assert (q + 1) * h == q * h + h;
  }

  /** Placement is row-major: the next image in a row sits one tile width to the right, and
      image `i + cols` sits one tile height below image `i`. */
  lemma TilesRowMajor(i: int, cols: int, w: int, h: int)
    requires 0 < cols && 0 <= i
    ensures FloorMod(i, cols) + 1 < cols ==>
              TileOrigin(i + 1, cols, w, h) == (TileOrigin(i, cols, w, h).0 + w, TileOrigin(i, cols, w, h).1)
    ensures TileOrigin(i + cols, cols, w, h) == (TileOrigin(i, cols, w, h).0, TileOrigin(i, cols, w, h).1 + h)
  {
    if FloorMod(i, cols) + 1 < cols {
      NextInRow(i, cols, w, h);
    }
    NextRow(i, cols, w, h);
  }

  /** No bound check is made: an index past the last tile gets a corner at or below the
      bottom edge of the canvas. */
  lemma TileBeyondGridIsOffCanvas(i: int, rows: int, cols: int, w: int, h: nat)
    requires 0 < cols && 0 <= rows && rows * cols <= i
    ensures TileOrigin(i, cols, w, h).1 >= rows * h
  {
    FloorMatchesEuclid(i, cols);
    var q, m := i / cols, i % cols;
    assert cols * rows < cols * (q + 1);
    CancelPositiveFactor(rows, q + 1, cols);
    MulMonotone(rows, q, h);
  }
}
