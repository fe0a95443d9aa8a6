/** The pixel sampler `getpx` and the rasterizer `getdata`: a frame of the
    pattern drawn on a canvas of square cells separated by 2-pixel
    gridlines, as one row-major sequence of colour indices. */
module Sampler {
  import opened Arith
  import opened Results

  /** Gridline width in pixels; fixed in the script. */
  const GridWidth: int := 2

  /** The colour index of gridline pixels. */
  const GridSymbol: int := 2

  /** A cell state as the script reads it from the simulator: 0 or 1. */
  type Cell = c: int | 0 <= c <= 1

  /** The simulator's `getcell` for one generation of the pattern. */
  type Generation = (int, int) -> Cell

  /** The script's parameters after they were read and converted: the
      selection rectangle, the frame count, the pause between frames in
      centiseconds, the cell size in pixels and the velocity in pixels per
      frame. */
  datatype Config = Config(
    x: int, y: int, width: int, height: int,
    frames: int, pause: int, cellSize: int, vx: int, vy: int)
  {
    /** Pixels from one gridline to the next. */
    function Pitch(): int {
      cellSize + GridWidth
    }

    function CanvasWidth(): int {
      Pitch() * width + GridWidth
    }

    function CanvasHeight(): int {
      Pitch() * height + GridWidth
    }
  }

  /** `getpx(xrel, yrel, frameidx)`: the pixel is moved by the velocity times
      the frame index; pixels in the first two columns or rows of a pitch
      are gridline, the others show their cell. Python 2 division and
      remainder round toward minus infinity, and a zero pitch raises. */
  function Pixel(cfg: Config, cell: Generation, xrel: int, yrel: int, frame: int): (r: Result<int>)
    ensures r.Success? <==> cfg.Pitch() != 0
    ensures r.Success? ==> 0 <= r.value <= 2
  {
    var xabs := xrel + cfg.vx * frame;
    var yabs := yrel + cfg.vy * frame;
    var p := cfg.Pitch();
    if p == 0 then Failure(ZeroDivisionError)
    else if FloorMod(xabs, p) < GridWidth || FloorMod(yabs, p) < GridWidth then Success(GridSymbol)
    else Success(cell(cfg.x + FloorDiv(xabs, p), cfg.y + FloorDiv(yabs, p)))
  }

  /** Since a cell is 0 or 1, a pixel is 2 exactly when its shifted
      position is within two pixels after a gridline horizontally or
      vertically; every other pixel shows the cell that contains it. */
  lemma GridlineIff(cfg: Config, cell: Generation, xrel: int, yrel: int, frame: int)
    requires cfg.Pitch() != 0
    ensures var xabs, yabs, p := xrel + cfg.vx * frame, yrel + cfg.vy * frame, cfg.Pitch();
      && (Pixel(cfg, cell, xrel, yrel, frame).value == GridSymbol <==>
            (FloorMod(xabs, p) < GridWidth || FloorMod(yabs, p) < GridWidth))
      && (Pixel(cfg, cell, xrel, yrel, frame).value != GridSymbol ==>
            Pixel(cfg, cell, xrel, yrel, frame).value == cell(cfg.x + FloorDiv(xabs, p), cfg.y + FloorDiv(yabs, p)))
  {
  }

  /** A pixel inside the square of cell (col, row) of the selection, after
      the shift for its frame, shows that cell's state. */
  lemma PixelInCell(cfg: Config, cell: Generation, xrel: int, yrel: int, frame: int, col: int, row: int)
    requires cfg.Pitch() > 0
    requires col * cfg.Pitch() + GridWidth <= xrel + cfg.vx * frame < (col + 1) * cfg.Pitch()
    requires row * cfg.Pitch() + GridWidth <= yrel + cfg.vy * frame < (row + 1) * cfg.Pitch()
    ensures Pixel(cfg, cell, xrel, yrel, frame) == Success(cell(cfg.x + col, cfg.y + row))
  {
    var p := cfg.Pitch();
    var xabs := xrel + cfg.vx * frame;
    var yabs := yrel + cfg.vy * frame;
    DivModUnique(xabs, p, col, xabs - col * p);
    DivModUnique(yabs, p, row, yabs - row * p);
  }

  /** A pixel in the two-pixel band that starts a pitch, horizontally or
      vertically, is a gridline pixel whatever the cells hold: gridlines
      take priority. */
  lemma PixelOnGridline(cfg: Config, cell: Generation, xrel: int, yrel: int, frame: int, k: int)
    requires cfg.Pitch() > 0
    requires k * cfg.Pitch() <= xrel + cfg.vx * frame < k * cfg.Pitch() + GridWidth
          || k * cfg.Pitch() <= yrel + cfg.vy * frame < k * cfg.Pitch() + GridWidth
    ensures Pixel(cfg, cell, xrel, yrel, frame) == Success(GridSymbol)
  {
    var p := cfg.Pitch();
    var xabs := xrel + cfg.vx * frame;
    var yabs := yrel + cfg.vy * frame;
    if k * p <= xabs < k * p + GridWidth {
      if p <= GridWidth {
        assert FloorMod(xabs, p) < GridWidth;
      } else {
        DivModUnique(xabs, p, k, xabs - k * p);
      }
    } else {
      if p <= GridWidth {
        assert FloorMod(yabs, p) < GridWidth;
      } else {
        DivModUnique(yabs, p, k, yabs - k * p);
      }
    }
  }

  /** With a negative pitch (cell size below -2) every remainder is at most
      0, so every pixel is a gridline pixel. */
  lemma NegativePitchAllGrid(cfg: Config, cell: Generation, xrel: int, yrel: int, frame: int)
    requires cfg.Pitch() < 0
    ensures Pixel(cfg, cell, xrel, yrel, frame) == Success(GridSymbol)
  {
  }

  /** Moving the pixel by one frame's velocity is the same as sampling the
      next frame: the picture pans by (vx, vy) pixels per frame. */
  lemma PixelTranslates(cfg: Config, cell: Generation, xrel: int, yrel: int, frame: int)
    ensures Pixel(cfg, cell, xrel + cfg.vx, yrel + cfg.vy, frame) == Pixel(cfg, cell, xrel, yrel, frame + 1)
  {
    assert xrel + cfg.vx + cfg.vx * frame == xrel + cfg.vx * (frame + 1);
    assert yrel + cfg.vy + cfg.vy * frame == yrel + cfg.vy * (frame + 1);
  }

  /** The inner loop of `getdata`: the pixels x = 0 .. n - 1 of row `ypx`. */
  function Line(cfg: Config, cell: Generation, frame: int, ypx: int, n: int): Result<seq<int>>
  {
    if n <= 0 then Success([])
    else
      var line :- Line(cfg, cell, frame, ypx, n - 1);
      var px :- Pixel(cfg, cell, n - 1, ypx, frame);
      Success(line + [px])
  }

  /** The outer loop of `getdata`: rows y = 0 .. n - 1 of `width` pixels
      each, appended symbol by symbol (`lines += line`). */
  function Rows(cfg: Config, cell: Generation, frame: int, n: int, width: int): Result<seq<int>>
  {
    if n <= 0 then Success([])
    else
      var rows :- Rows(cfg, cell, frame, n - 1, width);
      var line :- Line(cfg, cell, frame, n - 1, width);
      Success(rows + line)
  }

  /** `getdata(frameidx)`. */
  function Raster(cfg: Config, cell: Generation, frame: int): (r: Result<seq<int>>)
    ensures r.Success? <==> (cfg.Pitch() != 0 || cfg.CanvasHeight() <= 0 || cfg.CanvasWidth() <= 0)
  {
    RowsSucceed(cfg, cell, frame, cfg.CanvasHeight(), cfg.CanvasWidth());
    Rows(cfg, cell, frame, cfg.CanvasHeight(), cfg.CanvasWidth())
  }

  /** `line` is row `ypx` of `w` pixels: the symbol at index x is the
      sampler's colour index for pixel (x, ypx). */
  ghost predicate Row(cfg: Config, cell: Generation, frame: int, line: seq<int>, ypx: int, w: nat)
  {
    && |line| == w
    && forall xp | 0 <= xp < w ::
         Pixel(cfg, cell, xp, ypx, frame).Success? && line[xp] == Pixel(cfg, cell, xp, ypx, frame).value
  }

  lemma {:induction false} LineShape(cfg: Config, cell: Generation, frame: int, ypx: int, n: int)
    ensures Line(cfg, cell, frame, ypx, n).Success? <==> (cfg.Pitch() != 0 || n <= 0)
    ensures Line(cfg, cell, frame, ypx, n).Success? ==> Row(cfg, cell, frame, Line(cfg, cell, frame, ypx, n).value, ypx, Span(n))
  {
    if n > 0 {
      LineShape(cfg, cell, frame, ypx, n - 1);
    }
  }

  /** The index of pixel (xp, yp) in `h` rows of `w` symbols laid out row
      after row. */
  function RowMajor(w: nat, h: nat, xp: int, yp: int): (i: nat)
    requires 0 <= xp < w && 0 <= yp < h
    ensures i < h * w
  {
    MulMonotone(yp + 1, h, w);
    yp * w + xp
  }

  /** In `front + line`, where `front` holds `n - 1` rows of `w` symbols and
      `line` one more row, the last row comes from `line` and the others
      from `front`. */
  lemma RowIndex(front: seq<int>, line: seq<int>, w: nat, n: int, xp: int, yp: int)
    requires n >= 1 && |front| == (n - 1) * w && |line| == w && |front + line| == n * w
    requires 0 <= xp < w && 0 <= yp < n
    ensures (front + line)[RowMajor(w, n, xp, yp)] ==
      if yp < n - 1 then front[RowMajor(w, n - 1, xp, yp)] else line[xp]
  {
    var a := yp * w;
    assert (yp + 1) * w == a + w;
    if yp < n - 1 {
      assert RowMajor(w, n, xp, yp) < |front|;
    } else {
      assert a == |front|;
    }
  }

  /** An index into `h` rows of `w` symbols names one pixel. */
  lemma SplitIndex(i: int, w: nat, h: nat)
    requires 0 <= i < h * w
    ensures w > 0 && 0 <= i / w < h && 0 <= i % w < w && i == RowMajor(w, h, i % w, i / w)
  {
    if i / w >= h {
      MulMonotone(h, i / w, w);
    }
  }

  /** `rows` holds `h` rows of `w` symbols, row after row, and the symbol of
      pixel (xp, yp) is the sampler's colour index for that pixel. */
  ghost predicate Grid(cfg: Config, cell: Generation, frame: int, rows: seq<int>, w: nat, h: nat)
  {
    && |rows| == h * w
    && forall xp, yp | 0 <= xp < w && 0 <= yp < h ::
         Pixel(cfg, cell, xp, yp, frame).Success? && rows[RowMajor(w, h, xp, yp)] == Pixel(cfg, cell, xp, yp, frame).value
  }

  /** Appending row `h` to a grid of `h` rows gives a grid of `h + 1` rows. */
  lemma GridAppend(cfg: Config, cell: Generation, frame: int, front: seq<int>, line: seq<int>, w: nat, h: nat, y: int, h': nat)
    requires Grid(cfg, cell, frame, front, w, h)
    requires Row(cfg, cell, frame, line, y, w) && y == h && h' == h + 1
    ensures Grid(cfg, cell, frame, front + line, w, h')
  {
    MulSucc(h, w);
    forall xp, yp | 0 <= xp < w && 0 <= yp < h'
      ensures (front + line)[RowMajor(w, h', xp, yp)] == Pixel(cfg, cell, xp, yp, frame).value
    {
      RowIndex(front, line, w, h', xp, yp);
    }
  }

  lemma RowsShape(cfg: Config, cell: Generation, frame: int, n: int, width: int)
    ensures Rows(cfg, cell, frame, n, width).Success? <==> (cfg.Pitch() != 0 || n <= 0 || width <= 0)
    ensures Rows(cfg, cell, frame, n, width).Success? ==>
      Grid(cfg, cell, frame, Rows(cfg, cell, frame, n, width).value, Span(width), Span(n))
  {
    RowsSucceed(cfg, cell, frame, n, width);
    if Rows(cfg, cell, frame, n, width).Success? {
      RowsGrid(cfg, cell, frame, n, width);
    }
  }

  lemma {:induction false} RowsSucceed(cfg: Config, cell: Generation, frame: int, n: int, width: int)
    ensures Rows(cfg, cell, frame, n, width).Success? <==> (cfg.Pitch() != 0 || n <= 0 || width <= 0)
  {
    if n > 0 {
      RowsSucceed(cfg, cell, frame, n - 1, width);
      LineShape(cfg, cell, frame, n - 1, width);
    }
  }

  lemma {:induction false} RowsGrid(cfg: Config, cell: Generation, frame: int, n: int, width: int)
    requires Rows(cfg, cell, frame, n, width).Success?
    ensures Grid(cfg, cell, frame, Rows(cfg, cell, frame, n, width).value, Span(width), Span(n))
  {
    if n > 0 {
      var front := Rows(cfg, cell, frame, n - 1, width).value;
      var line := Line(cfg, cell, frame, n - 1, width).value;
      assert Rows(cfg, cell, frame, n, width).value == front + line;
      RowsGrid(cfg, cell, frame, n - 1, width);
      LineShape(cfg, cell, frame, n - 1, width);
      assert n - 1 == Span(n - 1) && n == Span(n);
      GridAppend(cfg, cell, frame, front, line, Span(width), Span(n - 1), n - 1, Span(n));
    }
  }

  /** `getdata` yields one symbol per canvas pixel, row by row from the
      top, each row from the left, each symbol the sampler's colour index
      for that pixel; it fails only for a zero pitch on a non-empty
      canvas. */
  lemma RasterShape(cfg: Config, cell: Generation, frame: int)
    ensures Raster(cfg, cell, frame).Success? <==>
      (cfg.Pitch() != 0 || cfg.CanvasHeight() <= 0 || cfg.CanvasWidth() <= 0)
    ensures Raster(cfg, cell, frame).Success? ==>
      var r := Raster(cfg, cell, frame).value;
      var w := Span(cfg.CanvasWidth());
      && |r| == Span(cfg.CanvasHeight()) * w
      && (forall i | 0 <= i < |r| :: 0 <= r[i] <= 2)
      && forall xp, yp | 0 <= xp < w && 0 <= yp < Span(cfg.CanvasHeight()) ::
           r[RowMajor(w, Span(cfg.CanvasHeight()), xp, yp)] == Pixel(cfg, cell, xp, yp, frame).value
  {
    RowsShape(cfg, cell, frame, cfg.CanvasHeight(), cfg.CanvasWidth());
    if Raster(cfg, cell, frame).Success? {
      var r := Raster(cfg, cell, frame).value;
      var w := Span(cfg.CanvasWidth());
      var h := Span(cfg.CanvasHeight());
      forall i | 0 <= i < |r|
        ensures 0 <= r[i] <= 2
      {
        SplitIndex(i, w, h);
        var yp, xp := i / w, i % w;
        assert r[RowMajor(w, h, xp, yp)] == Pixel(cfg, cell, xp, yp, frame).value;
      }
    }
  }
}
