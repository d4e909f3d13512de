/**
 * The Game-of-Life board of life-rs: a two-valued cell, a grid kept as a flat
 * row-major sequence of cells with its width and height, unsigned get/set by
 * (x, y), and the text rendering that writes one glyph per cell and ends every
 * row with a newline.
 */
module Life {

  /** Largest value of Rust's `usize` on a 64-bit target. */
  const USIZE_MAX: nat := 0xFFFF_FFFF_FFFF_FFFF

  /** Glyph of a living cell, U+1F7EA LARGE PURPLE SQUARE. */
  const ALIVE_GLYPH: char := '\U{1F7EA}'
  /** Glyph of a dead cell, U+2B1B BLACK LARGE SQUARE. */
  const DEAD_GLYPH: char := '\U{2B1B}'

  datatype Cell = Alive | Dead

  /**
   * The token `Display for Cell` writes. Each token is a single Unicode scalar
   * value, so it is modelled as one character; it is never a newline, and the
   * two cells have different tokens.
   */
  function Glyph(c: Cell): (g: char)
    ensures g != '\n'
    ensures g == ALIVE_GLYPH <==> c == Alive
    ensures g == DEAD_GLYPH <==> c == Dead
  {
    match c
    case Alive => ALIVE_GLYPH
    case Dead => DEAD_GLYPH
  }

  // ---------------------------------------------------------------------------
  // Grid arithmetic. `Mul(rows, w)` is the number of cells in `rows` rows of
  // width `w`. It is ordinary multiplication (MulIsProduct), written as repeated
  // addition so that the proofs below only ever reason linearly about it. Every
  // lemma stated with `Mul(h, w)` or `Mul(y, w + 1)` reads, through MulIsProduct,
  // with `h * w` or `y * (w + 1)`; RenderAtProduct restates the layout that way.
  // ---------------------------------------------------------------------------

  function Mul(rows: nat, w: nat): nat
  {
    if rows == 0 then 0 else Mul(rows - 1, w) + w
  }

  lemma {:induction false} MulIsProduct(rows: nat, w: nat)
    ensures Mul(rows, w) == rows * w
  {
    if rows > 0 {
      MulIsProduct(rows - 1, w);
      assert rows * w == (rows - 1) * w + w;
    }
  }

  /** Rows before row `b` end no later than row `b` starts. */
  lemma {:induction false} MulStrict(a: nat, b: nat, w: nat)
    requires a < b
    ensures Mul(a, w) + w <= Mul(b, w)
  {
    if a + 1 < b {
      MulStrict(a, b - 1, w);
    }
  }

  /** Every row is one character longer once its newline is added. */
  lemma {:induction false} MulSucc(y: nat, w: nat)
    ensures Mul(y, w + 1) == Mul(y, w) + y
  {
    if y > 0 {
      MulSucc(y - 1, w);
    }
  }

  /** The flat position of (x, y) in a row-major grid of width `w`: `y * w + x`. */
  function Index(w: nat, x: nat, y: nat): nat
  {
    Mul(y, w) + x
  }

  /** An in-range coordinate maps to a position inside the `h` rows of width `w`. */
  lemma IndexInBounds(w: nat, h: nat, x: nat, y: nat)
    requires x < w && y < h
    ensures Index(w, x, y) < Mul(h, w)
  {
    MulStrict(y, h, w);
  }

  /** Distinct in-range coordinates map to distinct positions. */
  lemma IndexInjective(w: nat, x1: nat, y1: nat, x2: nat, y2: nat)
    requires x1 < w && x2 < w
    requires Index(w, x1, y1) == Index(w, x2, y2)
    ensures x1 == x2 && y1 == y2
  {
    if y1 < y2 {
      MulStrict(y1, y2, w);
      assert false;
    } else if y2 < y1 {
      MulStrict(y2, y1, w);
      assert false;
    }
  }

  /**
   * The index is not checked against the width: column `w` of row `y` is the
   * same position as column 0 of row `y + 1`.
   */
  lemma IndexColumnOverflow(w: nat, y: nat)
    ensures Index(w, w, y) == Index(w, 0, y + 1)
  {
  }

  /**
   * Writing `c` at in-range (x, y) and reading in-range (x2, y2) gives `c` when
   * the coordinates agree and the old cell otherwise.
   */
  lemma SetThenGet(cells: seq<Cell>, w: nat, h: nat, x: nat, y: nat, x2: nat, y2: nat, c: Cell)
    requires |cells| == Mul(h, w)
    requires x < w && y < h && x2 < w && y2 < h
    ensures Index(w, x, y) < |cells| && Index(w, x2, y2) < |cells|
    ensures cells[Index(w, x, y) := c][Index(w, x2, y2)]
            == if x2 == x && y2 == y then c else cells[Index(w, x2, y2)]
  {
    IndexInBounds(w, h, x, y);
    IndexInBounds(w, h, x2, y2);
    if Index(w, x, y) == Index(w, x2, y2) {
      IndexInjective(w, x, y, x2, y2);
    }
  }

  // ---------------------------------------------------------------------------
  // Rendering.
  // ---------------------------------------------------------------------------

  /** The glyphs of a run of cells, one character per cell, in order. */
  function RenderRow(row: seq<Cell>): (s: string)
    ensures |s| == |row|
  {
    if |row| == 0 then "" else RenderRow(row[..|row| - 1]) + [Glyph(row[|row| - 1])]
  }

  /** Character `i` of a rendered run is the glyph of cell `i`. */
  lemma {:induction false} RenderRowAt(row: seq<Cell>, i: nat)
    requires i < |row|
    ensures RenderRow(row)[i] == Glyph(row[i])
  {
    if i < |row| - 1 {
      RenderRowAt(row[..|row| - 1], i);
    }
  }

  /** Extending a run of cells by one cell appends that cell's glyph. */
  lemma RenderRowSnoc(cells: seq<Cell>, i: nat, j: nat)
    requires i <= j < |cells|
    ensures RenderRow(cells[i .. j + 1]) == RenderRow(cells[i .. j]) + [Glyph(cells[j])]
  {
    assert cells[i .. j + 1][..j - i] == cells[i .. j];
  }

  /**
   * The text of `rows` rows of width `w` stored row by row in `cells`: for
   * each row, the glyph of each of its cells followed by a newline.
   */
  function RenderRows(cells: seq<Cell>, w: nat, rows: nat): string
    requires |cells| == Mul(rows, w)
    decreases rows
  {
    if rows == 0 then ""
    else
      var n := |cells| - w;
      RenderRows(cells[..n], w, rows - 1) + RenderRow(cells[n..]) + "\n"
  }

  /** Each of the `rows` rows adds its `w` glyphs and one newline. */
  lemma {:induction false} RenderLength(cells: seq<Cell>, w: nat, rows: nat)
    requires |cells| == Mul(rows, w)
    ensures |RenderRows(cells, w, rows)| == |cells| + rows
    decreases rows
  {
    if rows > 0 {
      RenderLength(cells[..|cells| - w], w, rows - 1);
    }
  }

  /** Rendering the first `k` rows of the grid gives a prefix of rendering all of it. */
  lemma {:induction false} RenderPrefix(cells: seq<Cell>, w: nat, rows: nat, k: nat)
    requires |cells| == Mul(rows, w) && k <= rows
    ensures Mul(k, w) <= |cells|
    ensures RenderRows(cells[..Mul(k, w)], w, k) <= RenderRows(cells, w, rows)
    decreases rows
  {
    if k < rows {
      MulStrict(k, rows, w);
      var n := |cells| - w;
      RenderPrefix(cells[..n], w, rows - 1, k);
      assert cells[..n][..Mul(k, w)] == cells[..Mul(k, w)];
      var p := RenderRows(cells[..Mul(k, w)], w, k);
      var prev := RenderRows(cells[..n], w, rows - 1);
      var rest := RenderRow(cells[n..]) + "\n";
      AppendAssoc(prev, RenderRow(cells[n..]), "\n");
      assert (prev + rest)[..|p|] == prev[..|p|];
    } else {
      assert cells[..Mul(k, w)] == cells;
    }
  }

  /**
   * Line `y` of the rendering occupies the `w + 1` characters starting at
   * `y * (w + 1)`: the glyphs of row `y` of the grid, then a newline.
   */
  lemma RenderLine(cells: seq<Cell>, w: nat, rows: nat, y: nat)
    requires |cells| == Mul(rows, w) && y < rows
    ensures Mul(y, w) + w <= |cells|
    ensures Mul(y, w + 1) + w + 1 <= |RenderRows(cells, w, rows)|
    ensures RenderRows(cells, w, rows)[Mul(y, w + 1) .. Mul(y, w + 1) + w + 1]
            == RenderRow(cells[Mul(y, w) .. Mul(y, w) + w]) + "\n"
  {
    MulStrict(y, rows, w);
    MulSucc(y, w);
    RenderPrefix(cells, w, rows, y + 1);
    RenderRowsExtend(cells, w, y);
    RenderLength(cells[..Mul(y, w)], w, y);
    var q := RenderRows(cells[..Mul(y, w)], w, y);
    var row := RenderRow(cells[Mul(y, w) .. Mul(y, w) + w]);
    var p := RenderRows(cells[..Mul(y + 1, w)], w, y + 1);
    AppendAssoc(q, row, "\n");
    SliceOfPrefix(RenderRows(cells, w, rows), p, q, row + "\n", Mul(y, w + 1), Mul(y, w + 1) + w + 1);
  }

  /** When `q + l` is a prefix of `s`, the slice of `s` just after `q` is `l`. */
  lemma SliceOfPrefix<T>(s: seq<T>, p: seq<T>, q: seq<T>, l: seq<T>, i: nat, j: nat)
    requires p <= s && p == q + l
    requires i == |q| && j == |q| + |l|
    ensures j <= |s| && s[i..j] == l
  {
    assert s[i..j] == p[i..j];
  }


  /**
   * Each cell's glyph sits at its own place in `Render`: column `x` of line `y`,
   * and every line ends in a newline after `w` glyphs.
   */
  lemma RenderAt(cells: seq<Cell>, w: nat, rows: nat, x: nat, y: nat)
    requires |cells| == Mul(rows, w)
    requires x < w && y < rows
    ensures Index(w, x, y) < |cells|
    ensures Mul(y, w + 1) + w < |RenderRows(cells, w, rows)|
    ensures RenderRows(cells, w, rows)[Mul(y, w + 1) + x] == Glyph(cells[Index(w, x, y)])
    ensures RenderRows(cells, w, rows)[Mul(y, w + 1) + w] == '\n'
  {
    RenderLine(cells, w, rows, y);
    var a := Mul(y, w + 1);
    var r := cells[Mul(y, w) .. Mul(y, w) + w];
    RenderRowAt(r, x);
    assert r[x] == cells[Index(w, x, y)];
    LineAt(RenderRows(cells, w, rows), a, a + w + 1, RenderRow(r), '\n', x, a + x, a + w);
  }

  /** The layout of `RenderAt`, stated with ordinary multiplication. */
  lemma RenderAtProduct(cells: seq<Cell>, w: nat, rows: nat, x: nat, y: nat)
    requires |cells| == rows * w
    requires x < w && y < rows
    ensures |cells| == Mul(rows, w)
    ensures y * w + x < |cells|
    ensures y * (w + 1) + w < |RenderRows(cells, w, rows)|
    ensures RenderRows(cells, w, rows)[y * (w + 1) + x] == Glyph(cells[y * w + x])
    ensures RenderRows(cells, w, rows)[y * (w + 1) + w] == '\n'
  {
    MulIsProduct(rows, w);
    MulIsProduct(y, w);
    MulIsProduct(y, w + 1);
    RenderAt(cells, w, rows, x, y);
    var a, i := Mul(y, w + 1), Index(w, x, y);
    assert a + x == y * (w + 1) + x && a + w == y * (w + 1) + w;
    assert i == y * w + x;
  }

  /**
   * In a slice `s[a..b]` that holds `line` and then `nl`, element `a + i` of
   * `s` is element `i` of `line`, and element `b - 1` is `nl`.
   */
  lemma LineAt<T>(s: seq<T>, a: nat, b: nat, line: seq<T>, nl: T, i: nat, k: nat, e: nat)
    requires a <= b <= |s| && s[a..b] == line + [nl]
    requires i < |line| && k == a + i && e + 1 == b
    ensures s[k] == line[i] && s[e] == nl
  {
    assert s[a..b][i] == s[k];
    assert s[a..b][|line|] == s[e];
  }

  /** Number of occurrences of `ch` in `s`. */
  function Count(s: string, ch: char): nat
  {
    if |s| == 0 then 0 else Count(s[..|s| - 1], ch) + (if s[|s| - 1] == ch then 1 else 0)
  }

  lemma {:induction false} CountAppend(a: string, b: string, ch: char)
    ensures Count(a + b, ch) == Count(a, ch) + Count(b, ch)
  {
    if |b| > 0 {
      assert (a + b)[..|a + b| - 1] == a + b[..|b| - 1];
      CountAppend(a, b[..|b| - 1], ch);
    } else {
      assert a + b == a;
    }
  }

  /** A rendered run of cells holds no newline. */
  lemma {:induction false} RenderRowNoNewline(row: seq<Cell>)
    ensures Count(RenderRow(row), '\n') == 0
  {
    if |row| > 0 {
      var g := [Glyph(row[|row| - 1])];
      RenderRowNoNewline(row[..|row| - 1]);
      CountAppend(RenderRow(row[..|row| - 1]), g, '\n');
      assert g[..0] == [];
    }
  }

  /** The rendering holds exactly one newline per row. */
  lemma {:induction false} RenderNewlines(cells: seq<Cell>, w: nat, rows: nat)
    requires |cells| == Mul(rows, w)
    ensures Count(RenderRows(cells, w, rows), '\n') == rows
    decreases rows
  {
    if rows > 0 {
      var n := |cells| - w;
      var prev := RenderRows(cells[..n], w, rows - 1);
      var row := RenderRow(cells[n..]);
      RenderNewlines(cells[..n], w, rows - 1);
      RenderRowNoNewline(cells[n..]);
      CountAppend(prev, row, '\n');
      CountAppend(prev + row, "\n", '\n');
      assert Count("\n", '\n') == 1;
    }
  }

  /** Apart from the newlines, the rendering holds exactly one glyph per cell. */
  lemma RenderGlyphs(cells: seq<Cell>, w: nat, rows: nat)
    requires |cells| == Mul(rows, w)
    ensures |RenderRows(cells, w, rows)| - Count(RenderRows(cells, w, rows), '\n') == rows * w
  {
    RenderNewlines(cells, w, rows);
    RenderLength(cells, w, rows);
    MulIsProduct(rows, w);
  }

  lemma RenderRowInjective(r1: seq<Cell>, r2: seq<Cell>)
    requires |r1| == |r2| && RenderRow(r1) == RenderRow(r2)
    ensures r1 == r2
  {
    forall i | 0 <= i < |r1| ensures r1[i] == r2[i] {
      RenderRowAt(r1, i);
      RenderRowAt(r2, i);
    }
  }

  lemma LineInjective(p1: string, r1: string, p2: string, r2: string)
    requires |p1| == |p2| && |r1| == |r2|
    requires p1 + r1 + "\n" == p2 + r2 + "\n"
    ensures p1 == p2 && r1 == r2
  {
    var s := p1 + r1 + "\n";
    assert p1 == s[..|p1|] == p2;
    assert r1 == s[|p1| .. |p1| + |r1|] == r2;
  }

  /** The rendering loses nothing: grids of the same shape with the same text are equal. */
  lemma {:induction false} RenderInjective(a: seq<Cell>, b: seq<Cell>, w: nat, rows: nat)
    requires |a| == Mul(rows, w) && |b| == Mul(rows, w)
    requires RenderRows(a, w, rows) == RenderRows(b, w, rows)
    ensures a == b
    decreases rows
  {
    if rows > 0 {
      var n := |a| - w;
      RenderLength(a[..n], w, rows - 1);
      RenderLength(b[..n], w, rows - 1);
      LineInjective(RenderRows(a[..n], w, rows - 1), RenderRow(a[n..]),
                    RenderRows(b[..n], w, rows - 1), RenderRow(b[n..]));
      RenderInjective(a[..n], b[..n], w, rows - 1);
      RenderRowInjective(a[n..], b[n..]);
      assert a == a[..n] + a[n..];
      assert b == b[..n] + b[n..];
    }
  }

  lemma AppendAssoc<T>(a: seq<T>, b: seq<T>, c: seq<T>)
    ensures a + b + c == a + (b + c)
  {
  }

  /** Writing the glyph of the next cell of a row extends the row's text by that glyph. */
  lemma RenderRowStep(cells: seq<Cell>, base: nat, x: nat, done: string, s: string, c: Cell)
    requires base + x < |cells| && c == cells[base + x]
    requires s == done + RenderRow(cells[base .. base + x])
    ensures s + [Glyph(c)] == done + RenderRow(cells[base .. base + x + 1])
  {
    RenderRowSnoc(cells, base, base + x);
    AppendAssoc(done, RenderRow(cells[base .. base + x]), [Glyph(c)]);
  }

  /** Rendering one more row of a row-major grid appends that row's text. */
  lemma RenderRowsExtend(cells: seq<Cell>, w: nat, y: nat)
    requires Mul(y, w) + w <= |cells|
    ensures |cells[..Mul(y + 1, w)]| == Mul(y + 1, w)
    ensures RenderRows(cells[..Mul(y + 1, w)], w, y + 1)
            == RenderRows(cells[..Mul(y, w)], w, y) + RenderRow(cells[Mul(y, w) .. Mul(y, w) + w]) + "\n"
  {
    var base := Mul(y, w);
    assert cells[..base + w][..base] == cells[..base];
    assert cells[..base + w][base..] == cells[base .. base + w];
  }

  /** One iteration of the outer loop of `fmt`: a finished row and its newline extend the text. */
  lemma RenderRowsStep(cells: seq<Cell>, w: nat, y: nat, done: string, s: string)
    requires Mul(y, w) + w <= |cells|
    requires done == RenderRows(cells[..Mul(y, w)], w, y)
    requires s == done + RenderRow(cells[Mul(y, w) .. Mul(y, w) + w])
    ensures Mul(y + 1, w) <= |cells|
    ensures s + "\n" == RenderRows(cells[..Mul(y + 1, w)], w, y + 1)
  {
    RenderRowsExtend(cells, w, y);
  }

  /** Rendering the first `rows` rows of a grid of exactly `rows` rows renders all of it. */
  lemma RenderRowsWhole(cells: seq<Cell>, w: nat, rows: nat)
    requires |cells| == Mul(rows, w)
    ensures RenderRows(cells[..Mul(rows, w)], w, rows) == RenderRows(cells, w, rows)
  {
    assert cells[..Mul(rows, w)] == cells;
  }

  // ---------------------------------------------------------------------------
  // The board.
  // ---------------------------------------------------------------------------

  /** `Board` of src/life.rs: a `width` by `height` grid of cells stored row by row. */
  class Board {
    var width: nat
    var height: nat
    var cells: seq<Cell>

    /** The board's invariant: one cell per coordinate, `height` rows of `width` cells. */
    ghost predicate Valid()
      reads this
    {
      |cells| == Mul(height, width)
    }

    /** The text `Display for Board` promises for this board. */
    ghost function Render(): string
      reads this
      requires Valid()
    {
      RenderRows(cells, width, height)
    }

    /** `Board::new`: a `width` by `height` board whose every cell is dead. */
    constructor (width: nat, height: nat)
      requires width <= USIZE_MAX && height <= USIZE_MAX
      requires width * height <= USIZE_MAX
      ensures Valid()
      ensures this.width == width && this.height == height
      ensures |cells| == width * height && |cells| <= USIZE_MAX
      ensures forall i :: 0 <= i < |cells| ==> cells[i] == Dead
    {
      this.width := width;
      this.height := height;
      cells := seq(width * height, _ => Dead);
      MulIsProduct(height, width);
    }

    /** `Board::get`: the cell stored at position `y * width + x`. */
    method Get(x: nat, y: nat) returns (c: Cell)
      requires Index(width, x, y) < |cells|
      ensures c == cells[Index(width, x, y)]
    {
      MulIsProduct(y, width);
      var index := y * width + x;
      c := cells[index];
    }

    /** `Board::set`: overwrite position `y * width + x` and nothing else. */
    method Set(x: nat, y: nat, cell: Cell)
      requires Index(width, x, y) < |cells|
      modifies this
      ensures width == old(width) && height == old(height)
      ensures cells == old(cells)[Index(width, x, y) := cell]
      ensures |cells| == old(|cells|)
      ensures old(Valid()) ==> Valid()
    {
      MulIsProduct(y, width);
      var index := y * width + x;
      cells := cells[index := cell];
    }

    /**
     * `Display for Board`: every row from top to bottom, each row's glyphs
     * followed by a newline; the text written is exactly `Render()`.
     */
    method Fmt() returns (s: string)
      requires Valid()
      ensures s == Render()
    {
      ghost var grid, w := cells, width;
      s := "";
      var y := 0;
      while y < height
        invariant 0 <= y <= height
        invariant Mul(y, w) <= |grid|
        invariant s == RenderRows(grid[..Mul(y, w)], w, y)
      {
        ghost var done := s;
        MulStrict(y, height, w);
        ghost var base := Mul(y, w);
        assert grid[base .. base] == [];
        var x := 0;
        while x < width
          invariant 0 <= x <= width
          invariant s == done + RenderRow(grid[base .. base + x])
        {
          var c := Get(x, y);
          RenderRowStep(grid, base, x, done, s, c);
          s := s + [Glyph(c)];
          x := x + 1;
        }
        RenderRowsStep(grid, w, y, done, s);
        s := s + "\n";
        y := y + 1;
      }
      RenderRowsWhole(grid, w, height);
    }
  }
}
