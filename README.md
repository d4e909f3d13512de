# life-rs board, modelled in Dafny

`life.dfy` models the Game-of-Life board of `src/life.rs`:

- the two-valued `Cell` and the one-token glyph that `Display for Cell` writes
  for it (U+1F7EA for `Alive`, U+2B1B for `Dead`);
- `struct Board`, a `width` by `height` grid held as a flat row-major vector of
  cells. It is a Dafny `class` with the fields `width`, `height` (`usize` as
  `nat`) and `cells` (the `Vec<Cell>` as a `seq<Cell>`);
- `Board::new`, `Board::get` and `Board::set`, which map `(x, y)` to the flat
  index `y * width + x`;
- `Display for Board`. Its nested `for y` / `for x` loops call `get` and write
  each cell's glyph, then a newline after every row. It is the method `Fmt`.
  `Fmt` keeps both loops and builds the output text step by step, and it is
  proved to produce exactly the pure rendering `RenderRows` (the class's ghost
  `Render()`).

The board's invariant `Valid()` is `|cells| == width * height`. `new`
establishes it and `set` preserves it. The product is written `Mul(rows, w)`,
which is multiplication by repeated addition; `MulIsProduct` proves that it
equals `rows * w`. Grid positions are therefore reasoned about linearly.

The rendering is specified by the pure functions `RenderRow` (the glyphs of one
run of cells) and `RenderRows` (all rows, each followed by `"\n"`). The lemmas
about them establish:

- the exact layout: line `y` starts at `y * (w + 1)`, holds the glyphs of row
  `y`, and ends in a newline;
- the counts: `height` newlines and `width * height` glyphs;
- that the rendering is injective on grids of the same shape.

Facts about `src/life.rs` that the model keeps:

- `new` is infallible (src/life.rs:26), even though src/main.rs:71-73,80 call
  `unwrap()` on it.
- `set` takes `usize` coordinates and does not wrap them (src/life.rs:40-41).
- `get` and `set` do not check `x < width` or `y < height` (src/life.rs:36,41).
  They fail only when the flat index is past the end of the vector
  (src/life.rs:37,42); see `IndexColumnOverflow`.
- `src/life.rs` has no coordinate wrapping, neighbour counting or generation
  step.

## Model

| member | source | states |
|---|---|---|
| Life.Glyph | src/life.rs:9-17 | `Alive` is written as U+1F7EA and `Dead` as U+2B1B (each exactly when the cell is that variant); a glyph is one character and never a newline |
| Life.MulIsProduct | src/life.rs:27 | the cell count `Mul(height, width)` used throughout equals `width * height` |
| Life.MulStrict | src/life.rs:36 | helper for the index arithmetic: a row that comes before row `b` ends, `w` cells later, no later than row `b` begins |
| Life.Index | src/life.rs:36 | defines the flat index `y * width + x` (as `Mul(y, w) + x`) that `get` and `set` compute |
| Life.IndexInBounds | src/life.rs:36 | for `x < w` and `y < h`, the index `y * w + x` is below `w * h`, so `get`/`set` on in-range coordinates never panic |
| Life.IndexInjective | src/life.rs:35-43 | distinct in-range coordinates give distinct indices, so `get`/`set` never alias two in-range cells |
| Life.IndexColumnOverflow | src/life.rs:36 | the index is not bounds-checked per axis: `(w, y)` names the same cell as `(0, y + 1)` |
| Life.SetThenGet | src/life.rs:35-43 | after writing `c` at in-range `(x, y)`, reading `(x, y)` gives `c` and reading any other in-range coordinate gives the old cell |
| Life.Board.Valid | src/life.rs:19-33 | defines the board invariant `cells.len() == width * height`, which `new` sets up at src/life.rs:27 |
| Life.Board.Render | src/life.rs:46-56 | defines the ghost text of the board, `RenderRows(cells, width, height)`, that `Fmt` is proved to write |
| Life.Board.constructor | src/life.rs:26-33 | `new(width, height)` with `width * height` within `usize` stores `width` and `height`, and has exactly `width * height` cells, all `Dead`; the invariant holds |
| Life.Board.Get | src/life.rs:35-38 | `get(x, y)` returns the cell at position `y * width + x` and changes nothing; it requires that position to be inside the vector (otherwise Rust panics) |
| Life.Board.Set | src/life.rs:40-43 | `set(x, y, c)` replaces exactly position `y * width + x` with `c` and keeps `width`, `height`, the length and the invariant |
| Life.Board.Fmt | src/life.rs:46-56 | the nested loops write exactly `Render()`: for each row from top to bottom, the glyph of each cell left to right, then `"\n"` |
| Life.RenderRows | src/life.rs:47-55 | defines the reference text of `Display for Board`: the rows from top to bottom, each row's glyphs followed by `"\n"` |
| Life.RenderRow | src/life.rs:49-51 | one row's text has one character per cell |
| Life.RenderRowAt | src/life.rs:49-51 | character `i` of a row's text is the glyph of the row's cell `i` |
| Life.RenderRowSnoc | src/life.rs:49-51 | helper for the proof of `Fmt`: writing one more cell of the row appends exactly that cell's glyph |
| Life.RenderRowStep | src/life.rs:49-50 | helper for the proof of `Fmt`'s inner loop: one step of the inner loop, after reading the next cell with `get`, extends the text by that cell's glyph |
| Life.RenderRowsStep | src/life.rs:48-53 | helper for the proof of `Fmt`'s outer loop: one step of the outer loop, a finished row and its newline, extends the text to the rendering of one more row |
| Life.RenderRowNoNewline | src/life.rs:49-51 | a row's text contains no newline |
| Life.RenderLength | src/life.rs:47-55 | the text of `rows` rows of `w` cells has `w * rows + rows` characters |
| Life.RenderPrefix | src/life.rs:48-53 | the text of the first `k` rows is a prefix of the text of the whole board |
| Life.RenderLine | src/life.rs:48-53 | line `y` is the `w + 1` characters starting at `y * (w + 1)`: row `y`'s glyphs, then a newline |
| Life.RenderAt | src/life.rs:48-53 | character `y * (w + 1) + x` is the glyph of cell `(x, y)` (the cell `get(x, y)` returns) and character `y * (w + 1) + w` is `'\n'`, i.e. row-major order |
| Life.RenderAtProduct | src/life.rs:48-53 | `RenderAt` with ordinary multiplication: character `y * (w + 1) + x` is the glyph of `cells[y * w + x]` and character `y * (w + 1) + w` is `'\n'` |
| Life.RenderNewlines | src/life.rs:48-53 | the text contains exactly `height` newlines |
| Life.RenderGlyphs | src/life.rs:47-55 | apart from the newlines, the text holds exactly `width * height` glyphs |
| Life.RenderRowInjective | src/life.rs:49-51 | two rows of the same length with the same text are the same row |
| Life.RenderInjective | src/life.rs:46-56 | two grids of the same shape with the same rendering are the same grid |

Rows marked as helpers are proof steps for `Fmt`'s loops or for the index
arithmetic. They do not model source lines of their own. Lemmas stated with
`Mul(h, w)` or `Mul(y, w + 1)` read with `h * w` or `y * (w + 1)` through
`MulIsProduct`.

## Left out

- `src/main.rs` is not part of this model. It holds the terminal UI: widget drawing, the draw/read loop, keyboard input, and terminal setup and restore. All of this is I/O.
- The generation step (`get_next_state`, called from `src/main.rs:61`), neighbour counting and toroidal wrapping are not modelled. `src/life.rs` has no implementation of any of them.
- A fallible constructor is not modelled. `src/main.rs` calls `unwrap()` on `Board::new`, but the `new` in `src/life.rs` returns a `Board` directly. The `usize` overflow of `width * height` is therefore a precondition of the constructor.
- Life.Board.constructor: allocation failure and the `vec!` capacity limit are not modelled. Only the `usize` bound on `width * height` is required.
- Life.Board.Get: an index at or past the end of `cells` panics in Rust. The model makes "the index is inside the vector" a precondition instead of modelling the panic. The same holds for Life.Board.Set.
- Life.Board.Get: `usize` overflow of `y * width + x` is not modelled separately. Every board has `|cells| <= USIZE_MAX`; the constructor states this and `Set` keeps the length. So an index inside the vector never overflows. Coordinates whose product wraps around in release builds fall outside the precondition.
- Life.Board.Fmt: errors from the `fmt::Formatter` (`?` on each `write!`) are not modelled. Writing is infallible; the method returns the text instead of appending it to a formatter.
- Life.Board.Valid: it states only `|cells| == width * height`. The `usize` bound on the length is a separate postcondition of the constructor.
