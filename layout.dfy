/** The starting layout: rows of integer codes, what loading it yields, and how many marbles it holds. */
module Layouts {
  import opened Wrappers
  import opened Hexes
  import opened Colors
  import opened Grid
  import opened Occupancy

  /** A row-major array of codes: 0 for an empty cell, otherwise a colour's value. */
  type Layout = seq<seq<int>>

  /** How many entries of a row equal `code`. */
  function RowCount(line: seq<int>, code: int): nat
    decreases |line|
  {
    if line == [] then 0
    else RowCount(line[..|line| - 1], code) + (if line[|line| - 1] == code then 1 else 0)
  }

  /** How many entries of a layout equal `code` (the first counting loop of `get_score`). */
  function LayoutCount(layout: Layout, code: int): nat
    decreases |layout|
  {
    if layout == [] then 0
    else LayoutCount(layout[..|layout| - 1], code) + RowCount(layout[|layout| - 1], code)
  }

  /** The layout has no more rows than the grid, and no row longer than the grid's row. */
  predicate Fits(layout: Layout)
  {
    |layout| <= ROWS && forall r :: 0 <= r < |layout| ==> |layout[r]| <= RowLen(r)
  }

  /** The occupant loading gives cell `c`: the colour at row `c.r`, column `c.q - offset(c.r)`. */
  function LoadedAt(data: Layout, c: Hex): Option<Color>
  {
    if 0 <= c.r < |data| && 0 <= c.q - Offset(c.r) < |data[c.r]|
    then FromCode(data[c.r][c.q - Offset(c.r)])
    else None
  }

  /** The board contents `create_from_data(data)` produces. */
  function Loaded(data: Layout): (cells: Cells)
    ensures WellFormed(cells)
    ensures forall c :: InBounds(c) ==> At(cells, c) == LoadedAt(data, c)
  {
    map c | c in AllCells() :: LoadedAt(data, c)
  }

  /**
   * What loading has written once rows `0 .. r-1` and the first `k` entries of row `r`
   * are stored: their occupants, and still nothing elsewhere.
   */
  function PartLoaded(data: Layout, r: int, k: int): (cells: Cells)
    ensures WellFormed(cells)
  {
    map c | c in AllCells() :: if c.r < r || (c.r == r && c.q - Offset(c.r) < k) then LoadedAt(data, c) else None
  }

  /** Before anything is stored, the grid is the empty one. */
  lemma LoadStart(data: Layout)
    ensures PartLoaded(data, 0, 0) == EmptyCells()
  {
  }

  /** Storing entry `k` of row `r` at its cell extends the loaded prefix by that entry. */
  lemma LoadNext(data: Layout, r: int, k: int)
    requires 0 <= r < |data| && 0 <= k < |data[r]|
    ensures Put(PartLoaded(data, r, k), Hex(k + Offset(r), r), FromCode(data[r][k])) == PartLoaded(data, r, k + 1)
  {
  }

  /** Once a whole row is stored, loading continues at the start of the next one. */
  lemma LoadRowDone(data: Layout, r: int)
    requires 0 <= r < |data|
    ensures PartLoaded(data, r, |data[r]|) == PartLoaded(data, r + 1, 0)
  {
  }

  /** Once every row is stored, the grid holds what loading yields. */
  lemma LoadDone(data: Layout)
    ensures PartLoaded(data, |data|, 0) == Loaded(data)
  {
  }

  /** The cells that the first `m` entries equal to `code` of row `r` are loaded into. */
  function RowCodeCells(line: seq<int>, r: int, m: int, code: int): set<Hex>
    requires 0 <= m <= |line|
  {
    set k | 0 <= k < m && line[k] == code :: Hex(k + Offset(r), r)
  }

  /** The cells that the entries equal to `code` of the first `n` rows are loaded into. */
  function CodeCells(data: Layout, n: int, code: int): set<Hex>
    requires 0 <= n <= |data|
  {
    set r, k | 0 <= r < n && 0 <= k < |data[r]| && data[r][k] == code :: Hex(k + Offset(r), r)
  }

  lemma {:induction false} RowCodeCount(line: seq<int>, r: int, m: int, code: int)
    requires 0 <= m <= |line|
    ensures |RowCodeCells(line, r, m, code)| == RowCount(line[..m], code)
  {
    if m > 0 {
      RowCodeCount(line, r, m - 1, code);
      assert line[..m][..m - 1] == line[..m - 1];
      var prev := RowCodeCells(line, r, m - 1, code);
      if line[m - 1] == code {
        assert RowCodeCells(line, r, m, code) == prev + {Hex(m - 1 + Offset(r), r)};
      } else {
        assert RowCodeCells(line, r, m, code) == prev;
      }
    }
  }

  /** The cells of the first `n` rows are those of the first `n - 1` rows and, apart from them, those of row `n - 1`. */
  lemma CodeCellsStep(data: Layout, n: int, code: int)
    requires 0 < n <= |data|
    ensures var prev, row := CodeCells(data, n - 1, code), RowCodeCells(data[n - 1], n - 1, |data[n - 1]|, code);
      CodeCells(data, n, code) == prev + row && prev * row == {}
  {
    var prev, row := CodeCells(data, n - 1, code), RowCodeCells(data[n - 1], n - 1, |data[n - 1]|, code);
    forall x | x in prev ensures x.r < n - 1 && x !in row {
    }
    forall x | x in CodeCells(data, n, code) ensures x in prev + row {
      var r, k :| 0 <= r < n && 0 <= k < |data[r]| && data[r][k] == code && x == Hex(k + Offset(r), r);
      if r < n - 1 {
        assert x in prev;
      } else {
        assert x in row;
      }
    }
  }

  lemma {:induction false} CodeCellsCount(data: Layout, n: int, code: int)
    requires 0 <= n <= |data|
    ensures |CodeCells(data, n, code)| == LayoutCount(data[..n], code)
  {
    if n > 0 {
      CodeCellsCount(data, n - 1, code);
      assert data[..n][..n - 1] == data[..n - 1];
      RowCodeCount(data[n - 1], n - 1, |data[n - 1]|, code);
      assert data[n - 1][..|data[n - 1]|] == data[n - 1];
      CodeCellsStep(data, n, code);
    }
  }

  /** A cell holds a marble of `col` after loading exactly when a code for `col` was stored there. */
  lemma LoadedMarble(data: Layout, col: Color, c: Hex)
    requires Fits(data)
    ensures c in Marbles(Loaded(data), col) <==> c in CodeCells(data, |data|, Value(col))
  {
    CodeRoundTrip(col);
    if c in CodeCells(data, |data|, Value(col)) {
      var r, k :| 0 <= r < |data| && 0 <= k < |data[r]| && data[r][k] == Value(col) && c == Hex(k + Offset(r), r);
      StoredCellInBounds(r, k);
    }
  }

  /**
   * A layout that fits the grid loads into exactly as many marbles of each colour as
   * it has codes for that colour.
   */
  lemma LoadedCount(data: Layout, col: Color)
    requires Fits(data)
    ensures |Marbles(Loaded(data), col)| == LayoutCount(data, Value(col))
  {
    CodeCellsCount(data, |data|, Value(col));
    assert data[..|data|] == data;
    forall c ensures c in Marbles(Loaded(data), col) <==> c in CodeCells(data, |data|, Value(col)) {
      LoadedMarble(data, col, c);
    }
    assert Marbles(Loaded(data), col) == CodeCells(data, |data|, Value(col));
  }
}
