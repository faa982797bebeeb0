/**
 * The Abalone board (core/board.py): a grid of cells whose contents the moves rewrite in
 * place, the starting layout it was loaded from, and the cached enumeration that every
 * write to the grid invalidates.
 */
module Boards {
  import opened Wrappers
  import opened Hexes
  import opened Colors
  import opened Grid
  import opened Selections
  import opened Occupancy
  import opened Layouts
  import opened Rules
  import opened Effects

  class Board {
    /** The grid storage: one slot per in-bounds cell. */
    var cells: Cells
    /** `_layout`: the data the board was loaded from, absent on a bare board. */
    var layout: Option<Layout>
    /** `_items`: the cached enumeration, absent once invalidated. */
    var items: Option<seq<Entry>>

    /** The storage covers the grid, and a cached enumeration lists the current contents. */
    ghost predicate Valid()
      reads this
    {
      WellFormed(cells) && (items.Some? ==> items.value == Entries(cells))
    }

    /** `Board()`: an empty grid with no layout and no enumeration. */
    constructor ()
      ensures Valid()
      ensures cells == EmptyCells() && layout == None && items == None
    {
      cells := EmptyCells();
      layout := None;
      items := None;
    }

    /** `board[cell]`: the occupant, nothing for an empty cell or one off the board. */
    function Get(c: Hex): Option<Color>
      reads this
    {
      At(cells, c)
    }

    /** `cell_in_bounds`: the cell has a slot in the grid, that is, it lies in the hexagon. */
    function CellInBounds(c: Hex): (r: bool)
      reads this
      requires Valid()
      ensures r <==> InBounds(c)
    {
      c in cells
    }

    /** `cell_owned_by`: the cell is on the board and holds a marble of `p`. */
    function CellOwnedBy(c: Hex, p: Color): (r: bool)
      reads this
      requires Valid()
      ensures r <==> InBounds(c) && At(cells, c) == Some(p)
    {
      CellInBounds(c) && Get(c).Some? && Get(c).value == p
    }

    /**
     * `board[cell] = v`: writes the cell, and forgets the enumeration when the cell is on
     * the board; a write off the board changes nothing.
     */
    method Set(c: Hex, v: Option<Color>)
      requires Valid()
      modifies this
      ensures Valid()
      ensures cells == Put(old(cells), c, v)
      ensures items == if InBounds(c) then None else old(items)
      ensures layout == old(layout)
    {
      var inside := CellInBounds(c);
      cells := Put(cells, c, v);
      if inside {
        items := None;
      }
    }

    /**
     * `Board.create_from_data`: a fresh board whose cell at row `r`, column `k` (axial
     * `(k + offset(r), r)`) holds the colour coded by `data[r][k]`, or nothing for any other
     * code; the layout is kept for scoring.
     */
    static method CreateFromData(data: Layout) returns (board: Board)
      ensures fresh(board) && board.Valid()
      ensures board.cells == Loaded(data)
      ensures board.layout == Some(data)
    {
      board := new Board();
      board.layout := Some(data);
      LoadStart(data);
      var r := 0;
      while r < |data|
        invariant 0 <= r <= |data|
        invariant fresh(board) && board.Valid() && board.layout == Some(data)
        invariant board.cells == PartLoaded(data, r, 0)
      {
        var line := data[r];
        var k := 0;
        while k < |line|
          invariant 0 <= k <= |line|
          invariant fresh(board) && board.Valid() && board.layout == Some(data)
          invariant board.cells == PartLoaded(data, r, k)
        {
          LoadNext(data, r, k);
          board.Set(Hex(k + Offset(r), r), FromCode(line[k]));
          k := k + 1;
        }
        LoadRowDone(data, r);
        r := r + 1;
      }
      LoadDone(data);
    }

    /**
     * `enumerate`: every stored cell with its occupant, row by row; the list is rebuilt
     * when no list, or an empty one, is cached.
     */
    method Enumerate() returns (es: seq<Entry>)
      requires Valid()
      modifies this
      ensures Valid()
      ensures es == Entries(cells)
      ensures items == Some(es)
      ensures cells == old(cells) && layout == old(layout)
    {
      if items.None? || items.value == [] {
        var built: seq<Entry> := [];
        var r := 0;
        while r < ROWS
          invariant 0 <= r <= ROWS
          invariant built == EntriesUpTo(cells, r)
        {
          var k := 0;
          while k < RowLen(r)
            invariant 0 <= k <= RowLen(r)
            invariant built == EntriesUpTo(cells, r) + RowEntries(cells, r)[..k]
          {
            var cell := Hex(k + Offset(r), r);
            built := built + [(cell, Get(cell))];
            k := k + 1;
          }
          assert RowEntries(cells, r)[..k] == RowEntries(cells, r);
          r := r + 1;
        }
        items := Some(built);
      }
      es := items.value;
    }

    /** `_is_valid_single_move`: the cell one step ahead of the marble is on the board and empty. */
    function IsValidSingleMove(m: Move): (r: bool)
      reads this
      requires Valid()
      ensures r == SingleLegal(cells, m)
    {
      var destination := Add(m.selection.start, m.direction);
      if !CellInBounds(destination) then false
      else if Get(destination).Some? then false
      else true
    }

    /** `_is_valid_inline_move`: the walk ahead of the move's front, for a line of the move's size. */
    method IsValidInlineMove(m: Move, p: Color) returns (ok: bool)
      requires Valid()
      ensures ok == InlineLegal(cells, m, p)
    {
      ok := InlineWalk(Front(m), m.direction, Size(m.selection), p);
    }

    /**
     * The loop of `_is_valid_inline_move`: walks at most MAX_SUMITO cells from `f` along `d`;
     * leaving the board is allowed only after an opposing marble, an empty cell ends the
     * walk in success, and the mover's own marble, or an opposing marble that the `size`
     * movers do not outnumber, ends it in failure.
     */
    method InlineWalk(f: Hex, d: Direction, size: int, p: Color) returns (ok: bool)
      requires Valid()
      ensures ok == InlineRule(cells, f, d, size, p)
    {
      var destination := f;
      var outOfBoundsValid := false;
      var i := 1;
      ghost var k := 0;
      while i <= MAX_SUMITO
        invariant Walked(cells, f, d, size, p, i)
        invariant k == i - 1 && destination == Step(f, d, k)
        invariant outOfBoundsValid == (i > 1)
      {
        StepNext(f, d, k);
        destination := Add(destination, d);
        if !CellInBounds(destination) {
          WalkStop(cells, f, d, size, p, i, destination);
          return outOfBoundsValid;
        }
        if Get(destination).None? {
          WalkStop(cells, f, d, size, p, i, destination);
          return true;
        }
        if Get(destination) == Some(p) {
          WalkStop(cells, f, d, size, p, i, destination);
          return false;
        }
        WalkOn(cells, f, d, size, p, i, destination);
        if i >= size {
          return false;
        }
        outOfBoundsValid := true;
        i, k := i + 1, k + 1;
      }
      WalkFull(cells, f, d, size, p);
      return true;
    }

    /** `_is_valid_sidestep_move`: every member's next cell is on the board and empty. */
    method IsValidSidestepMove(m: Move) returns (ok: bool)
      requires Valid()
      ensures ok == SidestepLegal(cells, m)
    {
      ok := ShiftWalk(ToArray(m.selection), m.direction);
    }

    /** The loop of `_is_valid_sidestep_move`: fails at the first cell whose next cell is off the board or taken. */
    method ShiftWalk(src: seq<Hex>, d: Direction) returns (ok: bool)
      requires Valid()
      ensures ok == CanShift(cells, src, d)
    {
      var k := 0;
      while k < |src|
        invariant 0 <= k <= |src|
        invariant CanShift(cells, src[..k], d)
      {
        var destination := Add(src[k], d);
        if !CellInBounds(destination) {
          return false;
        }
        if Get(destination).Some? {
          return false;
        }
        assert src[..k + 1] == src[..k] + [src[k]];
        k := k + 1;
      }
      assert src[..k] == src;
      return true;
    }

    /** `is_valid_move`: a single marble, then an inline move, and anything else as a sidestep. */
    method IsValidMove(m: Move, p: Color) returns (ok: bool)
      requires Valid()
      ensures ok == MoveLegal(cells, m, p)
    {
      if IsSingle(m) {
        return IsValidSingleMove(m);
      }
      if IsInline(m) {
        ok := IsValidInlineMove(m, p);
        return;
      }
      ok := IsValidSidestepMove(m);
    }

    /**
     * `select_marbles_in_line`: nothing from an empty start; otherwise the selection from
     * `start` to the last cell of the unbroken run of its colour along `d`.
     */
    method SelectMarblesInLine(start: Hex, d: Direction) returns (r: Option<Selection>)
      requires Valid()
      ensures r == LineSelection(cells, start, d)
    {
      var color := Get(start);
      if color.None? {
        return None;
      }
      var destination := start;
      var next := start;
      ghost var k: nat := 0;
      StepNext(start, d, 0);
      while CellInBounds(next) && Get(next) == color
        invariant next == Step(start, d, k)
        invariant k == 0 ==> destination == start
        invariant k > 0 ==> destination == Step(start, d, k - 1)
        invariant k <= ROWS
        invariant forall j :: 0 <= j < k ==> Step(start, d, j) in cells && cells[Step(start, d, j)] == color
        decreases ROWS - k
      {
        LineLeavesGrid(start, d, k);
        StepNext(start, d, k);
        destination := next;
        next := Add(next, d);
        k := k + 1;
      }
      RunLengthExact(cells, start, d, color, k);
      return Some(Selection(start, Some(destination)));
    }

    /** `_apply_base_move`: clears every member, then writes the mover's colour to every destination. */
    method ApplyBaseMove(m: Move)
      requires Valid()
      modifies this
      ensures Valid()
      ensures cells == Base(old(cells), m)
      ensures layout == old(layout)
    {
      var player := Get(m.selection.start);
      WriteAll(ToArray(m.selection), None);
      WriteAll(Destinations(m), player);
    }

    /**
     * `_apply_sumito_move`: scans the opposing run ahead of the front, clears it, writes its
     * colour one step further on wherever that is on the board, then makes the base move.
     */
    method ApplySumitoMove(m: Move)
      requires Valid() && IsSumito(cells, m)
      modifies this
      ensures Valid()
      ensures cells == Sumito(old(cells), m)
      ensures layout == old(layout)
    {
      var run := SelectMarblesInLine(Add(Front(m), m.direction), m.direction);
      var pushed := Move(run.value, m.direction);
      var player := Get(pushed.selection.start);
      WriteAll(ToArray(pushed.selection), None);
      WriteAll(Destinations(pushed), player);
      ApplyBaseMove(m);
    }

    /** `apply_move`: a sumito when the move is one, a base move otherwise. */
    method ApplyMove(m: Move)
      requires Valid()
      modifies this
      ensures Valid()
      ensures cells == Apply(old(cells), m)
      ensures layout == old(layout)
    {
      if IsSumito(cells, m) {
        ApplySumitoMove(m);
      } else {
        ApplyBaseMove(m);
      }
    }

    /**
     * The loops of both moves: `v` written to every listed cell in turn. The sumito loops
     * skip cells off the board, which a write there would leave unchanged anyway.
     */
    method WriteAll(cs: seq<Hex>, v: Option<Color>)
      requires Valid()
      modifies this
      ensures Valid()
      ensures cells == PutAll(old(cells), cs, v)
      ensures layout == old(layout)
    {
      var k := 0;
      while k < |cs|
        invariant 0 <= k <= |cs|
        invariant Valid() && layout == old(layout)
        invariant cells == PutAll(old(cells), cs[..k], v)
      {
        Set(cs[k], v);
        assert cs[..k + 1][..k] == cs[..k];
        k := k + 1;
      }
      assert cs[..k] == cs;
    }

    /**
     * `get_score(p)`: how many of the opponent's marbles the layout started with minus how
     * many the enumeration still lists.
     */
    method GetScore(p: Color) returns (score: int)
      requires Valid() && layout.Some?
      modifies this
      ensures Valid()
      ensures cells == old(cells) && layout == old(layout)
      ensures score == Score(cells, layout.value, p)
    {
      var enemy := Next(p);
      var data := layout.value;
      var layoutCount := 0;
      var r := 0;
      while r < |data|
        invariant 0 <= r <= |data|
        invariant layoutCount == LayoutCount(data[..r], Value(enemy))
      {
        var line := data[r];
        var k := 0;
        while k < |line|
          invariant 0 <= k <= |line|
          invariant layoutCount == LayoutCount(data[..r], Value(enemy)) + RowCount(line[..k], Value(enemy))
        {
          if line[k] == Value(enemy) {
            layoutCount := layoutCount + 1;
          }
          assert line[..k + 1][..k] == line[..k];
          k := k + 1;
        }
        assert line[..k] == line;
        assert data[..r + 1][..r] == data[..r];
        r := r + 1;
      }
      assert data[..r] == data;
      var es := Enumerate();
      var boardCount := 0;
      var i := 0;
      while i < |es|
        invariant 0 <= i <= |es|
        invariant boardCount == CountColor(es[..i], enemy)
      {
        if es[i].1 == Some(enemy) {
          boardCount := boardCount + 1;
        }
        assert es[..i + 1][..i] == es[..i];
        i := i + 1;
      }
      assert es[..i] == es;
      CountEntries(cells, enemy);
      score := layoutCount - boardCount;
    }
  }
}
