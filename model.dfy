/**
 * The user-interface model (ui/model): a click-driven selection of the current player's
 * marbles that grows into a move, over a game reduced to its board and the player to move.
 */
module UiModel {
  import opened Wrappers
  import opened Hexes
  import opened Colors
  import opened Grid
  import opened Selections
  import opened Occupancy
  import opened Rules
  import opened Boards

  /** What a click leaves behind: the selection afterwards, and the move it proposes, if any. */
  datatype Clicked = Clicked(selection: Option<Selection>, move: Option<Move>)

  /**
   * The check `select_cell` runs on a re-anchored selection: it has cells, no more than
   * MAX_SELECTION_SIZE of them, and each holds what its start holds.
   */
  predicate Keeps(cells: Cells, s: Selection)
  {
    var cs := ToArray(s);
    cs != [] && |cs| <= MAX_SELECTION_SIZE && forall c :: c in cs ==> At(cells, c) == At(cells, s.start)
  }

  /** A selection worth holding: one to MAX_SELECTION_SIZE cells, all marbles of `turn`. */
  predicate Held(cells: Cells, s: Selection, turn: Color)
  {
    var cs := ToArray(s);
    1 <= |cs| <= MAX_SELECTION_SIZE && forall c :: c in cs ==> At(cells, c) == Some(turn)
  }

  /**
   * `select_cell` in closed form. Without a selection, a click on a marble of `turn` starts
   * one there. With one, a click off the board drops it; a click on a marble of `turn`
   * re-anchors it from its head to that cell, kept only when it passes `Keeps`; a click on
   * a neighbour of the head proposes the move towards it when the board allows it, and
   * keeps the selection; any other click drops the selection.
   */
  function Click(cells: Cells, turn: Color, sel: Option<Selection>, cell: Hex): Clicked
  {
    match sel
    case None =>
      if InBounds(cell) && At(cells, cell) == Some(turn)
      then Clicked(Some(Selection(cell, Some(cell))), None)
      else Clicked(None, None)
    case Some(s) =>
      if !InBounds(cell) then Clicked(None, None)
      else if At(cells, cell) == Some(turn) then
        var anchored := Selection(Head(s), Some(cell));
        if Keeps(cells, anchored) then Clicked(Some(anchored), None) else Clicked(None, None)
      else if Adjacent(Head(s), cell) then
        match Resolve(Subtract(cell, Head(s)))
        case Some(d) =>
          if MoveLegal(cells, Move(s, d), turn) then Clicked(sel, Some(Move(s, d))) else Clicked(None, None)
        case None => Clicked(None, None)
      else Clicked(None, None)
  }

  /** Without a selection, a click starts a one-cell selection exactly on a marble of `turn`, and proposes nothing. */
  lemma ClickStarts(cells: Cells, turn: Color, cell: Hex)
    requires WellFormed(cells)
    ensures var r := Click(cells, turn, None, cell);
      r.move == None
      && (r.selection.Some? <==> At(cells, cell) == Some(turn))
      && (r.selection.Some? ==> ToArray(r.selection.value) == [cell] && Held(cells, r.selection.value, turn))
  {
  }

  /** With a selection, a click off the board drops it and proposes nothing. */
  lemma ClickOffBoardClears(cells: Cells, turn: Color, s: Selection, cell: Hex)
    requires !InBounds(cell)
    ensures Click(cells, turn, Some(s), cell) == Clicked(None, None)
  {
  }

  /**
   * Re-anchoring on a marble of `turn` keeps the selection from the old head to the
   * clicked cell exactly when that selection is held: on one axis, at most
   * MAX_SELECTION_SIZE cells long, all marbles of `turn`.
   */
  lemma ReanchorKeptIffHeld(cells: Cells, turn: Color, s: Selection, cell: Hex)
    requires WellFormed(cells) && At(cells, cell) == Some(turn)
    ensures var r := Click(cells, turn, Some(s), cell);
      r.move == None
      && (r.selection.Some? <==> Held(cells, Selection(Head(s), Some(cell)), turn))
      && (r.selection.Some? ==> r.selection.value == Selection(Head(s), Some(cell)))
  {
    var anchored := Selection(Head(s), Some(cell));
    var cs := ToArray(anchored);
    if cs != [] {
      assert cs[|cs| - 1] == cell;
      if Keeps(cells, anchored) {
        assert At(cells, anchored.start) == Some(turn) by {
          assert cell in cs;
        }
      }
      if Held(cells, anchored, turn) {
        assert cs[0] == anchored.start;
        assert anchored.start in cs;
      }
    }
  }

  /**
   * A click proposes a move exactly when a selection is held, the clicked cell is on the
   * board, not a marble of `turn`, and one step from the head, and the move of the
   * selection in that step's direction is legal; the selection is then kept as it was.
   */
  lemma ClickMoves(cells: Cells, turn: Color, s: Selection, cell: Hex, d: Direction)
    requires WellFormed(cells) && Add(Head(s), d) == cell
    ensures var r := Click(cells, turn, Some(s), cell);
      r.move == Some(Move(s, d))
      <==> InBounds(cell) && At(cells, cell) != Some(turn) && MoveLegal(cells, Move(s, d), turn)
    ensures var r := Click(cells, turn, Some(s), cell);
      r.move.Some? ==> r.selection == Some(s)
  {
    var n := Subtract(cell, Head(s));
    assert n == Vector(d);
    AdjacentResolves(Head(s), cell);
    assert Resolve(n) == Some(d);
  }

  /** A proposed move is always towards a neighbour of the head, and always legal. */
  lemma ProposedMoveLegal(cells: Cells, turn: Color, sel: Option<Selection>, cell: Hex)
    ensures var r := Click(cells, turn, sel, cell);
      r.move.Some? ==>
        sel.Some? && r.move.value.selection == sel.value && r.selection == sel
        && Add(Head(sel.value), r.move.value.direction) == cell
        && MoveLegal(cells, r.move.value, turn)
  {
    if sel.Some? && Adjacent(Head(sel.value), cell) {
      AdjacentResolves(Head(sel.value), cell);
    }
  }

  /**
   * With a selection, every click ends one of three ways: the selection dropped and no move,
   * the selection re-anchored from its head onto a marble of `turn` and no move, or a move
   * proposed with the selection kept.
   */
  lemma ClickOutcomes(cells: Cells, turn: Color, s: Selection, cell: Hex)
    ensures var r := Click(cells, turn, Some(s), cell);
      r == Clicked(None, None)
      || (r.move == None && r.selection == Some(Selection(Head(s), Some(cell))) && InBounds(cell) && At(cells, cell) == Some(turn))
      || (r.move.Some? && r.selection == Some(s) && At(cells, cell) != Some(turn))
  {
  }

  /** A click never turns a held selection (or none) into one that is not held. */
  lemma ClickKeepsHeld(cells: Cells, turn: Color, sel: Option<Selection>, cell: Hex)
    requires WellFormed(cells)
    requires sel.Some? ==> Held(cells, sel.value, turn)
    ensures var r := Click(cells, turn, sel, cell);
      r.selection.Some? ==> Held(cells, r.selection.value, turn)
  {
    if sel.Some? && InBounds(cell) && At(cells, cell) == Some(turn) {
      ReanchorKeptIffHeld(cells, turn, sel.value, cell);
    } else if sel.None? {
      ClickStarts(cells, turn, cell);
    }
  }

  /**
   * `ui.model.Model`, reduced to the state `select_cell` and `apply_move` use: the game's
   * board, the player to move, and the current selection.
   */
  class Model {
    var board: Board
    var turn: Color
    var selection: Option<Selection>

    /** The board's storage is sound. */
    ghost predicate Valid()
      reads this, board
    {
      board.Valid()
    }

    /** The current selection, if any, is held for the player to move. */
    ghost predicate Consistent()
      reads this, board
    {
      selection.Some? ==> Held(board.cells, selection.value, turn)
    }

    /** A model over a game's board and turn, with nothing selected yet. */
    constructor (b: Board, t: Color)
      requires b.Valid()
      ensures Valid()
      ensures board == b && turn == t && selection == None
    {
      board := b;
      turn := t;
      selection := None;
    }

    /**
     * `select_cell`: updates the selection for a click on `cell` and returns the move the
     * click proposes, as `Click` describes; the board and the turn are left alone, and a
     * held selection stays held.
     */
    method SelectCell(cell: Hex) returns (r: Option<Move>)
      requires Valid()
      modifies this
      ensures Valid() && board == old(board) && turn == old(turn)
      ensures Clicked(selection, r) == Click(board.cells, turn, old(selection), cell)
      ensures old(Consistent()) ==> Consistent()
    {
      if Consistent() {
        ClickKeepsHeld(board.cells, turn, selection, cell);
      }
      if selection.None? {
        if board.CellInBounds(cell) && board.Get(cell) == Some(turn) {
          selection := Some(Selection(cell, Some(cell)));
        }
        return None;
      }
      var s := selection.value;
      var head := Head(s);
      if !board.CellInBounds(cell) {
        selection := None;
        return None;
      }
      if board.Get(cell) == Some(turn) {
        var anchored := Selection(head, Some(cell));
        selection := Some(anchored);
        var cells := ToArray(anchored);
        var color := board.Get(anchored.start);
        if cells == [] || |cells| > MAX_SELECTION_SIZE {
          selection := None;
        } else {
          var stray := AnyOther(cells, color);
          if stray {
            selection := None;
          }
        }
        return None;
      } else if Adjacent(head, cell) {
        AdjacentResolves(head, cell);
        var direction := Resolve(Subtract(cell, head)).value;
        var move := Move(s, direction);
        var ok := board.IsValidMove(move, turn);
        if ok {
          return Some(move);
        }
      }
      selection := None;
      return None;
    }

    /** The scan of `select_cell` for a listed cell whose occupant differs from `color`. */
    method AnyOther(cs: seq<Hex>, color: Option<Color>) returns (found: bool)
      requires Valid()
      ensures found <==> exists c :: c in cs && At(board.cells, c) != color
    {
      var k := 0;
      while k < |cs|
        invariant 0 <= k <= |cs|
        invariant forall j :: 0 <= j < k ==> At(board.cells, cs[j]) == color
      {
        if board.Get(cs[k]) != color {
          return true;
        }
        k := k + 1;
      }
      return false;
    }

    /**
     * `apply_move`: drops the selection, then hands the move to the game, whose verdict is
     * `accepted`; the move comes back exactly when the game took it.
     */
    method ApplyMove(move: Move, accepted: bool) returns (r: Option<Move>)
      modifies this
      ensures selection == None && Consistent()
      ensures r.Some? <==> accepted
      ensures r.Some? ==> r.value == move
      ensures board == old(board) && turn == old(turn)
    {
      selection := None;
      if accepted {
        return Some(move);
      }
      return None;
    }
  }
}
