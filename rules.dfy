/**
 * The Abalone rules of `Board` (core/board.py) stated on board contents: the legality of
 * each move shape, and the line scan.
 */
module Rules {
  import opened Wrappers
  import opened Hexes
  import opened Colors
  import opened Grid
  import opened Selections
  import opened Occupancy

  /** `Board.MAX_SUMITO`: the longest line that moves, or is pushed, as one. */
  const MAX_SUMITO: int := 3

  /** On the board and empty. */
  predicate Free(cells: Cells, c: Hex)
  {
    InBounds(c) && At(cells, c) == None
  }

  /** On the board and held by a player other than `p`. */
  predicate Opposes(cells: Cells, c: Hex, p: Color)
  {
    InBounds(c) && At(cells, c).Some? && At(cells, c).value != p
  }

  /** All cells of a selection hold `col`. */
  predicate Uniform(cells: Cells, s: Selection, col: Color)
  {
    forall c :: c in ToArray(s) ==> At(cells, c) == Some(col)
  }

  // ---------------------------------------------------------------- legality

  /** `_is_valid_single_move`: the cell one step ahead is on the board and empty. */
  predicate SingleLegal(cells: Cells, m: Move)
  {
    Free(cells, Add(m.selection.start, m.direction))
  }

  /** How many of the cells at steps `i, i+1, ..., MAX_SUMITO` beyond `f` oppose `p`, counted until the first that does not. */
  function OppRun(cells: Cells, f: Hex, d: Direction, p: Color, i: int): nat
    decreases MAX_SUMITO + 1 - i
  {
    if i < 1 || i > MAX_SUMITO then 0
    else if Opposes(cells, Step(f, d, i), p) then 1 + OppRun(cells, f, d, p, i + 1)
    else 0
  }

  /**
   * The inline rule in closed form, for a line of `size` marbles whose front is `f`: with `n`
   * opposing marbles straight ahead (at most MAX_SUMITO looked at), the mover must outnumber
   * them, and the cell after them must be empty, or off the board when at least one marble
   * is pushed.
   */
  predicate InlineRule(cells: Cells, f: Hex, d: Direction, size: int, p: Color)
  {
    var n := OppRun(cells, f, d, p, 1);
    var next := Step(f, d, n + 1);
    (n == 0 || n < size)
    && (n == MAX_SUMITO || Free(cells, next) || (!InBounds(next) && n > 0))
  }

  /** `_is_valid_inline_move`: the inline rule applied at the move's front. */
  predicate InlineLegal(cells: Cells, m: Move, p: Color)
  {
    InlineRule(cells, Front(m), m.direction, Size(m.selection), p)
  }

  /**
   * The inline walk has reached step `i`: the `i - 1` cells it passed all oppose the mover
   * and the `size` movers outnumber them.
   */
  predicate Walked(cells: Cells, f: Hex, d: Direction, size: int, p: Color, i: int)
  {
    1 <= i <= MAX_SUMITO + 1 && (i == 1 || i - 1 < size)
    && OppRun(cells, f, d, p, 1) == i - 1 + OppRun(cells, f, d, p, i)
  }

  /**
   * The inline walk stops at step `i`: a cell there that does not oppose the mover settles
   * the rule, which holds exactly when that cell is empty, or off the board after a push.
   */
  lemma WalkStop(cells: Cells, f: Hex, d: Direction, size: int, p: Color, i: int, c: Hex)
    requires Walked(cells, f, d, size, p, i) && i <= MAX_SUMITO
    requires c == Step(f, d, i) && !Opposes(cells, c, p)
    ensures InlineRule(cells, f, d, size, p) <==> Free(cells, c) || (!InBounds(c) && i > 1)
  {
    StepSum(f, d, OppRun(cells, f, d, p, 1), 1, i);
  }

  /**
   * The inline walk passes step `i`: an opposing marble there lengthens the run, and the
   * rule fails as soon as the `size` movers no longer outnumber it.
   */
  lemma WalkOn(cells: Cells, f: Hex, d: Direction, size: int, p: Color, i: int, c: Hex)
    requires Walked(cells, f, d, size, p, i) && i <= MAX_SUMITO
    requires c == Step(f, d, i) && Opposes(cells, c, p)
    ensures i < size ==> Walked(cells, f, d, size, p, i + 1)
    ensures i >= size ==> !InlineRule(cells, f, d, size, p)
  {
  }

  /** A walk that passes MAX_SUMITO opposing marbles succeeds: the movers outnumber them. */
  lemma WalkFull(cells: Cells, f: Hex, d: Direction, size: int, p: Color)
    requires Walked(cells, f, d, size, p, MAX_SUMITO + 1)
    ensures InlineRule(cells, f, d, size, p)
  {
  }

  /** `_is_valid_sidestep_move`: every member's destination is on the board and empty. */
  predicate SidestepLegal(cells: Cells, m: Move)
  {
    CanShift(cells, ToArray(m.selection), m.direction)
  }

  /** Every listed cell's neighbour along `d` is on the board and empty. */
  predicate CanShift(cells: Cells, cs: seq<Hex>, d: Direction)
  {
    forall c :: c in cs ==> Free(cells, Add(c, d))
  }

  /** `is_valid_move`: single moves first, then inline moves, and every other move as a sidestep. */
  predicate MoveLegal(cells: Cells, m: Move, p: Color)
  {
    if IsSingle(m) then SingleLegal(cells, m)
    else if IsInline(m) then InlineLegal(cells, m, p)
    else SidestepLegal(cells, m)
  }

  lemma {:induction false} OppRunFacts(cells: Cells, f: Hex, d: Direction, p: Color, i: int)
    requires 1 <= i <= MAX_SUMITO + 1
    ensures i + OppRun(cells, f, d, p, i) <= MAX_SUMITO + 1
    ensures forall j :: i <= j < i + OppRun(cells, f, d, p, i) ==> Opposes(cells, Step(f, d, j), p)
    ensures i + OppRun(cells, f, d, p, i) <= MAX_SUMITO ==>
      !Opposes(cells, Step(f, d, i + OppRun(cells, f, d, p, i)), p)
    decreases MAX_SUMITO + 1 - i
  {
    if i <= MAX_SUMITO && Opposes(cells, Step(f, d, i), p) {
      OppRunFacts(cells, f, d, p, i + 1);
    }
  }

  /** When the first `i - 1` cells ahead oppose and the `i`-th does not, exactly `i - 1` are counted. */
  lemma RunStopsAt(cells: Cells, f: Hex, d: Direction, p: Color, i: int)
    requires 1 <= i <= MAX_SUMITO + 1
    requires forall j :: 1 <= j < i ==> Opposes(cells, Step(f, d, j), p)
    requires i <= MAX_SUMITO ==> !Opposes(cells, Step(f, d, i), p)
    ensures OppRun(cells, f, d, p, 1) == i - 1
  {
    OppRunFacts(cells, f, d, p, 1);
  }

  /**
   * The verdict of the inline walk when it stops at step `i` on a cell that does not
   * oppose the mover, after `i - 1` opposing marbles: the pushed marbles must be fewer than
   * the mover's, and the stopping cell must be empty, or off the board after at least one
   * opposing marble.
   */
  lemma InlineVerdict(cells: Cells, m: Move, p: Color, i: int)
    requires WellFormed(cells)
    requires 1 <= i <= MAX_SUMITO
    requires forall j :: 1 <= j < i ==> Opposes(cells, Step(Front(m), m.direction, j), p)
    requires !Opposes(cells, Step(Front(m), m.direction, i), p)
    ensures InlineLegal(cells, m, p) <==>
      (i == 1 || i - 1 < Size(m.selection))
      && (Free(cells, Step(Front(m), m.direction, i)) || (!InBounds(Step(Front(m), m.direction, i)) && i > 1))
  {
    RunStopsAt(cells, Front(m), m.direction, p, i);
  }

  /** When all MAX_SUMITO cells ahead oppose, the move stands exactly when the mover has more marbles. */
  lemma InlineVerdictFull(cells: Cells, m: Move, p: Color)
    requires forall j :: 1 <= j <= MAX_SUMITO ==> Opposes(cells, Step(Front(m), m.direction, j), p)
    ensures InlineLegal(cells, m, p) <==> MAX_SUMITO < Size(m.selection)
  {
    RunStopsAt(cells, Front(m), m.direction, p, MAX_SUMITO + 1);
  }

  /** Stepping straight onto one's own marble, after any number of opposing ones, is illegal. */
  lemma OwnMarbleBlocks(cells: Cells, m: Move, p: Color, i: int)
    requires WellFormed(cells)
    requires 1 <= i <= MAX_SUMITO
    requires forall j :: 1 <= j < i ==> Opposes(cells, Step(Front(m), m.direction, j), p)
    requires At(cells, Step(Front(m), m.direction, i)) == Some(p)
    ensures !InlineLegal(cells, m, p)
  {
    InlineVerdict(cells, m, p, i);
  }

  /** The i-th step onto an opposing marble rejects the move once `i` reaches the selection's size. */
  lemma OutnumberedPushRejected(cells: Cells, m: Move, p: Color, i: int)
    requires 1 <= i <= MAX_SUMITO && i >= Size(m.selection)
    requires forall j :: 1 <= j <= i ==> Opposes(cells, Step(Front(m), m.direction, j), p)
    ensures !InlineLegal(cells, m, p)
  {
    OppRunFacts(cells, Front(m), m.direction, p, 1);
  }

  /** No push with equal numbers: two cannot push two, three cannot push three. */
  lemma EqualNumbersCannotPush(cells: Cells, m: Move, p: Color)
    requires Size(m.selection) == 2 || Size(m.selection) == 3
    requires forall j :: 1 <= j <= Size(m.selection) ==> Opposes(cells, Step(Front(m), m.direction, j), p)
    ensures !InlineLegal(cells, m, p)
  {
    OutnumberedPushRejected(cells, m, p, Size(m.selection));
  }

  /** Moving up to an empty cell is legal as long as the marbles on the way are outnumbered. */
  lemma EmptyAheadLegal(cells: Cells, m: Move, p: Color, i: int)
    requires WellFormed(cells)
    requires 1 <= i <= MAX_SUMITO && (i == 1 || i - 1 < Size(m.selection))
    requires forall j :: 1 <= j < i ==> Opposes(cells, Step(Front(m), m.direction, j), p)
    requires Free(cells, Step(Front(m), m.direction, i))
    ensures InlineLegal(cells, m, p)
  {
    InlineVerdict(cells, m, p, i);
  }

  /**
   * Reaching the edge is legal only after pushing at least one opposing marble, and only
   * when outnumbering them; in particular a line cannot walk off the board on its own.
   */
  lemma EdgeVerdict(cells: Cells, m: Move, p: Color, i: int)
    requires WellFormed(cells)
    requires 1 <= i <= MAX_SUMITO
    requires forall j :: 1 <= j < i ==> Opposes(cells, Step(Front(m), m.direction, j), p)
    requires !InBounds(Step(Front(m), m.direction, i))
    ensures InlineLegal(cells, m, p) <==> i > 1 && i - 1 < Size(m.selection)
  {
    InlineVerdict(cells, m, p, i);
  }

  /** A one-cell selection is checked like a sidestep of its only cell. */
  lemma SingleIsOneCellSidestep(cells: Cells, m: Move)
    requires IsSingle(m)
    ensures SingleLegal(cells, m) <==> SidestepLegal(cells, m)
  {
    SingleShape(m.selection);
  }

  /** A sidestep onto a cell held by either colour, the mover's own included, is rejected. */
  lemma SidestepBlocked(cells: Cells, m: Move, c: Hex)
    requires c in ToArray(m.selection)
    requires At(cells, Add(c, m.direction)).Some? || !InBounds(Add(c, m.direction))
    ensures !SidestepLegal(cells, m)
  {
  }

  // ---------------------------------------------------------------- line scan

  /** How many cells from `c` along `d` hold `col` without a gap, looking at most `budget` cells. */
  function RunLength(cells: Cells, c: Hex, d: Direction, col: Option<Color>, budget: nat): nat
    decreases budget
  {
    if budget == 0 || !(c in cells && cells[c] == col) then 0
    else 1 + RunLength(cells, Add(c, d), d, col, budget - 1)
  }

  lemma {:induction false} RunLengthFacts(cells: Cells, c: Hex, d: Direction, col: Option<Color>, budget: nat)
    ensures RunLength(cells, c, d, col, budget) <= budget
    ensures forall i :: 0 <= i < RunLength(cells, c, d, col, budget) ==>
      Step(c, d, i) in cells && cells[Step(c, d, i)] == col
    ensures RunLength(cells, c, d, col, budget) < budget ==>
      !(Step(c, d, RunLength(cells, c, d, col, budget)) in cells
        && cells[Step(c, d, RunLength(cells, c, d, col, budget))] == col)
    decreases budget
  {
    StepNext(c, d, 0);
    if budget > 0 && c in cells && cells[c] == col {
      RunLengthFacts(cells, Add(c, d), d, col, budget - 1);
      var k := RunLength(cells, Add(c, d), d, col, budget - 1);
      forall i | 0 < i <= k + 1 ensures Step(Add(c, d), d, i - 1) == Step(c, d, i) {
        StepCompose(c, d, 1, i - 1);
      }
    }
  }

  /** A run that holds for `k` cells and then breaks (or fills the budget) has length exactly `k`. */
  lemma RunLengthExact(cells: Cells, c: Hex, d: Direction, col: Option<Color>, k: nat)
    requires k <= ROWS
    requires forall j :: 0 <= j < k ==> Step(c, d, j) in cells && cells[Step(c, d, j)] == col
    requires k < ROWS ==> !(Step(c, d, k) in cells && cells[Step(c, d, k)] == col)
    ensures RunLength(cells, c, d, col, ROWS) == k
  {
    RunLengthFacts(cells, c, d, col, ROWS);
  }

  /** `select_marbles_in_line(start, d)` as a value: the same-coloured run that begins at `start`. */
  function LineSelection(cells: Cells, start: Hex, d: Direction): Option<Selection>
  {
    var col := At(cells, start);
    if col.None? then None
    else Some(Selection(start, Some(Step(start, d, RunLength(cells, start, d, col, ROWS) - 1))))
  }

  /** A same-coloured run found from index `n` of a line, restated by index along the line. */
  lemma RunRebased(cells: Cells, b: Hex, d: Direction, n: int, col: Option<Color>, L: nat)
    requires WellFormed(cells) && col.Some? && At(cells, Step(b, d, n)) == col
    requires L == RunLength(cells, Step(b, d, n), d, col, ROWS)
    ensures L >= 1
      && (forall j :: n <= j < n + L ==> InBounds(Step(b, d, j)) && At(cells, Step(b, d, j)) == col)
      && !(InBounds(Step(b, d, n + L)) && At(cells, Step(b, d, n + L)) == col)
  {
    var s := Step(b, d, n);
    RunLengthFacts(cells, s, d, col, ROWS);
    StepNext(s, d, 0);
    StepCompose(b, d, n, L);
    if L == ROWS && InBounds(Step(s, d, L)) {
      LineLeavesGrid(s, d, L);
    }
    forall j | n <= j < n + L
      ensures InBounds(Step(b, d, j)) && At(cells, Step(b, d, j)) == col
    {
      StepCompose(b, d, n, j - n);
      assert Step(s, d, j - n) in cells && cells[Step(s, d, j - n)] == col;
    }
  }

  /**
   * The line scan finds nothing exactly at an empty start; otherwise it ends at a cell `e`
   * such that every cell from `start` to `e` has the start's colour, and the cell after
   * `e` is off the board or holds something else.
   */
  lemma LineSelectionMaximal(cells: Cells, start: Hex, d: Direction)
    requires WellFormed(cells)
    ensures LineSelection(cells, start, d).None? <==> At(cells, start) == None
    ensures LineSelection(cells, start, d).Some? ==>
      var L := RunLength(cells, start, d, At(cells, start), ROWS);
      L >= 1
      && LineSelection(cells, start, d).value == Selection(start, Some(Step(start, d, L - 1)))
      && ToArray(LineSelection(cells, start, d).value) == Line(start, d, L)
      && (forall i :: 0 <= i < L ==> InBounds(Step(start, d, i)) && At(cells, Step(start, d, i)) == At(cells, start))
      && !(InBounds(Step(start, d, L)) && At(cells, Step(start, d, L)) == At(cells, start))
  {
    var col := At(cells, start);
    if col.Some? {
      var L := RunLength(cells, start, d, col, ROWS);
      StepNext(start, d, 0);
      RunRebased(cells, start, d, 0, col, L);
      ToArrayLine(start, d, L - 1);
    }
  }
}
