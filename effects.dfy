/**
 * What applying a move does to the board contents (`_apply_base_move`, `_apply_sumito_move`,
 * `apply_move`), and how the score follows from it (`get_score`).
 */
module Effects {
  import opened Wrappers
  import opened Hexes
  import opened Colors
  import opened Grid
  import opened Selections
  import opened Occupancy
  import opened Layouts
  import opened Rules

  /** `_apply_base_move`: clear every member, then write the mover's colour to every destination. */
  function Base(cells: Cells, m: Move): Cells
  {
    var player := At(cells, m.selection.start);
    PutAll(PutAll(cells, ToArray(m.selection), None), Destinations(m), player)
  }

  /**
   * After a base move every destination holds the mover's colour, every member that is not
   * also a destination is empty, and every other cell is unchanged.
   */
  lemma BaseEffect(cells: Cells, m: Move, c: Hex)
    ensures Base(cells, m).Keys == cells.Keys
    ensures At(Base(cells, m), c) ==
      if c in cells && c in Destinations(m) then At(cells, m.selection.start)
      else if c in cells && c in ToArray(m.selection) then None
      else At(cells, c)
  {
    var cleared := PutAll(cells, ToArray(m.selection), None);
    PutAllAt(cells, ToArray(m.selection), None, c);
    PutAllAt(cleared, Destinations(m), At(cells, m.selection.start), c);
  }

  /** `move.is_sumito(board)`: an inline move whose front faces a marble of the other colour. */
  predicate IsSumito(cells: Cells, m: Move)
  {
    IsInline(m) && At(cells, m.selection.start).Some?
    && At(cells, Add(Front(m), m.direction)) == Some(Next(At(cells, m.selection.start).value))
  }

  /** The opposing run a sumito pushes: the line scan from the cell ahead of the front. */
  function PushedRun(cells: Cells, m: Move): Selection
    requires IsSumito(cells, m)
  {
    LineSelection(cells, Add(Front(m), m.direction), m.direction).value
  }

  /** How many opposing marbles a sumito pushes. */
  function PushedCount(cells: Cells, m: Move): nat
    requires IsSumito(cells, m)
  {
    var s := Add(Front(m), m.direction);
    RunLength(cells, s, m.direction, At(cells, s), ROWS)
  }

  /** The first half of `_apply_sumito_move`: the opposing run cleared, then rewritten one step on. */
  function Pushed(cells: Cells, m: Move): Cells
    requires IsSumito(cells, m)
  {
    var run := PushedRun(cells, m);
    var opponent := At(cells, run.start);
    PutAll(PutAll(cells, ToArray(run), None), Destinations(Move(run, m.direction)), opponent)
  }

  /** `_apply_sumito_move`: push the opposing run, then make the base move. */
  function Sumito(cells: Cells, m: Move): Cells
    requires IsSumito(cells, m)
  {
    Base(Pushed(cells, m), m)
  }

  /** `apply_move`. */
  function Apply(cells: Cells, m: Move): Cells
  {
    if IsSumito(cells, m) then Sumito(cells, m) else Base(cells, m)
  }

  /** The cell of an inline move `j` steps from its back end, in the direction of travel. */
  lemma InlineFacts(cells: Cells, m: Move)
    requires WellFormed(cells) && IsSumito(cells, m)
    requires Uniform(cells, m.selection, At(cells, m.selection.start).value)
    ensures var b, d, n := Back(m), m.direction, Size(m.selection);
      n >= 2 && Front(m) == Step(b, d, n - 1) && Add(Front(m), d) == Step(b, d, n)
      && IndexOn(b, d, m.selection.start).Some?
      && 0 <= IndexOn(b, d, m.selection.start).value < n
      && (forall j :: 0 <= j < n ==> At(cells, Step(b, d, j)) == At(cells, m.selection.start))
  {
    var b, d, n := Back(m), m.direction, Size(m.selection);
    InlineSegment(m);
    InlineAhead(m);
    InlineMembers(m, m.selection.start);
    assert m.selection.start == ToArray(m.selection)[0];
    forall j | 0 <= j < n ensures At(cells, Step(b, d, j)) == At(cells, m.selection.start) {
      InlineMembers(m, Step(b, d, j));
      IndexOnStep(b, d, j);
    }
  }

  /**
   * The push, by index from the mover's back end: the run of `L` opposing marbles at
   * indices `n .. n+L-1` moves to `n+1 .. n+L`, dropping a marble shifted off the board.
   */
  lemma PushEffect(cells: Cells, m: Move, c: Hex)
    requires WellFormed(cells) && IsSumito(cells, m)
    requires Uniform(cells, m.selection, At(cells, m.selection.start).value)
    ensures Pushed(cells, m).Keys == cells.Keys
    ensures var b, d, n, L := Back(m), m.direction, Size(m.selection), PushedCount(cells, m);
      var opponent := At(cells, Add(Front(m), d));
      At(Pushed(cells, m), c) ==
        match IndexOn(b, d, c)
        case None => At(cells, c)
        case Some(j) =>
          if j == n then None
          else if n < j <= n + L && c in cells then opponent
          else At(cells, c)
  {
    var b, d, n, L := Back(m), m.direction, Size(m.selection), PushedCount(cells, m);
    var s := Add(Front(m), d);
    InlineFacts(cells, m);
    LineSelectionMaximal(cells, s, d);
    var run := PushedRun(cells, m);
    var runCells := ToArray(run);
    assert runCells == Line(s, d, L);
    var cleared := PutAll(cells, runCells, None);
    PutAllAt(cells, runCells, None, c);
    PutAllAt(cleared, Destinations(Move(run, d)), At(cells, s), c);
    LineMembers(s, d, L, c);
    DestinationsMember(Move(run, d), c);
    LineMembers(s, d, L, Add(c, Opposite(d)));
    IndexOnBack(s, d, c);
    IndexOnRebase(b, d, n, c);
  }

  /**
   * The whole sumito, by index `j` from the mover's back end: the back cell empties, the
   * mover occupies indices `1 .. n`, the pushed run indices `n+1 .. n+L` where they are on
   * the board, and nothing else changes.
   */
  lemma SumitoEffect(cells: Cells, m: Move, c: Hex)
    requires WellFormed(cells) && IsSumito(cells, m)
    requires Uniform(cells, m.selection, At(cells, m.selection.start).value)
    ensures Sumito(cells, m).Keys == cells.Keys
    ensures var b, d, n, L := Back(m), m.direction, Size(m.selection), PushedCount(cells, m);
      var p := At(cells, m.selection.start).value;
      At(Sumito(cells, m), c) ==
        match IndexOn(b, d, c)
        case None => At(cells, c)
        case Some(j) =>
          if j == 0 then None
          else if 1 <= j <= n then Some(p)
          else if n < j <= n + L && InBounds(c) then Some(Next(p))
          else At(cells, c)
  {
    var b, d, n := Back(m), m.direction, Size(m.selection);
    var start := m.selection.start;
    var pushed := Pushed(cells, m);
    InlineFacts(cells, m);
    PushEffect(cells, m, c);
    PushEffect(cells, m, start);
    IndexOnRebase(b, d, n, start);
    BaseEffect(pushed, m, c);
    InlineMembers(m, c);
    match IndexOn(b, d, c)
    case None =>
    case Some(j) =>
      if 0 <= j < n {
        assert At(cells, c) == At(cells, start);
      }
  }

  // ---------------------------------------------------------------- marbles and score

  /** The cell just past the pushed run, where its last marble lands. */
  function PushTail(cells: Cells, m: Move): Hex
    requires IsSumito(cells, m)
  {
    Step(Front(m), m.direction, PushedCount(cells, m) + 1)
  }

  /**
   * The inline walk and the line scan count the same opposing run ahead of the front `f`,
   * the walk stopping after MAX_SUMITO.
   */
  lemma OppRunMatchesRun(cells: Cells, f: Hex, d: Direction, p: Color, L: nat)
    requires WellFormed(cells) && At(cells, Add(f, d)) == Some(Next(p))
    requires L == RunLength(cells, Add(f, d), d, Some(Next(p)), ROWS)
    ensures L >= 1
    ensures OppRun(cells, f, d, p, 1) == if L < MAX_SUMITO then L else MAX_SUMITO
  {
    StepNext(f, d, 0);
    RunRebased(cells, f, d, 1, Some(Next(p)), L);
    var k := if L < MAX_SUMITO then L else MAX_SUMITO;
    if L < MAX_SUMITO {
      StepSum(f, d, 1, L, L + 1);
      if At(cells, Step(f, d, L + 1)).Some? {
        OtherIsNext(p, At(cells, Step(f, d, L + 1)).value);
      }
    }
    RunStopsAt(cells, f, d, p, k + 1);
  }

  /** The tail counted from the back end instead of the front. */
  lemma PushTailByIndex(cells: Cells, m: Move)
    requires IsSumito(cells, m)
    ensures PushTail(cells, m) == Step(Back(m), m.direction, Size(m.selection) + PushedCount(cells, m))
  {
    InlineSegment(m);
    StepCompose(Back(m), m.direction, Size(m.selection) - 1, PushedCount(cells, m) + 1);
  }

  /**
   * The pushed run by index from the mover's back end `b`: indices `n .. n+L-1` hold the
   * opponent's colour `q`, and index `n+L` (the run's tail) is off the board or holds something else.
   */
  lemma PushedRunByIndex(cells: Cells, m: Move) returns (b: Hex, d: Direction, n: nat, L: nat, q: Color)
    requires WellFormed(cells) && IsSumito(cells, m)
    ensures b == Back(m) && d == m.direction && n == Size(m.selection) && L == PushedCount(cells, m)
    ensures q == Next(At(cells, m.selection.start).value)
    ensures n >= 2 && L >= 1 && PushTail(cells, m) == Step(b, d, n + L)
    ensures forall j :: n <= j < n + L ==> InBounds(Step(b, d, j)) && At(cells, Step(b, d, j)) == Some(q)
    ensures !(InBounds(Step(b, d, n + L)) && At(cells, Step(b, d, n + L)) == Some(q))
  {
    b, d, n := Back(m), m.direction, Size(m.selection);
    q := Next(At(cells, m.selection.start).value);
    L := PushedCount(cells, m);
    InlineAhead(m);
    RunRebased(cells, b, d, n, Some(q), L);
    PushTailByIndex(cells, m);
    StepSum(b, d, n, L, Size(m.selection) + PushedCount(cells, m));
  }

  /**
   * Where a board rewritten like a sumito (back cell emptied, indices `1 .. n` the mover's
   * `p`, indices `n+1 .. n+L` the opponent's where on the board) holds the opponent's colour:
   * where it did before except at `s`, the first pushed cell, and at the tail `e` if on the board.
   */
  lemma OpponentByIndex(cells: Cells, after: Cells, b: Hex, d: Direction, n: nat, L: nat, p: Color, c: Hex)
    requires WellFormed(cells) && after.Keys == cells.Keys
    requires At(after, c) ==
      match IndexOn(b, d, c)
      case None => At(cells, c)
      case Some(j) =>
        if j == 0 then None
        else if 1 <= j <= n then Some(p)
        else if n < j <= n + L && InBounds(c) then Some(Next(p))
        else At(cells, c)
    requires forall j :: 0 <= j < n ==> At(cells, Step(b, d, j)) == Some(p)
    requires forall j :: n <= j < n + L ==> At(cells, Step(b, d, j)) == Some(Next(p))
    requires n >= 1 && L >= 1
    requires !InBounds(Step(b, d, n + L)) || At(cells, Step(b, d, n + L)) == None
    ensures var s, e := Step(b, d, n), Step(b, d, n + L);
      At(after, c) == Some(Next(p)) <==> (At(cells, c) == Some(Next(p)) && c != s) || (c == e && InBounds(e))
  {
    var s, e := Step(b, d, n), Step(b, d, n + L);
    IndexOnStep(b, d, n);
    IndexOnStep(b, d, n + L);
    match IndexOn(b, d, c)
    case None =>
    case Some(j) =>
      if j < n {
        assert c != s && c != e;
        if 0 <= j {
          assert At(cells, c) == Some(p) by { assert c == Step(b, d, j); }
        }
      } else if j < n + L {
        assert c != e;
        assert At(cells, c) == Some(Next(p)) by { assert c == Step(b, d, j); }
      } else if j > n + L {
        assert c != s && c != e;
      }
  }

  /** The same rewrite holds the mover's colour where it did before except at `b`, and at `s`. */
  lemma MoverByIndex(cells: Cells, after: Cells, b: Hex, d: Direction, n: nat, L: nat, p: Color, c: Hex)
    requires WellFormed(cells) && after.Keys == cells.Keys
    requires At(after, c) ==
      match IndexOn(b, d, c)
      case None => At(cells, c)
      case Some(j) =>
        if j == 0 then None
        else if 1 <= j <= n then Some(p)
        else if n < j <= n + L && InBounds(c) then Some(Next(p))
        else At(cells, c)
    requires forall j :: 0 <= j < n ==> At(cells, Step(b, d, j)) == Some(p)
    requires forall j :: n <= j < n + L ==> At(cells, Step(b, d, j)) == Some(Next(p))
    requires n >= 1 && L >= 1
    requires !InBounds(Step(b, d, n + L)) || At(cells, Step(b, d, n + L)) == None
    ensures var s := Step(b, d, n);
      At(after, c) == Some(p) <==> (At(cells, c) == Some(p) && c != b) || c == s
  {
    var s := Step(b, d, n);
    IndexOnStep(b, d, 0);
    IndexOnStep(b, d, n);
    StepNext(b, d, 0);
    match IndexOn(b, d, c)
    case None =>
    case Some(j) =>
      if j == 0 {
        assert c != s;
      } else if 0 < j <= n {
        assert c != b;
      } else if j < n + L {
        assert c != b && c != s;
        if 0 < j {
          assert At(cells, c) == Some(Next(p)) by { assert c == Step(b, d, j); }
        }
      } else {
        assert c != b && c != s;
      }
  }

  /** Cell by cell, which colour a sumito into an empty cell or off the edge leaves where. */
  lemma SumitoColourAt(cells: Cells, m: Move, c: Hex, b: Hex, d: Direction, n: nat, L: nat, q: Color)
    requires WellFormed(cells) && IsSumito(cells, m)
    requires Uniform(cells, m.selection, At(cells, m.selection.start).value)
    requires b == Back(m) && d == m.direction && n == Size(m.selection) && L == PushedCount(cells, m)
    requires q == Next(At(cells, m.selection.start).value)
    requires !InBounds(Step(b, d, n + L)) || At(cells, Step(b, d, n + L)) == None
    ensures var after, p, s, e := Sumito(cells, m), At(cells, m.selection.start).value, Step(b, d, n), Step(b, d, n + L);
      (At(after, c) == Some(q) <==> (At(cells, c) == Some(q) && c != s) || (c == e && InBounds(e)))
      && (At(after, c) == Some(p) <==> (At(cells, c) == Some(p) && c != b) || c == s)
  {
    var b', d', n', L', q' := PushedRunByIndex(cells, m);
    var p := At(cells, m.selection.start).value;
    InlineFacts(cells, m);
    SumitoEffect(cells, m, c);
    OpponentByIndex(cells, Sumito(cells, m), b, d, n, L, p, c);
    MoverByIndex(cells, Sumito(cells, m), b, d, n, L, p, c);
  }

  /**
   * One colour's marbles after a rewrite that takes its marble away from `out` and puts one
   * on each cell of `gained`, where that colour was not.
   */
  lemma MarblesReplaced(cells: Cells, after: Cells, col: Color, out: Hex, gained: set<Hex>)
    requires At(cells, out) == Some(col)
    requires forall c :: c in gained ==> At(cells, c) != Some(col)
    requires forall c :: At(after, c) == Some(col) <==> (At(cells, c) == Some(col) && c != out) || c in gained
    ensures |Marbles(after, col)| == |Marbles(cells, col)| - 1 + |gained|
  {
    var kept := Marbles(cells, col) - {out};
    forall c ensures c in Marbles(after, col) <==> c in kept + gained {
      MarblesAt(after, col, c);
      MarblesAt(cells, col, c);
    }
    forall c | c in gained ensures c !in kept {
      MarblesAt(cells, col, c);
    }
    MarblesAt(cells, col, out);
    assert Marbles(after, col) == kept + gained;
    assert Marbles(cells, col) == kept + {out};
  }

  /**
   * Counting after a sumito-shaped rewrite: the mover's marble leaves `b` and one arrives at
   * `s`; the opponent's marble leaves `s` and one arrives at `e` when `e` is on the board.
   */
  lemma CountAfterSumito(cells: Cells, after: Cells, b: Hex, s: Hex, e: Hex, p: Color, q: Color)
    requires p != q && At(cells, b) == Some(p) && At(cells, s) == Some(q)
    requires InBounds(e) ==> At(cells, e) == None
    requires forall c :: At(after, c) == Some(q) <==> (At(cells, c) == Some(q) && c != s) || (c == e && InBounds(e))
    requires forall c :: At(after, c) == Some(p) <==> (At(cells, c) == Some(p) && c != b) || c == s
    ensures |Marbles(after, q)| == |Marbles(cells, q)| - (if InBounds(e) then 0 else 1)
    ensures |Marbles(after, p)| == |Marbles(cells, p)|
  {
    var tail: set<Hex> := if InBounds(e) then {e} else {};
    forall c ensures At(after, c) == Some(q) <==> (At(cells, c) == Some(q) && c != s) || c in tail {
    }
    MarblesReplaced(cells, after, q, s, tail);
    forall c ensures At(after, c) == Some(p) <==> (At(cells, c) == Some(p) && c != b) || c in {s} {
    }
    MarblesReplaced(cells, after, p, b, {s});
  }

  /**
   * A sumito into an empty cell or off the edge keeps the mover's marbles, and loses one
   * opposing marble exactly when the last pushed one leaves the board.
   */
  lemma SumitoMarbles(cells: Cells, m: Move)
    requires WellFormed(cells) && IsSumito(cells, m)
    requires Uniform(cells, m.selection, At(cells, m.selection.start).value)
    requires !InBounds(PushTail(cells, m)) || At(cells, PushTail(cells, m)) == None
    ensures var p := At(cells, m.selection.start).value;
      |Marbles(Sumito(cells, m), Next(p))| ==
        |Marbles(cells, Next(p))| - (if InBounds(PushTail(cells, m)) then 0 else 1)
      && |Marbles(Sumito(cells, m), p)| == |Marbles(cells, p)|
  {
    var b, d, n, L, q := PushedRunByIndex(cells, m);
    var p := At(cells, m.selection.start).value;
    NextInvolution(p);
    InlineFacts(cells, m);
    StepNext(b, d, 0);
    var s, e := Step(b, d, n), Step(b, d, n + L);
    forall c ensures (At(Sumito(cells, m), c) == Some(q) <==> (At(cells, c) == Some(q) && c != s) || (c == e && InBounds(e)))
      && (At(Sumito(cells, m), c) == Some(p) <==> (At(cells, c) == Some(p) && c != b) || c == s)
    {
      SumitoColourAt(cells, m, c, b, d, n, L, q);
    }
    CountAfterSumito(cells, Sumito(cells, m), b, s, e, p, q);
  }

  /** `get_score(p)`: the opponent's marbles in the layout minus those still on the board. */
  function Score(cells: Cells, layout: Layout, p: Color): int
  {
    LayoutCount(layout, Value(Next(p))) - |Marbles(cells, Next(p))|
  }

  /** A board freshly loaded from a layout that fits the grid scores 0 for both players. */
  lemma LoadedScoreZero(data: Layout, p: Color)
    requires Fits(data)
    ensures Score(Loaded(data), data, p) == 0
  {
    LoadedCount(data, Next(p));
  }

  /**
   * A sumito raises the mover's score by one exactly when it pushes a marble off the
   * board, and leaves the opponent's score alone.
   */
  lemma SumitoScore(cells: Cells, layout: Layout, m: Move)
    requires WellFormed(cells) && IsSumito(cells, m)
    requires Uniform(cells, m.selection, At(cells, m.selection.start).value)
    requires !InBounds(PushTail(cells, m)) || At(cells, PushTail(cells, m)) == None
    ensures var p := At(cells, m.selection.start).value;
      Score(Sumito(cells, m), layout, p) == Score(cells, layout, p) + (if InBounds(PushTail(cells, m)) then 0 else 1)
      && Score(Sumito(cells, m), layout, Next(p)) == Score(cells, layout, Next(p))
  {
    SumitoMarbles(cells, m);
    NextInvolution(At(cells, m.selection.start).value);
  }

  /**
   * A legal sumito by a line of at most MAX_SUMITO marbles pushes fewer marbles than it
   * moves, and the pushed run ends at an empty cell or at the edge.
   */
  lemma LegalSumitoPushes(cells: Cells, m: Move)
    requires WellFormed(cells) && IsSumito(cells, m)
    requires Size(m.selection) <= MAX_SUMITO
    requires MoveLegal(cells, m, At(cells, m.selection.start).value)
    ensures 1 <= PushedCount(cells, m) < Size(m.selection)
    ensures !InBounds(PushTail(cells, m)) || At(cells, PushTail(cells, m)) == None
  {
    var f, d := Front(m), m.direction;
    var p := At(cells, m.selection.start).value;
    InlineAhead(m);
    if IsSingle(m) {
      ShapesExclusive(m);
    }
    assert InlineLegal(cells, m, p);
    OppRunMatchesRun(cells, f, d, p, PushedCount(cells, m));
    StepSum(f, d, PushedCount(cells, m), 1, OppRun(cells, f, d, p, 1) + 1);
  }

  /**
   * From a board freshly loaded from a layout that fits the grid, a sumito by a line of one
   * colour that pushes a marble off scores exactly 1.
   */
  lemma FirstPushOffScoresOne(data: Layout, m: Move)
    requires Fits(data) && IsSumito(Loaded(data), m)
    requires Uniform(Loaded(data), m.selection, At(Loaded(data), m.selection.start).value)
    requires !InBounds(PushTail(Loaded(data), m))
    ensures Score(Sumito(Loaded(data), m), data, At(Loaded(data), m.selection.start).value) == 1
  {
    var cells := Loaded(data);
    LoadedScoreZero(data, At(cells, m.selection.start).value);
    SumitoScore(cells, data, m);
  }

  // ---------------------------------------------------------------- undoing a base move

  /**
   * A base move whose destinations are on the board and either members or empty is undone
   * by its inverse: the destination cells moved back the opposite way.
   */
  lemma BaseRoundTrip(cells: Cells, m: Move)
    requires WellFormed(cells) && At(cells, m.selection.start).Some?
    requires Uniform(cells, m.selection, At(cells, m.selection.start).value)
    requires forall c :: c in Destinations(m) ==> InBounds(c) && (c in ToArray(m.selection) || At(cells, c) == None)
    ensures Base(Base(cells, m), Inverse(m)) == cells
  {
    var moved := Base(cells, m);
    var back := Base(moved, Inverse(m));
    InverseReturns(m);
    var src := ToArray(m.selection);
    if src != [] {
      assert Destinations(m)[0] == Add(m.selection.start, m.direction);
      BaseEffect(cells, m, Add(m.selection.start, m.direction));
    }
    forall c | c in cells ensures c in back && back[c] == cells[c] {
      BaseEffect(cells, m, c);
      BaseEffect(moved, Inverse(m), c);
    }
    BaseEffect(cells, m, m.selection.start);
    BaseEffect(moved, Inverse(m), m.selection.start);
    assert back.Keys == cells.Keys;
  }

  /**
   * A legal move that is not a sumito, by a line of one colour, sends every marble to a
   * cell on the board that is empty or is vacated by the move itself.
   */
  lemma LegalBaseFreesDestinations(cells: Cells, m: Move, p: Color)
    requires WellFormed(cells) && At(cells, m.selection.start) == Some(p)
    requires Uniform(cells, m.selection, p)
    requires MoveLegal(cells, m, p) && !IsSumito(cells, m)
    ensures forall c :: c in Destinations(m) ==> InBounds(c) && (c in ToArray(m.selection) || At(cells, c) == None)
  {
    var d := m.direction;
    forall c | c in Destinations(m)
      ensures InBounds(c) && (c in ToArray(m.selection) || At(cells, c) == None)
    {
      DestinationsMember(m, c);
      var x := Add(c, Opposite(d));
      AddInjective(c, c, Opposite(d));
      assert Opposite(Opposite(d)) == d;
      assert c == Add(x, d);
      if IsSingle(m) {
        SingleShape(m.selection);
      } else if IsInline(m) {
        FrontIsHead(m);
        if x == Front(m) {
          StepNext(Front(m), d, 0);
          InlineVerdict(cells, m, p, 1);
        }
      }
    }
  }

  /**
   * After a legal non-sumito move by a line of one colour, the inverse move is no sumito
   * either: an inline inverse faces the back cell the move has just emptied.
   */
  lemma InverseNotSumito(cells: Cells, m: Move, p: Color)
    requires At(cells, m.selection.start) == Some(p)
    requires Uniform(cells, m.selection, p)
    ensures !IsSumito(Base(cells, m), Inverse(m))
  {
    InverseShape(m);
    if IsInline(m) {
      var b := Back(m);
      InlineSegment(m);
      IndexOnStep(b, m.direction, 0);
      InlineMembers(m, b);
      BaseEffect(cells, m, b);
    }
  }

  /** Applying a legal non-sumito move and then its inverse, both through `apply_move`, restores the board. */
  lemma LegalBaseMoveUndone(cells: Cells, m: Move, p: Color)
    requires WellFormed(cells) && At(cells, m.selection.start) == Some(p)
    requires Uniform(cells, m.selection, p)
    requires MoveLegal(cells, m, p) && !IsSumito(cells, m)
    ensures Apply(Apply(cells, m), Inverse(m)) == cells
  {
    LegalBaseFreesDestinations(cells, m, p);
    BaseRoundTrip(cells, m);
    InverseNotSumito(cells, m, p);
  }
}
