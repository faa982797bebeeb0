/** Selections (core.selection) and moves (core.move): shapes of play, independent of any board. */
module Selections {
  import opened Wrappers
  import opened Hexes

  const MAX_SELECTION_SIZE: int := 3

  /** A line of cells from `start` to `end`; an absent `end` means the single cell `start`. */
  datatype Selection = Selection(start: Hex, end: Option<Hex>)

  /** `selection.end or selection.start`: the cell chosen last. */
  function Head(s: Selection): Hex
  {
    if s.end.Some? then s.end.value else s.start
  }

  /** The `n` cells met walking from `c` along `d`, `c` included. */
  function Line(c: Hex, d: Direction, n: nat): (cells: seq<Hex>)
    ensures |cells| == n
    ensures forall i :: 0 <= i < n ==> cells[i] == Step(c, d, i)
  {
    seq(n, i => Step(c, d, i))
  }

  /**
   * `selection.to_array()`: the cells from `start` to `end` inclusive, one step at a time;
   * a selection whose ends do not share an axis has no cells.
   */
  function ToArray(s: Selection): (cells: seq<Hex>)
    ensures cells == [] <==> s.end.Some? && Toward(s.start, s.end.value).None? && s.end.value != s.start
    ensures cells != [] ==> cells[0] == s.start && cells[|cells| - 1] == Head(s)
  {
    match s.end
    case None => [s.start]
    case Some(e) =>
      if e == s.start then [s.start]
      else
        match Toward(s.start, e)
        case None => []
        case Some((d, k)) => Line(s.start, d, k + 1)
  }

  /** The cells of a selection form an unbroken line: each one neighbours the one before. */
  lemma ToArrayContiguous(s: Selection)
    ensures forall i :: 0 < i < |ToArray(s)| ==> Adjacent(ToArray(s)[i - 1], ToArray(s)[i])
  {
    match s.end
    case None =>
    case Some(e) =>
      if e != s.start && Toward(s.start, e).Some? {
        var (d, k) := Toward(s.start, e).value;
        forall i | 0 < i < |ToArray(s)| ensures Adjacent(ToArray(s)[i - 1], ToArray(s)[i]) {
          StepNext(s.start, d, i - 1);
        }
      }
  }

  /** `selection.get_size()`. */
  function Size(s: Selection): nat
  {
    |ToArray(s)|
  }

  /** The direction from `start` towards `end`, when the two ends are distinct and aligned. */
  function Axis(s: Selection): Option<Direction>
  {
    match s.end
    case None => None
    case Some(e) =>
      match Toward(s.start, e)
      case None => None
      case Some((d, _)) => Some(d)
  }

  /** A selection that runs from `c` for `k` more steps along `d` holds exactly that line. */
  lemma ToArrayLine(c: Hex, d: Direction, k: nat)
    ensures ToArray(Selection(c, Some(Step(c, d, k)))) == Line(c, d, k + 1)
    ensures k >= 1 ==> Axis(Selection(c, Some(Step(c, d, k)))) == Some(d)
  {
    if k == 0 {
      StepNext(c, d, 0);
      assert Line(c, d, 1) == [c];
    } else {
      TowardStep(c, d, k);
    }
  }

  /** A move: a selection pushed one step in a direction. */
  datatype Move = Move(selection: Selection, direction: Direction)

  /** `move.is_single()`. */
  predicate IsSingle(m: Move)
  {
    Size(m.selection) == 1
  }

  /** `move.is_inline()`: the direction runs along the selection's own axis, either way. */
  predicate IsInline(m: Move)
  {
    Axis(m.selection) == Some(m.direction) || Axis(m.selection) == Some(Opposite(m.direction))
  }

  /** `move.get_front()`: the end of the selection that leads in the direction of travel. */
  function Front(m: Move): Hex
  {
    match m.selection.end
    case None => m.selection.start
    case Some(e) => if Axis(m.selection) == Some(m.direction) then e else m.selection.start
  }

  /** The trailing end of an inline move. */
  function Back(m: Move): Hex
  {
    match m.selection.end
    case None => m.selection.start
    case Some(e) => if Axis(m.selection) == Some(m.direction) then m.selection.start else e
  }

  /** `move.get_destinations()`: every member cell advanced one step. */
  function Destinations(m: Move): (cells: seq<Hex>)
    ensures |cells| == Size(m.selection)
    ensures forall i :: 0 <= i < |cells| ==> cells[i] == Add(ToArray(m.selection)[i], m.direction)
  {
    var src := ToArray(m.selection);
    seq(|src|, i requires 0 <= i < |src| => Add(src[i], m.direction))
  }

  /** `c` is one of the first `n` cells of the walk from `b` along `d`. */
  ghost predicate OnSegment(b: Hex, d: Direction, n: int, c: Hex)
  {
    exists j :: 0 <= j < n && c == Step(b, d, j)
  }

  /** A one-cell selection is just its start, and has no axis. */
  lemma SingleShape(s: Selection)
    requires Size(s) == 1
    ensures ToArray(s) == [s.start]
    ensures Axis(s) == None
  {
    match s.end
    case None =>
    case Some(e) =>
      if e != s.start {
        match Toward(s.start, e)
        case None =>
        case Some((d, k)) =>
      }
  }

  /** The three shapes are told apart by `is_single` first: no single move is inline. */
  lemma ShapesExclusive(m: Move)
    requires IsSingle(m)
    ensures !IsInline(m)
  {
    SingleShape(m.selection);
  }

  /** The members of a line are the cells of the segment it walks. */
  lemma LineSegment(c: Hex, d: Direction, n: nat)
    ensures forall x :: x in Line(c, d, n) <==> OnSegment(c, d, n, x)
  {
    var cells := Line(c, d, n);
    forall x ensures x in cells <==> OnSegment(c, d, n, x) {
      if OnSegment(c, d, n, x) {
        var j :| 0 <= j < n && x == Step(c, d, j);
        assert cells[j] == x;
      }
    }
  }

  /** The `i`-th cell walked back from `c` is the `(k-i)`-th walked forward from the `k`-th. */
  lemma ReversedStep(c: Hex, d: Direction, k: int, i: int)
    ensures Step(c, Opposite(d), i) == Step(Step(c, Opposite(d), k), d, k - i)
  {
    StepBack(c, d, i);
    StepBack(c, d, k);
    StepCompose(c, d, -k, k - i);
  }

  /** Walked backwards, a line is the segment from its far end in the opposite direction. */
  lemma LineReversed(c: Hex, d: Direction, k: nat, cells: seq<Hex>, e: Hex)
    requires cells == Line(c, Opposite(d), k + 1) && e == Step(c, Opposite(d), k)
    ensures forall x :: x in cells <==> OnSegment(e, d, k + 1, x)
  {
    forall x ensures x in cells <==> OnSegment(e, d, k + 1, x) {
      if x in cells {
        var i :| 0 <= i < |cells| && cells[i] == x;
        ReversedStep(c, d, k, i);
        assert x == Step(e, d, k - i);
      }
      if OnSegment(e, d, k + 1, x) {
        var j :| 0 <= j < k + 1 && x == Step(e, d, j);
        ReversedStep(c, d, k, k - j);
        assert cells[k - j] == x;
      }
    }
  }

  /**
   * An inline move occupies the `Size` cells walked from its back end towards its front,
   * in the direction of travel; it has at least two cells.
   */
  lemma InlineSegment(m: Move)
    requires IsInline(m)
    ensures Size(m.selection) >= 2
    ensures Front(m) == Step(Back(m), m.direction, Size(m.selection) - 1)
    ensures forall c :: c in ToArray(m.selection) <==> OnSegment(Back(m), m.direction, Size(m.selection), c)
  {
    var s, d := m.selection, m.direction;
    var e := s.end.value;
    var t := Toward(s.start, e).value;
    var a, k := t.0, t.1;
    ToArrayLine(s.start, a, k);
    if a == d {
      LineSegment(s.start, d, k + 1);
    } else {
      assert a == Opposite(d);
      StepBack(s.start, d, k);
      StepCompose(s.start, d, -k, k);
      LineReversed(s.start, d, k, ToArray(s), e);
    }
  }

  /** A cell is a destination exactly when the cell one step behind it is a member. */
  lemma DestinationsMember(m: Move, c: Hex)
    ensures c in Destinations(m) <==> Add(c, Opposite(m.direction)) in ToArray(m.selection)
  {
    var src, dst, d := ToArray(m.selection), Destinations(m), m.direction;
    if c in dst {
      var i :| 0 <= i < |dst| && dst[i] == c;
      AddInjective(src[i], src[i], d);
      assert src[i] == Add(c, Opposite(d));
    }
    if Add(c, Opposite(d)) in src {
      var i :| 0 <= i < |src| && src[i] == Add(c, Opposite(d));
      assert dst[i] == c;
    }
  }

  /** The cell ahead of an inline move's front is `Size` steps from its back end. */
  lemma InlineAhead(m: Move)
    requires IsInline(m)
    ensures Size(m.selection) >= 2
    ensures Add(Front(m), m.direction) == Step(Back(m), m.direction, Size(m.selection))
  {
    InlineSegment(m);
    StepNext(Back(m), m.direction, Size(m.selection) - 1);
  }

  /**
   * The front leads: for an inline move, the front is a member whose next cell is not,
   * and every other member's next cell is again a member.
   */
  lemma FrontIsHead(m: Move)
    requires IsInline(m)
    ensures Front(m) in ToArray(m.selection)
    ensures Add(Front(m), m.direction) !in ToArray(m.selection)
    ensures forall c :: c in ToArray(m.selection) && c != Front(m) ==> Add(c, m.direction) in ToArray(m.selection)
  {
    var b, d, n := Back(m), m.direction, Size(m.selection);
    InlineSegment(m);
    assert OnSegment(b, d, n, Step(b, d, n - 1));
    StepNext(b, d, n - 1);
    if OnSegment(b, d, n, Step(b, d, n)) {
      var j :| 0 <= j < n && Step(b, d, n) == Step(b, d, j);
      assert false;
    }
    forall c | c in ToArray(m.selection) && c != Front(m)
      ensures Add(c, d) in ToArray(m.selection)
    {
      var j :| 0 <= j < n && c == Step(b, d, j);
      StepNext(b, d, j);
      assert OnSegment(b, d, n, Step(b, d, j + 1));
    }
  }

  /** The selection moved one step along `d`. */
  function Shifted(s: Selection, d: Direction): Selection
  {
    Selection(Add(s.start, d), match s.end case None => None case Some(e) => Some(Add(e, d)))
  }

  /** The move that undoes `m`: the destination cells, sent back the opposite way. */
  function Inverse(m: Move): Move
  {
    Move(Shifted(m.selection, m.direction), Opposite(m.direction))
  }

  /** Shifting a selection shifts its cells: its members are the move's destinations. */
  lemma {:induction false} ShiftedCells(m: Move)
    ensures ToArray(Shifted(m.selection, m.direction)) == Destinations(m)
  {
    var s, d := m.selection, m.direction;
    match s.end
    case None =>
    case Some(e) =>
      AddInjective(e, s.start, d);
      if e != s.start {
        TowardTranslate(s.start, e, d);
        match Toward(s.start, e)
        case None =>
        case Some((a, k)) =>
          var src := ToArray(s);
          var shifted := ToArray(Shifted(s, d));
          assert shifted == Line(Add(s.start, d), a, k + 1);
          forall i | 0 <= i < k + 1 ensures shifted[i] == Destinations(m)[i] {
            StepAddCommute(s.start, a, d, i);
          }
      }
  }

  /** The inverse move's destinations are the original move's members, in order. */
  lemma InverseReturns(m: Move)
    ensures ToArray(Inverse(m).selection) == Destinations(m)
    ensures Destinations(Inverse(m)) == ToArray(m.selection)
  {
    ShiftedCells(m);
    var src, dst := ToArray(m.selection), Destinations(m);
    forall i | 0 <= i < |src| ensures Destinations(Inverse(m))[i] == src[i] {
      AddInjective(src[i], src[i], m.direction);
    }
  }

  /**
   * The inverse move has the shape of the move: it is inline exactly when the move is, and
   * then the cell ahead of its front is the move's back end, the cell the move vacates.
   */
  lemma InverseShape(m: Move)
    ensures IsInline(Inverse(m)) <==> IsInline(m)
    ensures IsInline(m) ==> Add(Front(Inverse(m)), Inverse(m).direction) == Back(m)
  {
    var s, d := m.selection, m.direction;
    assert Opposite(Opposite(d)) == d;
    match s.end
    case None =>
    case Some(e) =>
      TowardTranslate(s.start, e, d);
      assert Axis(Inverse(m).selection) == Axis(s);
      AddInjective(s.start, s.start, d);
      AddInjective(e, e, d);
  }

  /** A segment's members are the cells whose index along it lies in range. */
  lemma OnSegmentIndex(b: Hex, d: Direction, n: int, c: Hex)
    ensures OnSegment(b, d, n, c) <==> IndexOn(b, d, c).Some? && 0 <= IndexOn(b, d, c).value < n
  {
    if OnSegment(b, d, n, c) {
      var j :| 0 <= j < n && c == Step(b, d, j);
      IndexOnStep(b, d, j);
    }
  }

  /** The cells of a line, by index. */
  lemma LineMembers(b: Hex, d: Direction, n: nat, c: Hex)
    ensures c in Line(b, d, n) <==> IndexOn(b, d, c).Some? && 0 <= IndexOn(b, d, c).value < n
  {
    LineSegment(b, d, n);
    OnSegmentIndex(b, d, n, c);
  }

  /** An inline move's members and destinations, by index from its back end. */
  lemma InlineMembers(m: Move, c: Hex)
    requires IsInline(m)
    ensures var ix := IndexOn(Back(m), m.direction, c);
      (c in ToArray(m.selection) <==> ix.Some? && 0 <= ix.value < Size(m.selection))
      && (c in Destinations(m) <==> ix.Some? && 1 <= ix.value <= Size(m.selection))
  {
    InlineSegment(m);
    OnSegmentIndex(Back(m), m.direction, Size(m.selection), c);
    DestinationsMember(m, c);
    OnSegmentIndex(Back(m), m.direction, Size(m.selection), Add(c, Opposite(m.direction)));
    IndexOnBack(Back(m), m.direction, c);
  }
}
