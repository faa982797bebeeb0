/** Axial hex coordinates and the six neighbour directions (core.hex). */
module Hexes {
  import opened Wrappers

  /** An axial coordinate `(q, r)`; the source also calls the components `x` and `y`. */
  datatype Hex = Hex(q: int, r: int)

  /** The six unit axial vectors of `HexDirection`. */
  datatype Direction = East | NorthEast | NorthWest | West | SouthWest | SouthEast

  function Dq(d: Direction): int
  {
    match d
    case East => 1
    case NorthEast => 1
    case NorthWest => 0
    case West => -1
    case SouthWest => -1
    case SouthEast => 0
  }

  function Dr(d: Direction): int
  {
    match d
    case East => 0
    case NorthEast => -1
    case NorthWest => -1
    case West => 0
    case SouthWest => 1
    case SouthEast => 1
  }

  /** The direction's vector as a coordinate (`direction.value`). */
  function Vector(d: Direction): Hex
  {
    Hex(Dq(d), Dr(d))
  }

  /** `cell.add(direction.value)`. */
  function Add(c: Hex, d: Direction): Hex
  {
    Hex(c.q + Dq(d), c.r + Dr(d))
  }

  /** `cell.subtract(other)`. */
  function Subtract(a: Hex, b: Hex): Hex
  {
    Hex(a.q - b.q, a.r - b.r)
  }

  /** `k` steps from `c` along `d` (written per direction so that it stays linear in `k`). */
  function Step(c: Hex, d: Direction, k: int): Hex
  {
    match d
    case East => Hex(c.q + k, c.r)
    case NorthEast => Hex(c.q + k, c.r - k)
    case NorthWest => Hex(c.q, c.r - k)
    case West => Hex(c.q - k, c.r)
    case SouthWest => Hex(c.q - k, c.r + k)
    case SouthEast => Hex(c.q, c.r + k)
  }

  function Opposite(d: Direction): (o: Direction)
    ensures Dq(o) == -Dq(d) && Dr(o) == -Dr(d)
  {
    match d
    case East => West
    case NorthEast => SouthWest
    case NorthWest => SouthEast
    case West => East
    case SouthWest => NorthEast
    case SouthEast => NorthWest
  }

  function Abs(x: int): nat
  {
    if x < 0 then -x else x
  }

  /** Twice the hex distance between two cells (cube metric), kept doubled to stay in integers. */
  function DoubleDistance(a: Hex, b: Hex): nat
  {
    Abs(a.q - b.q) + Abs(a.r - b.r) + Abs((a.q + a.r) - (b.q + b.r))
  }

  /** `a.adjacent(b)`: the two cells are neighbours. */
  predicate Adjacent(a: Hex, b: Hex)
  {
    DoubleDistance(a, b) == 2
  }

  /** `HexDirection.resolve(normal)`: the direction whose vector is `n`, if any. */
  function Resolve(n: Hex): (r: Option<Direction>)
    ensures r.Some? ==> Vector(r.value) == n
    ensures r.None? ==> forall d :: Vector(d) != n
  {
    if n == Hex(1, 0) then Some(East)
    else if n == Hex(1, -1) then Some(NorthEast)
    else if n == Hex(0, -1) then Some(NorthWest)
    else if n == Hex(-1, 0) then Some(West)
    else if n == Hex(-1, 1) then Some(SouthWest)
    else if n == Hex(0, 1) then Some(SouthEast)
    else None
  }

  /**
   * The unit direction and the number of steps that lead from `a` to `b`, when `b`
   * lies on one of the six axes through `a` and differs from it.
   */
  function Toward(a: Hex, b: Hex): (r: Option<(Direction, int)>)
    ensures r.Some? ==> r.value.1 >= 1 && Step(a, r.value.0, r.value.1) == b
    ensures r.None? ==> forall d, k :: k >= 1 ==> Step(a, d, k) != b
  {
    var dq, dr := b.q - a.q, b.r - a.r;
    if dr == 0 && dq > 0 then Some((East, dq))
    else if dr == 0 && dq < 0 then Some((West, -dq))
    else if dq == 0 && dr < 0 then Some((NorthWest, -dr))
    else if dq == 0 && dr > 0 then Some((SouthEast, dr))
    else if dq == -dr && dq > 0 then Some((NorthEast, dq))
    else if dq == -dr && dq < 0 then Some((SouthWest, -dq))
    else None
  }

  lemma StepNext(c: Hex, d: Direction, k: int)
    ensures Add(Step(c, d, k), d) == Step(c, d, k + 1)
    ensures Step(c, d, 1) == Add(c, d) && Step(c, d, 0) == c
  {
  }

  lemma StepBack(c: Hex, d: Direction, k: int)
    ensures Add(Step(c, d, k), Opposite(d)) == Step(c, d, k - 1)
    ensures Step(c, Opposite(d), k) == Step(c, d, -k)
  {
  }

  /** Restates a step count given as a sum, so that two spellings of one cell can be matched. */
  lemma StepSum(c: Hex, d: Direction, i: int, j: int, k: int)
    requires k == i + j
    ensures Step(c, d, k) == Step(c, d, i + j)
  {
  }

  lemma StepCompose(c: Hex, d: Direction, i: int, j: int)
    ensures Step(Step(c, d, i), d, j) == Step(c, d, i + j)
  {
  }

  lemma StepAddCommute(c: Hex, d: Direction, e: Direction, k: int)
    ensures Step(Add(c, e), d, k) == Add(Step(c, d, k), e)
  {
  }

  lemma AddInjective(a: Hex, b: Hex, d: Direction)
    ensures Add(a, d) == Add(b, d) <==> a == b
    ensures Add(Add(a, d), Opposite(d)) == a
  {
  }

  /** Walking a positive number of steps along an axis identifies the axis and the count. */
  lemma StepDetermines(c: Hex, d: Direction, k: int, e: Direction, j: int)
    requires k >= 1 && j >= 1
    requires Step(c, d, k) == Step(c, e, j)
    ensures d == e && k == j
  {
  }

  /** `Toward` recovers the direction and distance of any positive walk along an axis. */
  lemma TowardStep(c: Hex, d: Direction, k: int)
    requires k >= 1
    ensures Toward(c, Step(c, d, k)) == Some((d, k))
  {
    var t := Toward(c, Step(c, d, k));
    StepDetermines(c, d, k, t.value.0, t.value.1);
  }

  /** The directions depend only on differences, so translating both ends changes nothing. */
  lemma TowardTranslate(a: Hex, b: Hex, e: Direction)
    ensures Toward(Add(a, e), Add(b, e)) == Toward(a, b)
  {
  }

  /** Adjacency is exactly "one step along some direction", and `Resolve` finds that direction. */
  lemma AdjacentResolves(a: Hex, b: Hex)
    ensures Adjacent(a, b) <==> Resolve(Subtract(b, a)).Some?
    ensures Resolve(Subtract(b, a)).Some? ==> Add(a, Resolve(Subtract(b, a)).value) == b
  {
  }

  /** How many steps along `d` lead from `b` to `c` (negative when `c` lies behind), if any. */
  function IndexOn(b: Hex, d: Direction, c: Hex): (r: Option<int>)
    ensures r.Some? ==> Step(b, d, r.value) == c
    ensures r.None? ==> forall j :: Step(b, d, j) != c
  {
    match d
    case East => if c.r == b.r then Some(c.q - b.q) else None
    case NorthEast => if c.q - b.q == b.r - c.r then Some(c.q - b.q) else None
    case NorthWest => if c.q == b.q then Some(b.r - c.r) else None
    case West => if c.r == b.r then Some(b.q - c.q) else None
    case SouthWest => if c.q - b.q == b.r - c.r then Some(b.q - c.q) else None
    case SouthEast => if c.q == b.q then Some(c.r - b.r) else None
  }

  /** Steps along one direction never revisit a cell, so the index is the one of the walk. */
  lemma IndexOnStep(b: Hex, d: Direction, j: int)
    ensures IndexOn(b, d, Step(b, d, j)) == Some(j)
  {
  }

  /** Moving the cell one step back lowers its index by one. */
  lemma IndexOnBack(b: Hex, d: Direction, c: Hex)
    ensures IndexOn(b, d, Add(c, Opposite(d))) ==
      match IndexOn(b, d, c) case None => None case Some(j) => Some(j - 1)
  {
    match IndexOn(b, d, c)
    case None =>
      if IndexOn(b, d, Add(c, Opposite(d))).Some? {
        var j := IndexOn(b, d, Add(c, Opposite(d))).value;
        StepNext(b, d, j);
        AddInjective(c, c, d);
      }
    case Some(j) =>
      StepBack(b, d, j);
      IndexOnStep(b, d, j - 1);
  }

  /** Indices along a line are relative: re-anchoring `n` steps ahead subtracts `n`. */
  lemma IndexOnRebase(b: Hex, d: Direction, n: int, c: Hex)
    ensures IndexOn(Step(b, d, n), d, c) ==
      match IndexOn(b, d, c) case None => None case Some(j) => Some(j - n)
  {
    match IndexOn(b, d, c)
    case None =>
      if IndexOn(Step(b, d, n), d, c).Some? {
        var j := IndexOn(Step(b, d, n), d, c).value;
        StepCompose(b, d, n, j);
      }
    case Some(j) =>
      StepCompose(b, d, n, j - n);
      IndexOnStep(Step(b, d, n), d, j - n);
  }
}
