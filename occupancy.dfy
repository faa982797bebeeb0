/**
 * The contents of the board as a value: one optional marble per in-bounds cell, the
 * writes the board performs, the row-major enumeration and the marble counts.
 */
module Occupancy {
  import opened Wrappers
  import opened Hexes
  import opened Colors
  import opened Grid

  type Cells = map<Hex, Option<Color>>
  /** One `(Hex, occupant)` pair of `Board.enumerate()`. */
  type Entry = (Hex, Option<Color>)

  /** The storage has a slot for every in-bounds cell and for no other. */
  ghost predicate WellFormed(cells: Cells)
  {
    forall c :: c in cells <==> InBounds(c)
  }

  /** `board[cell]`: the occupant, `None` for an empty cell or one off the board. */
  function At(cells: Cells, c: Hex): Option<Color>
  {
    if c in cells then cells[c] else None
  }

  /** `board[cell] = v`: a write to a cell off the board changes nothing. */
  function Put(cells: Cells, c: Hex, v: Option<Color>): (r: Cells)
    ensures r.Keys == cells.Keys
    ensures forall x :: At(r, x) == (if x == c && c in cells then v else At(cells, x))
  {
    if c in cells then cells[c := v] else cells
  }

  /** Writing `v` to each of `cs` in turn. */
  function PutAll(cells: Cells, cs: seq<Hex>, v: Option<Color>): Cells
    decreases |cs|
  {
    if cs == [] then cells else Put(PutAll(cells, cs[..|cs| - 1], v), cs[|cs| - 1], v)
  }

  /** After writing `v` to a list of cells, exactly the listed in-bounds cells hold `v`. */
  lemma {:induction false} PutAllAt(cells: Cells, cs: seq<Hex>, v: Option<Color>, c: Hex)
    ensures PutAll(cells, cs, v).Keys == cells.Keys
    ensures At(PutAll(cells, cs, v), c) == if c in cs && c in cells then v else At(cells, c)
    decreases |cs|
  {
    if cs != [] {
      var init := cs[..|cs| - 1];
      PutAllAt(cells, init, v, c);
      assert c in cs <==> c in init || c == cs[|cs| - 1] by {
        assert cs == init + [cs[|cs| - 1]];
      }
    }
  }

  /** Every in-bounds cell, collected from the bounding square of the hexagon. */
  function AllCells(): (s: set<Hex>)
    ensures forall c :: c in s <==> InBounds(c)
  {
    set q: int, r: int | 0 <= q < ROWS && 0 <= r < ROWS && InBounds(Hex(q, r)) :: Hex(q, r)
  }

  /** A freshly constructed grid: every cell empty. */
  function EmptyCells(): (cells: Cells)
    ensures WellFormed(cells)
    ensures forall c :: At(cells, c) == None
  {
    map c | c in AllCells() :: None
  }

  /** Row `r` of the enumeration, column by column. */
  function RowEntries(cells: Cells, r: int): seq<Entry>
    requires 0 <= r < ROWS
  {
    seq(RowLen(r), col => (Hex(col + Offset(r), r), At(cells, Hex(col + Offset(r), r))))
  }

  /** The enumeration of rows `0 .. n-1`. */
  function EntriesUpTo(cells: Cells, n: int): seq<Entry>
    requires 0 <= n <= ROWS
  {
    if n == 0 then [] else EntriesUpTo(cells, n - 1) + RowEntries(cells, n - 1)
  }

  /** What `Board.enumerate()` lists: every stored cell with its occupant, row-major. */
  function Entries(cells: Cells): seq<Entry>
  {
    EntriesUpTo(cells, ROWS)
  }

  /** Where row `r` begins in the enumeration. */
  function RowStart(r: int): nat
    requires 0 <= r <= ROWS
  {
    if r == 0 then 0 else RowStart(r - 1) + RowLen(r - 1)
  }

  /** The position of an in-bounds cell in the enumeration. */
  function EntryIndex(c: Hex): int
    requires InBounds(c)
  {
    InBoundsByRow(c);
    RowStart(c.r) + c.q - Offset(c.r)
  }

  lemma {:induction false} EntriesUpToShape(cells: Cells, n: int)
    requires 0 <= n <= ROWS
    ensures |EntriesUpTo(cells, n)| == RowStart(n)
    ensures forall i :: 0 <= i < |EntriesUpTo(cells, n)| ==>
      var e := EntriesUpTo(cells, n)[i];
      InBounds(e.0) && e.0.r < n && e.1 == At(cells, e.0) && EntryIndex(e.0) == i
  {
    if n > 0 {
      EntriesUpToShape(cells, n - 1);
      var prev, row := EntriesUpTo(cells, n - 1), RowEntries(cells, n - 1);
      assert EntriesUpTo(cells, n) == prev + row;
      forall i | |prev| <= i < |prev| + |row|
        ensures var e: Entry := (prev + row)[i];
          InBounds(e.0) && e.0.r < n && e.1 == At(cells, e.0) && EntryIndex(e.0) == i
      {
        StoredCellInBounds(n - 1, i - |prev|);
      }
    }
  }

  /**
   * The enumeration is exact: it lists in-bounds cells only, each with its current
   * occupant, each at one position, and every in-bounds cell appears.
   */
  lemma EntriesExact(cells: Cells)
    ensures forall i :: 0 <= i < |Entries(cells)| ==>
      InBounds(Entries(cells)[i].0) && Entries(cells)[i].1 == At(cells, Entries(cells)[i].0)
      && EntryIndex(Entries(cells)[i].0) == i
    ensures forall c :: InBounds(c) ==>
      0 <= EntryIndex(c) < |Entries(cells)| && Entries(cells)[EntryIndex(c)].0 == c
  {
    EntriesUpToShape(cells, ROWS);
    forall c | InBounds(c)
      ensures 0 <= EntryIndex(c) < |Entries(cells)| && Entries(cells)[EntryIndex(c)].0 == c
    {
      InBoundsByRow(c);
      RowStartBounds(c.r, ROWS);
      var i := EntryIndex(c);
      assert 0 <= i < RowStart(c.r) + RowLen(c.r) <= |Entries(cells)|;
      var e := Entries(cells)[i];
      assert EntryIndex(e.0) == i;
      InBoundsByRow(e.0);
      if c.r < e.0.r {
        RowStartOrder(c.r, e.0.r);
      } else if e.0.r < c.r {
        RowStartOrder(e.0.r, c.r);
      }
    }
  }

  lemma {:induction false} RowStartBounds(r: int, n: int)
    requires 0 <= r < n <= ROWS
    ensures RowStart(r) + RowLen(r) <= RowStart(n)
    decreases n - r
  {
    if r + 1 < n {
      RowStartBounds(r + 1, n);
    }
  }

  /** Distinct rows occupy disjoint stretches of the enumeration. */
  lemma RowStartOrder(r: int, s: int)
    requires 0 <= r < s < ROWS
    ensures RowStart(r) + RowLen(r) <= RowStart(s)
  {
    RowStartBounds(r, s);
  }

  /** The cells that hold a marble of colour `col`. */
  function Marbles(cells: Cells, col: Color): set<Hex>
  {
    set c | c in cells && cells[c] == Some(col)
  }

  lemma MarblesAt(cells: Cells, col: Color, c: Hex)
    ensures c in Marbles(cells, col) <==> At(cells, c) == Some(col)
  {
  }

  /** How many entries of an enumeration hold colour `col` (the counting loop of `get_score`). */
  function CountColor(es: seq<Entry>, col: Color): nat
    decreases |es|
  {
    if es == [] then 0
    else CountColor(es[..|es| - 1], col) + (if es[|es| - 1].1 == Some(col) then 1 else 0)
  }

  /** The cells named by the first `n` entries that hold `col`. */
  function KeysWith(es: seq<Entry>, n: int, col: Color): set<Hex>
    requires 0 <= n <= |es|
  {
    set i | 0 <= i < n && es[i].1 == Some(col) :: es[i].0
  }

  /** In an enumeration without repeated cells, counting entries counts cells. */
  lemma {:induction false} CountDistinct(es: seq<Entry>, n: int, col: Color)
    requires 0 <= n <= |es|
    requires forall i, j :: 0 <= i < j < |es| ==> es[i].0 != es[j].0
    ensures CountColor(es[..n], col) == |KeysWith(es, n, col)|
  {
    if n > 0 {
      CountDistinct(es, n - 1, col);
      assert es[..n][..n - 1] == es[..n - 1];
      var prev := KeysWith(es, n - 1, col);
      assert es[n - 1].0 !in prev;
      if es[n - 1].1 == Some(col) {
        assert KeysWith(es, n, col) == prev + {es[n - 1].0};
      } else {
        assert KeysWith(es, n, col) == prev;
      }
    }
  }

  /** Counting the enumeration gives the number of marbles of that colour on the board. */
  lemma CountEntries(cells: Cells, col: Color)
    requires WellFormed(cells)
    ensures CountColor(Entries(cells), col) == |Marbles(cells, col)|
  {
    var es := Entries(cells);
    EntriesExact(cells);
    assert forall i, j :: 0 <= i < j < |es| ==> es[i].0 != es[j].0;
    CountDistinct(es, |es|, col);
    assert es[..|es|] == es;
    forall c ensures c in KeysWith(es, |es|, col) <==> c in Marbles(cells, col) {
      if c in Marbles(cells, col) {
        var i := EntryIndex(c);
        assert es[i].0 == c && es[i].1 == Some(col);
      }
    }
    assert KeysWith(es, |es|, col) == Marbles(cells, col);
  }
}
