/** Hierarchical cell addresses and the small algebra the editor uses on them.
    The coordinate module of the editor is not part of this model; what is here is
    an ASSUMED version of exactly the operations the reducer calls: `parent`,
    `child_of`, `row`, `col`, `neighbor_right`, `neighbor_below`, `full_row`
    and `full_col`. */
module Coordinates {
  import opened Wrappers

  /** A strictly positive index (the source's `NonZeroU32`; the upper bound is not modelled). */
  type Pos = n: int | n >= 1 witness 1

  /** One step of an address: the cell at (row, col) of the enclosing grid. */
  datatype RowCol = RowCol(row: Pos, col: Pos)

  /** The two named top-level addresses, "root" and "meta". */
  datatype Top = Root | Meta

  /** An address: a named top-level cell, or a (row, col) step inside the grid at
      `outer`. Read from the top, it is the non-empty path of the source:
      `Named(t)` has length 1, and each `Nested` adds one pair. */
  datatype Coordinate = Named(top: Top) | Nested(outer: Coordinate, pos: RowCol)
  {
    /** Number of segments; the top-level addresses have length 1. */
    function Length(): (n: nat)
      ensures n >= 1
      ensures n == 1 <==> Named?
    {
      match this
      case Named(_) => 1
      case Nested(o, _) => o.Length() + 1
    }

    predicate IsTopLevel() { Named? }

    /** `parent`: drop the last pair; none for the length-1 addresses. */
    function Parent(): (p: Option<Coordinate>)
      ensures p.None? <==> IsTopLevel()
      ensures p.Some? ==> p.value.Length() == Length() - 1
    {
      match this
      case Named(_) => None
      case Nested(o, _) => Some(o)
    }

    /** `child_of`: append a pair. */
    function ChildOf(rc: RowCol): (c: Coordinate)
      ensures c.Parent() == Some(this)
      ensures c.Length() == Length() + 1
    {
      Nested(this, rc)
    }

    /** `row`: the row of the last pair. */
    function RowIndex(): Pos
      requires !IsTopLevel()
    {
      pos.row
    }

    /** `col`: the column of the last pair. */
    function ColIndex(): Pos
      requires !IsTopLevel()
    {
      pos.col
    }

    /** `full_row`: the key shared by every cell on this cell's row of its grid. */
    function FullRow(): (r: Row)
      requires !IsTopLevel()
      ensures r.grid.ChildOf(RowCol(r.index, ColIndex())) == this
    {
      Row(outer, pos.row)
    }

    /** `full_col`: the key shared by every cell in this cell's column of its grid. */
    function FullCol(): (c: Col)
      requires !IsTopLevel()
      ensures c.grid.ChildOf(RowCol(RowIndex(), c.index)) == this
    {
      Col(outer, pos.col)
    }

    /** `neighbor_right`: same row, next column; no existence check in any store. */
    function NeighborRight(): (n: Option<Coordinate>)
      ensures n.Some? <==> !IsTopLevel()
      ensures n.Some? ==> !n.value.IsTopLevel() && n.value.FullRow() == FullRow() && n.value.ColIndex() == ColIndex() + 1
    {
      match this
      case Named(_) => None
      case Nested(o, rc) => Some(Nested(o, RowCol(rc.row, rc.col + 1)))
    }

    /** `neighbor_below`: same column, next row; no existence check in any store. */
    function NeighborBelow(): (n: Option<Coordinate>)
      ensures n.Some? <==> !IsTopLevel()
      ensures n.Some? ==> !n.value.IsTopLevel() && n.value.FullCol() == FullCol() && n.value.RowIndex() == RowIndex() + 1
    {
      match this
      case Named(_) => None
      case Nested(o, rc) => Some(Nested(o, RowCol(rc.row + 1, rc.col)))
    }

    /** The neighbour in direction `d`: right for column growth, below for row growth. */
    function Next(d: Direction): Option<Coordinate>
    {
      match d
      case Right => NeighborRight()
      case Below => NeighborBelow()
    }

    /** The index that grows when moving in direction `d`. */
    function Along(d: Direction): Pos
      requires !IsTopLevel()
    {
      match d
      case Right => ColIndex()
      case Below => RowIndex()
    }

    /** The index that stays fixed when moving in direction `d`. */
    function Across(d: Direction): Pos
      requires !IsTopLevel()
    {
      match d
      case Right => RowIndex()
      case Below => ColIndex()
    }

    /** The cell of the same grid and line as this one, at index `j` along `d`. */
    function MovedTo(d: Direction, j: Pos): (c: Coordinate)
      requires !IsTopLevel()
      ensures !c.IsTopLevel() && c.Parent() == Parent()
      ensures c.Across(d) == Across(d) && c.Along(d) == j
    {
      match d
      case Right => Nested(outer, RowCol(pos.row, j))
      case Below => Nested(outer, RowCol(j, pos.col))
    }
  }

  /** A row-height key (the source's `Row`): a grid and a row index in it. */
  datatype Row = Row(grid: Coordinate, index: Pos)

  /** A column-width key (the source's `Col`): a grid and a column index in it. */
  datatype Col = Col(grid: Coordinate, index: Pos)

  /** The two growth directions: `Right` for inserting a column, `Below` for a row. */
  datatype Direction = Right | Below

  /** The pair of the cell one step along `d` from the cell at `rc`. */
  function Shift(rc: RowCol, d: Direction): RowCol
  {
    match d
    case Right => RowCol(rc.row, rc.col + 1)
    case Below => RowCol(rc.row + 1, rc.col)
  }

  /** Cells on one line (same parent, same fixed index) are told apart by their index along it. */
  lemma LineDeterminedByAlong(a: Coordinate, b: Coordinate, d: Direction)
    requires !a.IsTopLevel() && !b.IsTopLevel()
    requires a.Parent() == b.Parent() && a.Across(d) == b.Across(d) && a.Along(d) == b.Along(d)
    ensures a == b
  {
  }

  /** Two cells on one line reach the same cells when moved along it. */
  lemma SameLineSameMoves(a: Coordinate, b: Coordinate, d: Direction)
    requires !a.IsTopLevel() && !b.IsTopLevel()
    requires a.Parent() == b.Parent() && a.Across(d) == b.Across(d)
    ensures forall j: Pos :: a.MovedTo(d, j) == b.MovedTo(d, j)
  {
  }

  /** Stepping along `d` keeps the parent and the fixed index, and adds one to the moving index. */
  lemma NextIsMove(c: Coordinate, d: Direction)
    requires !c.IsTopLevel()
    ensures c.Next(d) == Some(c.MovedTo(d, c.Along(d) + 1))
    ensures c.Next(d).value == c.Parent().value.ChildOf(Shift(RowCol(c.RowIndex(), c.ColIndex()), d))
  {
  }
}
