/** The three read-only queries of the editor model (`query_parent`, `query_col`,
    `query_row`): filters over the stored addresses. The source collects them into a
    vector in hash-map order; as the order is unspecified and the keys are distinct,
    a set is the faithful value. */
module Queries {
  import opened Wrappers
  import opened Coordinates
  import opened Grammars
  import opened Sessions

  /** `query_parent`: the stored addresses whose parent is `p`. */
  function QueryParent(g: Store, p: Coordinate): (r: set<Coordinate>)
    ensures forall k :: k in r <==> k in g && k.Parent() == Some(p)
    ensures forall k :: k in r ==> k.Length() == p.Length() + 1
  {
    set k | k in g && k.Parent() == Some(p)
  }

  /** `query_col`: the stored addresses, other than the top-level ones, whose
      column key is `col`. */
  function QueryCol(g: Store, col: Col): (r: set<Coordinate>)
    ensures forall k :: k in r <==> k in g && k.Length() > 1 && k.FullCol() == col
    ensures forall k :: k in r ==> !k.IsTopLevel() && k == col.grid.ChildOf(RowCol(k.RowIndex(), col.index))
  {
    set k | k in g && !k.IsTopLevel() && k.FullCol() == col
  }

  /** `query_row`: the stored addresses, other than the top-level ones, whose
      row key is `row`. */
  function QueryRow(g: Store, row: Row): (r: set<Coordinate>)
    ensures forall k :: k in r <==> k in g && k.Length() > 1 && k.FullRow() == row
    ensures forall k :: k in r ==> !k.IsTopLevel() && k == row.grid.ChildOf(RowCol(row.index, k.ColIndex()))
  {
    set k | k in g && !k.IsTopLevel() && k.FullRow() == row
  }

  /** A column of a grid is part of that grid's children, and so is a row. */
  lemma {:induction false} LinesWithinParent(g: Store, grid: Coordinate, i: Pos, j: Pos)
    ensures QueryCol(g, Col(grid, j)) <= QueryParent(g, grid)
    ensures QueryRow(g, Row(grid, i)) <= QueryParent(g, grid)
  {
  }

  /** A row and a column of the same grid meet in exactly the cell at their
      crossing, when it is stored, and nowhere else. */
  lemma {:induction false} RowMeetsColumn(g: Store, grid: Coordinate, i: Pos, j: Pos)
    ensures QueryRow(g, Row(grid, i)) * QueryCol(g, Col(grid, j))
         == (if grid.ChildOf(RowCol(i, j)) in g then {grid.ChildOf(RowCol(i, j))} else {})
  {
    var cell := grid.ChildOf(RowCol(i, j));
    if cell in g {
      assert cell in QueryRow(g, Row(grid, i));
      assert cell in QueryCol(g, Col(grid, j));
    }
  }

  /** The children a consistent store's grid node lists are among the stored
      children `query_parent` finds. */
  lemma {:induction false} GridChildrenFound(g: Store, c: Coordinate)
    requires GridConsistent(g)
    requires c in g && g[c].kind.Grid?
    ensures ChildKeys(c, g[c].kind.children) <= QueryParent(g, c)
  {
    forall k | k in ChildKeys(c, g[c].kind.children)
      ensures k in QueryParent(g, c)
    {
      var p :| p in g[c].kind.children && c.ChildOf(p) == k;
    }
  }
}
