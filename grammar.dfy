/** The node stored at each address. The grammar module of the editor is not part of
    this model; the constructors `Grammar::default`, `Grammar::text` and
    `Grammar::as_grid` are ASSUMED versions of what the reducer calls. */
module Grammars {
  import opened Wrappers
  import opened Coordinates

  /** Presentation attributes; opaque to the editing core. */
  datatype Style = Style(attributes: seq<(string, string)>)

  const DefaultStyle: Style := Style([])

  /** What a `Lookup` node resolves to. Only the `Cell` case is acted on by the
      reducer; every other target is opaque here. */
  datatype LookupTarget = Cell(dest: Coordinate) | OtherTarget(description: string)

  /** The four kinds of node. */
  datatype Kind =
    | Input(value: string)
    | Lookup(query: string, target: Option<LookupTarget>)
    | Grid(children: seq<RowCol>)
    | Defn(defnName: string, defnCoord: Coordinate, rules: seq<(string, Coordinate)>)

  datatype Grammar = Grammar(name: string, style: Style, kind: Kind)

  /** `Grammar::default()` (assumed): an unnamed, empty input leaf. */
  function Default(): Grammar
  {
    Grammar("", DefaultStyle, Input(""))
  }

  /** `Grammar::text(name, value)` (assumed): a named input leaf holding `value`. */
  function Text(name: string, value: string): Grammar
  {
    Grammar(name, DefaultStyle, Input(value))
  }

  /** The text an input or lookup node shows: the value or the query. */
  function TextOf(k: Kind): string
    requires k.Input? || k.Lookup?
  {
    if k.Input? then k.value else k.query
  }

  /** The cells of column `col` with rows 1..rows, top to bottom. */
  function ColumnPairs(rows: nat, col: Pos): (r: seq<RowCol>)
    ensures |r| == rows
    ensures forall i :: 0 <= i < rows ==> r[i] == RowCol(i + 1, col)
    decreases rows
  {
    if rows == 0 then [] else ColumnPairs(rows - 1, col) + [RowCol(rows, col)]
  }

  /** The child list of an r x c grid in column-major order:
      (1,1), (2,1), ..., (r,1), (1,2), ... The order is read off the grid
      literals of the initial document. */
  function GridPairs(rows: nat, cols: nat): (r: seq<RowCol>)
    ensures |r| == rows * cols
    decreases cols
  {
    if cols == 0 then []
    else
      var front := GridPairs(rows, cols - 1);
      assert |front| == rows * (cols - 1) == rows * cols - rows;
      front + ColumnPairs(rows, cols)
  }

  /** Column-major layout: cell (i+1, j+1) sits at position j * rows + i. */
  lemma {:induction false} GridPairsAt(rows: nat, cols: nat, i: nat, j: nat)
    requires i < rows && j < cols
    ensures j * rows + i < |GridPairs(rows, cols)|
    ensures GridPairs(rows, cols)[j * rows + i] == RowCol(i + 1, j + 1)
  {
    var front := GridPairs(rows, cols - 1);
    assert GridPairs(rows, cols) == front + ColumnPairs(rows, cols);
    assert |front| == (cols - 1) * rows;
    if j < cols - 1 {
      GridPairsAt(rows, cols - 1, i, j);
    } else {
      assert j * rows + i - |front| == i;
    }
  }

  /** Every pair of an r x c grid's child list lies inside the grid, and every cell
      of the grid is listed. */
  lemma {:induction false} GridPairsCover(rows: nat, cols: nat)
    ensures forall p :: p in GridPairs(rows, cols) <==> p.row <= rows && p.col <= cols
  {
    if cols > 0 {
      GridPairsCover(rows, cols - 1);
      var r := GridPairs(rows, cols);
      var front := GridPairs(rows, cols - 1);
      var last := ColumnPairs(rows, cols);
      assert r == front + last;
      forall p: RowCol | p.row <= rows && p.col <= cols
        ensures p in r
      {
        if p.col < cols {
          assert p in front;
        } else {
          assert last[p.row - 1] == p;
        }
      }
      forall p | p in r
        ensures p.row <= rows && p.col <= cols
      {
        if p in last {
          var i :| 0 <= i < |last| && last[i] == p;
        }
      }
    }
  }

  /** `Grammar::as_grid(rows, cols)` (assumed): an unnamed grid node listing every
      cell of a rows x cols grid. */
  function AsGrid(rows: Pos, cols: Pos): (g: Grammar)
    ensures g.kind.Grid? && |g.kind.children| == rows * cols
    ensures g.kind.children[0] == RowCol(1, 1)
  {
    var pairs := GridPairs(rows, cols);
    GridPairsAt(rows, cols, 0, 0);
    Grammar("", DefaultStyle, Grid(pairs))
  }
}
