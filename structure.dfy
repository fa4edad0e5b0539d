/** What the structural branches of the reducer do to the store and to the
    dimension tables: the frontier walk and the growth of `InsertCol`/`InsertRow`,
    and the grid creation of `AddNestedGrid`. Both insertions are one operation
    along a `Direction`: `Right` is `InsertCol` (walk with `neighbor_right`, collect
    with `query_col`, add one to the column), `Below` is `InsertRow`. */
module Structure {
  import opened Wrappers
  import opened Coordinates
  import opened Grammars
  import opened Sessions
  import opened Queries

  // ---------------------------------------------------------------------------
  // The frontier walk

  /** The stored cells further along `d` than `c` on c's line of its grid: a finite
      set that shrinks at every step of the walk. */
  function Ahead(g: Store, c: Coordinate, d: Direction): set<Coordinate>
  {
    if c.IsTopLevel() then {}
    else
      set k | k in g && !k.IsTopLevel() && k.Parent() == c.Parent()
                     && k.Across(d) == c.Across(d) && k.Along(d) > c.Along(d)
  }

  /** A step of the walk onto a stored neighbour leaves strictly fewer cells ahead. */
  lemma {:induction false} StepShrinksAhead(g: Store, c: Coordinate, d: Direction)
    requires c.Next(d).Some? && c.Next(d).value in g
    ensures Ahead(g, c.Next(d).value, d) < Ahead(g, c, d)
  {
    var n := c.Next(d).value;
    NextIsMove(c, d);
    assert n in Ahead(g, c, d);
    assert n !in Ahead(g, n, d);
  }

  /** The cell the walk of `InsertCol` (d = Right) or `InsertRow` (d = Below) stops
      at: from `c`, step to the neighbour along `d` while it is stored. */
  function Frontier(g: Store, c: Coordinate, d: Direction): (f: Coordinate)
    ensures f == c || f in g
    ensures c.IsTopLevel() ==> f == c
    ensures !c.IsTopLevel() ==> && !f.IsTopLevel() && f.Parent() == c.Parent()
                                && f.Across(d) == c.Across(d) && f.Along(d) >= c.Along(d)
    ensures !c.IsTopLevel() ==> forall j: Pos :: c.Along(d) < j <= f.Along(d) ==> c.MovedTo(d, j) in g
    ensures f.Next(d).None? || f.Next(d).value !in g
    decreases Ahead(g, c, d)
  {
    match c.Next(d)
    case None => c
    case Some(n) =>
      if n in g then
        StepShrinksAhead(g, c, d);
        NextIsMove(c, d);
        SameLineSameMoves(c, n, d);
        Frontier(g, n, d)
      else
        c
  }

  /** The frontier is the only cell on the walk's line that the walk can stop at:
      every cell from `c` to it is stored past `c`, and its own neighbour is not. */
  lemma {:induction false} FrontierUnique(g: Store, c: Coordinate, d: Direction, f': Coordinate)
    requires !c.IsTopLevel() && !f'.IsTopLevel()
    requires f'.Parent() == c.Parent() && f'.Across(d) == c.Across(d) && f'.Along(d) >= c.Along(d)
    requires forall j: Pos :: c.Along(d) < j <= f'.Along(d) ==> c.MovedTo(d, j) in g
    requires f'.Next(d).value !in g
    ensures f' == Frontier(g, c, d)
  {
    var f := Frontier(g, c, d);
    NextIsMove(f, d);
    NextIsMove(f', d);
    SameLineSameMoves(c, f, d);
    SameLineSameMoves(c, f', d);
    LineDeterminedByAlong(f, f', d);
  }

  /** The walk of the source's `while let` loop: advance while the neighbour is stored. */
  method WalkToFrontier(g: Store, start: Coordinate, d: Direction) returns (f: Coordinate)
    ensures f == Frontier(g, start, d)
  {
    f := start;
    while f.Next(d).Some?
      invariant Frontier(g, f, d) == Frontier(g, start, d)
      decreases Ahead(g, f, d)
    {
      var next := f.Next(d).value;
      if next in g {
        StepShrinksAhead(g, f, d);
        f := next;
      } else {
        break;
      }
    }
  }

  // ---------------------------------------------------------------------------
  // Growth by one column or one row

  /** The frontier's column (d = Right, `query_col`) or row (d = Below, `query_row`):
      the stored cells of the frontier's grid that share its index along `d`. */
  function Members(g: Store, f: Coordinate, d: Direction): (r: set<Coordinate>)
    requires !f.IsTopLevel()
    ensures forall k :: k in r <==> k in g && !k.IsTopLevel() && k.Parent() == f.Parent() && k.Along(d) == f.Along(d)
  {
    match d
    case Right => QueryCol(g, f.FullCol())
    case Below => QueryRow(g, f.FullRow())
  }

  /** The pair a member contributes: its own pair moved one step along `d`. */
  function Shifted(k: Coordinate, d: Direction): (p: RowCol)
    requires !k.IsTopLevel()
    ensures k.Parent().value.ChildOf(p) == k.Next(d).value
  {
    Shift(k.pos, d)
  }

  /** The pairs appended to the parent grid, one per member, in iteration order. */
  function ShiftedPairs(order: seq<Coordinate>, d: Direction): (r: seq<RowCol>)
    requires forall k :: k in order ==> !k.IsTopLevel()
    ensures |r| == |order|
    ensures forall i :: 0 <= i < |order| ==> r[i] == Shifted(order[i], d)
  {
    if order == [] then [] else ShiftedPairs(order[..|order| - 1], d) + [Shifted(order[|order| - 1], d)]
  }

  /** Visiting one more member appends its shifted pair. */
  lemma ShiftedPairsSnoc(order: seq<Coordinate>, k: Coordinate, d: Direction)
    requires forall m :: m in order ==> !m.IsTopLevel()
    requires !k.IsTopLevel()
    ensures ShiftedPairs(order + [k], d) == ShiftedPairs(order, d) + [Shifted(k, d)]
  {
    assert (order + [k])[..|order|] == order;
  }

  /** The store after growing the grid at `parent` by the pairs `added`: a default
      leaf at each new child, and the parent's child list extended in order. */
  function GrowStore(g: Store, parent: Coordinate, added: seq<RowCol>): (r: Store)
    requires parent in g && g[parent].kind.Grid?
    ensures r.Keys == g.Keys + ChildKeys(parent, added)
    ensures r[parent].name == g[parent].name && r[parent].style == g[parent].style
    ensures r[parent].kind == Grid(g[parent].kind.children + added)
    ensures forall p :: p in added ==> r[parent.ChildOf(p)] == Default()
    ensures forall k :: k in g && k != parent && k !in ChildKeys(parent, added) ==> r[k] == g[k]
  {
    var node := g[parent];
    (g + NewLeaves(parent, added))[parent := node.(kind := Grid(node.kind.children + added))]
  }

  /** The store after `InsertCol` (d = Right) or `InsertRow` (d = Below) with active
      cell `c`, when the members of the frontier's line are visited in `order`. The
      source's order is that of a hash map; every enumeration of the members is
      allowed. */
  function InsertStore(g: Store, c: Coordinate, d: Direction, order: seq<Coordinate>): (r: Store)
    requires !c.IsTopLevel()
    requires Enumerates(order, Members(g, Frontier(g, c, d), d))
  {
    var parent := c.Parent().value;
    if parent in g && g[parent].kind.Grid? then GrowStore(g, parent, ShiftedPairs(order, d)) else g
  }

  /** `InsertStore` when the active cell's parent is a grid, step by step. */
  lemma InsertStoreGrid(g: Store, c: Coordinate, d: Direction, order: seq<Coordinate>)
    requires !c.IsTopLevel()
    requires Enumerates(order, Members(g, Frontier(g, c, d), d))
    requires c.outer in g && g[c.outer].kind.Grid?
    ensures InsertStore(g, c, d, order)
         == (g + NewLeaves(c.outer, ShiftedPairs(order, d)))
              [c.outer := Grammar(g[c.outer].name, g[c.outer].style, Grid(g[c.outer].kind.children + ShiftedPairs(order, d)))]
  {
  }

  /** Cells of one grid visited once each give shifted pairs that occur once each. */
  lemma {:induction false} ShiftedPairsDistinct(order: seq<Coordinate>, parent: Coordinate, d: Direction)
    requires forall i, j :: 0 <= i < j < |order| ==> order[i] != order[j]
    requires forall k :: k in order ==> !k.IsTopLevel() && k.outer == parent
    ensures forall i, j :: 0 <= i < j < |order| ==> ShiftedPairs(order, d)[i] != ShiftedPairs(order, d)[j]
  {
    var added := ShiftedPairs(order, d);
    forall i, j | 0 <= i < j < |added|
      ensures added[i] != added[j]
    {
      assert order[i] in order && order[j] in order;
    }
  }

  /** The shifted pairs of an enumeration of `ms` are the shifted pairs of `ms`. */
  lemma {:induction false} ShiftedPairsCover(order: seq<Coordinate>, ms: set<Coordinate>, d: Direction)
    requires forall k :: k in order <==> k in ms
    requires forall k :: k in ms ==> !k.IsTopLevel()
    ensures forall p :: p in ShiftedPairs(order, d) <==> p in set k | k in ms :: Shifted(k, d)
  {
    var added := ShiftedPairs(order, d);
    var shifted := set k | k in ms :: Shifted(k, d);
    forall p | p in shifted
      ensures p in added
    {
      var m :| m in ms && Shifted(m, d) == p;
      var i :| 0 <= i < |order| && order[i] == m;
      assert added[i] == p;
    }
    forall p | p in added
      ensures p in shifted
    {
      var i :| 0 <= i < |added| && added[i] == p;
      assert order[i] in ms;
    }
  }

  /** The children at the shifted pairs of an enumeration of `ms` are the
      neighbours along `d` of the cells of `ms`. */
  lemma {:induction false} ShiftedChildrenAreNeighbours(order: seq<Coordinate>, ms: set<Coordinate>, parent: Coordinate, d: Direction)
    requires forall k :: k in order <==> k in ms
    requires forall k :: k in ms ==> !k.IsTopLevel() && k.outer == parent
    ensures ChildKeys(parent, ShiftedPairs(order, d)) == set k | k in ms :: k.Next(d).value
  {
    ShiftedChildrenAreNeighboursOf(order, ms, parent, d);
    NeighboursAreShiftedChildren(order, ms, parent, d);
  }

  /** Each child at a shifted pair is the neighbour of a member. */
  lemma ShiftedChildrenAreNeighboursOf(order: seq<Coordinate>, ms: set<Coordinate>, parent: Coordinate, d: Direction)
    requires forall k :: k in order <==> k in ms
    requires forall k :: k in ms ==> !k.IsTopLevel() && k.outer == parent
    ensures ChildKeys(parent, ShiftedPairs(order, d)) <= set k | k in ms :: k.Next(d).value
  {
    var added := ShiftedPairs(order, d);
    forall k | k in ChildKeys(parent, added)
      ensures k in set m | m in ms :: m.Next(d).value
    {
      var p :| p in added && parent.ChildOf(p) == k;
      var i :| 0 <= i < |added| && added[i] == p;
      assert order[i] in ms;
    }
  }

  /** Each member's neighbour is the child at a shifted pair. */
  lemma NeighboursAreShiftedChildren(order: seq<Coordinate>, ms: set<Coordinate>, parent: Coordinate, d: Direction)
    requires forall k :: k in order <==> k in ms
    requires forall k :: k in ms ==> !k.IsTopLevel() && k.outer == parent
    ensures (set k | k in ms :: k.Next(d).value) <= ChildKeys(parent, ShiftedPairs(order, d))
  {
    var added := ShiftedPairs(order, d);
    forall m | m in ms
      ensures m.Next(d).value in ChildKeys(parent, added)
    {
      var i :| 0 <= i < |order| && order[i] == m;
      assert parent.ChildOf(added[i]) == m.Next(d).value;
    }
  }

  /** The members of the frontier's line are cells of the active cell's grid. */
  lemma MembersShareParent(g: Store, c: Coordinate, d: Direction)
    requires !c.IsTopLevel()
    ensures forall k :: k in Members(g, Frontier(g, c, d), d) ==> !k.IsTopLevel() && k.outer == c.outer
  {
    var f := Frontier(g, c, d);
    forall k | k in Members(g, f, d)
      ensures !k.IsTopLevel() && k.outer == c.outer
    {
      assert k.Parent() == f.Parent() == c.Parent();
    }
  }

  /** The new children of an insertion are exactly the neighbours along `d` of the
      frontier line's members, and the appended pairs list each of their pairs once. */
  lemma {:induction false} InsertAddsNeighbours(g: Store, c: Coordinate, d: Direction, order: seq<Coordinate>)
    requires !c.IsTopLevel()
    requires Enumerates(order, Members(g, Frontier(g, c, d), d))
    ensures ChildKeys(c.outer, ShiftedPairs(order, d))
         == set k | k in Members(g, Frontier(g, c, d), d) :: k.Next(d).value
    ensures Enumerates(ShiftedPairs(order, d), set k | k in Members(g, Frontier(g, c, d), d) :: Shifted(k, d))
  {
    var ms := Members(g, Frontier(g, c, d), d);
    MembersShareParent(g, c, d);
    ShiftedPairsDistinct(order, c.outer, d);
    ShiftedPairsCover(order, ms, d);
    ShiftedChildrenAreNeighbours(order, ms, c.outer, d);
  }

  /** Growing a grid keeps the store consistent: the old children are still stored,
      every appended child is stored as a new leaf, the new leaves are not grids,
      and every other node is untouched. The new cells' parent is stored too. */
  lemma {:induction false} GrowKeepsConsistency(g: Store, parent: Coordinate, added: seq<RowCol>)
    requires parent in g && g[parent].kind.Grid?
    requires GridConsistent(g)
    ensures GridConsistent(GrowStore(g, parent, added))
    ensures ParentClosed(g) ==> ParentClosed(GrowStore(g, parent, added))
  {
    var r := GrowStore(g, parent, added);
    var newKeys := ChildKeys(parent, added);
    forall k, p | k in r && r[k].kind.Grid? && p in r[k].kind.children
      ensures k.ChildOf(p) in r
    {
      if k == parent {
        if p in added {
          assert k.ChildOf(p) in newKeys;
        } else {
          assert p in g[parent].kind.children;
        }
      } else if k !in newKeys {
        assert r[k] == g[k];
      }
    }
    if ParentClosed(g) {
      forall k | k in r && !k.IsTopLevel()
        ensures k.outer in r
      {
        if k in newKeys {
          assert k.Parent() == Some(parent);
        }
      }
    }
  }

  /** `InsertCol` and `InsertRow` keep a consistent store consistent. */
  lemma {:induction false} InsertKeepsConsistency(g: Store, c: Coordinate, d: Direction, order: seq<Coordinate>)
    requires !c.IsTopLevel()
    requires Enumerates(order, Members(g, Frontier(g, c, d), d))
    requires GridConsistent(g)
    ensures GridConsistent(InsertStore(g, c, d, order))
    ensures ParentClosed(g) ==> ParentClosed(InsertStore(g, c, d, order))
  {
    var parent := c.Parent().value;
    if parent in g && g[parent].kind.Grid? {
      GrowKeepsConsistency(g, parent, ShiftedPairs(order, d));
    }
  }

  // ---------------------------------------------------------------------------
  // Nested grids

  /** The store after `AddNestedGrid(coord, (rows, cols))`: default leaves at every
      child of the new grid, the parent's kind (when the parent is stored) replaced
      by the new grid's kind, and the grid itself at `coord`. `NestedGridStoreSpec`
      states what it holds. */
  function NestedGridStore(g: Store, coord: Coordinate, rows: Pos, cols: Pos): Store
  {
    var grid := AsGrid(rows, cols);
    var withLeaves := g + NewLeaves(coord, grid.kind.children);
    MirrorParent(withLeaves, coord, grid.kind)[coord := grid]
  }

  /** After `AddNestedGrid(coord, (rows, cols))` the store holds exactly the old
      addresses, `coord` and the new grid's children; `coord` holds the grid, every
      child an empty cell, the stored parent the grid's kind under its own name and
      style, and every other address what it held before. */
  lemma NestedGridStoreSpec(g: Store, coord: Coordinate, rows: Pos, cols: Pos)
    ensures var r := NestedGridStore(g, coord, rows, cols);
            && r.Keys == g.Keys + {coord} + ChildKeys(coord, AsGrid(rows, cols).kind.children)
            && r[coord] == AsGrid(rows, cols)
            && (forall p :: p in AsGrid(rows, cols).kind.children ==> r[coord.ChildOf(p)] == Default())
            && (!coord.IsTopLevel() && coord.outer in g ==>
                  && r[coord.outer].kind == AsGrid(rows, cols).kind
                  && r[coord.outer].name == g[coord.outer].name && r[coord.outer].style == g[coord.outer].style)
            && (forall k ::
                  (k in g && k != coord && (coord.IsTopLevel() || k != coord.outer)
                   && k !in ChildKeys(coord, AsGrid(rows, cols).kind.children)) ==> r[k] == g[k])
  {
    NestedGridKeys(g, coord, rows, cols);
    NestedGridCells(g, coord, rows, cols);
    if !coord.IsTopLevel() && coord.outer in g {
      NestedGridParent(g, coord, rows, cols);
    }
    NestedGridFrame(g, coord, rows, cols);
  }

  /** The addresses after `AddNestedGrid`: the old ones, `coord` and its children. */
  lemma NestedGridKeys(g: Store, coord: Coordinate, rows: Pos, cols: Pos)
    ensures NestedGridStore(g, coord, rows, cols).Keys
         == g.Keys + {coord} + ChildKeys(coord, AsGrid(rows, cols).kind.children)
  {
    var grid := AsGrid(rows, cols);
    var withLeaves := g + NewLeaves(coord, grid.kind.children);
    assert withLeaves.Keys == g.Keys + ChildKeys(coord, grid.kind.children);
  }

  /** After `AddNestedGrid`, `coord` holds the grid and each of its children an empty cell. */
  lemma NestedGridCells(g: Store, coord: Coordinate, rows: Pos, cols: Pos)
    ensures var r := NestedGridStore(g, coord, rows, cols);
            && coord in r && r[coord] == AsGrid(rows, cols)
            && forall p :: p in AsGrid(rows, cols).kind.children ==>
                 coord.ChildOf(p) in r && r[coord.ChildOf(p)] == Default()
  {
    var grid := AsGrid(rows, cols);
    var withLeaves := g + NewLeaves(coord, grid.kind.children);
    var r := NestedGridStore(g, coord, rows, cols);
    forall p | p in grid.kind.children
      ensures coord.ChildOf(p) in r && r[coord.ChildOf(p)] == Default()
    {
      assert coord.ChildOf(p) in NewLeaves(coord, grid.kind.children);
      assert coord.ChildOf(p) != coord;
      if !coord.IsTopLevel() {
        assert coord.ChildOf(p) != coord.outer;
      }
    }
  }

  /** After `AddNestedGrid`, a stored parent has the grid's kind and keeps its name
      and style. */
  lemma NestedGridParent(g: Store, coord: Coordinate, rows: Pos, cols: Pos)
    requires !coord.IsTopLevel() && coord.outer in g
    ensures var r := NestedGridStore(g, coord, rows, cols);
            && coord.outer in r
            && r[coord.outer].kind == AsGrid(rows, cols).kind
            && r[coord.outer].name == g[coord.outer].name && r[coord.outer].style == g[coord.outer].style
  {
    var grid := AsGrid(rows, cols);
    var withLeaves := g + NewLeaves(coord, grid.kind.children);
    assert coord.outer !in NewLeaves(coord, grid.kind.children);
    assert withLeaves[coord.outer] == g[coord.outer];
  }

  /** After `AddNestedGrid`, every other address holds what it held. */
  lemma NestedGridFrame(g: Store, coord: Coordinate, rows: Pos, cols: Pos)
    ensures forall k ::
              (k in g && k != coord && (coord.IsTopLevel() || k != coord.outer)
               && k !in ChildKeys(coord, AsGrid(rows, cols).kind.children))
              ==> NestedGridStore(g, coord, rows, cols)[k] == g[k]
  {
  }

  /** The parent of `coord`, when stored, with its kind replaced by `kind`; name and
      style are kept, and nothing else changes. */
  function MirrorParent(g: Store, coord: Coordinate, kind: Kind): (r: Store)
    ensures r.Keys == g.Keys
    ensures !coord.IsTopLevel() && coord.outer in g ==>
              && r[coord.outer].kind == kind
              && r[coord.outer].name == g[coord.outer].name && r[coord.outer].style == g[coord.outer].style
    ensures forall k :: k in g && (coord.IsTopLevel() || k != coord.outer) ==> r[k] == g[k]
  {
    if !coord.IsTopLevel() && coord.outer in g then g[coord.outer := g[coord.outer].(kind := kind)] else g
  }

  /** `NestedGridStore` as the three steps of `AddNestedGrid`: leaves, parent, grid. */
  lemma NestedGridStoreSteps(g: Store, coord: Coordinate, rows: Pos, cols: Pos, withLeaves: Store)
    requires withLeaves == g + NewLeaves(coord, AsGrid(rows, cols).kind.children)
    ensures NestedGridStore(g, coord, rows, cols)
         == (if !coord.IsTopLevel() && coord.outer in withLeaves
             then withLeaves[coord.outer := withLeaves[coord.outer].(kind := AsGrid(rows, cols).kind)]
             else withLeaves)[coord := AsGrid(rows, cols)]
  {
  }

  /** After `AddNestedGrid`, every grid node other than the parent of `coord` lists
      only stored children. The parent is the exception: it takes the new grid's
      child list, which need not match the cells stored under it. */
  lemma {:induction false} NestedGridConsistentOffParent(g: Store, coord: Coordinate, rows: Pos, cols: Pos)
    requires GridConsistent(g)
    ensures forall c :: (coord.IsTopLevel() || c != coord.outer) ==> GridConsistentAt(NestedGridStore(g, coord, rows, cols), c)
  {
    var r := NestedGridStore(g, coord, rows, cols);
    var kids := ChildKeys(coord, AsGrid(rows, cols).kind.children);
    NestedGridStoreSpec(g, coord, rows, cols);
    forall c | (coord.IsTopLevel() || c != coord.outer)
      ensures GridConsistentAt(r, c)
    {
      if c in r && r[c].kind.Grid? {
        forall p | p in r[c].kind.children
          ensures c.ChildOf(p) in r
        {
          if c == coord {
            assert c.ChildOf(p) in kids;
          } else if c !in kids {
            assert r[c] == g[c];
          }
        }
      }
    }
  }

  /** `AddNestedGrid` keeps the parent closure when the grid's own parent is stored
      (or the grid is top-level): every new leaf's parent is the grid. */
  lemma {:induction false} NestedGridKeepsParentClosed(g: Store, coord: Coordinate, rows: Pos, cols: Pos)
    requires ParentClosed(g)
    requires coord.IsTopLevel() || coord.outer in g
    ensures ParentClosed(NestedGridStore(g, coord, rows, cols))
  {
    var r := NestedGridStore(g, coord, rows, cols);
    var kids := ChildKeys(coord, AsGrid(rows, cols).kind.children);
    NestedGridStoreSpec(g, coord, rows, cols);
    forall k | k in r && !k.IsTopLevel()
      ensures k.outer in r
    {
      if k in kids {
        assert k.Parent() == Some(coord);
      }
    }
  }

  // ---------------------------------------------------------------------------
  // Dimension tables

  /** `dims` with `v` added at each key of `keys` that has no entry; existing
      entries are never overwritten. */
  function FillAbsent<K>(dims: map<K, real>, keys: set<K>, v: real): (r: map<K, real>)
    ensures r.Keys == dims.Keys + keys
    ensures forall k :: k in dims ==> r[k] == dims[k]
    ensures forall k :: k in keys && k !in dims ==> r[k] == v
  {
    map k | k in dims.Keys + keys :: if k in dims then dims[k] else v
  }

  /** Filling no keys changes nothing. */
  lemma FillAbsentNone<K>(dims: map<K, real>, v: real)
    ensures FillAbsent(dims, {}, v) == dims
  {
  }

  /** Filling one more key extends the fill by that key only when it is absent. */
  lemma FillAbsentAddOne<K>(dims: map<K, real>, keys: set<K>, x: K, v: real)
    ensures FillAbsent(dims, keys + {x}, v)
         == if x in FillAbsent(dims, keys, v) then FillAbsent(dims, keys, v) else FillAbsent(dims, keys, v)[x := v]
  {
  }

  /** The row keys of the children `coord.ChildOf(p)`, p in `pairs`. */
  function ChildRows(coord: Coordinate, pairs: seq<RowCol>): (s: set<Row>)
    ensures forall r :: r in s ==> r.grid == coord
  {
    set p | p in pairs :: coord.ChildOf(p).FullRow()
  }

  /** No pairs have no row or column keys. */
  lemma ChildLinesNone(coord: Coordinate)
    ensures ChildRows(coord, []) == {} && ChildCols(coord, []) == {}
  {
  }

  /** One more pair adds its row key. */
  lemma ChildRowsSnoc(coord: Coordinate, pairs: seq<RowCol>, p: RowCol)
    ensures ChildRows(coord, pairs + [p]) == ChildRows(coord, pairs) + {coord.ChildOf(p).FullRow()}
  {
    assert forall q :: q in pairs + [p] <==> q in pairs || q == p;
  }

  /** The column keys of the children `coord.ChildOf(p)`, p in `pairs`. */
  function ChildCols(coord: Coordinate, pairs: seq<RowCol>): (s: set<Col>)
    ensures forall c :: c in s ==> c.grid == coord
  {
    set p | p in pairs :: coord.ChildOf(p).FullCol()
  }

  /** One more pair adds its column key. */
  lemma ChildColsSnoc(coord: Coordinate, pairs: seq<RowCol>, p: RowCol)
    ensures ChildCols(coord, pairs + [p]) == ChildCols(coord, pairs) + {coord.ChildOf(p).FullCol()}
  {
    assert forall q :: q in pairs + [p] <==> q in pairs || q == p;
  }

  /** The keys `AddNestedGrid` fills are one row key per row 1..rows and one column
      key per column 1..cols of the new grid, and never the grid's own keys. */
  lemma {:induction false} NestedGridDimensionKeys(coord: Coordinate, rows: Pos, cols: Pos)
    requires !coord.IsTopLevel()
    ensures ChildRows(coord, AsGrid(rows, cols).kind.children) == set i: Pos | i <= rows :: Row(coord, i)
    ensures ChildCols(coord, AsGrid(rows, cols).kind.children) == set j: Pos | j <= cols :: Col(coord, j)
    ensures coord.FullRow() !in ChildRows(coord, AsGrid(rows, cols).kind.children)
    ensures coord.FullCol() !in ChildCols(coord, AsGrid(rows, cols).kind.children)
  {
    var pairs := AsGrid(rows, cols).kind.children;
    GridPairsCover(rows, cols);
    forall i: Pos | i <= rows
      ensures Row(coord, i) in ChildRows(coord, pairs)
    {
      assert RowCol(i, 1) in pairs;
    }
    forall j: Pos | j <= cols
      ensures Col(coord, j) in ChildCols(coord, pairs)
    {
      assert RowCol(1, j) in pairs;
    }
  }

  /** The size each new child gets in `AddNestedGrid`: the baseline, or a third of the
      grid's own size when that exceeds the baseline. */
  function SplitSize(current: real, baseline: real): (r: real)
    requires baseline > 0.0
    ensures r >= baseline / 3.0
    ensures current <= baseline ==> r == baseline
    ensures current > baseline ==> 3.0 * r == current
  {
    if current > baseline then current / 3.0 else baseline
  }

  /** The split divides by three whatever the grid's size: when the cell exceeds
      the baseline, `n` new rows (or columns) of the split size add up to the cell's
      size exactly when `n` is 3. */
  lemma SplitSizeFitsOnlyThree(current: real, baseline: real, n: Pos)
    requires baseline > 0.0 && current > baseline
    ensures n as real * SplitSize(current, baseline) == current <==> n == 3
  {
    var s := SplitSize(current, baseline);
    assert 3.0 * s == current && s > 0.0;
    if n != 3 {
      assert n as real * s - current == (n as real - 3.0) * s;
      if n < 3 {
        assert (n as real - 3.0) * s < 0.0;
      } else {
        assert (n as real - 3.0) * s > 0.0;
      }
      assert n as real * s != current;
    }
  }

  /** A 2 x 2 grid nested in a cell 90 high gives its two rows 30 each: together
      60, short of the cell's 90. */
  lemma TwoRowsFallShort()
    ensures 2.0 * SplitSize(90.0, 30.0) == 60.0
    ensures 2.0 * SplitSize(90.0, 30.0) != 90.0
  {
    SplitSizeFitsOnlyThree(90.0, 30.0, 2);
  }

  /** The size of `n` rows (or columns) of size `unit`: the resize target
      `(rows as f64) * 30.0` of `AddNestedGrid`. */
  function Extent(n: Pos, unit: real): real
  {
    n as real * unit
  }
}
