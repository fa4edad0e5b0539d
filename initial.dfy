/** The document the editor starts with (`Model::create`): a root grid of 3 x 2 empty
    cells, and a meta grid holding two text cells and a definition whose rule points
    at a 2 x 2 template grid. Spreadsheet names read column letter then row number:
    `root-B1` is the cell at row 1, column 2 of the root grid. */
module Initial {
  import opened Wrappers
  import opened Coordinates
  import opened Grammars
  import opened Sessions
  import opened Structure

  const RootCoord: Coordinate := Named(Root)
  const MetaCoord: Coordinate := Named(Meta)

  /** The cell at (row, col) of the grid at `c`. */
  function At(c: Coordinate, row: Pos, col: Pos): Coordinate
  {
    c.ChildOf(RowCol(row, col))
  }

  const MetaA3: Coordinate := At(MetaCoord, 3, 1)
  const MetaA3B1: Coordinate := At(MetaA3, 1, 2)

  function RootGrammar(): Grammar
  {
    Grammar("root", DefaultStyle,
      Grid([RowCol(1, 1), RowCol(2, 1), RowCol(3, 1), RowCol(1, 2), RowCol(2, 2), RowCol(3, 2)]))
  }

  function MetaGrammar(): Grammar
  {
    Grammar("meta", DefaultStyle, Grid([RowCol(1, 1), RowCol(2, 1), RowCol(3, 1)]))
  }

  /** The root grid and its six cells, as `create` stores them. */
  function RootEntries(): Store
  {
    map[
      RootCoord := RootGrammar(),
      At(RootCoord, 1, 1) := Default(),
      At(RootCoord, 2, 1) := Default(),
      At(RootCoord, 3, 1) := Default(),
      At(RootCoord, 1, 2) := Default(),
      At(RootCoord, 2, 2) := Default(),
      At(RootCoord, 3, 2) := Default()
    ]
  }

  /** The meta grid and its three cells: two named texts and a definition whose
      single rule points at the template grid meta-A3-B1. */
  function MetaEntries(): Store
  {
    map[
      MetaCoord := MetaGrammar(),
      At(MetaCoord, 1, 1) := Text("js grammar", "This is js"),
      At(MetaCoord, 2, 1) := Text("java grammar", "This is java"),
      MetaA3 := Grammar("defn", DefaultStyle, Defn("", MetaA3, [("", MetaA3B1)]))
    ]
  }

  /** The nodes under the definition meta-A3: an empty cell, and the 2 x 2 template
      grid meta-A3-B1 with its four cells. */
  function TemplateEntries(): Store
  {
    map[
      At(MetaA3, 1, 1) := Default(),
      MetaA3B1 := TemplateGrammar(),
      At(MetaA3B1, 1, 1) := Text("", "custom grammar"),
      At(MetaA3B1, 2, 1) := Default(),
      At(MetaA3B1, 1, 2) := Default(),
      At(MetaA3B1, 2, 2) := Default()
    ]
  }

  /** The initial store: every node `create` puts in the session's map. */
  function InitialGrammars(): Store
  {
    RootEntries() + MetaEntries() + TemplateEntries()
  }

  /** The initial column widths. */
  function InitialColWidths(): map<Col, real>
  {
    map[
      Col(RootCoord, 1) := 90.0,
      Col(RootCoord, 2) := 90.0,
      Col(MetaCoord, 1) := 180.0,
      Col(MetaA3, 1) := 90.0,
      Col(MetaA3, 2) := 180.0
    ]
  }

  /** The initial row heights. */
  function InitialRowHeights(): map<Row, real>
  {
    map[
      Row(RootCoord, 1) := 30.0,
      Row(RootCoord, 2) := 30.0,
      Row(RootCoord, 3) := 30.0,
      Row(MetaCoord, 1) := 180.0
    ]
  }

  function TemplateGrammar(): Grammar
  {
    Grammar("root", DefaultStyle, Grid([RowCol(1, 1), RowCol(2, 1), RowCol(1, 2), RowCol(2, 2)]))
  }

  /** The only grids of the initial store are root, meta and the template. */
  lemma InitialGridNodes(c: Coordinate)
    requires c in InitialGrammars() && InitialGrammars()[c].kind.Grid?
    ensures c == RootCoord || c == MetaCoord || c == MetaA3B1
  {
    if c in TemplateEntries() {
    } else if c in MetaEntries() {
    } else {
    }
  }

  /** Each of the three initial grids lists only stored cells. */
  lemma InitialChildrenStored()
    ensures forall p :: p in RootGrammar().kind.children ==> RootCoord.ChildOf(p) in RootEntries()
    ensures forall p :: p in MetaGrammar().kind.children ==> MetaCoord.ChildOf(p) in MetaEntries()
    ensures forall p :: p in TemplateGrammar().kind.children ==> MetaA3B1.ChildOf(p) in TemplateEntries()
  {
  }

  /** The three grid nodes as the initial store holds them; every part's address is stored. */
  lemma InitialGridLookups()
    ensures InitialGrammars()[RootCoord] == RootGrammar()
    ensures InitialGrammars()[MetaCoord] == MetaGrammar()
    ensures InitialGrammars()[MetaA3B1] == TemplateGrammar()
    ensures RootEntries().Keys + MetaEntries().Keys + TemplateEntries().Keys == InitialGrammars().Keys
  {
    assert RootCoord !in TemplateEntries() && RootCoord !in MetaEntries();
    assert MetaCoord !in TemplateEntries();
  }

  /** Every grid of the initial store lists only stored cells. */
  lemma InitialGridConsistent()
    ensures GridConsistent(InitialGrammars())
  {
    var g := InitialGrammars();
    InitialGridLookups();
    InitialChildrenStored();
    forall c, p | c in g && g[c].kind.Grid? && p in g[c].kind.children
      ensures c.ChildOf(p) in g
    {
      InitialGridNodes(c);
      if c == RootCoord {
        assert p in RootGrammar().kind.children;
      } else if c == MetaCoord {
        assert p in MetaGrammar().kind.children;
      } else {
        assert p in TemplateGrammar().kind.children;
      }
    }
  }

  /** Every stored cell of the initial store has its parent stored. */
  lemma InitialParentClosed()
    ensures ParentClosed(InitialGrammars())
  {
    var g := InitialGrammars();
    forall k | k in g && !k.IsTopLevel()
      ensures k.outer in g
    {
      if k in TemplateEntries() {
      } else if k in MetaEntries() {
      } else {
      }
    }
  }

  /** The initial store is consistent: each of its three grids (root, meta and the
      template at meta-A3-B1) lists only stored cells, every cell's parent is stored,
      the denormalised root and meta nodes match the map, and the initial active
      cell root-A1 is stored. */
  lemma InitialStoreConsistent()
    ensures GridConsistent(InitialGrammars())
    ensures ParentClosed(InitialGrammars())
    ensures InitialGrammars()[RootCoord] == RootGrammar()
    ensures InitialGrammars()[MetaCoord] == MetaGrammar()
    ensures At(RootCoord, 1, 1) in InitialGrammars()
  {
    InitialGridConsistent();
    InitialParentClosed();
    InitialGridLookups();
    assert At(RootCoord, 1, 1) in RootEntries();
  }

  /** No meta-side node of the initial store is a cell of the root grid. */
  lemma RootCellNotMeta(k: Coordinate)
    requires !k.IsTopLevel() && k.outer == RootCoord
    ensures k !in MetaEntries() && k !in TemplateEntries()
  {
  }

  /** The stored cells of the initial root grid are the six of `RootEntries`: rows 1
      to 3 of columns 1 and 2. */
  lemma InitialRootCells(k: Coordinate)
    requires k in InitialGrammars() && !k.IsTopLevel() && k.outer == RootCoord
    ensures k in RootEntries()
    ensures k.pos.row <= 3 && k.pos.col <= 2
  {
    RootCellNotMeta(k);
  }

  /** Every cell of the initial root grid has a row height and a column width. */
  lemma InitialRootGridSized()
    ensures forall k :: k in InitialGrammars() && !k.IsTopLevel() && k.outer == RootCoord ==>
              k.FullRow() in InitialRowHeights() && k.FullCol() in InitialColWidths()
  {
    forall k | k in InitialGrammars() && !k.IsTopLevel() && k.outer == RootCoord
      ensures k.FullRow() in InitialRowHeights() && k.FullCol() in InitialColWidths()
    {
      InitialRootCells(k);
    }
  }

  /** A store whose root part is the initial one: the root grid node of `create`,
      its six cells stored, and no other cell stored under the root. */
  ghost predicate InitialRoot(g: Store)
  {
    && RootCoord in g && g[RootCoord] == RootGrammar()
    && At(RootCoord, 1, 1) in g && At(RootCoord, 2, 1) in g && At(RootCoord, 3, 1) in g
    && At(RootCoord, 1, 2) in g && At(RootCoord, 2, 2) in g && At(RootCoord, 3, 2) in g
    && forall k :: k in g && !k.IsTopLevel() && k.outer == RootCoord ==> k.pos.row <= 3 && k.pos.col <= 2
  }

  /** The six root cells are stored in the initial store. */
  lemma InitialRootStored()
    ensures At(RootCoord, 1, 1) in InitialGrammars() && At(RootCoord, 2, 1) in InitialGrammars()
    ensures At(RootCoord, 3, 1) in InitialGrammars() && At(RootCoord, 1, 2) in InitialGrammars()
    ensures At(RootCoord, 2, 2) in InitialGrammars() && At(RootCoord, 3, 2) in InitialGrammars()
  {
    assert At(RootCoord, 1, 1) in RootEntries() && At(RootCoord, 2, 1) in RootEntries();
    assert At(RootCoord, 3, 1) in RootEntries() && At(RootCoord, 1, 2) in RootEntries();
    assert At(RootCoord, 2, 2) in RootEntries() && At(RootCoord, 3, 2) in RootEntries();
  }

  /** The initial store's root part is the initial one. */
  lemma InitialHasInitialRoot()
    ensures InitialRoot(InitialGrammars())
  {
    InitialGridLookups();
    InitialRootStored();
    forall k | k in InitialGrammars() && !k.IsTopLevel() && k.outer == RootCoord
      ensures k.pos.row <= 3 && k.pos.col <= 2
    {
      InitialRootCells(k);
    }
  }

  /** From root-A1 the walk to the right stops at root-B1, as root-C1 is not stored. */
  lemma FrontierRightFromA1(g: Store)
    requires InitialRoot(g)
    ensures Frontier(g, At(RootCoord, 1, 1), Right) == At(RootCoord, 1, 2)
  {
    var b1 := At(RootCoord, 1, 2);
    var c1 := At(RootCoord, 1, 3);
    assert At(RootCoord, 1, 1).Next(Right) == Some(b1);
    assert b1.Next(Right) == Some(c1);
    assert c1 !in g;
    assert Frontier(g, b1, Right) == b1;
  }

  /** A stored cell of column 2 of the root grid is root-B1, root-B2 or root-B3. */
  lemma ColumnBCell(g: Store, k: Coordinate)
    requires InitialRoot(g)
    requires k in Members(g, At(RootCoord, 1, 2), Right)
    ensures k == At(RootCoord, 1, 2) || k == At(RootCoord, 2, 2) || k == At(RootCoord, 3, 2)
  {
    assert k == At(RootCoord, k.pos.row, 2);
  }

  /** The column through root-B1 holds root-B1, root-B2 and root-B3. */
  lemma ColumnB(g: Store)
    requires InitialRoot(g)
    ensures Members(g, At(RootCoord, 1, 2), Right)
         == {At(RootCoord, 1, 2), At(RootCoord, 2, 2), At(RootCoord, 3, 2)}
  {
    var ms := Members(g, At(RootCoord, 1, 2), Right);
    forall k | k in ms
      ensures k == At(RootCoord, 1, 2) || k == At(RootCoord, 2, 2) || k == At(RootCoord, 3, 2)
    {
      ColumnBCell(g, k);
    }
  }

  /** Column 2 of the root grid shifted one step right is column 3. */
  lemma ColumnBShifted(ms: set<Coordinate>)
    requires ms == {At(RootCoord, 1, 2), At(RootCoord, 2, 2), At(RootCoord, 3, 2)}
    ensures (set k | k in ms :: Shifted(k, Right)) == {RowCol(1, 3), RowCol(2, 3), RowCol(3, 3)}
  {
    assert Shifted(At(RootCoord, 1, 2), Right) == RowCol(1, 3);
    assert Shifted(At(RootCoord, 2, 2), Right) == RowCol(2, 3);
    assert Shifted(At(RootCoord, 3, 2), Right) == RowCol(3, 3);
  }

  /** With root-A1 active, `InsertCol` grows the root grid. */
  lemma InsertColumnFromA1Grows(g: Store, order: seq<Coordinate>)
    requires RootCoord in g && g[RootCoord] == RootGrammar()
    requires Enumerates(order, Members(g, Frontier(g, At(RootCoord, 1, 1), Right), Right))
    ensures InsertStore(g, At(RootCoord, 1, 1), Right, order) == GrowStore(g, RootCoord, ShiftedPairs(order, Right))
  {
    assert At(RootCoord, 1, 1).Parent().value == RootCoord;
  }

  /** With root-A1 active, the pairs `InsertCol` appends are column 3, each once. */
  lemma InsertColumnFromA1Pairs(g: Store, order: seq<Coordinate>)
    requires InitialRoot(g)
    requires Enumerates(order, Members(g, Frontier(g, At(RootCoord, 1, 1), Right), Right))
    ensures Enumerates(ShiftedPairs(order, Right), {RowCol(1, 3), RowCol(2, 3), RowCol(3, 3)})
  {
    FrontierRightFromA1(g);
    ColumnB(g);
    InsertAddsNeighbours(g, At(RootCoord, 1, 1), Right, order);
    ColumnBShifted(Members(g, At(RootCoord, 1, 2), Right));
  }

  /** `InsertCol` with root-A1 active on a store whose root part is the initial one
      (the initial document among them): the walk stops at root-B1, the frontier
      column is root-B1..B3, and the root grid gains the pairs (1,3), (2,3), (3,3)
      after its six, each once and in hash-map order, with an empty cell stored at
      each. */
  lemma InsertColumnFromA1(g: Store, order: seq<Coordinate>)
    requires InitialRoot(g)
    requires Enumerates(order, Members(g, Frontier(g, At(RootCoord, 1, 1), Right), Right))
    ensures Frontier(g, At(RootCoord, 1, 1), Right) == At(RootCoord, 1, 2)
    ensures Members(g, At(RootCoord, 1, 2), Right) == {At(RootCoord, 1, 2), At(RootCoord, 2, 2), At(RootCoord, 3, 2)}
    ensures var r := InsertStore(g, At(RootCoord, 1, 1), Right, order);
            && r[RootCoord].kind == Grid(RootGrammar().kind.children + ShiftedPairs(order, Right))
            && Enumerates(ShiftedPairs(order, Right), {RowCol(1, 3), RowCol(2, 3), RowCol(3, 3)})
            && r[At(RootCoord, 1, 3)] == r[At(RootCoord, 2, 3)] == r[At(RootCoord, 3, 3)] == Default()
  {
    FrontierRightFromA1(g);
    ColumnB(g);
    InsertColumnFromA1Grows(g, order);
    InsertColumnFromA1Pairs(g, order);
    var added := ShiftedPairs(order, Right);
    assert RowCol(1, 3) in added && RowCol(2, 3) in added && RowCol(3, 3) in added;
  }

  /** root-C1 is neither stored under the initial root nor a cell of a grid nested
      at root-A1. */
  lemma NestedGridMissesC1(g: Store)
    requires InitialRoot(g)
    ensures At(RootCoord, 1, 3) !in NestedGridStore(g, At(RootCoord, 1, 1), 3, 3)
  {
    var a1 := At(RootCoord, 1, 1);
    var c1 := At(RootCoord, 1, 3);
    NestedGridStoreSpec(g, a1, 3, 3);
    assert c1 !in g;
    assert c1.Parent() != Some(a1);
    assert c1 !in ChildKeys(a1, AsGrid(3, 3).kind.children);
  }

  /** `AddNestedGrid(root-A1, (3, 3))` on a store whose root part is the initial one
      gives the root grid the 3 x 3 child list of the new grid, and root-C1 is not
      stored: the parent mirroring of `AddNestedGrid` can leave a grid listing a cell
      that does not exist. */
  lemma NestedGridMirrorBreaksParent(g: Store)
    requires InitialRoot(g)
    ensures var r := NestedGridStore(g, At(RootCoord, 1, 1), 3, 3);
            && RowCol(1, 3) in r[RootCoord].kind.children
            && At(RootCoord, 1, 3) !in r
            && !GridConsistent(r)
  {
    var a1 := At(RootCoord, 1, 1);
    var c1 := At(RootCoord, 1, 3);
    var r := NestedGridStore(g, a1, 3, 3);
    NestedGridStoreSpec(g, a1, 3, 3);
    assert a1.outer == RootCoord;
    assert r[RootCoord].kind == AsGrid(3, 3).kind;
    GridPairsAt(3, 3, 0, 2);
    assert RowCol(1, 3) in r[RootCoord].kind.children;
    NestedGridMissesC1(g);
    assert !GridConsistentAt(r, RootCoord);
  }

  /** Growing the root grid rewrites the root node in the map but not the session's
      separate `root` field: after `InsertCol` with root-A1 active on a store whose
      root part is the initial one, the map's root node is no longer `create`'s. */
  lemma InsertColumnLeavesRootFieldBehind(g: Store, order: seq<Coordinate>)
    requires InitialRoot(g)
    requires Enumerates(order, Members(g, Frontier(g, At(RootCoord, 1, 1), Right), Right))
    ensures InsertStore(g, At(RootCoord, 1, 1), Right, order)[RootCoord] != RootGrammar()
  {
    InsertColumnFromA1(g, order);
    var added := ShiftedPairs(order, Right);
    assert RowCol(1, 3) in added;
    assert |RootGrammar().kind.children + added| > |RootGrammar().kind.children|;
  }
}
