/** The editor's state machine (`Model` and its `update` reducer). The model keeps
    the selection fields, the dimension tables and the list of sessions, and every
    reducer branch that touches them is a method here, proved against the store
    functions of `CellEdits` and `Structure`. Fields of the source that only the
    view, the file readers or the framework use are not part of this model. */
module Editor {
  import opened Wrappers
  import opened Coordinates
  import opened Grammars
  import opened Sessions
  import opened CellEdits
  import opened Structure
  import opened Initial

  /** The reducer's messages that act on the document or the selection. File, driver
      and console messages are not part of this model; `LoadSession` carries the
      session already decoded. */
  datatype Action =
    | Noop
    | ChangeInput(coord: Coordinate, newValue: string)
    | SetActiveCell(coord: Coordinate)
    | DoCompletion(source: Coordinate, destination: Coordinate)
    | SetActiveMenu(menu: Option<int>)
    | LoadSession(session: Session)
    | SetSessionTitle(title: string)
    | AddNestedGrid(coord: Coordinate, rows: Pos, cols: Pos)
    | InsertRow
    | InsertCol
    | SetSelectedCells(coord: Coordinate)
    | Lookup(source: Coordinate, target: LookupTarget)
    | ToggleLookup(coord: Coordinate)
    | DefnUpdateName(coord: Coordinate, name: string)
    | DefnUpdateRule(coord: Coordinate, rule: Row)
    | DefnAddRule(coord: Coordinate)

  /** The store after the first |subs| iterations of the loop of `AddNestedGrid`:
      one empty cell per pair, in order. */
  function LeavesUpTo(g: Store, coord: Coordinate, subs: seq<RowCol>): (r: Store)
  {
    if subs == [] then g
    else LeavesUpTo(g, coord, subs[..|subs| - 1])[coord.ChildOf(subs[|subs| - 1]) := Default()]
  }

  /** The row heights after the first |subs| iterations: each child's row gets
      `v` unless it already has a height. */
  function RowsUpTo(h: map<Row, real>, coord: Coordinate, subs: seq<RowCol>, v: real): (r: map<Row, real>)
  {
    if subs == [] then h
    else
      var prev := RowsUpTo(h, coord, subs[..|subs| - 1], v);
      var row := coord.ChildOf(subs[|subs| - 1]).FullRow();
      if row in prev then prev else prev[row := v]
  }

  /** The column widths after the first |subs| iterations. */
  function ColsUpTo(w: map<Col, real>, coord: Coordinate, subs: seq<RowCol>, v: real): (r: map<Col, real>)
  {
    if subs == [] then w
    else
      var prev := ColsUpTo(w, coord, subs[..|subs| - 1], v);
      var col := coord.ChildOf(subs[|subs| - 1]).FullCol();
      if col in prev then prev else prev[col := v]
  }

  /** Inserting the leaves one at a time is adding them all at once. */
  lemma {:induction false} LeavesUpToAll(g: Store, coord: Coordinate, subs: seq<RowCol>)
    ensures LeavesUpTo(g, coord, subs) == g + NewLeaves(coord, subs)
    decreases |subs|
  {
    if subs == [] {
      NewLeavesNone(g, coord);
    } else {
      var init, p := subs[..|subs| - 1], subs[|subs| - 1];
      assert subs == init + [p];
      LeavesUpToAll(g, coord, init);
      NewLeavesSnoc(coord, init, p);
      UnionUpdate(g, NewLeaves(coord, init), coord.ChildOf(p), Default());
    }
  }

  /** Sizing the rows one at a time fills every absent child row with `v`. */
  lemma {:induction false} RowsUpToFill(h: map<Row, real>, coord: Coordinate, subs: seq<RowCol>, v: real)
    ensures RowsUpTo(h, coord, subs, v) == FillAbsent(h, ChildRows(coord, subs), v)
    decreases |subs|
  {
    if subs == [] {
      ChildLinesNone(coord);
      FillAbsentNone(h, v);
    } else {
      var init, p := subs[..|subs| - 1], subs[|subs| - 1];
      assert subs == init + [p];
      RowsUpToFill(h, coord, init, v);
      ChildRowsSnoc(coord, init, p);
      FillAbsentAddOne(h, ChildRows(coord, init), coord.ChildOf(p).FullRow(), v);
    }
  }

  /** Sizing the columns one at a time fills every absent child column with `v`. */
  lemma {:induction false} ColsUpToFill(w: map<Col, real>, coord: Coordinate, subs: seq<RowCol>, v: real)
    ensures ColsUpTo(w, coord, subs, v) == FillAbsent(w, ChildCols(coord, subs), v)
    decreases |subs|
  {
    if subs == [] {
      ChildLinesNone(coord);
      FillAbsentNone(w, v);
    } else {
      var init, p := subs[..|subs| - 1], subs[|subs| - 1];
      assert subs == init + [p];
      ColsUpToFill(w, coord, init, v);
      ChildColsSnoc(coord, init, p);
      FillAbsentAddOne(w, ChildCols(coord, init), coord.ChildOf(p).FullCol(), v);
    }
  }

  /** The loop of `AddNestedGrid`: an empty cell at each child `coord.ChildOf(p)`,
      p in `subs`, and a size for each of their rows and columns that has none yet
      (`height` for rows, `width` for columns). */
  method AddLeaves(g: Store, heights: map<Row, real>, widths: map<Col, real>,
                   coord: Coordinate, subs: seq<RowCol>, height: real, width: real)
    returns (g': Store, heights': map<Row, real>, widths': map<Col, real>)
    ensures g' == g + NewLeaves(coord, subs)
    ensures heights' == FillAbsent(heights, ChildRows(coord, subs), height)
    ensures widths' == FillAbsent(widths, ChildCols(coord, subs), width)
  {
    g', heights', widths' := g, heights, widths;
    var i := 0;
    while i < |subs|
      invariant 0 <= i <= |subs|
      invariant g' == LeavesUpTo(g, coord, subs[..i])
      invariant heights' == RowsUpTo(heights, coord, subs[..i], height)
      invariant widths' == ColsUpTo(widths, coord, subs[..i], width)
    {
      assert subs[..i + 1][..i] == subs[..i];
      var newCoord := coord.ChildOf(subs[i]);
      g' := g'[newCoord := Default()];
      if newCoord.FullRow() !in heights' {
        heights' := heights'[newCoord.FullRow() := height];
      }
      if newCoord.FullCol() !in widths' {
        widths' := widths'[newCoord.FullCol() := width];
      }
      i := i + 1;
    }
    assert subs[..i] == subs;
    LeavesUpToAll(g, coord, subs);
    RowsUpToFill(heights, coord, subs, height);
    ColsUpToFill(widths, coord, subs, width);
  }

  /** The store and dimension work of `AddNestedGrid`, before the final resize:
      the new sizes (the defaults 30 and 90, or a third of `coord`'s own size when
      that is larger), the loop over the new grid's children, the parent's kind
      mirrored, and the grid stored at `coord`. */
  method NestGrid(g: Store, heights: map<Row, real>, widths: map<Col, real>,
                  coord: Coordinate, rows: Pos, cols: Pos)
    returns (g': Store, heights': map<Row, real>, widths': map<Col, real>)
    requires !coord.IsTopLevel() && coord.FullRow() in heights && coord.FullCol() in widths
    ensures g' == NestedGridStore(g, coord, rows, cols)
    ensures heights' == FillAbsent(heights, ChildRows(coord, AsGrid(rows, cols).kind.children),
                                   SplitSize(heights[coord.FullRow()], 30.0))
    ensures widths' == FillAbsent(widths, ChildCols(coord, AsGrid(rows, cols).kind.children),
                                  SplitSize(widths[coord.FullCol()], 90.0))
  {
    var grammar := AsGrid(rows, cols);
    var subs := grammar.kind.children;
    var currentWidth := widths[coord.FullCol()];
    var currentHeight := heights[coord.FullRow()];
    var width := 90.0;
    var height := 30.0;
    if currentWidth > width {
      width := currentWidth / 3.0;
    }
    if currentHeight > height {
      height := currentHeight / 3.0;
    }
    assert width == SplitSize(currentWidth, 90.0) && height == SplitSize(currentHeight, 30.0);
    var grammars;
    grammars, heights', widths' := AddLeaves(g, heights, widths, coord, subs, height, width);
    NestedGridStoreSteps(g, coord, rows, cols, grammars);
    var parent := coord.outer;
    if parent in grammars {
      grammars := grammars[parent := grammars[parent].(kind := grammar.kind)];
    }
    g' := grammars[coord := grammar];
  }

  /** One iteration of `AddShifted`: member `k` adds its leaf and its pair. */
  lemma ShiftedStep(g: Store, parent: Coordinate, children: seq<RowCol>, order: seq<Coordinate>, k: Coordinate, d: Direction)
    requires forall m :: m in order ==> !m.IsTopLevel()
    requires !k.IsTopLevel()
    ensures (g + NewLeaves(parent, ShiftedPairs(order, d)))[parent.ChildOf(Shifted(k, d)) := Default()]
         == g + NewLeaves(parent, ShiftedPairs(order + [k], d))
    ensures children + ShiftedPairs(order, d) + [Shifted(k, d)] == children + ShiftedPairs(order + [k], d)
  {
    ShiftedPairsSnoc(order, k, d);
    NewLeavesSnoc(parent, ShiftedPairs(order, d), Shifted(k, d));
    UnionUpdate(g, NewLeaves(parent, ShiftedPairs(order, d)), parent.ChildOf(Shifted(k, d)), Default());
  }

  /** The loop of `InsertCol`/`InsertRow`: visit the members in some order, storing
      an empty cell at each member's next position along `d` and appending its pair. */
  method AddShifted(g: Store, parent: Coordinate, children: seq<RowCol>, members: set<Coordinate>, d: Direction)
    returns (grammars: Store, newSubs: seq<RowCol>, ghost order: seq<Coordinate>)
    requires forall k :: k in members ==> !k.IsTopLevel()
    ensures Enumerates(order, members)
    ensures newSubs == children + ShiftedPairs(order, d)
    ensures grammars == g + NewLeaves(parent, ShiftedPairs(order, d))
  {
    newSubs := children;
    grammars := g;
    order := [];
    var remaining := members;
    NewLeavesNone(g, parent);
    assert children + ShiftedPairs(order, d) == children;
    while remaining != {}
      invariant remaining <= members
      invariant Enumerates(order, members - remaining)
      invariant newSubs == children + ShiftedPairs(order, d)
      invariant grammars == g + NewLeaves(parent, ShiftedPairs(order, d))
      decreases |remaining|
    {
      var k :| k in remaining;
      var p := Shifted(k, d);
      ShiftedStep(g, parent, children, order, k, d);
      EnumeratesSnoc(order, members, remaining, k);
      grammars := grammars[parent.ChildOf(p) := Default()];
      newSubs := newSubs + [p];
      order := order + [k];
      remaining := remaining - {k};
    }
    assert members - remaining == members;
  }

  /** The store work of `InsertCol` (d = Right) and `InsertRow` (d = Below) with
      active cell `coord`: walk along `d` while the next cell is stored; take the
      frontier's column (or row); when `coord`'s parent is a grid, store an empty
      cell one step further along `d` from each member, visiting the members in
      some order `order` (the source's hash-map order), and append their pairs to
      the parent's child list, keeping its name and style. */
  method GrowAt(g: Store, coord: Coordinate, d: Direction) returns (g': Store, ghost order: seq<Coordinate>)
    requires !coord.IsTopLevel()
    ensures Enumerates(order, Members(g, Frontier(g, coord, d), d))
    ensures g' == InsertStore(g, coord, d, order)
  {
    var frontier := WalkToFrontier(g, coord, d);
    var members := Members(g, frontier, d);
    var parent := coord.outer;
    if parent in g && g[parent].kind.Grid? {
      var node := g[parent];
      var grammars, newSubs;
      grammars, newSubs, order := AddShifted(g, parent, node.kind.children, members, d);
      g' := grammars[parent := Grammar(node.name, node.style, Grid(newSubs))];
      InsertStoreGrid(g, coord, d, order);
    } else {
      order := SomeEnumeration(members);
      g' := g;
    }
  }

  class Model {
    var firstSelectCell: Option<Coordinate>
    var lastSelectCell: Option<Coordinate>
    var activeCell: Option<Coordinate>
    var colWidths: map<Col, real>
    var rowHeights: map<Row, real>
    var sessions: seq<Session>
    var currentSessionIndex: nat
    var openSideMenu: Option<int>

    /** The current session index points into the session list. */
    ghost predicate Valid()
      reads this`sessions, this`currentSessionIndex
    {
      currentSessionIndex < |sessions|
    }

    /** The session being edited (`get_session`). */
    function Current(): Session
      reads this`sessions, this`currentSessionIndex
      requires Valid()
    {
      sessions[currentSessionIndex]
    }

    /** The current session's store. */
    function Grammars(): Store
      reads this`sessions, this`currentSessionIndex
      requires Valid()
    {
      Current().grammars
    }

    /** The initial model of `create`: one session holding the initial document,
        root-A1 active, nothing selected, no side menu open. */
    constructor ()
      ensures Valid()
      ensures sessions == [Session("my session", RootGrammar(), MetaGrammar(), InitialGrammars())]
      ensures currentSessionIndex == 0
      ensures activeCell == Some(At(RootCoord, 1, 1))
      ensures firstSelectCell.None? && lastSelectCell.None? && openSideMenu.None?
      ensures colWidths == InitialColWidths() && rowHeights == InitialRowHeights()
      ensures GridConsistent(Grammars()) && ParentClosed(Grammars())
      ensures activeCell.value in Grammars()
    {
      firstSelectCell := None;
      lastSelectCell := None;
      activeCell := Some(At(RootCoord, 1, 1));
      colWidths := InitialColWidths();
      rowHeights := InitialRowHeights();
      sessions := [Session("my session", RootGrammar(), MetaGrammar(), InitialGrammars())];
      currentSessionIndex := 0;
      openSideMenu := None;
      InitialStoreConsistent();
    }

    /** The session list with the current session's store replaced by `g`. */
    function WithGrammars(g: Store): (s: seq<Session>)
      reads this`sessions, this`currentSessionIndex
      requires Valid()
      ensures |s| == |sessions|
      ensures s[currentSessionIndex] == Current().(grammars := g)
      ensures forall j :: 0 <= j < |s| && j != currentSessionIndex ==> s[j] == sessions[j]
    {
      sessions[currentSessionIndex := Current().(grammars := g)]
    }

    /** Replace the current session's store; the other sessions and the current
        session's title, root and meta are untouched. */
    method SetGrammars(g: Store)
      requires Valid()
      modifies this`sessions
      ensures Valid()
      ensures sessions == old(WithGrammars(g))
    {
      sessions := sessions[currentSessionIndex := Current().(grammars := g)];
    }

    /** Insert (or overwrite) one node of the current session's store. */
    method Insert(k: Coordinate, v: Grammar)
      requires Valid()
      modifies this`sessions
      ensures Valid()
      ensures sessions == old(WithGrammars(Grammars()[k := v]))
    {
      SetGrammars(Grammars()[k := v]);
    }

    /** `load_session`: the current session takes the root, meta and store of `s`
        and keeps its own title. Nothing about `s` is checked. */
    method LoadSession(s: Session)
      requires Valid()
      modifies this`sessions
      ensures Valid()
      ensures sessions == old(sessions)[currentSessionIndex :=
                old(Current()).(root := s.root, meta := s.meta, grammars := s.grammars)]
      ensures Current().title == old(Current()).title
    {
      sessions := sessions[currentSessionIndex := Current().(root := s.root)];
      sessions := sessions[currentSessionIndex := Current().(meta := s.meta)];
      sessions := sessions[currentSessionIndex := Current().(grammars := s.grammars)];
    }

    /** `ChangeInput(c, v)`: the text of an input, or the query of a lookup, at `c`
        becomes `v`; any other node, or a missing one, is left alone. */
    method ChangeInput(c: Coordinate, v: string) returns (render: bool)
      requires Valid()
      modifies this`sessions
      ensures Valid()
      ensures sessions == old(WithGrammars(ChangeInputStore(Grammars(), c, v)))
      ensures GridConsistent(old(Grammars())) ==> GridConsistent(Grammars())
      ensures !render
    {
      if c in Grammars() {
        var g := Grammars()[c];
        match g.kind {
          case Input(_) =>
            Insert(c, g.(kind := Input(v)));
          case Lookup(_, target) =>
            Insert(c, g.(kind := Kind.Lookup(v, target)));
          case _ =>
        }
      }
      if GridConsistent(old(Grammars())) {
        ChangeInputKeepsConsistency(old(Grammars()), c, v);
      }
      render := false;
    }

    /** `SetActiveCell(c)`: `c` becomes the active cell and the first selected cell,
        and the selection's last cell is cleared. */
    method SetActiveCell(c: Coordinate) returns (render: bool)
      modifies this`firstSelectCell, this`lastSelectCell, this`activeCell
      ensures firstSelectCell == Some(c) && lastSelectCell.None? && activeCell == Some(c)
      ensures render
    {
      firstSelectCell := Some(c);
      lastSelectCell := None;
      activeCell := Some(c);
      render := true;
    }

    /** `SetSelectedCells(c)`: `c` becomes the selection's last cell. */
    method SetSelectedCells(c: Coordinate) returns (render: bool)
      modifies this`lastSelectCell
      ensures lastSelectCell == Some(c)
      ensures render
    {
      lastSelectCell := Some(c);
      render := true;
    }

    /** `SetActiveMenu(m)`: the open side menu becomes `m`. */
    method SetActiveMenu(m: Option<int>) returns (render: bool)
      modifies this`openSideMenu
      ensures openSideMenu == m
      ensures render
    {
      openSideMenu := m;
      render := true;
    }

    /** `SetSessionTitle(t)`: the current session is renamed; its content is kept. */
    method SetSessionTitle(t: string) returns (render: bool)
      requires Valid()
      modifies this`sessions
      ensures Valid()
      ensures sessions == old(sessions)[currentSessionIndex := old(Current()).(title := t)]
      ensures render
    {
      sessions := sessions[currentSessionIndex := Current().(title := t)];
      render := true;
    }

    /** `resize(coord, height, width)` (assumed): the row of `coord` gets `height` and
        its column gets `width`. The utility module that defines it is not part of
        this model. */
    method Resize(coord: Coordinate, height: real, width: real)
      requires !coord.IsTopLevel()
      modifies this`rowHeights, this`colWidths
      ensures rowHeights == old(rowHeights)[coord.FullRow() := height]
      ensures colWidths == old(colWidths)[coord.FullCol() := width]
    {
      rowHeights := rowHeights[coord.FullRow() := height];
      colWidths := colWidths[coord.FullCol() := width];
    }

    /** `DoCompletion(src, dst)`: the node at `src` moves to `dst` (assumed
        `move_grammar`), then `dst`'s row and column are resized to the sizes they
        already have. Both sizes must exist: the source unwraps them. */
    method DoCompletion(src: Coordinate, dst: Coordinate) returns (render: bool)
      requires Valid()
      requires !dst.IsTopLevel() && dst.FullRow() in rowHeights && dst.FullCol() in colWidths
      modifies this`sessions, this`rowHeights, this`colWidths
      ensures Valid()
      ensures sessions == old(WithGrammars(MoveGrammar(Grammars(), src, dst)))
      ensures rowHeights == old(rowHeights) && colWidths == old(colWidths)
      ensures render
    {
      SetGrammars(MoveGrammar(Grammars(), src, dst));
      var height := rowHeights[dst.FullRow()];
      var width := colWidths[dst.FullCol()];
      Resize(dst, height, width);
      render := true;
    }

    /** `Lookup(src, target)`: a cell target takes the node at `src` (assumed
        `move_grammar`); any other target changes nothing. */
    method ApplyLookup(src: Coordinate, target: LookupTarget) returns (render: bool)
      requires Valid()
      modifies this`sessions
      ensures Valid()
      ensures target.Cell? ==> sessions == old(WithGrammars(MoveGrammar(Grammars(), src, target.dest)))
      ensures !target.Cell? ==> sessions == old(sessions)
      ensures !render
    {
      match target {
        case Cell(dest) =>
          SetGrammars(MoveGrammar(Grammars(), src, dest));
        case _ =>
      }
      render := false;
    }

    /** `ToggleLookup(c)`: an input at `c` becomes an empty lookup with no target, a
        lookup becomes an empty input; any other node, or a missing one, is left alone. */
    method ToggleLookup(c: Coordinate) returns (render: bool)
      requires Valid()
      modifies this`sessions
      ensures Valid()
      ensures sessions == old(WithGrammars(ToggleStore(Grammars(), c)))
      ensures GridConsistent(old(Grammars())) ==> GridConsistent(Grammars())
      ensures render
    {
      if c in Grammars() {
        var g := Grammars()[c];
        match g.kind {
          case Input(_) =>
            Insert(c, g.(kind := Kind.Lookup("", None)));
          case Lookup(_, _) =>
            Insert(c, g.(kind := Input("")));
          case _ =>
        }
      }
      if GridConsistent(old(Grammars())) {
        ToggleKeepsConsistency(old(Grammars()), c);
      }
      render := true;
    }

    /** `AddNestedGrid(coord, (rows, cols))`: `coord` becomes a rows x cols grid of
        empty cells, the grid's first cell becomes active, every row and column of
        the new grid without a size gets one (a third of `coord`'s own size when
        that exceeds the default), the parent's kind (when the parent is stored)
        becomes the new grid's kind, and `coord`'s own row and column are resized to
        fit. The source indexes `coord`'s sizes, so both must exist. */
    method AddNestedGrid(coord: Coordinate, rows: Pos, cols: Pos) returns (render: bool)
      requires Valid()
      requires !coord.IsTopLevel() && coord.FullRow() in rowHeights && coord.FullCol() in colWidths
      modifies this`sessions, this`activeCell, this`rowHeights, this`colWidths
      ensures Valid()
      ensures sessions == old(WithGrammars(NestedGridStore(Grammars(), coord, rows, cols)))
      ensures activeCell == Some(coord.ChildOf(RowCol(1, 1)))
      ensures rowHeights == FillAbsent(old(rowHeights), ChildRows(coord, AsGrid(rows, cols).kind.children),
                                       SplitSize(old(rowHeights)[coord.FullRow()], 30.0))
                            [coord.FullRow() := Extent(rows, 30.0)]
      ensures colWidths == FillAbsent(old(colWidths), ChildCols(coord, AsGrid(rows, cols).kind.children),
                                      SplitSize(old(colWidths)[coord.FullCol()], 90.0))
                           [coord.FullCol() := Extent(cols, 90.0)]
      ensures render
    {
      var grammars, heights, widths := NestGrid(Grammars(), rowHeights, colWidths, coord, rows, cols);
      rowHeights, colWidths := heights, widths;
      Resize(coord, Extent(rows, 30.0), Extent(cols, 90.0));
      SetGrammars(grammars);
      activeCell := Some(coord.ChildOf(AsGrid(rows, cols).kind.children[0]));
      render := true;
    }

    /** `InsertCol` (d = Right) and `InsertRow` (d = Below) on the model: with an
        active cell, the current store grows as `GrowAt` says; with none, nothing
        changes. A top-level active cell makes the source panic. */
    method Grow(d: Direction) returns (ghost order: seq<Coordinate>)
      requires Valid()
      requires activeCell.None? || !activeCell.value.IsTopLevel()
      modifies this`sessions
      ensures Valid()
      ensures activeCell.None? ==> sessions == old(sessions)
      ensures activeCell.Some? ==>
                && Enumerates(order, Members(old(Grammars()), Frontier(old(Grammars()), activeCell.value, d), d))
                && sessions == old(WithGrammars(InsertStore(Grammars(), activeCell.value, d, order)))
      ensures GridConsistent(old(Grammars())) ==> GridConsistent(Grammars())
    {
      order := [];
      if activeCell.Some? {
        var g := Grammars();
        var grammars;
        grammars, order := GrowAt(g, activeCell.value, d);
        SetGrammars(grammars);
        if GridConsistent(g) {
          InsertKeepsConsistency(g, activeCell.value, d, order);
        }
      }
    }

    /** What `update` needs of the model for `a`: the panics of the source become
        preconditions. */
    ghost predicate CanUpdate(a: Action)
      reads this
    {
      && Valid()
      && (a.DoCompletion? ==>
            !a.destination.IsTopLevel() && a.destination.FullRow() in rowHeights && a.destination.FullCol() in colWidths)
      && (a.AddNestedGrid? ==>
            !a.coord.IsTopLevel() && a.coord.FullRow() in rowHeights && a.coord.FullCol() in colWidths)
      && (a.InsertRow? || a.InsertCol? ==> activeCell.None? || !activeCell.value.IsTopLevel())
    }

    /** `update`: dispatch `a` to its branch and report whether the view must be
        redrawn. `Noop` and the three definition messages change nothing. */
    method Update(a: Action) returns (render: bool)
      requires CanUpdate(a)
      modifies this`sessions, this`activeCell, this`firstSelectCell, this`lastSelectCell,
               this`rowHeights, this`colWidths, this`openSideMenu
      ensures Valid()
      ensures render <==> !(a.Noop? || a.ChangeInput? || a.Lookup? || a.DefnUpdateName? || a.DefnUpdateRule? || a.DefnAddRule?)
      ensures a.Noop? || a.DefnUpdateName? || a.DefnUpdateRule? || a.DefnAddRule? ==>
                && sessions == old(sessions) && activeCell == old(activeCell)
                && firstSelectCell == old(firstSelectCell) && lastSelectCell == old(lastSelectCell)
                && rowHeights == old(rowHeights) && colWidths == old(colWidths)
                && openSideMenu == old(openSideMenu)
      ensures (a.ChangeInput? || a.ToggleLookup? || a.InsertRow? || a.InsertCol?) ==>
                (GridConsistent(old(Grammars())) ==> GridConsistent(Grammars()))
    {
      match a {
        case Noop =>
          render := false;
        case ChangeInput(c, v) =>
          render := ChangeInput(c, v);
        case SetActiveCell(c) =>
          render := SetActiveCell(c);
        case DoCompletion(src, dst) =>
          render := DoCompletion(src, dst);
        case SetActiveMenu(m) =>
          render := SetActiveMenu(m);
        case LoadSession(s) =>
          LoadSession(s);
          render := true;
        case SetSessionTitle(t) =>
          render := SetSessionTitle(t);
        case AddNestedGrid(coord, rows, cols) =>
          render := AddNestedGrid(coord, rows, cols);
        case InsertRow =>
          ghost var order := Grow(Below);
          render := true;
        case InsertCol =>
          ghost var order := Grow(Right);
          render := true;
        case SetSelectedCells(c) =>
          render := SetSelectedCells(c);
        case Lookup(src, target) =>
          render := ApplyLookup(src, target);
        case ToggleLookup(c) =>
          render := ToggleLookup(c);
        case DefnUpdateName(_, _) =>
          render := false;
        case DefnUpdateRule(_, _) =>
          render := false;
        case DefnAddRule(_) =>
          render := false;
      }
    }
  }
}
