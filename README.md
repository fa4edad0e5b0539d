# ISE editor model in Dafny

This project models the state machine at the heart of the ISE structured editor
(`src/model.rs`). A document is a tree of *grammars* (nodes). Each node is addressed
by a *coordinate*: a path of (row, column) steps from one of the two top-level nodes,
`root` and `meta`. A grid node lists the (row, column) pairs of its children. A
*session* holds a title, copies of the root and meta nodes, and a flat map from
address to node (the store). The model keeps:

- the list of sessions and the index of the current one;
- the active cell and the two ends of the selection;
- the open side menu;
- the row-height and column-width tables, keyed by a grid address and a row or
  column index.

The reducer `update` changes all of these in reaction to an `Action`.

Of the Dafny modules below, the first three stand for the repository's coordinate,
grammar and session modules. The other five split the single file `src/model.rs`
by concern:

- `Coordinates`, `Grammars`, `Sessions`: the addresses, nodes and sessions that the
  reducer reads and writes. Their defining modules in the repository are not part of
  this model, so only the operations the reducer calls are given, as assumed
  versions.
- `Queries`: `query_parent`, `query_col` and `query_row`, as sets of stored
  addresses.
- `CellEdits`: what `ChangeInput`, `ToggleLookup` and the relocation `move_grammar`
  do to the store, as functions with their laws.
- `Structure`: the frontier walk and the one-column or one-row growth of `InsertCol`
  and `InsertRow`, the grid creation of `AddNestedGrid`, and the dimension
  arithmetic. Each is a specification function with lemmas.
- `Initial`: the document that `create` builds, its consistency, and worked
  consequences of editing it.
- `Editor`: the `Model` class, with one method per reducer branch and `Update`
  dispatching to them. The loops of the source are methods whose loop invariants
  tie them to the specification functions.

Hash-map iteration order matters to `InsertCol`/`InsertRow`, because it is the
order in which new pairs are appended. It is modelled as a ghost sequence `order`
that enumerates the visited set. Every contract holds for every such order.

Two behaviours of the code follow from the proofs:

- After `AddNestedGrid` at a cell whose parent is stored, the parent's kind becomes
  the new grid's kind: a copy of the child list of the new grid. That list can name
  cells that are not stored under the parent. `Initial.NestedGridMirrorBreaksParent`
  shows a 3 x 3 grid nested at root-A1 of the initial document. After it, the root
  grid lists (1,3) while root-C1 does not exist. `Structure.NestedGridConsistentOffParent`
  proves that every other grid stays consistent.
- `InsertCol` and `InsertRow` rewrite the grid node in the store, but never the
  session's separate `root` and `meta` copies. `Initial.InsertColumnLeavesRootFieldBehind`
  shows the two drifting apart.

Two layouts follow the code:

- `Grammar::as_grid` lists children column by column: (1,1), (2,1), ..., (r,1),
  (1,2), and so on. This order is read off the grid literals at
  `src/model.rs:191` and `src/model.rs:253`.
- `load_session` (`src/model.rs:123-127`) copies the loaded session's root, meta and
  store into the current session without checking them.

## Model

| member | source | states |
|---|---|---|
| `Queries.QueryParent` | src/model.rs:129-142 | a key is returned exactly when it is stored and its parent is the given address; each such key is one step deeper |
| `Queries.QueryCol` | src/model.rs:144-161 | a key is returned exactly when it is stored, is not top-level and lies in the given column; each is the cell of that grid at its own row and that column |
| `Queries.QueryRow` | src/model.rs:163-180 | a key is returned exactly when it is stored, is not top-level and lies in the given row; each is the cell of that grid at that row and its own column |
| `Queries.LinesWithinParent` | src/model.rs:144-180 | every cell of a grid's column or row is among the children `query_parent` finds for that grid |
| `Queries.RowMeetsColumn` | src/model.rs:144-180 | row i and column j of a grid share exactly the cell (i, j) when it is stored, and nothing otherwise |
| `Queries.GridChildrenFound` | src/model.rs:129-142 | in a consistent store, the children a grid lists are among those `query_parent` finds |
| `CellEdits.EditedKind` | src/model.rs:305-323 | only inputs and lookups are edited; each keeps its kind and takes the new text; a lookup keeps its target |
| `CellEdits.ChangeInputStore` | src/model.rs:305-326 | same addresses; only the edited cell changes, and only its kind (name and style kept); a missing or non-text cell leaves the store as it was |
| `CellEdits.ChangeInputLastWins` | src/model.rs:305-326 | editing a cell twice equals editing it once with the second value |
| `CellEdits.ChangeInputKeepsConsistency` | src/model.rs:305-326 | editing keeps grid/child consistency and parent closure |
| `CellEdits.ToggledKind` | src/model.rs:656-677 | only inputs and lookups toggle; an input becomes a lookup with no target, a lookup becomes an input; both come back with empty text |
| `CellEdits.ToggleStore` | src/model.rs:656-679 | same addresses; only the toggled cell's kind changes (name and style kept); a missing or non-text cell leaves the store as it was |
| `CellEdits.ToggleTwiceResetsText` | src/model.rs:656-679 | toggling twice restores the kind with empty text |
| `CellEdits.ToggleTwiceNotIdentity` | src/model.rs:656-679 | a store in which toggling twice loses text, so toggling twice is not the identity |
| `CellEdits.ToggleKeepsConsistency` | src/model.rs:656-679 | toggling keeps grid/child consistency and parent closure |
| `CellEdits.MoveGrammar` | src/model.rs:341-345 | with the source stored: the destination holds the source's node, the source address is gone, all other entries are kept; with the source missing: no change |
| `CellEdits.MoveGrammarRoundTrip` | src/model.rs:642-650 | moving a node to a free address and back restores the store |
| `Grammars.GridPairsAt` | src/model.rs:191 | column-major layout: cell (i+1, j+1) of an r x c grid sits at position j*r + i of its child list |
| `Grammars.GridPairsCover` | src/model.rs:496-497 | a pair is listed by an r x c grid exactly when its row is at most r and its column at most c |
| `Grammars.AsGrid` | src/model.rs:496-498 | the new grid has rows * cols children, and its first child is (1,1) |
| `Structure.Frontier` | src/model.rs:553-560 | the walk stops at a cell of the same grid and line, at or past the start; every cell between is stored; its own next neighbour is not |
| `Structure.StepShrinksAhead` | src/model.rs:554-556 | each step of the walk strictly shrinks the set of stored cells ahead, so the walk ends |
| `Structure.FrontierUnique` | src/model.rs:553-560 | any stopping cell satisfying the walk's conditions is the frontier |
| `Structure.WalkToFrontier` | src/model.rs:599-606 | the source's `while let` walk returns the frontier |
| `Structure.Members` | src/model.rs:562 | the frontier's column (or row) is exactly the stored cells of its grid at its index along the direction |
| `Structure.Shifted` | src/model.rs:563-565 | a member's new pair addresses its next neighbour along the direction |
| `Structure.ShiftedPairs` | src/model.rs:609-611 | one new pair per visited member, in visiting order |
| `Structure.ShiftedPairsSnoc` | src/model.rs:622-628 | visiting one more member appends its pair |
| `Structure.GrowStore` | src/model.rs:574-591 | the addresses gain the new children, each an empty cell; the parent lists its old children followed by the new pairs and keeps its name and style; everything else is kept |
| `Structure.InsertStoreGrid` | src/model.rs:614-637 | when the active cell's parent is a grid, the insertion is the leaves plus the parent rewritten with the extended list |
| `Structure.ShiftedPairsDistinct` | src/model.rs:576-582 | distinct members of one grid give distinct new pairs |
| `Structure.ShiftedPairsCover` | src/model.rs:576-582 | the new pairs are exactly the shifted pairs of the members, whatever the order |
| `Structure.ShiftedChildrenAreNeighbours` | src/model.rs:622-628 | the new children are exactly the members' next neighbours |
| `Structure.ShiftedChildrenAreNeighboursOf` | src/model.rs:622-628 | every new child is some member's next neighbour |
| `Structure.NeighboursAreShiftedChildren` | src/model.rs:622-628 | every member's next neighbour is a new child |
| `Structure.MembersShareParent` | src/model.rs:562-567 | the frontier line's members are cells of the active cell's grid |
| `Structure.InsertAddsNeighbours` | src/model.rs:550-595 | for every order, the new children are the neighbours of the frontier's column or row, and the appended pairs list each shifted pair exactly once |
| `Structure.GrowKeepsConsistency` | src/model.rs:574-591 | growing a grid keeps grid/child consistency and parent closure |
| `Structure.InsertKeepsConsistency` | src/model.rs:550-641 | `InsertCol` and `InsertRow` keep grid/child consistency and parent closure |
| `Structure.NestedGridStoreSpec` | src/model.rs:516-541 | after nesting: the addresses are the old ones plus the grid and its children; the grid is at its address and each child is an empty cell; a stored parent has the grid's kind with its own name and style; every other address is unchanged |
| `Structure.NestedGridKeys` | src/model.rs:516-541 | the addresses after nesting are the old ones, the grid and its children |
| `Structure.NestedGridCells` | src/model.rs:516-541 | the grid is at its address and each child holds an empty cell |
| `Structure.NestedGridParent` | src/model.rs:534-538 | a stored parent takes the grid's kind and keeps its name and style |
| `Structure.NestedGridFrame` | src/model.rs:516-541 | every address other than the grid, its parent and its children is unchanged |
| `Structure.MirrorParent` | src/model.rs:534-538 | only a stored parent's kind changes; its name, its style and the addresses are kept |
| `Structure.NestedGridStoreSteps` | src/model.rs:516-541 | the nested store is the leaves, then the mirrored parent, then the grid, in the source's order |
| `Structure.NestedGridConsistentOffParent` | src/model.rs:534-541 | after nesting, every grid except the parent lists only stored children |
| `Structure.NestedGridKeepsParentClosed` | src/model.rs:516-541 | nesting keeps parent closure when the grid's own parent is stored |
| `Structure.FillAbsent` | src/model.rs:522-531 | each absent key is added with the value; existing entries are never overwritten |
| `Structure.FillAbsentNone` | src/model.rs:516-532 | filling no keys changes nothing |
| `Structure.FillAbsentAddOne` | src/model.rs:522-531 | filling one more key changes the table only when that key is absent |
| `Structure.ChildRows` | src/model.rs:522-524 | the row keys of the new children belong to the new grid |
| `Structure.ChildCols` | src/model.rs:527-529 | the column keys of the new children belong to the new grid |
| `Structure.NestedGridDimensionKeys` | src/model.rs:516-531 | the filled keys are rows 1..rows and columns 1..cols of the new grid, never the grid's own row or column |
| `Structure.SplitSizeFitsOnlyThree` | src/model.rs:505-514 | when the cell exceeds the default, n new rows (or columns) of the split size add up to the cell's size exactly when n is 3: the divisor is fixed, whatever the grid's size |
| `Structure.TwoRowsFallShort` | src/model.rs:510-513 | a 2-row grid nested in a cell 90 high gets rows of 30: together 60, not 90 |
| `Initial.InitialGridNodes` | src/model.rs:227-259 | the only grids in the initial store are root, meta and meta-A3-B1 |
| `Initial.InitialChildrenStored` | src/model.rs:227-259 | every child listed by the three initial grids is stored |
| `Initial.InitialGridLookups` | src/model.rs:223-259 | the store holds the same root and meta nodes as the session's root and meta copies, and the template grid |
| `Initial.InitialGridConsistent` | src/model.rs:227-259 | the initial store is grid/child consistent |
| `Initial.InitialParentClosed` | src/model.rs:227-259 | every initial cell's parent is stored |
| `Initial.InitialStoreConsistent` | src/model.rs:187-262 | the initial store is consistent, parent closed, its root and meta nodes match the copies, and the active cell root-A1 is stored |
| `Initial.RootCellNotMeta` | src/model.rs:235-258 | no meta-side entry is a cell of the root grid |
| `Initial.InitialRootCells` | src/model.rs:228-234 | the stored root cells are rows 1-3 of columns A and B |
| `Initial.InitialRootGridSized` | src/model.rs:200-234 | every initial root cell has a row height and a column width |
| `Initial.InitialRootStored` | src/model.rs:229-234 | the six root cells are stored |
| `Initial.InitialHasInitialRoot` | src/model.rs:227-234 | the initial store has the initial root part |
| `Initial.FrontierRightFromA1` | src/model.rs:553-560 | from root-A1 the walk to the right stops at root-B1 |
| `Initial.ColumnBCell` | src/model.rs:562 | a stored cell of root column B is B1, B2 or B3 |
| `Initial.ColumnB` | src/model.rs:562 | `query_col` of root column B is {B1, B2, B3} |
| `Initial.ColumnBShifted` | src/model.rs:563-565 | column B shifted right is the pairs (1,3), (2,3), (3,3) |
| `Initial.InsertColumnFromA1Grows` | src/model.rs:567-591 | with root-A1 active, `InsertCol` grows the root grid |
| `Initial.InsertColumnFromA1Pairs` | src/model.rs:576-582 | with root-A1 active, the appended pairs are column 3, each exactly once |
| `Initial.InsertColumnFromA1` | src/model.rs:550-595 | with root-A1 active: frontier B1, column {B1, B2, B3}, root list = its six pairs + column 3 in visiting order, C1..C3 empty cells |
| `Initial.NestedGridMissesC1` | src/model.rs:516-541 | root-C1 is neither stored nor a child of a grid nested at root-A1 |
| `Initial.NestedGridMirrorBreaksParent` | src/model.rs:534-538 | nesting 3 x 3 at root-A1 makes the root grid list (1,3) while root-C1 is missing, so the store is not consistent |
| `Initial.InsertColumnLeavesRootFieldBehind` | src/model.rs:583-591 | after `InsertCol` from root-A1 the stored root node differs from `create`'s root, which the session's root copy still holds |
| `Editor.LeavesUpToAll` | src/model.rs:516-520 | inserting the empty cells one at a time adds them all |
| `Editor.RowsUpToFill` | src/model.rs:522-526 | sizing rows one at a time fills every absent child row |
| `Editor.ColsUpToFill` | src/model.rs:527-531 | sizing columns one at a time fills every absent child column |
| `Editor.AddLeaves` | src/model.rs:516-532 | the loop stores an empty cell at each child and fills the absent row and column sizes, never overwriting one |
| `Editor.NestGrid` | src/model.rs:493-541 | the new store is the nested store; the size tables are filled with the split sizes |
| `Editor.ShiftedStep` | src/model.rs:622-628 | one iteration adds its leaf and appends its pair |
| `Editor.AddShifted` | src/model.rs:620-628 | the loop visits the members in some order, listing each exactly once; it stores their shifted leaves and appends their pairs in that order |
| `Editor.GrowAt` | src/model.rs:596-638 | the insertion's store is `InsertStore` for an enumeration of the frontier line's members |
| `Editor.Model.constructor` | src/model.rs:187-291 | one session "my session" holding the initial document, root-A1 active, empty selection, no open menu, the initial size tables; the store is consistent and holds the active cell |
| `Editor.Model.WithGrammars` | src/model.rs:113-115 | only the current session's store is replaced; every other session is kept |
| `Editor.Model.SetGrammars` | src/model.rs:591 | the current session's store is replaced; the index stays valid |
| `Editor.Model.Insert` | src/model.rs:313-320 | one entry of the current store is inserted or overwritten |
| `Editor.Model.LoadSession` | src/model.rs:123-127 | the current session takes the loaded root, meta and store and keeps its title |
| `Editor.Model.ChangeInput` | src/model.rs:305-326 | the current store becomes `ChangeInputStore`, consistency is kept, and no redraw |
| `Editor.Model.SetActiveCell` | src/model.rs:328-333 | active and first selected cell set, last selected cleared, redraw |
| `Editor.Model.SetSelectedCells` | src/model.rs:335-338 | last selected cell set, redraw |
| `Editor.Model.SetActiveMenu` | src/model.rs:352-355 | the open side menu is replaced, redraw |
| `Editor.Model.SetSessionTitle` | src/model.rs:390-393 | only the current session's title changes, redraw |
| `Editor.Model.Resize` | src/model.rs:542-547 | the cell's row height and column width are overwritten |
| `Editor.Model.DoCompletion` | src/model.rs:340-350 | the node moves to the destination; the size tables end as they began; redraw |
| `Editor.Model.ApplyLookup` | src/model.rs:642-654 | a cell target moves the node; any other target changes nothing; no redraw |
| `Editor.Model.ToggleLookup` | src/model.rs:656-679 | the current store becomes `ToggleStore`, consistency is kept, and redraw |
| `Editor.Model.AddNestedGrid` | src/model.rs:491-549 | store per `NestedGridStore`; active cell is the grid's (1,1); absent child sizes filled with the split sizes; the cell's own row and column resized to `rows as real * 30.0` and `cols as real * 90.0`; redraw |
| `Editor.Model.Grow` | src/model.rs:550-641 | with an active cell the store becomes `InsertStore` for some enumeration of the frontier line; with none nothing changes; consistency is kept |
| `Editor.Model.Update` | src/model.rs:295-688 | the redraw flag of every branch; `Noop` and the definition messages change nothing; the text and structure edits keep consistency |

## Left out

- `Editor.Model.Update`: states the redraw flag of every branch, that `Noop` and the definition messages change nothing, and that the editing branches keep consistency. The full effect of each other branch is stated by the branch method it calls, not repeated in `Update`.
- `Editor.Model.Grow`, `Editor.Model.AddNestedGrid`, `Editor.Model.DoCompletion`: these panic cases are preconditions here, not modelled error paths:
  - `Grow`: the source panics on a top-level active cell (`parent().unwrap()`).
  - `AddNestedGrid` and `DoCompletion`: the source panics on a missing row or column size (index or `unwrap`). These two also require a non-top-level target, because the assumed `full_row`/`full_col` are defined only for non-top-level addresses.
- The view (`view`, src/model.rs:690-711) and the view helpers it calls.
- File, driver, console and IPC messages: `Alert`, `ReadSession`, `SaveSession` (commented out in the source), `ReadDriverFiles`, `UploadDriverMiscFile` and `LoadDriverMainFile`. They only do I/O. The `info!` logging in `ChangeInput` (src/model.rs:312, 319) and `ToggleLookup` (src/model.rs:675) is left out too.
- JSON decoding of the `LoadSession` payload: the action carries the session already decoded.
- The framework fields `view_root`, `suggestions`, `select_grammar`, `side_menus`, `link`, `console`, `reader`, `tasks` and `focus_node_ref`. No modelled branch reads or writes them.
- Sizes are exact reals: `f64` rounding in the split (`/ 3.0`) and in `rows as f64 * 30.0` is not modelled. `Structure.SplitSize` (src/model.rs:501-514) and `Structure.Extent` (src/model.rs:542-547) are plain value helpers for those two computations.
- Indices are unbounded positive integers. The `u32` bound of `NonZeroU32`, and what `non_zero_u32_tuple` does at zero, are not modelled: rows and columns are positive by type.
- The coordinate, grammar, session and utility modules are not part of this model. `parent`, `child_of`, `full_row`, `full_col`, `neighbor_right`, `neighbor_below`, `Grammar::default`, `Grammar::text`, `Grammar::as_grid`, `move_grammar` and `resize` are assumed versions, written as their names and uses in the reducer say. `Grammar::default` is taken to be an empty input.
- The hash-map iteration order is unspecified, so it is a ghost enumeration. The contracts hold for every order but do not pick the one a given run uses.
- Rust's in-place writes into the session's store inside the loops are accumulated in local maps and stored once. The final state is the same, but intermediate aliasing is not modelled.
- `Structure.NestedGridStore` and `Structure.InsertStore` have no `ensures` of their own. What they hold is stated by `Structure.NestedGridStoreSpec`, `Structure.InsertStoreGrid` and the lemmas listed above.
- The `Defn` branches (`DefnUpdateName`, `DefnUpdateRule`, `DefnAddRule`) have no effect in the source, and none here.
