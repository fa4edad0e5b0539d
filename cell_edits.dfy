/** What the single-cell branches of the reducer do to the store: `ChangeInput`,
    `ToggleLookup`, and the relocation `move_grammar` used by `DoCompletion` and
    `Lookup`. The utility module that defines `move_grammar` is not part of this
    model; `MoveGrammar` is an ASSUMED version: remove at the source, insert at the
    destination, nothing when the source is absent. */
module CellEdits {
  import opened Wrappers
  import opened Coordinates
  import opened Grammars
  import opened Sessions

  /** The kind `ChangeInput` gives a node: an input takes the new value, a lookup
      takes the new query and keeps its target; other kinds are not edited. */
  function EditedKind(k: Kind, v: string): (r: Option<Kind>)
    ensures r.Some? <==> k.Input? || k.Lookup?
    ensures r.Some? ==> r.value.Input? == k.Input? && r.value.Lookup? == k.Lookup? && TextOf(r.value) == v
    ensures k.Lookup? ==> r.value.target == k.target
  {
    match k
    case Input(_) => Some(Input(v))
    case Lookup(_, target) => Some(Lookup(v, target))
    case _ => None
  }

  /** The store after `ChangeInput(c, v)`. */
  function ChangeInputStore(g: Store, c: Coordinate, v: string): (r: Store)
    ensures r.Keys == g.Keys
    ensures forall k :: k in g && k != c ==> r[k] == g[k]
    ensures c in g ==> r[c].name == g[c].name && r[c].style == g[c].style
    ensures c in g && EditedKind(g[c].kind, v).Some? ==> r[c].kind == EditedKind(g[c].kind, v).value
    ensures c !in g || EditedKind(g[c].kind, v).None? ==> r == g
  {
    if c in g && EditedKind(g[c].kind, v).Some? then
      g[c := g[c].(kind := EditedKind(g[c].kind, v).value)]
    else
      g
  }

  /** Editing the same cell twice leaves only the second edit. */
  lemma ChangeInputLastWins(g: Store, c: Coordinate, v1: string, v2: string)
    ensures ChangeInputStore(ChangeInputStore(g, c, v1), c, v2) == ChangeInputStore(g, c, v2)
  {
  }

  /** Editing text never changes which nodes are grids nor what they list, so a
      consistent store stays consistent. */
  lemma {:induction false} ChangeInputKeepsConsistency(g: Store, c: Coordinate, v: string)
    requires GridConsistent(g)
    ensures GridConsistent(ChangeInputStore(g, c, v))
    ensures ParentClosed(g) ==> ParentClosed(ChangeInputStore(g, c, v))
  {
    var r := ChangeInputStore(g, c, v);
    forall k, p | k in r && r[k].kind.Grid? && p in r[k].kind.children
      ensures k.ChildOf(p) in r
    {
      assert r[k] == g[k];
    }
  }

  /** The kind `ToggleLookup` gives a node: an input becomes an empty lookup with
      no target, a lookup becomes an empty input; other kinds are not toggled. */
  function ToggledKind(k: Kind): (r: Option<Kind>)
    ensures r.Some? <==> k.Input? || k.Lookup?
    ensures r.Some? ==> r.value.Lookup? == k.Input? && r.value.Input? == k.Lookup? && TextOf(r.value) == ""
    ensures r.Some? && r.value.Lookup? ==> r.value.target.None?
  {
    match k
    case Input(_) => Some(Lookup("", None))
    case Lookup(_, _) => Some(Input(""))
    case _ => None
  }

  /** The store after `ToggleLookup(c)`. */
  function ToggleStore(g: Store, c: Coordinate): (r: Store)
    ensures r.Keys == g.Keys
    ensures forall k :: k in g && k != c ==> r[k] == g[k]
    ensures c in g ==> r[c].name == g[c].name && r[c].style == g[c].style
    ensures c in g && ToggledKind(g[c].kind).Some? ==> r[c].kind == ToggledKind(g[c].kind).value
    ensures c !in g || ToggledKind(g[c].kind).None? ==> r == g
  {
    if c in g && ToggledKind(g[c].kind).Some? then
      g[c := g[c].(kind := ToggledKind(g[c].kind).value)]
    else
      g
  }

  /** Toggling twice keeps the kind but not the text: the node comes back empty. */
  lemma ToggleTwiceResetsText(g: Store, c: Coordinate)
    requires c in g && (g[c].kind.Input? || g[c].kind.Lookup?)
    ensures ToggleStore(ToggleStore(g, c), c)
         == g[c := g[c].(kind := if g[c].kind.Input? then Input("") else Lookup("", None))]
  {
  }

  /** So toggling twice is not the identity: a non-empty input loses its text. */
  lemma ToggleTwiceNotIdentity(c: Coordinate)
    ensures var g := map[c := Text("", "x")]; ToggleStore(ToggleStore(g, c), c) != g
  {
    var g := map[c := Text("", "x")];
    ToggleTwiceResetsText(g, c);
    assert ToggleStore(ToggleStore(g, c), c)[c].kind == Input("");
  }

  /** Toggling never creates or removes a grid, so a consistent store stays consistent. */
  lemma {:induction false} ToggleKeepsConsistency(g: Store, c: Coordinate)
    requires GridConsistent(g)
    ensures GridConsistent(ToggleStore(g, c))
    ensures ParentClosed(g) ==> ParentClosed(ToggleStore(g, c))
  {
    var r := ToggleStore(g, c);
    forall k, p | k in r && r[k].kind.Grid? && p in r[k].kind.children
      ensures k.ChildOf(p) in r
    {
      assert r[k] == g[k];
    }
  }

  /** `move_grammar(src, dst)` (assumed): the node at `src` is moved, unchanged, to
      `dst`, replacing what was there; nothing happens when `src` is not stored. */
  function MoveGrammar(g: Store, src: Coordinate, dst: Coordinate): (r: Store)
    ensures src !in g ==> r == g
    ensures src in g ==> r.Keys == g.Keys - {src} + {dst} && r[dst] == g[src]
    ensures src in g && src != dst ==> src !in r
    ensures forall k :: k in g && k != src && k != dst ==> k in r && r[k] == g[k]
  {
    if src in g then (g - {src})[dst := g[src]] else g
  }

  /** Moving a node to a free address and back restores the store. */
  lemma MoveGrammarRoundTrip(g: Store, src: Coordinate, dst: Coordinate)
    requires src in g && dst !in g
    ensures MoveGrammar(MoveGrammar(g, src, dst), dst, src) == g
  {
    var r := MoveGrammar(MoveGrammar(g, src, dst), dst, src);
    assert r.Keys == g.Keys;
  }
}
