/** The document: a flat map from address to node, standing in for a tree whose node
    identity is its address. The session module of the editor is not part of this
    model; its record shape is the one `model.rs` reads and writes. */
module Sessions {
  import opened Wrappers
  import opened Coordinates
  import opened Grammars

  /** The address-keyed node store (`Session::grammars`). */
  type Store = map<Coordinate, Grammar>

  /** A session: its title, the denormalised root and meta nodes, and the store. */
  datatype Session = Session(title: string, root: Grammar, meta: Grammar, grammars: Store)

  /** Grid/child consistency: every child listed by a grid node is a stored address. */
  ghost predicate GridConsistent(g: Store)
  {
    forall c, p :: c in g && g[c].kind.Grid? && p in g[c].kind.children ==> c.ChildOf(p) in g
  }

  /** The grid node at `c`, if any, lists only stored children. */
  ghost predicate GridConsistentAt(g: Store, c: Coordinate)
  {
    c in g && g[c].kind.Grid? ==> forall p :: p in g[c].kind.children ==> c.ChildOf(p) in g
  }

  /** Parent closure: the parent of every stored non-top-level address is stored. */
  ghost predicate ParentClosed(g: Store)
  {
    forall k :: k in g && !k.IsTopLevel() ==> k.outer in g
  }

  /** The addresses `parent.ChildOf(p)` for the pairs `p` of `pairs`. */
  function ChildKeys(parent: Coordinate, pairs: seq<RowCol>): (s: set<Coordinate>)
    ensures forall k :: k in s ==> k.Parent() == Some(parent)
  {
    set p | p in pairs :: parent.ChildOf(p)
  }

  /** Default leaves at the addresses `parent.ChildOf(p)` for the pairs `p` of `pairs`. */
  function NewLeaves(parent: Coordinate, pairs: seq<RowCol>): (m: Store)
    ensures m.Keys == ChildKeys(parent, pairs)
    ensures forall k :: k in m ==> m[k] == Default()
  {
    map p | p in pairs :: parent.ChildOf(p) := Default()
  }

  /** No pairs add no leaves. */
  lemma NewLeavesNone(g: Store, parent: Coordinate)
    ensures g + NewLeaves(parent, []) == g
  {
    assert NewLeaves(parent, []) == map[];
  }

  /** Adding one more pair to `pairs` adds one more default leaf. */
  lemma NewLeavesSnoc(parent: Coordinate, pairs: seq<RowCol>, p: RowCol)
    ensures NewLeaves(parent, pairs + [p]) == NewLeaves(parent, pairs)[parent.ChildOf(p) := Default()]
  {
    var a := NewLeaves(parent, pairs + [p]);
    var b := NewLeaves(parent, pairs)[parent.ChildOf(p) := Default()];
    assert a.Keys == b.Keys by {
      forall k | k in b ensures k in a {
        if k != parent.ChildOf(p) {
          var q :| q in pairs && parent.ChildOf(q) == k;
          assert q in pairs + [p];
        }
      }
    }
  }

  /** Updating a union at one key updates its right operand. */
  lemma UnionUpdate(a: Store, b: Store, k: Coordinate, v: Grammar)
    ensures (a + b)[k := v] == a + b[k := v]
  {
  }

  /** `xs` lists every element of `s` exactly once, in some order (the model of
      iterating a hash map, whose order is unspecified). */
  ghost predicate Enumerates<T(!new)>(xs: seq<T>, s: set<T>)
  {
    && (forall i, j :: 0 <= i < j < |xs| ==> xs[i] != xs[j])
    && (forall x :: x in xs <==> x in s)
  }

  /** Visiting one more element of `s` still unvisited (in `rest`) extends an
      enumeration of the visited ones. */
  lemma EnumeratesSnoc<T(!new)>(xs: seq<T>, s: set<T>, rest: set<T>, x: T)
    requires Enumerates(xs, s - rest) && rest <= s && x in rest
    ensures Enumerates(xs + [x], s - (rest - {x}))
  {
    assert s - (rest - {x}) == (s - rest) + {x};
  }

  /** Every finite set has an enumeration. */
  lemma {:induction false} SomeEnumeration<T(!new)>(s: set<T>) returns (xs: seq<T>)
    ensures Enumerates(xs, s)
    decreases |s|
  {
    if s == {} {
      xs := [];
    } else {
      var x :| x in s;
      var rest := SomeEnumeration(s - {x});
      xs := rest + [x];
    }
  }
}
