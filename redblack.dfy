/** The red-black engine on values: a tree whose payloads are colours, and the two
    fix-up loops written as functions that take one pass of the loop per recursive call.
    A node is identified by its path from the root, as the loop variable `node` is
    identified by the heap object it points to. */
module RedBlack {
  import opened Trees

  datatype Color = Red | Black

  type RbTree = Tree<Color>

  datatype Option<T> = None | Some(value: T)

  /** An empty slot counts as black, as every `!node || node.color === BLACK` test does. */
  predicate IsRed(t: RbTree)
  {
    t.Node? && t.info == Red
  }

  /** The tree with its root recoloured (no-op on the empty tree). */
  function Colored(t: RbTree, c: Color): (r: RbTree)
    ensures Inorder(r) == Inorder(t) && r.Node? == t.Node?
  {
    if t.Nil? then t else t.(info := c)
  }

  /** The tree with the node at `p` recoloured. */
  function Recolor(t: RbTree, p: Path, c: Color): (r: RbTree)
    requires ValidPath(t, p) && Sub(t, p).Node?
    ensures ValidPath(r, p) && Sub(r, p) == Sub(t, p).(info := c)
    ensures Inorder(r) == Inorder(t)
  {
    ReplaceAtSub(t, p, Sub(t, p).(info := c));
    ReplaceAtSameInorder(t, p, Sub(t, p).(info := c));
    ReplaceAt(t, p, Sub(t, p).(info := c))
  }

  /** Recolouring below the root recolours inside the child the path enters. */
  lemma RecolorStep(t: RbTree, p: Path, c: Color)
    requires ValidPath(t, p) && Sub(t, p).Node? && p != []
    ensures Recolor(t, p, c) ==
      if p[0] == Left then Node(Recolor(t.left, p[1..], c), t.value, t.info, t.right)
      else Node(t.left, t.value, t.info, Recolor(t.right, p[1..], c))
  {
  }

  /** Recolouring the root of a subtree just put in place is putting it in place with
      that colour. */
  lemma RecolorReplaced(t: RbTree, p: Path, x: RbTree, c: Color)
    requires ValidPath(t, p) && x.Node?
    ensures ValidPath(ReplaceAt(t, p, x), p) && Sub(ReplaceAt(t, p, x), p).Node?
    ensures Recolor(ReplaceAt(t, p, x), p, c) == ReplaceAt(t, p, x.(info := c))
  {
    ReplaceAtSub(t, p, x);
    ReplaceAtTwice(t, p, x, x.(info := c));
  }

  // ---------------------------------------------------------------- the invariants

  /** No red node has a red child. */
  predicate NoRedRed(t: RbTree)
  {
    match t
    case Nil => true
    case Node(l, _, c, r) => (c == Red ==> !IsRed(l) && !IsRed(r)) && NoRedRed(l) && NoRedRed(r)
  }

  /** Black nodes on the leftmost path (all paths, in a black-balanced tree). */
  function BlackHeight(t: RbTree): nat
  {
    match t
    case Nil => 0
    case Node(l, _, c, _) => BlackHeight(l) + (if c == Black then 1 else 0)
  }

  /** Every path from a node down to an empty slot meets the same number of black nodes. */
  predicate BlackBalanced(t: RbTree)
  {
    match t
    case Nil => true
    case Node(l, _, _, r) => BlackHeight(l) == BlackHeight(r) && BlackBalanced(l) && BlackBalanced(r)
  }

  /** The red-black properties: a black root, no red node with a red child, equal
      black height on every path. */
  predicate IsRedBlack(t: RbTree)
  {
    !IsRed(t) && NoRedRed(t) && BlackBalanced(t)
  }

  // ---------------------------------------------------------------- insertion

  /** `_insertNode` followed the comparison path to an empty slot: the new leaf goes there. */
  lemma {:induction false} InsertAtEmptySlot<A>(t: Tree<A>, v: int, i: A)
    requires Sub(t, SearchPath(t, v)).Nil?
    ensures var p := SearchPath(t, v);
      ValidPath(Insert(t, v, i), p) && Insert(t, v, i) == ReplaceAt(t, p, Node(Nil, v, i, Nil))
  {
    ReplaceAtSub(t, SearchPath(t, v), Node(Nil, v, i, Nil));
    match t
    case Nil =>
    case Node(l, w, _, r) =>
      if v < w {
        InsertAtEmptySlot(l, v, i);
      } else if v > w {
        InsertAtEmptySlot(r, v, i);
      }
  }

  /** One pass of the `_fixInsertion` loop on the subtree `g` of the grandparent, the
      node being at `[d1, d2]` below it and its parent red. The flag says whether the
      uncle was red, in which case the loop goes on at the grandparent; otherwise the node
      ends up at `[d1]` after one or two rotations. */
  function InsLocal(g: RbTree, d1: Dir, d2: Dir): (r: (RbTree, bool))
    requires g.Node? && Child(g, d1).Node? && Child(Child(g, d1), d2).Node?
    ensures r.0.Node? && (!r.1 ==> Child(r.0, d1).Node?)
    ensures r.1 ==> r.0.info == Red
    ensures !r.1 ==> !IsRed(r.0)
    ensures Inorder(r.0) == Inorder(g)
  {
    var p := Child(g, d1);
    var u := Child(g, Other(d1));
    if IsRed(u) then
      if d1 == Left then
        (Node(Colored(p, Black), g.value, Red, Colored(u, Black)), true)
      else
        (Node(Colored(u, Black), g.value, Red, Colored(p, Black)), true)
    else if d1 == Left then
      var p1 := if d2 == Right then RotateLeft(p) else p;
      assert Inorder(p1) == Inorder(p) && p1.Node?;
      (RotateRight(Node(Colored(p1, Black), g.value, Red, g.right)), false)
    else
      var p1 := if d2 == Left then RotateRight(p) else p;
      assert Inorder(p1) == Inorder(p) && p1.Node?;
      (RotateLeft(Node(g.left, g.value, Red, Colored(p1, Black))), false)
  }

  /** `_fixInsertion` from the node at `p`: `None` when the loop would spin forever, which
      happens when the node's parent is a red root (there is no grandparent to work on).
      The final blackening of the root is not part of this function. */
  function FixIns(t: RbTree, p: Path): (r: Option<RbTree>)
    requires ValidPath(t, p) && Sub(t, p).Node?
    ensures r.Some? ==> Inorder(r.value) == Inorder(t)
    decreases |p|
  {
    if p == [] then Some(t)
    else
      ParentPath(t, p);
      if !IsRed(Sub(t, p[..|p| - 1])) then Some(t)
      else if |p| == 1 then None
      else
        var g, d1, d2 := p[..|p| - 2], p[|p| - 2], p[|p| - 1];
        GrandparentPath(t, p);
        var (sub, up) := InsLocal(Sub(t, g), d1, d2);
        var t' := ReplaceAt(t, g, sub);
        ReplaceAtSub(t, g, sub);
        ReplaceAtSameInorder(t, g, sub);
        SubStep(t', g, d1);
        FixIns(t', if up then g else g + [d1])
  }

  lemma GrandparentPath<A>(t: Tree<A>, p: Path)
    requires ValidPath(t, p) && Sub(t, p).Node? && |p| >= 2
    ensures p == p[..|p| - 2] + [p[|p| - 2], p[|p| - 1]]
    ensures ValidPath(t, p[..|p| - 2]) && Sub(t, p[..|p| - 2]).Node?
    ensures Child(Sub(t, p[..|p| - 2]), p[|p| - 2]).Node?
    ensures Child(Child(Sub(t, p[..|p| - 2]), p[|p| - 2]), p[|p| - 1]) == Sub(t, p)
    ensures p[..|p| - 1] == p[..|p| - 2] + [p[|p| - 2]] && ValidPath(t, p[..|p| - 1])
    ensures Sub(t, p[..|p| - 1]) == Child(Sub(t, p[..|p| - 2]), p[|p| - 2])
  {
    var pp := p[..|p| - 1];
    ParentPath(t, p);
    ParentPath(t, pp);
    assert pp[..|pp| - 1] == p[..|p| - 2] && pp[|pp| - 1] == p[|p| - 2];
    assert p == p[..|p| - 2] + [p[|p| - 2], p[|p| - 1]];
    assert pp == p[..|p| - 2] + [p[|p| - 2]];
  }

  /** Recolouring below a replaced subtree is recolouring inside the replacement. */
  lemma RecolorBelow(t: RbTree, g: Path, x: RbTree, q: Path, c: Color)
    requires ValidPath(t, g) && ValidPath(x, q) && Sub(x, q).Node?
    ensures ValidPath(ReplaceAt(t, g, x), g + q) && Sub(ReplaceAt(t, g, x), g + q) == Sub(x, q)
    ensures Recolor(ReplaceAt(t, g, x), g + q, c) == ReplaceAt(t, g, Recolor(x, q, c))
  {
    ReplaceBelow(t, g, x, q, Sub(x, q).(info := c));
  }

  /** Recolouring a child of the root. */
  lemma RecolorChild(x: RbTree, d: Dir, c: Color)
    requires x.Node? && Child(x, d).Node?
    ensures ValidPath(x, [d]) && Sub(x, [d]) == Child(x, d)
    ensures Recolor(x, [d], c) == if d == Left then x.(left := x.left.(info := c)) else x.(right := x.right.(info := c))
  {
    assert [d][1..] == [];
    assert Sub(x, [d]) == Sub(Child(x, d), []) == Child(x, d);
    var y := Child(x, d).(info := c);
    assert ReplaceAt(x, [d], y) == if d == Left then x.(left := ReplaceAt(x.left, [], y)) else x.(right := ReplaceAt(x.right, [], y));
  }

  /** One pass of `_fixInsertion` unfolds `FixIns` once, from the node at `p` to the node at
      the grandparent (red uncle) or at the grandparent's child on the parent's side. */
  lemma FixInsPass(t: RbTree, p: Path)
    requires ValidPath(t, p) && Sub(t, p).Node? && p != [] && FixIns(t, p).Some?
    requires ValidPath(t, p[..|p| - 1]) && IsRed(Sub(t, p[..|p| - 1]))
    ensures |p| >= 2
    ensures var g, d1, d2 := p[..|p| - 2], p[|p| - 2], p[|p| - 1];
      ValidPath(t, g) && Sub(t, g).Node? && Child(Sub(t, g), d1).Node? && Child(Child(Sub(t, g), d1), d2).Node?
    ensures var g, d1, d2 := p[..|p| - 2], p[|p| - 2], p[|p| - 1];
      var r := InsLocal(Sub(t, g), d1, d2);
      var p' := if r.1 then g else g + [d1];
      ValidPath(ReplaceAt(t, g, r.0), p') && Sub(ReplaceAt(t, g, r.0), p').Node? &&
      FixIns(ReplaceAt(t, g, r.0), p') == FixIns(t, p)
  {
    GrandparentPath(t, p);
    var g, d1, d2 := p[..|p| - 2], p[|p| - 2], p[|p| - 1];
    var (sub, up) := InsLocal(Sub(t, g), d1, d2);
    ReplaceAtSub(t, g, sub);
    SubStep(ReplaceAt(t, g, sub), g, d1);
  }

  /** The pass with a red uncle: the parent (on side `d1` of the grandparent at `g`) and
      the uncle are blackened, then the grandparent reddened, in the order of the source. */
  lemma UncleRedPass(t: RbTree, g: Path, d1: Dir, d2: Dir, m1: RbTree, m2: RbTree, m3: RbTree)
    requires ValidPath(t, g) && Sub(t, g).Node? && Child(Sub(t, g), d1).Node?
    requires Child(Child(Sub(t, g), d1), d2).Node? && IsRed(Child(Sub(t, g), Other(d1)))
    requires ValidPath(t, g + [d1]) && Sub(t, g + [d1]).Node? && m1 == Recolor(t, g + [d1], Black)
    requires ValidPath(m1, g + [Other(d1)]) && Sub(m1, g + [Other(d1)]).Node? && m2 == Recolor(m1, g + [Other(d1)], Black)
    requires ValidPath(m2, g) && Sub(m2, g).Node? && m3 == Recolor(m2, g, Red)
    ensures InsLocal(Sub(t, g), d1, d2).1 && m3 == ReplaceAt(t, g, InsLocal(Sub(t, g), d1, d2).0)
  {
    var x := Sub(t, g);
    assert [d1][1..] == [] && [Other(d1)][1..] == [] && g + [] == g;
    ReplaceAtSelf(t, g);
    RecolorBelow(t, g, x, [d1], Black);
    var x1 := Recolor(x, [d1], Black);
    RecolorBelow(t, g, x1, [Other(d1)], Black);
    var x2 := Recolor(x1, [Other(d1)], Black);
    RecolorBelow(t, g, x2, [], Red);
    RecolorChild(x, d1, Black);
    RecolorChild(x1, Other(d1), Black);
    assert x2 == Node(Colored(x.left, Black), x.value, x.info, Colored(x.right, Black));
  }

  /** A whole red-uncle pass of `_fixInsertion` from the node at `q`, with the grandparent
      at `g` and the parent on its side `d1`: the three colour writes, in the order of the
      source, take `FixIns` one step, to the grandparent. */
  lemma UncleRedStep(t: RbTree, q: Path, g: Path, d1: Dir, m1: RbTree, m2: RbTree, m3: RbTree)
    requires ValidPath(t, q) && Sub(t, q).Node? && |q| >= 2 && FixIns(t, q).Some?
    requires g == q[..|q| - 2] && d1 == q[|q| - 2]
    requires ValidPath(t, g) && Sub(t, g).Node? && IsRed(Child(Sub(t, g), Other(d1)))
    requires ValidPath(t, g + [d1]) && Sub(t, g + [d1]).Node? && IsRed(Sub(t, g + [d1]))
    requires m1 == Recolor(t, g + [d1], Black)
    requires ValidPath(m1, g + [Other(d1)]) && Sub(m1, g + [Other(d1)]).Node? && m2 == Recolor(m1, g + [Other(d1)], Black)
    requires ValidPath(m2, g) && Sub(m2, g).Node? && m3 == Recolor(m2, g, Red)
    ensures ValidPath(m3, g) && Sub(m3, g).Node? && FixIns(m3, g) == FixIns(t, q)
  {
    GrandparentPath(t, q);
    FixInsPass(t, q);
    UncleRedPass(t, g, d1, q[|q| - 1], m1, m2, m3);
  }

  /** The pass with a black uncle: when the node is an inner grandchild its parent is
      rotated outwards first; then the node at `g + [d1]` is blackened, the grandparent
      reddened and rotated towards the uncle. */
  lemma UncleBlackPass(t: RbTree, g: Path, d1: Dir, d2: Dir, m1: RbTree, m2: RbTree, m3: RbTree, m4: RbTree)
    requires ValidPath(t, g) && Sub(t, g).Node? && Child(Sub(t, g), d1).Node?
    requires Child(Child(Sub(t, g), d1), d2).Node? && !IsRed(Child(Sub(t, g), Other(d1)))
    requires ValidPath(t, g + [d1])
    requires m1 == if d2 == d1 then t
      else ReplaceAt(t, g + [d1], if d1 == Left then RotateLeft(Sub(t, g + [d1])) else RotateRight(Sub(t, g + [d1])))
    requires ValidPath(m1, g + [d1]) && Sub(m1, g + [d1]).Node? && m2 == Recolor(m1, g + [d1], Black)
    requires ValidPath(m2, g) && Sub(m2, g).Node? && m3 == Recolor(m2, g, Red)
    requires ValidPath(m3, g) && m4 == ReplaceAt(m3, g, if d1 == Left then RotateRight(Sub(m3, g)) else RotateLeft(Sub(m3, g)))
    ensures !InsLocal(Sub(t, g), d1, d2).1 && m4 == ReplaceAt(t, g, InsLocal(Sub(t, g), d1, d2).0)
  {
    var x := Sub(t, g);
    assert [d1][1..] == [] && g + [] == g;
    ReplaceAtSelf(t, g);
    SubAppend(t, g, [d1]);
    assert Sub(x, [d1]) == Sub(Child(x, d1), []) == Child(x, d1);
    var p := Child(x, d1);
    var p1 := if d2 == d1 then p else if d1 == Left then RotateLeft(p) else RotateRight(p);
    var x1 := if d1 == Left then x.(left := p1) else x.(right := p1);
    assert m1 == ReplaceAt(t, g, x1) by {
      if d2 != d1 {
        RotateBelow(t, g, x, [d1], d1 == Right);
        assert ReplaceAt(x, [d1], p1) == if d1 == Left then x.(left := ReplaceAt(x.left, [], p1)) else x.(right := ReplaceAt(x.right, [], p1));
      }
    }
    RecolorBelow(t, g, x1, [d1], Black);
    RecolorChild(x1, d1, Black);
    var x2 := Recolor(x1, [d1], Black);
    RecolorBelow(t, g, x2, [], Red);
    var x3 := Recolor(x2, [], Red);
    RotateBelow(t, g, x3, [], d1 == Left);
    assert x3 == if d1 == Left then Node(Colored(p1, Black), x.value, Red, x.right) else Node(x.left, x.value, Red, Colored(p1, Black));
  }

  /** A whole black-uncle pass of `_fixInsertion` from the node at `q`, with the
      grandparent at `g` and the parent on its side `d1`, the steps taken one at a time:
      it is the local rewrite `InsLocal`, which leaves the node at `g + [d1]`. */
  lemma UncleBlackStep(t: RbTree, q: Path, g: Path, d1: Dir, m1: RbTree, m2: RbTree, m3: RbTree, m4: RbTree)
    requires ValidPath(t, q) && Sub(t, q).Node? && |q| >= 2
    requires g == q[..|q| - 2] && d1 == q[|q| - 2]
    requires ValidPath(t, g) && Sub(t, g).Node? && !IsRed(Child(Sub(t, g), Other(d1)))
    requires ValidPath(t, g + [d1]) && Sub(t, g + [d1]).Node?
    requires m1 == if q[|q| - 1] == d1 then t
      else ReplaceAt(t, g + [d1], if d1 == Left then RotateLeft(Sub(t, g + [d1])) else RotateRight(Sub(t, g + [d1])))
    requires ValidPath(m1, g + [d1]) && Sub(m1, g + [d1]).Node? && m2 == Recolor(m1, g + [d1], Black)
    requires ValidPath(m2, g) && Sub(m2, g).Node? && m3 == Recolor(m2, g, Red)
    requires ValidPath(m3, g) && m4 == ReplaceAt(m3, g, if d1 == Left then RotateRight(Sub(m3, g)) else RotateLeft(Sub(m3, g)))
    ensures Child(Sub(t, g), d1).Node? && Child(Child(Sub(t, g), d1), q[|q| - 1]).Node?
    ensures !InsLocal(Sub(t, g), d1, q[|q| - 1]).1 && m4 == ReplaceAt(t, g, InsLocal(Sub(t, g), d1, q[|q| - 1]).0)
  {
    GrandparentPath(t, q);
    UncleBlackPass(t, g, d1, q[|q| - 1], m1, m2, m3, m4);
  }

  /** After a black-uncle pass the `_fixInsertion` loop goes on from the node at
      `g + [d1]`, as `FixIns` does. */
  lemma UncleBlackNext(t: RbTree, q: Path, g: Path, d1: Dir, m4: RbTree)
    requires ValidPath(t, q) && Sub(t, q).Node? && |q| >= 2 && FixIns(t, q).Some?
    requires g == q[..|q| - 2] && d1 == q[|q| - 2]
    requires ValidPath(t, g + [d1]) && IsRed(Sub(t, g + [d1]))
    requires ValidPath(t, g) && Sub(t, g).Node? && Child(Sub(t, g), d1).Node? && Child(Child(Sub(t, g), d1), q[|q| - 1]).Node?
    requires !InsLocal(Sub(t, g), d1, q[|q| - 1]).1 && m4 == ReplaceAt(t, g, InsLocal(Sub(t, g), d1, q[|q| - 1]).0)
    ensures ValidPath(m4, g + [d1]) && Sub(m4, g + [d1]).Node? && FixIns(m4, g + [d1]) == FixIns(t, q)
  {
    assert q[..|q| - 1] == g + [d1];
    FixInsPass(t, q);
  }

  /** `insert`: a black root for an empty tree; otherwise the leaf insertion, the fix-up
      from the new node (or from a detached node when the key was already there, which
      only blackens the root), and the final blackening of the root. */
  function RbInsert(t: RbTree, v: int): (r: Option<RbTree>)
  {
    if t.Nil? then Some(Node(Nil, v, Black, Nil))
    else
      var p := SearchPath(t, v);
      if Sub(t, p).Node? then Some(Colored(t, Black))
      else
        InsertAtEmptySlot(t, v, Red);
        ReplaceAtSub(t, p, Node(Nil, v, Red, Nil));
        match FixIns(Insert(t, v, Red), p)
        case None => None
        case Some(u) => Some(Colored(u, Black))
  }

  /** What `RbInsert` does on a non-empty tree: a key not held is added red at the end of
      its search path and `FixIns` runs from there; a key held leaves the tree as it is;
      either way the root is then blackened. */
  lemma RbInsertSteps(t: RbTree, v: int)
    requires t.Node? && RbInsert(t, v).Some?
    ensures var p := SearchPath(t, v);
      ValidPath(t, p) &&
      (if Sub(t, p).Nil? then
        ValidPath(Insert(t, v, Red), p) && Sub(Insert(t, v, Red), p).Node? &&
        FixIns(Insert(t, v, Red), p).Some? && RbInsert(t, v).value == Colored(FixIns(Insert(t, v, Red), p).value, Black)
      else Insert(t, v, Red) == t && RbInsert(t, v).value == Colored(t, Black))
  {
    var p := SearchPath(t, v);
    if Sub(t, p).Nil? {
      InsertAtEmptySlot(t, v, Red);
      ReplaceAtSub(t, p, Node(Nil, v, Red, Nil));
    } else {
      InsertFound(t, v, Red);
    }
  }

  // ---------------------------------------------------------------- insertion keeps the invariants

  /** No red node has a red child, except that the node at `p` may be red under a red
      parent: the state of the tree at the head of each `_fixInsertion` pass. */
  ghost predicate RedRedAt(t: RbTree, p: Path)
    requires ValidPath(t, p)
    decreases |p|
  {
    if p == [] then NoRedRed(t)
    else
      var c, o := Child(t, p[0]), Child(t, Other(p[0]));
      NoRedRed(o) && (IsRed(t) ==> !IsRed(o)) && (IsRed(t) && p[1..] != [] ==> !IsRed(c)) &&
      RedRedAt(c, p[1..])
  }

  /** No red node outside the subtree at `g` has a red child, the subtree at `g` counted
      as black: what is left of `RedRedAt` once that subtree is cut out. */
  ghost predicate Context(t: RbTree, g: Path)
    requires ValidPath(t, g)
    decreases |g|
  {
    if g == [] then true
    else
      var c, o := Child(t, g[0]), Child(t, Other(g[0]));
      NoRedRed(o) && (IsRed(t) ==> !IsRed(o)) && (IsRed(t) && g[1..] != [] ==> !IsRed(c)) &&
      Context(c, g[1..])
  }

  lemma {:induction false} NoRedRedContext(t: RbTree, g: Path)
    requires ValidPath(t, g) && NoRedRed(t)
    ensures Context(t, g) && RedRedAt(t, g)
    decreases |g|
  {
    if g != [] {
      NoRedRedContext(Child(t, g[0]), g[1..]);
    }
  }

  lemma {:induction false} ContextSplit(t: RbTree, g: Path, q: Path)
    requires ValidPath(t, g + q) && RedRedAt(t, g + q)
    ensures ValidPath(t, g) && Context(t, g)
    ensures ValidPath(Sub(t, g), q) && RedRedAt(Sub(t, g), q)
    decreases |g|
  {
    if g == [] {
      assert g + q == q;
    } else {
      assert (g + q)[0] == g[0] && (g + q)[1..] == g[1..] + q;
      ContextSplit(Child(t, g[0]), g[1..], q);
    }
  }

  /** Putting a subtree with no red-red pair into the hole leaves at most the one at `g`. */
  lemma {:induction false} ContextFill(t: RbTree, g: Path, x: RbTree)
    requires ValidPath(t, g) && Context(t, g) && NoRedRed(x)
    ensures ValidPath(ReplaceAt(t, g, x), g) && RedRedAt(ReplaceAt(t, g, x), g)
    decreases |g|
  {
    ReplaceAtSub(t, g, x);
    if g != [] {
      ContextFill(Child(t, g[0]), g[1..], x);
    }
  }

  /** ... and none at all when its root is black. */
  lemma {:induction false} ContextFillBlack(t: RbTree, g: Path, x: RbTree)
    requires ValidPath(t, g) && Context(t, g) && NoRedRed(x) && !IsRed(x)
    ensures NoRedRed(ReplaceAt(t, g, x))
    decreases |g|
  {
    if g != [] {
      ContextFillBlack(Child(t, g[0]), g[1..], x);
    }
  }

  /** The loop's exit test: when the node's parent is not red, nothing is left to fix. */
  lemma {:induction false} RedRedResolved(t: RbTree, p: Path)
    requires ValidPath(t, p) && RedRedAt(t, p)
    requires p != [] ==> ValidPath(t, p[..|p| - 1]) && !IsRed(Sub(t, p[..|p| - 1]))
    ensures NoRedRed(t)
    decreases |p|
  {
    if |p| > 1 {
      var c := Child(t, p[0]);
      var q := p[1..];
      assert p[..|p| - 1] == [p[0]] + q[..|q| - 1];
      assert Sub(t, p[..|p| - 1]) == Sub(c, q[..|q| - 1]);
      RedRedResolved(c, q);
    }
  }

  lemma {:induction false} BlackSub(t: RbTree, g: Path)
    requires ValidPath(t, g) && BlackBalanced(t)
    ensures BlackBalanced(Sub(t, g))
    decreases |g|
  {
    if g != [] {
      BlackSub(Child(t, g[0]), g[1..]);
    }
  }

  /** A balanced subtree of the same black height can take the place of another. */
  lemma {:induction false} BlackReplace(t: RbTree, g: Path, x: RbTree)
    requires ValidPath(t, g) && BlackBalanced(t)
    requires BlackBalanced(x) && BlackHeight(x) == BlackHeight(Sub(t, g))
    ensures BlackBalanced(ReplaceAt(t, g, x)) && BlackHeight(ReplaceAt(t, g, x)) == BlackHeight(t)
    decreases |g|
  {
    if g != [] {
      BlackReplace(Child(t, g[0]), g[1..], x);
    }
  }

  /** One pass of the loop on the grandparent's subtree, whose root is black, with a red
      node under a red parent and no other red-red pair: afterwards there is none left
      in the subtree, and the black height is what it was. */
  lemma InsLocalFixes(g: RbTree, d1: Dir, d2: Dir)
    requires g.Node? && Child(g, d1).Node? && Child(Child(g, d1), d2).Node?
    requires !IsRed(g) && IsRed(Child(g, d1)) && IsRed(Child(Child(g, d1), d2))
    requires RedRedAt(g, [d1, d2]) && BlackBalanced(g)
    ensures NoRedRed(InsLocal(g, d1, d2).0) && BlackBalanced(InsLocal(g, d1, d2).0)
    ensures BlackHeight(InsLocal(g, d1, d2).0) == BlackHeight(g)
  {
    assert [d1, d2][1..] == [d2] && [d2][1..] == [];
    var p := Child(g, d1);
    var x := Child(p, d2);
    assert Child(g, [d1, d2][0]) == p;
    assert RedRedAt(p, [d2]);
    assert Child(p, [d2][0]) == x;
    assert RedRedAt(x, []);
    assert BlackBalanced(p) && BlackBalanced(x);
    var u := Child(g, Other(d1));
    if !IsRed(u) {
      if d1 == Left && d2 == Right {
        assert RotateLeft(p) == Node(Node(p.left, p.value, Red, x.left), x.value, Red, x.right);
      } else if d1 == Right && d2 == Left {
        assert RotateRight(p) == Node(x.left, x.value, Red, Node(x.right, p.value, Red, p.right));
      }
    }
  }

  /** From the state at the head of a pass, the loop ends, and blackening the root then
      gives a red-black tree. */
  lemma {:induction false} FixInsRestores(t: RbTree, p: Path)
    requires ValidPath(t, p) && Sub(t, p).Node? && IsRed(Sub(t, p))
    requires RedRedAt(t, p) && BlackBalanced(t) && (p != [] ==> !IsRed(t))
    ensures FixIns(t, p).Some? && IsRedBlack(Colored(FixIns(t, p).value, Black))
    decreases |p|
  {
    if p != [] {
      ParentPath(t, p);
      if !IsRed(Sub(t, p[..|p| - 1])) {
        RedRedResolved(t, p);
      } else if |p| == 1 {
        assert false;
      } else {
        GrandparentPath(t, p);
        var g, d1, d2 := p[..|p| - 2], p[|p| - 2], p[|p| - 1];
        ContextSplit(t, g, [d1, d2]);
        BlackSub(t, g);
        var G := Sub(t, g);
        SubAppend(t, g, [d1, d2]);
        assert [d1, d2][1..] == [d2] && [d2][1..] == [];
        InsLocalFixes(G, d1, d2);
        var (sub, up) := InsLocal(G, d1, d2);
        var t' := ReplaceAt(t, g, sub);
        BlackReplace(t, g, sub);
        ReplaceAtSub(t, g, sub);
        if g != [] {
          ReplaceAtPrefix(t, g, sub, 0);
        }
        if up {
          ContextFill(t, g, sub);
          FixInsRestores(t', g);
        } else {
          ContextFillBlack(t, g, sub);
          SubStep(t', g, d1);
          NoRedRedContext(t', g + [d1]);
          FixInsRestores(t', g + [d1]);
        }
      }
    }
  }

  /** The loop only spins when it reaches a red root: from a non-red root it ends. */
  lemma {:induction false} FixInsEnds(t: RbTree, p: Path)
    requires ValidPath(t, p) && Sub(t, p).Node? && (p != [] ==> !IsRed(t))
    ensures FixIns(t, p).Some?
    decreases |p|
  {
    if p != [] {
      ParentPath(t, p);
      if IsRed(Sub(t, p[..|p| - 1])) {
        if |p| == 1 {
          assert false;
        }
        GrandparentPath(t, p);
        var g, d1 := p[..|p| - 2], p[|p| - 2];
        var (sub, up) := InsLocal(Sub(t, g), d1, p[|p| - 1]);
        var t' := ReplaceAt(t, g, sub);
        ReplaceAtSub(t, g, sub);
        if g != [] {
          ReplaceAtPrefix(t, g, sub, 0);
        }
        if up {
          FixInsEnds(t', g);
        } else {
          SubStep(t', g, d1);
          FixInsEnds(t', g + [d1]);
        }
      }
    }
  }

  /** The leaf insertion puts a red leaf at an empty slot below the root, which the root
      keeps its colour through. */
  lemma InsertRedLeaf(t: RbTree, v: int)
    requires t.Node? && Sub(t, SearchPath(t, v)).Nil?
    ensures var p := SearchPath(t, v); var t1 := Insert(t, v, Red);
      p != [] && ValidPath(t1, p) && t1 == ReplaceAt(t, p, Node(Nil, v, Red, Nil)) &&
      Sub(t1, p) == Node(Nil, v, Red, Nil) && t1.info == t.info
  {
    var p := SearchPath(t, v);
    InsertAtEmptySlot(t, v, Red);
    ReplaceAtSub(t, p, Node(Nil, v, Red, Nil));
    ReplaceAtPrefix(t, p, Node(Nil, v, Red, Nil), 0);
  }

  /** `insert` ends on every tree whose root is black (in particular on every red-black
      tree), and spins only when the new node lands under a red root. */
  lemma RbInsertEnds(t: RbTree, v: int)
    requires !IsRed(t)
    ensures RbInsert(t, v).Some?
  {
    if t.Node? && Sub(t, SearchPath(t, v)).Nil? {
      InsertRedLeaf(t, v);
      FixInsEnds(Insert(t, v, Red), SearchPath(t, v));
    }
  }

  lemma RbInsertSpins()
    ensures RbInsert(Node(Nil, 1, Red, Nil), 2).None?
  {
    var t := Node(Nil, 1, Red, Nil);
    assert SearchPath(t, 2) == [Right];
    assert Insert(t, 2, Red) == Node(Nil, 1, Red, Node(Nil, 2, Red, Nil));
  }

  /** `insert` keeps a red-black tree red-black. */
  lemma RbInsertKeepsRedBlack(t: RbTree, v: int)
    requires IsRedBlack(t)
    ensures RbInsert(t, v).Some? && IsRedBlack(RbInsert(t, v).value)
  {
    if t.Node? {
      var p := SearchPath(t, v);
      if Sub(t, p).Nil? {
        var leaf := Node(Nil, v, Red, Nil);
        InsertRedLeaf(t, v);
        NoRedRedContext(t, p);
        ContextFill(t, p, leaf);
        BlackReplace(t, p, leaf);
        FixInsRestores(Insert(t, v, Red), p);
      } else {
        assert Colored(t, Black) == t;
      }
    }
  }

  /** On a search tree, `insert` stores `v` and keeps the keys sorted; a key already
      there changes nothing but the root's colour. */
  lemma RbInsertKeys(t: RbTree, v: int)
    requires Ordered(t)
    ensures RbInsert(t, v).Some? ==>
      var u := RbInsert(t, v).value;
      Inorder(u) == InsertSorted(Inorder(t), v) && Ordered(u) && Values(u) == Values(t) + {v}
    ensures v in Values(t) ==> RbInsert(t, v) == Some(Colored(t, Black))
  {
    InsertInorder(t, v, Red);
    SearchPathFinds(t, v);
    if RbInsert(t, v).Some? {
      SameInorder(RbInsert(t, v).value, Insert(t, v, Red));
    }
  }

  // ---------------------------------------------------------------- deletion

  /** What one pass of the `_fixDeletion` loop does to the parent's subtree. */
  datatype DelMove =
    | Stuck                              // no sibling: the pass changes nothing, forever
    | Climb(sub: RbTree, below: Path)    // the loop goes on at the node at `below`
    | Finish(sub: RbTree)                // `node = this.root`

  /** One pass of the `_fixDeletion` loop, on the subtree `p` of the node's parent, the
      node being its child on side `d`: a red sibling is first made black, the parent
      red, and the parent rotated down towards the node. */
  function DelLocal(p: RbTree, d: Dir): (r: DelMove)
    requires p.Node? && Child(p, d).Node?
    ensures r.Climb? ==>
      ValidPath(r.sub, r.below) && Sub(r.sub, r.below).Node? &&
      (r.below == [] || (r.below == [d] && IsRed(Sub(r.sub, r.below))))
    ensures r.Finish? ==> r.sub.Node?
    ensures !r.Stuck? ==> Inorder(r.sub) == Inorder(p)
  {
    var s := Child(p, Other(d));
    if IsRed(s) then
      var top := RotateDown(WithChild(p.(info := Red), Other(d), s.(info := Black)), d);
      assert Inorder(top) == Inorder(p) by {
        assert Inorder(p.(info := Red)) == Inorder(p);
      }
      match Sibling(Child(top, d), d)
      case Stuck => Stuck
      case Climb(sub, _) =>
        assert [d][1..] == [] && Sub(WithChild(top, d, sub), [d]) == Sub(sub, []);
        Climb(WithChild(top, d, sub), [d])
      case Finish(sub) => Finish(WithChild(top, d, sub))
    else Sibling(p, d)
  }

  /** The rest of a pass, on the subtree `q` of the parent, the sibling being black:
      recolour the sibling and climb to the parent when both of the sibling's children
      are black; otherwise turn the sibling so that its far child is red
      (`NearTurn`), and finish (`FinalTurn`). No sibling: the pass changes nothing. */
  function Sibling(q: RbTree, d: Dir): (r: DelMove)
    requires q.Node?
    ensures r.Climb? ==> r.below == [] && r.sub.Node? && r.sub.info == q.info && Child(r.sub, d) == Child(q, d)
    ensures r.Finish? ==> r.sub.Node?
    ensures !r.Stuck? ==> Inorder(r.sub) == Inorder(q)
  {
    var s1 := Child(q, Other(d));
    if s1.Nil? then Stuck
    else if !IsRed(s1.left) && !IsRed(s1.right) then
      assert Inorder(s1.(info := Red)) == Inorder(s1);
      Climb(WithChild(q, Other(d), s1.(info := Red)), [])
    else Finish(FinalTurn(q, NearTurn(s1, d), d))
  }

  /** The inner turn of a finishing pass, on the sibling `s1`: when its far child (on the
      side away from the node) is black, its near child turns black, the sibling red,
      and the sibling is rotated away from the node. */
  function NearTurn(s1: RbTree, d: Dir): (r: RbTree)
    requires s1.Node?
    ensures r.Node? && Inorder(r) == Inorder(s1)
  {
    if !IsRed(Child(s1, Other(d))) then
      var x := WithChild(s1.(info := Red), d, Colored(Child(s1, d), Black));
      assert Inorder(x) == Inorder(s1) by {
        assert Inorder(s1.(info := Red)) == Inorder(s1);
      }
      assert x.Node? && Child(x, d) == Colored(Child(s1, d), Black);
      var r := RotateDown(x, Other(d));
      assert r.Node? by {
        if d == Left {
          assert Other(Other(d)) == d;
        }
      }
      r
    else s1
  }

  /** The end of a finishing pass, on the parent `q` whose child on the side away from
      the node is now `s2`: `s2` takes the parent's colour, the parent and the far child
      of `s2` turn black, and the parent is rotated down towards the node. */
  function FinalTurn(q: RbTree, s2: RbTree, d: Dir): (r: RbTree)
    requires q.Node? && s2.Node?
    ensures r.Node? && Inorder(r) == Inorder(WithChild(q, Other(d), s2))
  {
    var s3 := WithChild(s2.(info := q.info), Other(d), Colored(Child(s2, Other(d)), Black));
    assert Inorder(s3) == Inorder(s2) by {
      assert Inorder(s2.(info := q.info)) == Inorder(s2);
    }
    var x := WithChild(q.(info := Black), Other(d), s3);
    assert Inorder(x) == Inorder(WithChild(q, Other(d), s2)) by {
      assert Inorder(q.(info := Black)) == Inorder(q);
      if d == Left {
        assert x == Node(q.left, q.value, Black, s3);
      } else {
        assert x == Node(s3, q.value, Black, q.right);
      }
    }
    RotateDown(x, d)
  }

  /** `_fixDeletion` from the node at `p`, including the final `node.color = BLACK`;
      `None` when the loop would spin forever on a missing sibling. */
  function FixDel(t: RbTree, p: Path): (r: Option<RbTree>)
    requires ValidPath(t, p) && Sub(t, p).Node?
    ensures r.Some? ==> Inorder(r.value) == Inorder(t)
    decreases |p|, if IsRed(Sub(t, p)) then 0 else 1
  {
    if p == [] || IsRed(Sub(t, p)) then Some(Recolor(t, p, Black))
    else
      var pp, d := p[..|p| - 1], p[|p| - 1];
      ParentPath(t, p);
      match DelLocal(Sub(t, pp), d)
      case Stuck => None
      case Climb(sub, below) =>
        var t' := ReplaceAt(t, pp, sub);
        ReplaceAtSub(t, pp, sub);
        ReplaceAtSameInorder(t, pp, sub);
        SubAppend(t', pp, below);
        FixDel(t', pp + below)
      case Finish(sub) =>
        ReplaceAtSameInorder(t, pp, sub);
        FixDel(ReplaceAt(t, pp, sub), [])
  }

  /** The node `_findMin` reaches from the root of `t`. */
  function Successor(t: RbTree): (m: RbTree)
    requires t.Node?
    ensures m.Node? && m.left.Nil? && m.value == Min(t)
  {
    LeftSpineFindsMin(t);
    Sub(t, LeftSpine(t))
  }

  /** `_deleteNode` on the node `n` itself, up to its fix-up: the subtree after the
      transplants, the path below its root of the child that took the removed node's
      place, and the colour removed. With two children the successor takes the node's
      place and colour, and its right child takes the successor's place. */
  function UnlinkHere(n: RbTree): (r: (RbTree, Path, Color))
    requires n.Node?
    ensures ValidPath(r.0, r.1)
    ensures Sub(r.0, r.1) == (if n.left.Nil? then n.right else if n.right.Nil? then n.left
      else Successor(n.right).right)
  {
    if n.left.Nil? then (n.right, [], n.info)
    else if n.right.Nil? then (n.left, [], n.info)
    else
      var spine := LeftSpine(n.right);
      LeftSpineFindsMin(n.right);
      var m := Sub(n.right, spine);
      var x := Node(n.left, m.value, n.info, ReplaceAt(n.right, spine, m.right));
      ReplaceAtSub(n.right, spine, m.right);
      assert Sub(x, [Right] + spine) == Sub(x.right, spine);
      (x, [Right] + spine, m.info)
  }

  /** `_deleteNode` on the node at `q`, up to its fix-up. */
  function Unlink(t: RbTree, q: Path): (r: (RbTree, Path, Color))
    requires ValidPath(t, q) && Sub(t, q).Node?
    ensures ValidPath(r.0, r.1)
    ensures var h := UnlinkHere(Sub(t, q)); r.1 == q + h.1 && Sub(r.0, r.1) == Sub(h.0, h.1)
  {
    var (x, below, c) := UnlinkHere(Sub(t, q));
    ReplaceAtSub(t, q, x);
    SubAppend(ReplaceAt(t, q, x), q, below);
    (ReplaceAt(t, q, x), q + below, c)
  }

  /** With two children, the right one having no left child, `_deleteNode` moves the
      right child into the place of the node at `q`, with the node's colour; the right
      child's own right child takes the vacated place, one step right of `q`. */
  lemma UnlinkByPromote(t: RbTree, q: Path)
    requires ValidPath(t, q) && Sub(t, q).Node?
    requires var n := Sub(t, q); n.left.Node? && n.right.Node? && n.right.left.Nil?
    ensures var n := Sub(t, q);
      Unlink(t, q) == (ReplaceAt(t, q, Node(n.left, n.right.value, n.info, n.right.right)), q + [Right], n.right.info)
  {
    var n := Sub(t, q);
    assert LeftSpine(n.right) == [] && [Right] + [] == [Right];
  }

  /** With two children and a deeper successor at the end of the left spine of the right
      subtree, `_deleteNode` first splices the successor out of its place `g`, then puts
      it in the place of the node at `q`, with the node's colour. */
  lemma UnlinkBySupplant(t: RbTree, q: Path)
    requires ValidPath(t, q) && Sub(t, q).Node?
    requires var n := Sub(t, q); n.left.Node? && n.right.Node? && n.right.left.Node?
    ensures var n := Sub(t, q); var g := q + [Right] + LeftSpine(n.right);
      ValidPath(t, g) && Sub(t, g).Node? && Sub(t, g).left.Nil? &&
      var m := Sub(t, g); var t1 := ReplaceAt(t, g, m.right);
      ValidPath(t1, q) && Sub(t1, q).Node? && Sub(t1, q).left == n.left && Sub(t1, q).right.Node? &&
      Unlink(t, q) == (ReplaceAt(t1, q, Node(n.left, m.value, n.info, Sub(t1, q).right)), g, m.info)
  {
    var n := Sub(t, q);
    var spine := LeftSpine(n.right);
    LeftSpineFindsMin(n.right);
    var m := Sub(n.right, spine);
    SpliceBelow(t, q, spine, m.right);
    var g := q + [Right] + spine;
    var t1 := ReplaceAt(t, g, m.right);
    var n1 := Node(n.left, n.value, n.info, ReplaceAt(n.right, spine, m.right));
    assert spine == [Left] + LeftSpine(n.right.left);
    assert n1.right.Node? && q + ([Right] + spine) == g;
    ReplaceAtTwice(t, q, n1, Node(n.left, m.value, n.info, n1.right));
  }

  /** `_deleteNode` on the node at `q`: the unlinking, and the fix-up only when the
      removed colour was black and a child took the removed node's place. */
  function RbDeleteAt(t: RbTree, q: Path): (r: Option<RbTree>)
    requires ValidPath(t, q) && Sub(t, q).Node?
  {
    var (t', xp, c) := Unlink(t, q);
    if c == Black && Sub(t', xp).Node? then FixDel(t', xp) else Some(t')
  }

  /** `delete`: nothing when the key is absent, otherwise `_deleteNode` on the node
      `_findNode` reaches. */
  function RbDelete(t: RbTree, v: int): (r: Option<RbTree>)
  {
    var q := SearchPath(t, v);
    if Sub(t, q).Nil? then Some(t) else RbDeleteAt(t, q)
  }

  // ---------------------------------------------------------------- deletion on keys and colours

  /** Removing the minimum of a search tree is cutting its leftmost node out. */
  lemma {:induction false} DeleteMinAtSpine(t: RbTree)
    requires t.Node? && Ordered(t)
    ensures ValidPath(t, LeftSpine(t))
    ensures Delete(t, Min(t)) == ReplaceAt(t, LeftSpine(t), Successor(t).right)
  {
    LeftSpineFindsMin(t);
    if t.left.Node? {
      DeleteMinAtSpine(t.left);
      assert Successor(t) == Successor(t.left);
    }
  }

  /** The unlinking at the search path is the deletion of `Trees`, which the binary
      search tree shares. */
  lemma {:induction false} UnlinkIsDelete(t: RbTree, v: int)
    requires Ordered(t) && Sub(t, SearchPath(t, v)).Node?
    ensures Unlink(t, SearchPath(t, v)).0 == Delete(t, v)
  {
    var w := t.value;
    if v == w {
      if t.left.Node? && t.right.Node? {
        DeleteMinAtSpine(t.right);
      }
    } else {
      var d := if v < w then Left else Right;
      SearchPathSide(t, v, d);
      var q := SearchPath(Child(t, d), v);
      assert ([d] + q)[0] == d && ([d] + q)[1..] == q;
      UnlinkIsDelete(Child(t, d), v);
    }
  }

  /** On a search tree `delete` removes `v` and keeps the keys sorted. */
  lemma RbDeleteKeys(t: RbTree, v: int)
    requires Ordered(t)
    ensures RbDelete(t, v).Some? ==>
      var u := RbDelete(t, v).value;
      Inorder(u) == Remove(Inorder(t), v) && Ordered(u) && Values(u) == Values(t) - {v}
    ensures v !in Values(t) ==> RbDelete(t, v) == Some(t)
  {
    SearchPathFinds(t, v);
    DeleteInorder(t, v);
    if Sub(t, SearchPath(t, v)).Node? {
      UnlinkIsDelete(t, v);
      if RbDelete(t, v).Some? {
        SameInorder(RbDelete(t, v).value, Delete(t, v));
      }
    }
  }

  lemma BlackHeightZero(x: RbTree)
    requires x.Node? && BlackHeight(x) == 0
    ensures IsRed(x)
  {
  }

  /** In a black-balanced tree a black node with one child at most has a red child or
      none, so the fix-up, when it runs, stops at once: `delete` always ends there. */
  lemma RbDeleteEnds(t: RbTree, v: int)
    requires BlackBalanced(t)
    ensures RbDelete(t, v).Some?
  {
    var q := SearchPath(t, v);
    if Sub(t, q).Node? {
      var n := Sub(t, q);
      BlackSub(t, q);
      var (t', xp, c) := Unlink(t, q);
      if c == Black && Sub(t', xp).Node? {
        if n.left.Node? && n.right.Node? {
          LeftSpineFindsMin(n.right);
          BlackSub(n.right, LeftSpine(n.right));
        }
        BlackHeightZero(Sub(t', xp));
      }
    }
  }

  /** `delete` does not keep the black heights equal: removing a black leaf runs no
      fix-up, because there is no child to start it from. */
  lemma RbDeleteUnbalances()
    ensures var t := Node(Node(Nil, 1, Black, Nil), 2, Black, Node(Nil, 3, Black, Node(Nil, 4, Red, Nil)));
      IsRedBlack(t) && RbDelete(t, 1) == Some(Node(Nil, 2, Black, t.right)) &&
      !BlackBalanced(RbDelete(t, 1).value)
  {
    var t := Node(Node(Nil, 1, Black, Nil), 2, Black, Node(Nil, 3, Black, Node(Nil, 4, Red, Nil)));
    assert SearchPath(t, 1) == [Left];
  }

  // ---------------------------------------------------------------- the deletion fix-up, step by step

  /** What is left of `FixDel` once the node's sibling is black, the parent sitting at
      `r` and the node being its child on side `d`. */
  function SiblingFix(t: RbTree, r: Path, d: Dir): Option<RbTree>
    requires ValidPath(t, r) && Sub(t, r).Node?
  {
    match Sibling(Sub(t, r), d)
    case Stuck => None
    case Climb(sub, _) =>
      ReplaceAtSub(t, r, sub);
      FixDel(ReplaceAt(t, r, sub), r)
    case Finish(sub) => FixDel(ReplaceAt(t, r, sub), [])
  }

  /** A pass from a black node at `q` whose sibling is black goes straight to the rest
      of the pass at the parent. */
  lemma BlackSiblingPass(t: RbTree, q: Path)
    requires ValidPath(t, q) && Sub(t, q).Node? && q != [] && !IsRed(Sub(t, q))
    ensures var pp, d := q[..|q| - 1], q[|q| - 1];
      ValidPath(t, pp) && Sub(t, pp).Node? && Child(Sub(t, pp), d) == Sub(t, q) && q == pp + [d]
    ensures var pp, d := q[..|q| - 1], q[|q| - 1];
      !IsRed(Child(Sub(t, pp), Other(d))) ==> FixDel(t, q) == SiblingFix(t, pp, d)
  {
    ParentPath(t, q);
    var pp := q[..|q| - 1];
    assert q == pp + [q[|q| - 1]];
    assert pp + [] == pp;
  }

  /** A pass from a black node at `q` whose sibling is red: the sibling is blackened,
      the parent reddened and rotated down towards the node, in the order of the source;
      the rest of the pass runs with the parent one level lower, at `pp + [d]`. */
  lemma RedSiblingPass(t: RbTree, q: Path, m1: RbTree, m2: RbTree, m3: RbTree)
    requires ValidPath(t, q) && Sub(t, q).Node? && q != [] && !IsRed(Sub(t, q))
    requires var pp, d := q[..|q| - 1], q[|q| - 1];
      ValidPath(t, pp) && Sub(t, pp).Node? && IsRed(Child(Sub(t, pp), Other(d))) &&
      ValidPath(t, pp + [Other(d)]) && Sub(t, pp + [Other(d)]).Node? && m1 == Recolor(t, pp + [Other(d)], Black) &&
      ValidPath(m1, pp) && Sub(m1, pp).Node? && m2 == Recolor(m1, pp, Red) &&
      ValidPath(m2, pp) && m3 == ReplaceAt(m2, pp, RotateDown(Sub(m2, pp), d))
    ensures var pp, d := q[..|q| - 1], q[|q| - 1];
      ValidPath(m3, pp + [d]) && Sub(m3, pp + [d]).Node? && FixDel(t, q) == SiblingFix(m3, pp + [d], d)
  {
    ParentPath(t, q);
    var pp, d := q[..|q| - 1], q[|q| - 1];
    var o := Other(d);
    assert q == pp + [d];
    var x := Sub(t, pp);
    var s := Child(x, o);
    ReplaceAtSelf(t, pp);
    SubStep(t, pp, o);
    RecolorBelow(t, pp, x, [o], Black);
    RecolorChild(x, o, Black);
    var x1 := WithChild(x, o, s.(info := Black));
    assert m1 == ReplaceAt(t, pp, x1);
    assert pp + [] == pp;
    RecolorBelow(t, pp, x1, [], Red);
    assert m2 == ReplaceAt(t, pp, x1.(info := Red));
    assert x1.(info := Red) == WithChild(x.(info := Red), o, s.(info := Black));
    var top := RotateDown(x1.(info := Red), d);
    ReplaceAtSub(t, pp, x1.(info := Red));
    ReplaceAtTwice(t, pp, x1.(info := Red), top);
    assert m3 == ReplaceAt(t, pp, top);
    match Sibling(Child(top, d), d)
    case Stuck =>
      ReplaceChild(t, pp, top, d, Nil);
    case Climb(sub, _) =>
      ReplaceChild(t, pp, top, d, sub);
    case Finish(sub) =>
      ReplaceChild(t, pp, top, d, sub);
  }

  /** The climbing pass: the sibling at `r + [Other(d)]`, with no red child, turns red,
      and the loop goes on from the parent. */
  lemma ClimbPass(t: RbTree, r: Path, d: Dir, m: RbTree)
    requires ValidPath(t, r) && Sub(t, r).Node?
    requires var s1 := Child(Sub(t, r), Other(d)); s1.Node? && !IsRed(s1.left) && !IsRed(s1.right)
    requires ValidPath(t, r + [Other(d)]) && Sub(t, r + [Other(d)]).Node? && m == Recolor(t, r + [Other(d)], Red)
    ensures ValidPath(m, r) && Sub(m, r).Node? && SiblingFix(t, r, d) == FixDel(m, r)
  {
    var x := Sub(t, r);
    ReplaceAtSelf(t, r);
    RecolorBelow(t, r, x, [Other(d)], Red);
    RecolorChild(x, Other(d), Red);
    var sub := WithChild(x, Other(d), Child(x, Other(d)).(info := Red));
    assert m == ReplaceAt(t, r, sub);
    ReplaceAtSub(t, r, sub);
    assert Sibling(x, d) == Climb(sub, []);
  }

  /** The inner turn of a finishing pass on the sibling at `g`, when its far child is
      black: the near child (if any) turns black, the sibling red, and the sibling is
      rotated away from the node. */
  lemma NearTurnSteps(t: RbTree, g: Path, d: Dir, m1: RbTree, m2: RbTree, m3: RbTree)
    requires ValidPath(t, g) && Sub(t, g).Node? && !IsRed(Child(Sub(t, g), Other(d)))
    requires ValidPath(t, g + [d])
    requires m1 == if Sub(t, g + [d]).Node? then Recolor(t, g + [d], Black) else t
    requires ValidPath(m1, g) && Sub(m1, g).Node? && m2 == Recolor(m1, g, Red)
    requires ValidPath(m2, g) && m3 == ReplaceAt(m2, g, RotateDown(Sub(m2, g), Other(d)))
    ensures m3 == ReplaceAt(t, g, NearTurn(Sub(t, g), d))
  {
    var x := Sub(t, g);
    ReplaceAtSelf(t, g);
    SubStep(t, g, d);
    var x1 := WithChild(x, d, Colored(Child(x, d), Black));
    assert m1 == ReplaceAt(t, g, x1) by {
      if Child(x, d).Node? {
        RecolorBelow(t, g, x, [d], Black);
        RecolorChild(x, d, Black);
      } else {
        assert x1 == x;
      }
    }
    assert g + [] == g;
    RecolorBelow(t, g, x1, [], Red);
    assert m2 == ReplaceAt(t, g, x1.(info := Red));
    assert x1.(info := Red) == WithChild(x.(info := Red), d, Colored(Child(x, d), Black));
    ReplaceAtSub(t, g, x1.(info := Red));
    ReplaceAtTwice(t, g, x1.(info := Red), RotateDown(x1.(info := Red), Other(d)));
  }

  /** Recolouring the grandchild of `x` on the far side `o`, when there is one. */
  lemma FarRecolor(x: RbTree, o: Dir)
    requires x.Node? && Child(x, o).Node?
    ensures ValidPath(x, [o, o]) && Sub(x, [o, o]) == Child(Child(x, o), o)
    ensures Child(Child(x, o), o).Node? ==>
      Recolor(x, [o, o], Black) == WithChild(x, o, WithChild(Child(x, o), o, Colored(Child(Child(x, o), o), Black)))
  {
    assert [o, o][1..] == [o];
    assert [o][1..] == [];
    var y := Child(x, o);
    assert ValidPath(y, [o]);
    assert Sub(y, [o]) == Sub(Child(y, o), []) == Child(y, o);
    if Child(y, o).Node? {
      RecolorStep(x, [o, o], Black);
      RecolorChild(Child(x, o), o, Black);
    }
  }

  /** The end of a finishing pass at the parent `r`: the sibling takes the parent's
      colour, the parent and the sibling's far child (if any) turn black, and the parent
      is rotated down towards the node. */
  lemma FinalTurnSteps(t: RbTree, r: Path, d: Dir, m1: RbTree, m2: RbTree, m3: RbTree, m4: RbTree)
    requires ValidPath(t, r) && Sub(t, r).Node? && Child(Sub(t, r), Other(d)).Node?
    requires ValidPath(t, r + [Other(d)]) && Sub(t, r + [Other(d)]).Node? && m1 == Recolor(t, r + [Other(d)], Sub(t, r).info)
    requires ValidPath(m1, r) && Sub(m1, r).Node? && m2 == Recolor(m1, r, Black)
    requires ValidPath(m2, r + [Other(d)] + [Other(d)])
    requires m3 == if Sub(m2, r + [Other(d)] + [Other(d)]).Node? then Recolor(m2, r + [Other(d)] + [Other(d)], Black) else m2
    requires ValidPath(m3, r) && m4 == ReplaceAt(m3, r, RotateDown(Sub(m3, r), d))
    ensures m4 == ReplaceAt(t, r, FinalTurn(Sub(t, r), Child(Sub(t, r), Other(d)), d))
  {
    var o := Other(d);
    var x := Sub(t, r);
    var s2 := Child(x, o);
    ReplaceAtSelf(t, r);
    RecolorBelow(t, r, x, [o], x.info);
    RecolorChild(x, o, x.info);
    var x1 := WithChild(x, o, s2.(info := x.info));
    assert m1 == ReplaceAt(t, r, x1);
    assert r + [] == r;
    RecolorBelow(t, r, x1, [], Black);
    var x2 := x1.(info := Black);
    assert m2 == ReplaceAt(t, r, x2);
    var s3 := WithChild(s2.(info := x.info), o, Colored(Child(s2, o), Black));
    var x3 := WithChild(x.(info := Black), o, s3);
    FarRecolor(x2, o);
    assert Child(x2, o) == s2.(info := x.info);
    assert x3 == WithChild(x2, o, WithChild(Child(x2, o), o, Colored(Child(Child(x2, o), o), Black)));
    assert r + [o] + [o] == r + [o, o];
    ReplaceBelow(t, r, x2, [o, o], Nil);
    assert m3 == ReplaceAt(t, r, x3) by {
      if Sub(x2, [o, o]).Node? {
        RecolorBelow(t, r, x2, [o, o], Black);
      }
    }
    ReplaceAtSub(t, r, x3);
    ReplaceAtTwice(t, r, x3, RotateDown(x3, d));
  }

  /** A finishing pass, the sibling at `r + [Other(d)]` having a red child: after the
      inner turn the sibling's subtree is `NearTurn` of it, and after the end of the pass
      the loop stops at the root. */
  lemma FinishPass(t: RbTree, r: Path, d: Dir, m: RbTree)
    requires ValidPath(t, r) && Sub(t, r).Node?
    requires var s1 := Child(Sub(t, r), Other(d)); s1.Node? && (IsRed(s1.left) || IsRed(s1.right))
    requires ValidPath(t, r + [Other(d)]) && Sub(t, r + [Other(d)]).Node?
    requires m == ReplaceAt(t, r + [Other(d)], NearTurn(Sub(t, r + [Other(d)]), d))
    ensures ValidPath(m, r) && Sub(m, r).Node? && ValidPath(m, r + [Other(d)]) && Sub(m, r + [Other(d)]).Node?
    ensures Sub(m, r) == WithChild(Sub(t, r), Other(d), Sub(m, r + [Other(d)]))
    ensures SiblingFix(t, r, d) == FixDel(ReplaceAt(m, r, FinalTurn(Sub(m, r), Sub(m, r + [Other(d)]), d)), [])
  {
    var o := Other(d);
    var x := Sub(t, r);
    var y := NearTurn(Child(x, o), d);
    SubStep(t, r, o);
    ReplaceAtSelf(t, r);
    ReplaceChild(t, r, x, o, y);
    assert m == ReplaceAt(t, r, WithChild(x, o, y));
    ReplaceAtSub(t, r, WithChild(x, o, y));
    SubStep(m, r, o);
    ReplaceAtTwice(t, r, WithChild(x, o, y), FinalTurn(WithChild(x, o, y), y, d));
    assert FinalTurn(WithChild(x, o, y), y, d) == FinalTurn(x, y, d);
  }

  // ---------------------------------------------------------------- flipping a colour

  function Toggled(c: Color): Color
  {
    if c == Red then Black else Red
  }

  /** `flipNodeColor`: the node the comparisons from the root reach for `v`, if any,
      changes colour. */
  function FlipColor(t: RbTree, v: int): RbTree
  {
    var p := SearchPath(t, v);
    if Sub(t, p).Nil? then t else Recolor(t, p, Toggled(Sub(t, p).info))
  }

  /** Recolouring the node at `p` changes the colour found at `p` and at no other path,
      and leaves the keys and the shape as they were. */
  lemma {:induction false} RecolorOnly(t: RbTree, p: Path, c: Color, q: Path)
    requires ValidPath(t, p) && Sub(t, p).Node? && ValidPath(t, q)
    ensures ValidPath(Recolor(t, p, c), q)
    ensures Sub(Recolor(t, p, c), q).Node? == Sub(t, q).Node?
    ensures Sub(t, q).Node? ==>
      Sub(Recolor(t, p, c), q).value == Sub(t, q).value &&
      Sub(Recolor(t, p, c), q).info == if q == p then c else Sub(t, q).info
  {
    if p != [] && q != [] {
      RecolorStep(t, p, c);
      if p[0] == q[0] {
        RecolorOnly(Child(t, p[0]), p[1..], c, q[1..]);
        assert p[1..] == q[1..] <==> p == q by {
          assert p == [p[0]] + p[1..] && q == [q[0]] + q[1..];
        }
      } else {
        assert p != q;
      }
    } else if p == [] && q != [] {
      assert Recolor(t, p, c) == t.(info := c);
    } else if p != [] && q == [] {
      RecolorStep(t, p, c);
    }
  }

  lemma {:induction false} EraseRecolor(t: RbTree, p: Path, c: Color)
    requires ValidPath(t, p) && Sub(t, p).Node?
    ensures Erase(Recolor(t, p, c)) == Erase(t)
  {
    if p != [] {
      RecolorStep(t, p, c);
      EraseRecolor(Child(t, p[0]), p[1..], c);
    }
  }

  /** Flipping changes exactly one thing: the colour of the node the search for `v`
      ends at, when the search ends at a node. Keys and shape stay. */
  lemma FlipColorOnly(t: RbTree, v: int, q: Path)
    requires ValidPath(t, q)
    ensures Erase(FlipColor(t, v)) == Erase(t)
    ensures ValidPath(FlipColor(t, v), q) && Sub(FlipColor(t, v), q).Node? == Sub(t, q).Node?
    ensures Sub(t, q).Node? ==>
      Sub(FlipColor(t, v), q).value == Sub(t, q).value &&
      Sub(FlipColor(t, v), q).info == if q == SearchPath(t, v) then Toggled(Sub(t, q).info) else Sub(t, q).info
  {
    var p := SearchPath(t, v);
    if Sub(t, p).Node? {
      EraseRecolor(t, p, Toggled(Sub(t, p).info));
      RecolorOnly(t, p, Toggled(Sub(t, p).info), q);
    }
  }

  /** A key not held leaves the tree as it is; on a search tree a key held is the key of
      the node that changes colour. */
  lemma FlipColorFinds(t: RbTree, v: int)
    ensures v !in Values(t) ==> FlipColor(t, v) == t
    ensures Ordered(t) && v in Values(t) ==>
      var p := SearchPath(t, v); Sub(t, p).Node? && Sub(t, p).value == v
  {
    if v !in Values(t) {
      SearchPathNotHeld(t, v);
    }
    if Ordered(t) {
      SearchPathFinds(t, v);
    }
  }

  lemma {:induction false} SearchPathNotHeld<A>(t: Tree<A>, v: int)
    requires v !in Values(t)
    ensures Sub(t, SearchPath(t, v)).Nil?
  {
    if t.Node? {
      SearchPathNotHeld(t.left, v);
      SearchPathNotHeld(t.right, v);
    }
  }

  /** Flipping twice restores the tree. */
  lemma FlipColorTwice(t: RbTree, v: int)
    ensures FlipColor(FlipColor(t, v), v) == t
  {
    var p := SearchPath(t, v);
    if Sub(t, p).Node? {
      var c := Toggled(Sub(t, p).info);
      var u := Recolor(t, p, c);
      EraseRecolor(t, p, c);
      EraseSearchPath(u, v);
      EraseSearchPath(t, v);
      assert SearchPath(u, v) == p;
      ReplaceAtTwice(t, p, Sub(t, p).(info := c), Sub(t, p));
      ReplaceAtSelf(t, p);
    }
  }
}
