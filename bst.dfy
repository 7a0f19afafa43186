/** The unbalanced binary search tree engine: linked nodes updated in place.
    The ghost `shape` is the tree as a value, its payloads being the node objects; the
    heap agrees with it (`Linked`), and every method is proved against the functional
    definitions of module Trees. */
module Bst {
  import opened Trees

  class Node {
    var value: int
    var left: Node?
    var right: Node?

    constructor (value: int)
      ensures this.value == value && left == null && right == null
    {
      this.value := value;
      left := null;
      right := null;
    }
  }

  /** A linked tree as a value: each tree node records a key and the object holding it. */
  type Shape = Tree<Node>

  function RootOf(s: Shape): Node?
  {
    if s.Nil? then null else s.info
  }

  /** The key and child fields of the heap follow the shape. */
  ghost predicate Linked(s: Shape)
    reads Infos(s)
  {
    match s
    case Nil => true
    case Node(l, v, n, r) => n.value == v && n.left == RootOf(l) && n.right == RootOf(r) && Linked(l) && Linked(r)
  }

  lemma {:induction false} LinkedSub(s: Shape, p: Path)
    requires ValidPath(s, p) && Linked(s)
    ensures Linked(Sub(s, p))
  {
    if p != [] {
      LinkedSub(Child(s, p[0]), p[1..]);
    }
  }

  /** Which of the parent's slots holds the node at `p`. */
  lemma SlotDir(s: Shape, p: Path)
    requires ValidPath(s, p) && Distinct(s) && Linked(s) && p != [] && Sub(s, p).Node?
    ensures ValidPath(s, p[..|p| - 1]) && Sub(s, p[..|p| - 1]).Node?
    ensures Sub(s, p[..|p| - 1]).info.left == Sub(s, p).info <==> p[|p| - 1] == Left
  {
    var pp := p[..|p| - 1];
    ParentPath(s, p);
    SubInfos(s, pp);
    LinkedSub(s, pp);
    var par, n := Sub(s, pp), Sub(s, p).info;
    if p[|p| - 1] == Right {
      assert n in Infos(par.right);
      assert par.left.Node? ==> par.left.info in Infos(par.left);
    }
  }

  // ---------------------------------------------------------------- heap frames

  lemma {:induction false} Allocated(s: Shape)
    ensures forall n | n in Infos(s) :: allocated(n)
  {
    if s.Node? {
      Allocated(s.left);
      Allocated(s.right);
    }
  }

  /** A shape none of whose nodes changed is still linked. */
  twostate lemma {:induction false} Unchanged(s: Shape)
    requires old(Linked(s))
    requires forall n | n in Infos(s) :: old(allocated(n))
    requires forall n | n in Infos(s) :: n.value == old(n.value) && n.left == old(n.left) && n.right == old(n.right)
    ensures Linked(s)
  {
    if s.Node? {
      Unchanged(s.left);
      Unchanged(s.right);
    }
  }

  /** The shape `graft` put in place of the subtree of `host` at path `at`. */
  datatype Splice = Splice(host: Shape, at: Path, graft: Shape)

  /** Replacing the subtree at a path by a linked shape with the same root node, every
      node outside that subtree being unchanged, gives a linked shape. */
  twostate lemma {:induction false} Reframed(sp: Splice)
    requires ValidPath(sp.host, sp.at) && Distinct(sp.host) && old(Linked(sp.host)) && Linked(sp.graft)
    requires sp.at != [] ==> RootOf(sp.graft) == RootOf(Sub(sp.host, sp.at))
    requires forall n | n in Infos(sp.host) :: old(allocated(n))
    requires forall n | n in Infos(sp.host) - Infos(Sub(sp.host, sp.at)) ::
      n.value == old(n.value) && n.left == old(n.left) && n.right == old(n.right)
    ensures Linked(ReplaceAt(sp.host, sp.at, sp.graft))
    decreases sp.at
  {
    var Splice(s, p, x) := sp;
    if p != [] {
      var d := p[0];
      var c, o := Child(s, d), Child(s, if d == Left then Right else Left);
      SubInfos(c, p[1..]);
      assert Infos(c) <= Infos(s) && Infos(o) <= Infos(s) - Infos(Sub(s, p));
      Unchanged(o);
      Reframed(Splice(c, p[1..], x));
    }
  }

  /** The end of a rotation: the parent's slot is redirected to the promoted node. */
  twostate lemma Reattached(sp: Splice)
    requires ValidPath(sp.host, sp.at) && sp.at != [] && Distinct(sp.host) && old(Linked(sp.host))
    requires Linked(sp.graft) && sp.graft.Node?
    requires forall n | n in Infos(sp.host) :: old(allocated(n))
    requires ValidPath(sp.host, sp.at[..|sp.at| - 1]) && Sub(sp.host, sp.at[..|sp.at| - 1]).Node?
    requires old(Linked(Sub(sp.host, sp.at[..|sp.at| - 1])))
    requires var pn := Sub(sp.host, sp.at[..|sp.at| - 1]).info;
      pn.value == old(pn.value) &&
      if sp.at[|sp.at| - 1] == Left then pn.left == RootOf(sp.graft) && pn.right == old(pn.right)
      else pn.right == RootOf(sp.graft) && pn.left == old(pn.left)
    requires forall n | n in Infos(sp.host) - Infos(Sub(sp.host, sp.at)) - {Sub(sp.host, sp.at[..|sp.at| - 1]).info} ::
      n.value == old(n.value) && n.left == old(n.left) && n.right == old(n.right)
    ensures Linked(ReplaceAt(sp.host, sp.at, sp.graft))
  {
    var Splice(s, p, fin) := sp;
    var pp, d := p[..|p| - 1], p[|p| - 1];
    ParentPath(s, p);
    SubInfos(s, pp);
    var par := Sub(s, pp);
    var o := Child(par, if d == Left then Right else Left);
    assert Infos(o) <= Infos(s) - Infos(Sub(s, p)) - {par.info};
    Unchanged(o);
    var par' := if d == Left then Node(fin, par.value, par.info, par.right) else Node(par.left, par.value, par.info, fin);
    assert Linked(par');
    Reframed(Splice(s, pp, par'));
    assert p == pp + [d];
    assert ReplaceAt(par, [d], fin) == par' by { assert [d][1..] == []; }
    ReplaceAtAppend(s, pp, [d], fin);
  }

  /** A rotation at path `at` of `host`, promoting the left child when `rightwards`. */
  datatype Site = Site(host: Shape, at: Path, rightwards: bool)

  /** The field writes at the start of `_rotateLeft` / `_rotateRight` (the demoted node
      takes over the promoted child's inner subtree and becomes its child) leave the tree
      reaching the demoted node, now heading `Demoted`, and the promoted node heading the
      rotated subtree. */
  twostate lemma Pivoted(site: Site)
    requires ValidPath(site.host, site.at) && Distinct(site.host) && old(Linked(site.host))
    requires forall n | n in Infos(site.host) :: old(allocated(n))
    requires var sub := Sub(site.host, site.at);
      sub.Node? && (if site.rightwards then sub.left.Node? else sub.right.Node?) && old(Linked(sub))
    requires var sub := Sub(site.host, site.at); var n := sub.info;
      var m := if site.rightwards then sub.left.info else sub.right.info;
      old(allocated(n)) && old(allocated(m)) &&
      n.value == old(n.value) && m.value == old(m.value) &&
      if site.rightwards then
        n.left == old(m.right) && n.right == old(n.right) && m.right == n && m.left == old(m.left)
      else
        n.right == old(m.left) && n.left == old(n.left) && m.left == n && m.right == old(m.right)
    requires var sub := Sub(site.host, site.at);
      var m := if site.rightwards then sub.left.info else sub.right.info;
      forall o | o in Infos(site.host) && o != sub.info && o != m ::
        o.value == old(o.value) && o.left == old(o.left) && o.right == old(o.right)
    ensures var sub := Sub(site.host, site.at);
      Linked(ReplaceAt(site.host, site.at, Demoted(sub, site.rightwards))) && Linked(Rotation(sub, site.rightwards))
  {
    var Site(s, p, rw) := site;
    var sub := Sub(s, p);
    SubInfos(s, p);
    var near := if rw then sub.left else sub.right;
    var a, b, c := if rw then near.left else sub.left, if rw then near.right else near.left,
      if rw then sub.right else near.right;
    assert Infos(a) + Infos(b) + Infos(c) <= Infos(sub) - {sub.info, near.info};
    Unchanged(a);
    Unchanged(b);
    Unchanged(c);
    assert Linked(Demoted(sub, rw));
    Reframed(Splice(s, p, Demoted(sub, rw)));
  }

  // ---------------------------------------------------------------- read-only lookups

  /** `_findNode`: follow the comparison path from `node` towards `value`. */
  function FindNode(node: Node?, ghost s: Shape, value: int): (r: Node?)
    reads Infos(s)
    requires RootOf(s) == node && Linked(s)
    ensures r == RootOf(Sub(s, SearchPath(s, value)))
    ensures Ordered(s) ==> (r == null <==> value !in Values(s)) && (r != null ==> r.value == value)
    decreases s
  {
    LinkedSub(s, SearchPath(s, value));
    SearchFindsIfOrdered(s, value);
    if node == null || node.value == value then node
    else if value < node.value then FindNode(node.left, s.left, value)
    else FindNode(node.right, s.right, value)
  }

  /** `_findParent`: the node with a direct child holding `value`; null when `value`
      is at the root or absent. */
  function FindParent(node: Node?, ghost s: Shape, value: int): (r: Node?)
    reads Infos(s)
    requires RootOf(s) == node && Linked(s) && Ordered(s)
    ensures var p := SearchPath(s, value);
      if value in Values(s) && p != [] then
        ValidPath(s, p[..|p| - 1]) && Sub(s, p[..|p| - 1]).Node? && r == Sub(s, p[..|p| - 1]).info
      else r == null
    decreases s
  {
    SearchPathFinds(s, value);
    if node == null || node.value == value then null
    else
    assert node.left != null ==> node.left == s.left.info && node.left in Infos(s);
    assert node.right != null ==> node.right == s.right.info && node.right in Infos(s);
    if (node.left != null && node.left.value == value) || (node.right != null && node.right.value == value) then
      ParentHere(s, value);
      node
    else if value < node.value then
      ParentStep(s, value, Left);
      FindParent(node.left, s.left, value)
    else
      ParentStep(s, value, Right);
      FindParent(node.right, s.right, value)
  }

  /** A direct child holding `value` is the end of the search path. */
  lemma ParentHere(s: Shape, value: int)
    requires s.Node? && Linked(s) && Ordered(s) && s.value != value
    requires (s.info.left != null && s.info.left.value == value) || (s.info.right != null && s.info.right.value == value)
    ensures var p := SearchPath(s, value);
      value in Values(s) && |p| == 1 && ValidPath(s, p[..0]) && Sub(s, p[..0]) == s
  {
    if s.info.left != null && s.info.left.value == value {
      assert s.left.value == value && value in Values(s.left);
      assert SearchPath(s.left, value) == [];
    } else {
      assert s.right.value == value && value in Values(s.right);
      assert SearchPath(s.right, value) == [];
    }
  }

  /** When neither child holds `value`, the parent search continues on the comparison side. */
  lemma ParentStep(s: Shape, value: int, d: Dir)
    requires s.Node? && Linked(s) && Ordered(s) && s.value != value
    requires d == (if value < s.value then Left else Right)
    requires RootOf(Child(s, d)) == null || RootOf(Child(s, d)).value != value
    ensures Linked(Child(s, d)) && Ordered(Child(s, d))
    ensures var p, q := SearchPath(s, value), SearchPath(Child(s, d), value);
      p == [d] + q &&
      (value in Values(s) <==> value in Values(Child(s, d))) &&
      (value in Values(Child(s, d)) ==>
        q != [] && ValidPath(Child(s, d), q[..|q| - 1]) &&
        ValidPath(s, p[..|p| - 1]) && Sub(s, p[..|p| - 1]) == Sub(Child(s, d), q[..|q| - 1]))
  {
    var c := Child(s, d);
    SearchPathSide(s, value, d);
    var p, q := SearchPath(s, value), SearchPath(c, value);
    if value in Values(c) {
      assert q != [] by { SearchPathFinds(c, value); }
      ValidPathPrefix(c, q, |q| - 1);
      var q' := q[..|q| - 1];
      assert p[..|p| - 1] == [d] + q';
      assert ([d] + q')[0] == d && ([d] + q')[1..] == q';
    }
  }

  lemma SearchFindsIfOrdered<A>(t: Tree<A>, v: int)
    ensures var s := Sub(t, SearchPath(t, v));
      Ordered(t) ==> (v in Values(t) <==> s.Node?) && (s.Node? ==> s.value == v)
  {
    if Ordered(t) {
      SearchPathFinds(t, v);
    }
  }

  // ---------------------------------------------------------------- rotations on values

  /** What `rotate(parentValue, childValue)` does to the tree: find `parentValue` by
      comparison; right-rotate there when `childValue` is smaller and a left child
      exists, left-rotate when it is larger and a right child exists; otherwise nothing.
      Only the side is looked at: the child's own key is never compared with
      `childValue`. */
  function Rotated<A>(t: Tree<A>, parentValue: int, childValue: int): Tree<A>
  {
    var p := SearchPath(t, parentValue);
    var n := Sub(t, p);
    if n.Nil? then t
    else if childValue < parentValue && n.left.Node? then ReplaceAt(t, p, Trees.RotateRight(n))
    else if childValue > parentValue && n.right.Node? then ReplaceAt(t, p, Trees.RotateLeft(n))
    else t
  }

  /** A rotation never changes the inorder sequence, hence neither the keys held nor the
      ordering. */
  lemma RotatedPreservesInorder<A>(t: Tree<A>, parentValue: int, childValue: int)
    ensures Inorder(Rotated(t, parentValue, childValue)) == Inorder(t)
    ensures Values(Rotated(t, parentValue, childValue)) == Values(t)
    ensures Ordered(Rotated(t, parentValue, childValue)) <==> Ordered(t)
  {
    var p := SearchPath(t, parentValue);
    RotateAtPreservesInorder(t, p, true);
    RotateAtPreservesInorder(t, p, false);
  }

  /** `rotate` is a no-op when `parentValue` is absent. */
  lemma RotatedAbsentParent<A>(t: Tree<A>, parentValue: int, childValue: int)
    requires Ordered(t) && parentValue !in Values(t)
    ensures Rotated(t, parentValue, childValue) == t
  {
    SearchPathFinds(t, parentValue);
  }

  /** The quirk of `rotate`: a left child far below the named one is promoted all the
      same, because only the side of `childValue` is checked. */
  lemma RotatedIgnoresChildKey()
    ensures var t := Node(Node(Nil, 3, (), Nil), 5, (), Nil);
      Rotated(t, 5, 1) == Node(Nil, 3, (), Node(Nil, 5, (), Nil))
  {
  }

  lemma EraseRotated<A>(t: Tree<A>, parentValue: int, childValue: int)
    ensures Erase(Rotated(t, parentValue, childValue)) == Rotated(Erase(t), parentValue, childValue)
  {
    var p := SearchPath(t, parentValue);
    var n := Sub(t, p);
    assert SearchPath(Erase(t), parentValue) == p && Sub(Erase(t), p) == Erase(n) by {
      EraseSearchPath(t, parentValue);
      EraseSub(t, p);
    }
    if n.Nil? {
    } else if childValue < parentValue && n.left.Node? {
      EraseRotate(n);
      EraseReplaceAt(t, p, Trees.RotateRight(n));
    } else if childValue > parentValue && n.right.Node? {
      EraseRotate(n);
      EraseReplaceAt(t, p, Trees.RotateLeft(n));
    }
  }

  /** The demoted node of a rotation at the root of `sub`, with its remaining children. */
  function Demoted<A>(sub: Tree<A>, rightwards: bool): Tree<A>
    requires sub.Node? && (if rightwards then sub.left.Node? else sub.right.Node?)
  {
    if rightwards then Node(sub.left.right, sub.value, sub.info, sub.right)
    else Node(sub.left, sub.value, sub.info, sub.right.left)
  }

  function Rotation<A>(sub: Tree<A>, rightwards: bool): Tree<A>
  {
    if rightwards then Trees.RotateRight(sub) else Trees.RotateLeft(sub)
  }

  /** The two states a rotation at `p` goes through, as values: first the demoted node
      alone in place (`Demoted`), then the rotated subtree. */
  lemma RotationShapes<A>(t: Tree<A>, p: Path, rightwards: bool)
    requires ValidPath(t, p) && Distinct(t) && Ordered(t)
    requires var sub := Sub(t, p); sub.Node? && (if rightwards then sub.left.Node? else sub.right.Node?)
    ensures var sub := Sub(t, p); var mid := Demoted(sub, rightwards);
      var fin := Rotation(sub, rightwards);
      Infos(mid) <= Infos(sub) && Infos(fin) == Infos(sub) && fin.Node? &&
      Infos(ReplaceAt(t, p, mid)) == (Infos(t) - Infos(sub)) + Infos(mid) &&
      Distinct(ReplaceAt(t, p, mid)) && Ordered(ReplaceAt(t, p, mid)) &&
      Distinct(ReplaceAt(t, p, fin)) && Ordered(ReplaceAt(t, p, fin)) && Infos(ReplaceAt(t, p, fin)) == Infos(t)
  {
    var sub := Sub(t, p);
    var mid := Demoted(sub, rightwards);
    var fin := Rotation(sub, rightwards);
    SubInfos(t, p);
    OrderedSub(t, p);
    RotationMidOrdered(sub);
    OrderedReplaceSubset(t, p, mid);
    ReplaceInfos(t, p, mid);
    ReplaceInfos(t, p, fin);
    RotateAtPreservesInorder(t, p, rightwards);
  }

  /** The tree that inserting 5, 3, 8, 1, 4 into an empty tree should build. */
  function ExampleTree(): Tree<()>
  {
    Node(Node(Node(Nil, 1, (), Nil), 3, (), Node(Nil, 4, (), Nil)), 5, (), Node(Nil, 8, (), Nil))
  }

  lemma ExampleInsertions()
    ensures Trees.Insert(Trees.Insert(Trees.Insert(Trees.Insert(Trees.Insert(Nil, 5, ()), 3, ()), 8, ()), 1, ()), 4, ()) == ExampleTree()
  {
  }

  lemma ExampleDepthFirst()
    ensures Trees.Inorder(ExampleTree()) == [1, 3, 4, 5, 8]
    ensures Trees.Preorder(ExampleTree()) == [5, 3, 1, 4, 8]
    ensures Trees.Postorder(ExampleTree()) == [1, 4, 3, 8, 5]
  {
    var three := ExampleTree().left;
    assert Trees.Inorder(three) == [1, 3, 4];
    assert Trees.Preorder(three) == [3, 1, 4];
    assert Trees.Postorder(three) == [1, 4, 3];
  }

  lemma ExampleLevelOrder()
    ensures Trees.LevelOrder(ExampleTree()) == [5, 3, 8, 1, 4]
  {
    var t := ExampleTree();
    var three, leaf8 := t.left, t.right;
    assert Bfs([three, leaf8]) == [3, 8, 1, 4] by {
      BfsStep([three, leaf8]);
      assert [three, leaf8][1..] + Kids(three.left, three.right) == [leaf8, three.left, three.right];
      ExampleBfsLeaves();
    }
    BfsStep([t]);
    assert [t][1..] + Kids(three, leaf8) == [three, leaf8];
  }

  /** The last three steps of the breadth-first walk over `ExampleTree`: the leaves. */
  lemma ExampleBfsLeaves()
    ensures var t := ExampleTree(); Bfs([t.right, t.left.left, t.left.right]) == [8, 1, 4]
  {
    var t := ExampleTree();
    var leaf1, leaf4, leaf8 := t.left.left, t.left.right, t.right;
    BfsLeaf([leaf8, leaf1, leaf4]);
    BfsLeaf([leaf1, leaf4]);
    BfsLeaf([leaf4]);
    assert [leaf8, leaf1, leaf4][1..] == [leaf1, leaf4];
    assert [leaf1, leaf4][1..] == [leaf4];
    assert [leaf4][1..] == [];
  }

  /** A leaf at the head of the queue is visited and leaves nothing behind. */
  lemma BfsLeaf(q: seq<Tree<()>>)
    requires q != [] && q[0].Node? && q[0].left.Nil? && q[0].right.Nil?
    ensures Bfs(q) == [q[0].value] + Bfs(q[1..])
  {
    BfsStep(q);
    assert q[1..] + Kids(Nil, Nil) == q[1..];
  }

  // ---------------------------------------------------------------- the tree object

  class BST {
    var root: Node?
    ghost var shape: Shape

    /** The heap holds `shape`, a binary search tree of distinct node objects. */
    ghost predicate Valid()
      reads this, Infos(shape)
    {
      RootOf(shape) == root && Distinct(shape) && Linked(shape) && Ordered(shape)
    }

    /** The keys the object holds, arranged as its nodes are. */
    ghost function Model(): Tree<()>
      reads this
    {
      Erase(shape)
    }

    /** Wraps an existing linked root (the empty tree when `root` is null). */
    constructor (root: Node?, ghost shape: Shape)
      requires RootOf(shape) == root && Distinct(shape) && Linked(shape) && Ordered(shape)
      ensures Valid() && this.shape == shape
    {
      this.root := root;
      this.shape := shape;
    }

    method Insert(value: int)
      requires Valid()
      modifies this, Infos(shape)
      ensures Valid() && fresh(Infos(shape) - old(Infos(shape)))
      ensures Model() == Trees.Insert(old(Model()), value, ())
    {
      ghost var s := shape;
      Allocated(s);
      var newNode := new Node(value);
      assert Distinct(Trees.Insert(s, value, newNode)) && Infos(Trees.Insert(s, value, newNode)) <= Infos(s) + {newNode} by {
        InsertInfos(s, value, newNode);
      }
      EraseInsert(s, value, newNode);
      if root == null {
        root := newNode;
        shape := Node(Nil, value, newNode, Nil);
        return;
      }
      shape := InsertNode(root, shape, newNode);
    }

    /** `_insertNode`: link `newNode` as a leaf at the first empty slot on its path. */
    method InsertNode(node: Node, ghost s: Shape, newNode: Node) returns (ghost s': Shape)
      requires s.Node? && s.info == node && Distinct(s) && Linked(s)
      requires newNode !in Infos(s) && newNode.left == null && newNode.right == null
      modifies Infos(s)
      ensures Linked(s') && s' == Trees.Insert(s, newNode.value, newNode)
      decreases s
    {
      Allocated(s);
      if newNode.value == node.value {
        s' := s;
      } else if newNode.value < node.value {
        if node.left == null {
          node.left := newNode;
          s' := Node(Node(Nil, newNode.value, newNode, Nil), s.value, node, s.right);
          Unchanged(s.right);
        } else {
          var sl := InsertNode(node.left, s.left, newNode);
          s' := Node(sl, s.value, node, s.right);
          Unchanged(s.right);
        }
      } else {
        if node.right == null {
          node.right := newNode;
          s' := Node(s.left, s.value, node, Node(Nil, newNode.value, newNode, Nil));
          Unchanged(s.left);
        } else {
          var sr := InsertNode(node.right, s.right, newNode);
          s' := Node(s.left, s.value, node, sr);
          Unchanged(s.left);
        }
      }
    }

    method Delete(value: int)
      requires Valid()
      modifies this, Infos(shape)
      ensures Valid() && Infos(shape) <= old(Infos(shape))
      ensures Model() == Trees.Delete(old(Model()), value)
    {
      ghost var s := shape;
      DeleteInfos(s, value);
      EraseDelete(s, value);
      root, shape := DeleteNode(root, shape, value);
    }

    /** `_deleteNode`: the new root of the subtree after removing `value` from it. */
    method DeleteNode(node: Node?, ghost s: Shape, value: int) returns (r: Node?, ghost s': Shape)
      requires RootOf(s) == node && Distinct(s) && Linked(s)
      modifies Infos(s)
      ensures Linked(s') && RootOf(s') == r && s' == Trees.Delete(s, value)
      decreases s, 1
    {
      if node == null {
        return null, Nil;
      }
      Allocated(s);
      if value < node.value {
        var l, sl := DeleteNode(node.left, s.left, value);
        node.left := l;
        r, s' := node, Node(sl, s.value, node, s.right);
        Unchanged(s.right);
        assert Infos(sl) <= Infos(s.left) by { DeleteInfos(s.left, value); }
      } else if value > node.value {
        var rt, sr := DeleteNode(node.right, s.right, value);
        node.right := rt;
        r, s' := node, Node(s.left, s.value, node, sr);
        Unchanged(s.left);
        assert Infos(sr) <= Infos(s.right) by { DeleteInfos(s.right, value); }
      } else {
        if node.left == null {
          return node.right, s.right;
        }
        if node.right == null {
          return node.left, s.left;
        }
        r, s' := DeleteHere(node, s);
      }
    }

    /** The two-children case of `_deleteNode`: copy in the successor's key, then delete
        it from the right subtree. */
    method DeleteHere(node: Node, ghost s: Shape) returns (r: Node, ghost s': Shape)
      requires s.Node? && s.info == node && s.left.Node? && s.right.Node?
      requires Distinct(s) && Linked(s)
      modifies Infos(s)
      ensures Linked(s') && RootOf(s') == r && s' == Trees.Delete(s, s.value)
      decreases s, 0
    {
      Allocated(s);
      var minRight := FindMin(node.right, s.right);
      node.value := minRight.value;
      Unchanged(s.right);
      var rt, sr := DeleteNode(node.right, s.right, minRight.value);
      node.right := rt;
      r, s' := node, Node(s.left, Min(s.right), node, sr);
      Unchanged(s.left);
      assert Infos(sr) <= Infos(s.right) by { DeleteInfos(s.right, Min(s.right)); }
    }

    /** `_findMin`: walk left links to the leftmost node, which holds the minimum. */
    method FindMin(node: Node, ghost s: Shape) returns (m: Node)
      requires s.Node? && s.info == node && Linked(s)
      ensures ValidPath(s, LeftSpine(s)) && Sub(s, LeftSpine(s)).Node?
      ensures m == Sub(s, LeftSpine(s)).info && m.left == null && m.value == Min(s)
    {
      m := node;
      ghost var walked: Path := [];
      while m.left != null
        invariant ValidPath(s, walked) && Sub(s, walked).Node? && Sub(s, walked).info == m
        invariant Linked(Sub(s, walked))
        invariant walked + LeftSpine(Sub(s, walked)) == LeftSpine(s)
        decreases |LeftSpine(s)| - |walked|
      {
        SpineStep(s, walked);
        walked := walked + [Left];
        m := m.left;
      }
      SpineEnd(s, walked);
    }

    method Rotate(parentValue: int, childValue: int)
      requires Valid()
      modifies this, Infos(shape)
      ensures Valid() && Infos(shape) == old(Infos(shape))
      ensures shape == Rotated(old(shape), parentValue, childValue)
      ensures Model() == Rotated(old(Model()), parentValue, childValue)
    {
      ghost var s := shape;
      ghost var p := SearchPath(s, parentValue);
      EraseRotated(s, parentValue, childValue);
      var parent := FindNode(root, shape, parentValue);
      if parent == null {
        return;
      }
      LinkedSub(s, p);
      if childValue < parentValue && parent.left != null {
        RotateRight(parent, p);
      } else if childValue > parentValue && parent.right != null {
        RotateLeft(parent, p);
      }
    }

    /** `_rotateLeft`, for the node found at path `p`. */
    method RotateLeft(node: Node, ghost p: Path)
      requires Valid() && ValidPath(shape, p) && Sub(shape, p).Node? && Sub(shape, p).info == node
      modifies this, Infos(shape)
      ensures Valid() && Infos(shape) == old(Infos(shape))
      ensures shape == ReplaceAt(old(shape), p, Trees.RotateLeft(Sub(old(shape), p)))
    {
      ghost var s := shape;
      ghost var sub := Sub(s, p);
      Allocated(s);
      assert Linked(sub) && Distinct(sub) && Infos(sub) <= Infos(s) by {
        LinkedSub(s, p);
        SubInfos(s, p);
      }
      if node.right == null {
        assert ReplaceAt(s, p, sub) == s by { ReplaceAtSelf(s, p); }
        return;
      }
      assert sub.right.info == node.right && sub.right.info !in {node};
      var newRoot := node.right;
      node.right := newRoot.left;
      newRoot.left := node;
      Pivoted(Site(s, p, false));
      Relink(node, newRoot, p, false);
      assert Infos(shape) == Infos(s) by { RotationShapes(s, p, false); }
    }

    /** `_rotateRight`, for the node found at path `p`. */
    method RotateRight(node: Node, ghost p: Path)
      requires Valid() && ValidPath(shape, p) && Sub(shape, p).Node? && Sub(shape, p).info == node
      modifies this, Infos(shape)
      ensures Valid() && Infos(shape) == old(Infos(shape))
      ensures shape == ReplaceAt(old(shape), p, Trees.RotateRight(Sub(old(shape), p)))
    {
      ghost var s := shape;
      ghost var sub := Sub(s, p);
      Allocated(s);
      assert Linked(sub) && Distinct(sub) && Infos(sub) <= Infos(s) by {
        LinkedSub(s, p);
        SubInfos(s, p);
      }
      if node.left == null {
        assert ReplaceAt(s, p, sub) == s by { ReplaceAtSelf(s, p); }
        return;
      }
      assert sub.left.info == node.left && sub.left.info !in {node};
      var newRoot := node.left;
      node.left := newRoot.right;
      newRoot.right := node;
      Pivoted(Site(s, p, true));
      Relink(node, newRoot, p, true);
      assert Infos(shape) == Infos(s) by { RotationShapes(s, p, true); }
    }

    /** The common tail of `_rotateLeft` and `_rotateRight`: the promoted node `newRoot`
        takes the place of `node`, either as the root or in the slot of the parent that
        `_findParent` returns. On entry `node` has already been moved below `newRoot`:
        the tree still reaches it, holding the `Demoted` subtree at `p`, and `newRoot`
        heads the rotated subtree. */
    method Relink(node: Node, newRoot: Node, ghost p: Path, ghost rightwards: bool)
      requires RootOf(shape) == root && Distinct(shape) && Ordered(shape) && ValidPath(shape, p)
      requires var sub := Sub(shape, p);
        sub.Node? && sub.info == node && (if rightwards then sub.left.Node? else sub.right.Node?)
      requires Linked(ReplaceAt(shape, p, Demoted(Sub(shape, p), rightwards)))
      requires Linked(Rotation(Sub(shape, p), rightwards)) && RootOf(Rotation(Sub(shape, p), rightwards)) == newRoot
      modifies this, Infos(shape) - Infos(Sub(shape, p))
      ensures Valid() && shape == ReplaceAt(old(shape), p, Rotation(Sub(old(shape), p), rightwards))
    {
      ghost var s := shape;
      ghost var sub := Sub(s, p);
      ghost var mid, fin := Demoted(sub, rightwards), Rotation(sub, rightwards);
      ghost var sMid := ReplaceAt(s, p, mid);
      RotationShapes(s, p, rightwards);
      ReplaceAtSub(s, p, mid);
      Allocated(sMid);
      if node == root {
        assert p == [] by { RootOnlyAtTop(s, p); }
        root := newRoot;
        shape := fin;
        return;
      }
      assert Infos(sMid) - Infos(mid) <= Infos(s) - Infos(sub);
      assert Linked(fin) && Distinct(sMid) && Ordered(sMid) && RootOf(sMid) == root;
      assert Infos(fin) !! Infos(sMid) - Infos(mid);
      Reparent(node, newRoot, sMid, p, fin);
      ReplaceAtTwice(s, p, mid, fin);
      shape := ReplaceAt(s, p, fin);
    }

    /** The parent search and relinking of `Relink`, below the root: `_findParent` meets
        the node above `node`, whose slot then receives `newRoot`. */
    method Reparent(node: Node, newRoot: Node, ghost s: Shape, ghost p: Path, ghost fin: Shape)
      requires RootOf(s) == root && Distinct(s) && Linked(s) && Ordered(s) && ValidPath(s, p) && p != []
      requires Sub(s, p).Node? && Sub(s, p).info == node
      requires Linked(fin) && fin.Node? && fin.info == newRoot && Infos(fin) !! Infos(s) - Infos(Sub(s, p))
      modifies Infos(s) - Infos(Sub(s, p))
      ensures Linked(ReplaceAt(s, p, fin))
    {
      Allocated(s);
      Allocated(fin);
      ghost var pp := p[..|p| - 1];
      assert ValidPath(s, pp) && Sub(s, pp).Node? by { ParentPath(s, p); }
      assert Linked(Sub(s, pp)) && (Sub(s, pp).info.left == node <==> p[|p| - 1] == Left) by {
        LinkedSub(s, pp);
        SlotDir(s, p);
      }
      assert Sub(s, pp).info in Infos(s) - Infos(Sub(s, p)) by {
        ParentOutside(s, p);
      }
      assert SearchPath(s, node.value) == p && node.value in Values(s) by {
        LinkedSub(s, p);
        OrderedUniquePath(s, p);
        SubValue(s, p);
      }
      var parent := FindParent(root, s, node.value);
      assert parent == Sub(s, pp).info;
      if parent != null {
        Hook(parent, node, newRoot);
      }
      Unchanged(fin);
      Reattached(Splice(s, p, fin));
    }

    /** The slot of `parent` that held `node` receives `newRoot`. */
    method Hook(parent: Node, node: Node, newRoot: Node)
      modifies parent
      ensures parent.value == old(parent.value)
      ensures if old(parent.left) == node then parent.left == newRoot && parent.right == old(parent.right)
        else parent.right == newRoot && parent.left == old(parent.left)
    {
      if parent.left == node {
        parent.left := newRoot;
      } else {
        parent.right := newRoot;
      }
    }

    // -------------------------------------------------------------- traversals

    method Preorder() returns (result: seq<int>)
      requires Valid()
      ensures result == Trees.Preorder(Model())
    {
      EraseKeepsOrderAndTraversals(shape);
      result := PreorderFrom(root, shape, []);
    }

    method PreorderFrom(node: Node?, ghost s: Shape, acc: seq<int>) returns (result: seq<int>)
      requires RootOf(s) == node && Linked(s)
      ensures result == acc + Trees.Preorder(s)
      decreases s
    {
      if node == null {
        return acc;
      }
      Allocated(s);
      Allocated(s.right);
      result := acc + [node.value];
      result := PreorderFrom(node.left, s.left, result);
      result := PreorderFrom(node.right, s.right, result);
    }

    method Inorder() returns (result: seq<int>)
      requires Valid()
      ensures result == Trees.Inorder(Model())
    {
      EraseKeepsOrderAndTraversals(shape);
      result := InorderFrom(root, shape, []);
    }

    method InorderFrom(node: Node?, ghost s: Shape, acc: seq<int>) returns (result: seq<int>)
      requires RootOf(s) == node && Linked(s)
      ensures result == acc + Trees.Inorder(s)
      decreases s
    {
      if node == null {
        return acc;
      }
      Allocated(s);
      Allocated(s.right);
      result := InorderFrom(node.left, s.left, acc);
      result := result + [node.value];
      result := InorderFrom(node.right, s.right, result);
    }

    method Postorder() returns (result: seq<int>)
      requires Valid()
      ensures result == Trees.Postorder(Model())
    {
      EraseKeepsOrderAndTraversals(shape);
      result := PostorderFrom(root, shape, []);
    }

    method PostorderFrom(node: Node?, ghost s: Shape, acc: seq<int>) returns (result: seq<int>)
      requires RootOf(s) == node && Linked(s)
      ensures result == acc + Trees.Postorder(s)
      decreases s
    {
      if node == null {
        return acc;
      }
      Allocated(s);
      Allocated(s.right);
      result := PostorderFrom(node.left, s.left, acc);
      result := PostorderFrom(node.right, s.right, result);
      result := result + [node.value];
    }

    method LevelOrder() returns (result: seq<int>)
      requires Valid()
      ensures result == Trees.LevelOrder(Model())
    {
      EraseKeepsLevelOrder(shape);
      if root == null {
        return [];
      }
      result := LevelOrderFrom(root, shape);
    }

    /** The breadth-first walk from a non-empty linked shape, with a queue of nodes. */
    method LevelOrderFrom(top: Node, ghost s: Shape) returns (result: seq<int>)
      requires s.Node? && s.info == top && Linked(s)
      ensures result == Trees.LevelOrder(s)
    {
      result := [];
      var queue: seq<Node> := [top];
      ghost var gq: seq<Shape> := [s];
      while |queue| > 0
        invariant |queue| == |gq|
        invariant forall k | 0 <= k < |gq| :: gq[k].Node? && gq[k].info == queue[k] && Linked(gq[k])
        invariant result + Bfs(gq) == Trees.LevelOrder(s)
        decreases SizeSum(gq), |gq|
      {
        var node := queue[0];
        ghost var g := gq[0];
        assert gq == [g] + gq[1..];
        LevelStep(g, gq[1..]);
        queue := queue[1..];
        gq := gq[1..];
        result := result + [node.value];
        var kids := ChildrenOf(node, g);
        Enqueued(queue, gq, kids, Kids(g.left, g.right));
        queue := queue + kids;
        gq := gq + Kids(g.left, g.right);
      }
    }
  }

  // ---------------------------------------------------------------- helper lemmas

  /** One step of `_findMin` down the left spine. */
  lemma {:induction false} SpineStep(s: Shape, walked: Path)
    requires ValidPath(s, walked) && Sub(s, walked).Node? && Linked(Sub(s, walked))
    requires Sub(s, walked).info.left != null
    requires walked + LeftSpine(Sub(s, walked)) == LeftSpine(s)
    ensures ValidPath(s, walked + [Left]) && Sub(s, walked + [Left]) == Sub(s, walked).left
    ensures Sub(s, walked).left.Node? && Sub(s, walked).left.info == Sub(s, walked).info.left
    ensures Linked(Sub(s, walked).left)
    ensures (walked + [Left]) + LeftSpine(Sub(s, walked).left) == LeftSpine(s)
  {
    var cur := Sub(s, walked);
    assert cur.info.left == RootOf(cur.left) && cur.left.Node? && Linked(cur.left);
    SubStep(s, walked, Left);
    assert LeftSpine(cur) == [Left] + LeftSpine(cur.left);
    assert (walked + [Left]) + LeftSpine(cur.left) == walked + ([Left] + LeftSpine(cur.left));
  }

  /** Where `_findMin` stops: the leftmost node, holding the minimum. */
  lemma SpineEnd(s: Shape, walked: Path)
    requires ValidPath(s, walked) && Sub(s, walked).Node? && Linked(Sub(s, walked))
    requires Sub(s, walked).info.left == null
    requires walked + LeftSpine(Sub(s, walked)) == LeftSpine(s)
    ensures walked == LeftSpine(s) && Sub(s, walked).info.value == Min(s)
  {
    var cur := Sub(s, walked);
    assert LeftSpine(cur) == [];
    assert walked == walked + LeftSpine(cur);
    LeftSpineFindsMin(s);
  }

  /** One step of the level-order loop: dequeue `g`, enqueue its non-empty children. */
  lemma LevelStep(g: Shape, rest: seq<Shape>)
    requires g.Node? && Linked(g)
    ensures g.info.left == RootOf(g.left) && g.info.right == RootOf(g.right)
    ensures forall k | 0 <= k < |Kids(g.left, g.right)| :: Kids(g.left, g.right)[k].Node? && Linked(Kids(g.left, g.right)[k])
    ensures Bfs([g] + rest) == [g.value] + Bfs(rest + Kids(g.left, g.right))
    ensures SizeSum(rest + Kids(g.left, g.right)) < SizeSum([g] + rest)
    ensures Kids(g.left, g.right) == (if g.info.left != null then [g.left] else []) + (if g.info.right != null then [g.right] else [])
  {
    var Node(l, _, n, r) := g;
    assert n.left == RootOf(l) && n.right == RootOf(r) && Linked(l) && Linked(r);
    assert (n.left != null) == l.Node? && (n.right != null) == r.Node?;
    assert ([g] + rest)[0] == g && ([g] + rest)[1..] == rest;
    BfsStep([g] + rest);
  }

  /** The children of `node` that `levelOrder` enqueues, left first, paired with the
      subtrees of `g` they head. */
  function ChildrenOf(node: Node, ghost g: Shape): (kids: seq<Node>)
    requires g.Node? && g.info == node && node.left == RootOf(g.left) && node.right == RootOf(g.right)
    reads node
    ensures |kids| == |Kids(g.left, g.right)|
    ensures forall k | 0 <= k < |kids| :: Kids(g.left, g.right)[k].Node? && Kids(g.left, g.right)[k].info == kids[k]
  {
    (if node.left != null then [node.left] else []) + (if node.right != null then [node.right] else [])
  }

  /** Appending matching node objects and subtrees keeps the queue and its shapes aligned. */
  lemma Enqueued(queue: seq<Node>, gq: seq<Shape>, kids: seq<Node>, gk: seq<Shape>)
    requires |queue| == |gq| && forall k | 0 <= k < |gq| :: gq[k].Node? && gq[k].info == queue[k] && Linked(gq[k])
    requires |kids| == |gk| && forall k | 0 <= k < |gk| :: gk[k].Node? && gk[k].info == kids[k] && Linked(gk[k])
    ensures |queue + kids| == |gq + gk|
    ensures forall k | 0 <= k < |gq + gk| :: (gq + gk)[k].Node? && (gq + gk)[k].info == (queue + kids)[k] && Linked((gq + gk)[k])
  {
    forall k | 0 <= k < |gq + gk|
      ensures (gq + gk)[k].Node? && (gq + gk)[k].info == (queue + kids)[k] && Linked((gq + gk)[k])
    {
      if k < |gq| {
        assert (gq + gk)[k] == gq[k] && (queue + kids)[k] == queue[k];
      } else {
        assert (gq + gk)[k] == gk[k - |gq|] && (queue + kids)[k] == kids[k - |queue|];
      }
    }
  }
}
