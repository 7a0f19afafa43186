/** The AVL engine: a binary search tree of linked nodes that store their own height and
    are rebalanced by rotations on the way back up from every insertion and deletion.
    The first half defines the engine on values and proves what it promises; the second
    half is the heap class, proved to do exactly that to its nodes. */
module Avl {
  import opened Trees

  // ---------------------------------------------------------------- the engine on values

  /** `getBalanceFactor`: left height minus right height (0 for an empty tree). */
  function BalanceFactor<A>(t: Tree<A>): int
  {
    if t.Nil? then 0 else Height(t.left) - Height(t.right)
  }

  /** The AVL property: at every node the two subtrees differ in height by at most one. */
  predicate Balanced<A>(t: Tree<A>)
  {
    match t
    case Nil => true
    case Node(l, _, _, r) => -1 <= Height(l) - Height(r) <= 1 && Balanced(l) && Balanced(r)
  }

  /** The rebalancing at the end of `_insertNode`, after the key `v` went into one side
      of `n`: the four rotation cases, told apart by the balance factor of `n` and by the
      side of the child's key on which `v` lies. */
  function FixAfterInsert<A>(n: Tree<A>, v: int): (r: Tree<A>)
    requires n.Node?
    ensures Inorder(r) == Inorder(n)
  {
    var b := BalanceFactor(n);
    if b > 1 && v < n.left.value then RotateRight(n)
    else if b < -1 && v > n.right.value then RotateLeft(n)
    else if b > 1 && v > n.left.value then RotateRight(n.(left := RotateLeft(n.left)))
    else if b < -1 && v < n.right.value then RotateLeft(n.(right := RotateRight(n.right)))
    else n
  }

  /** The rebalancing at the end of `_deleteNode`: the four rotation cases, told apart by
      the balance factors of `n` and of its taller child. */
  function FixAfterDelete<A>(n: Tree<A>): (r: Tree<A>)
    requires n.Node?
    ensures Inorder(r) == Inorder(n)
  {
    var b := BalanceFactor(n);
    if b > 1 && BalanceFactor(n.left) >= 0 then RotateRight(n)
    else if b > 1 && BalanceFactor(n.left) < 0 then RotateRight(n.(left := RotateLeft(n.left)))
    else if b < -1 && BalanceFactor(n.right) <= 0 then RotateLeft(n)
    else if b < -1 && BalanceFactor(n.right) > 0 then RotateLeft(n.(right := RotateRight(n.right)))
    else n
  }

  /** `_insertNode`: descend by comparison, ignore a key met on the way, attach a new
      node with payload `i`, and rebalance every node on the way back up. As far as the
      sorted key sequence goes, this is plain leaf insertion. */
  function Inserted<A>(t: Tree<A>, v: int, i: A): (r: Tree<A>)
    ensures r.Node?
    ensures Inorder(r) == Inorder(Trees.Insert(t, v, i))
  {
    match t
    case Nil => Node(Nil, v, i, Nil)
    case Node(l, w, j, rt) =>
      if v < w then FixAfterInsert(Node(Inserted(l, v, i), w, j, rt), v)
      else if v > w then FixAfterInsert(Node(l, w, j, Inserted(rt, v, i)), v)
      else t
  }

  /** `_deleteNode`: splice out a node with at most one child, or copy in the minimum of
      its right subtree and delete that key there; rebalance on the way back up. As far
      as the sorted key sequence goes, this is plain successor-copying deletion. */
  function Deleted<A>(t: Tree<A>, v: int): (r: Tree<A>)
    ensures Inorder(r) == Inorder(Trees.Delete(t, v))
  {
    match t
    case Nil => Nil
    case Node(l, w, j, rt) =>
      if v < w then FixAfterDelete(Node(Deleted(l, v), w, j, rt))
      else if v > w then FixAfterDelete(Node(l, w, j, Deleted(rt, v)))
      else if l.Nil? then rt
      else if rt.Nil? then l
      else
        var m := Min(rt);
        FixAfterDelete(Node(l, m, j, Deleted(rt, m)))
  }

  // ---------------------------------------------------------------- keys and order

  /** Insertion adds exactly the key; on a search tree it keeps the ordering and puts the
      key in its sorted place. */
  lemma InsertedKeys<A>(t: Tree<A>, v: int, i: A)
    ensures Values(Inserted(t, v, i)) == Values(t) + {v}
    ensures Ordered(t) ==> Ordered(Inserted(t, v, i)) && Inorder(Inserted(t, v, i)) == InsertSorted(Inorder(t), v)
  {
    SameInorder(Inserted(t, v, i), Trees.Insert(t, v, i));
    if Ordered(t) {
      InsertInorder(t, v, i);
    }
  }

  /** On a search tree, deletion removes exactly the key, keeps the ordering, and removes
      the key from the sorted sequence. */
  lemma DeletedKeys<A>(t: Tree<A>, v: int)
    requires Ordered(t)
    ensures Values(Deleted(t, v)) == Values(t) - {v}
    ensures Ordered(Deleted(t, v)) && Inorder(Deleted(t, v)) == Remove(Inorder(t), v)
  {
    SameInorder(Deleted(t, v), Trees.Delete(t, v));
    DeleteInorder(t, v);
  }

  /** Deleting a key the AVL tree does not hold returns the tree as it was: every node
      on the comparison path is already balanced, so no rotation happens. */
  lemma {:induction false} DeletedAbsent<A>(t: Tree<A>, v: int)
    requires Balanced(t) && v !in Values(t)
    ensures Deleted(t, v) == t
  {
    match t
    case Nil =>
    case Node(l, w, j, rt) =>
      if v < w {
        DeletedAbsent(l, v);
      } else {
        DeletedAbsent(rt, v);
      }
  }

  // ---------------------------------------------------------------- balance

  lemma HeightNil<A>(t: Tree<A>)
    ensures Height(t) == 0 <==> t.Nil?
  {
  }

  /** An insertion that grew the tree left its root in place, leaning towards the side
      the key went to. */
  ghost predicate GrewLeaning<A>(t: Tree<A>, r: Tree<A>, v: int)
    requires t.Node? && r.Node?
  {
    r.value == t.value && v != t.value &&
    (v < t.value ==> BalanceFactor(r) == 1) &&
    (v > t.value ==> BalanceFactor(r) == -1)
  }

  /** Insertion into an AVL tree gives an AVL tree at most one taller; when it is taller,
      no rotation happened at the root, which now leans towards the new key. */
  lemma {:induction false} InsertedBalanced<A>(t: Tree<A>, v: int, i: A)
    requires Balanced(t)
    ensures var r := Inserted(t, v, i);
      Balanced(r) && Height(t) <= Height(r) <= Height(t) + 1 &&
      (t.Node? && Height(r) == Height(t) + 1 ==> GrewLeaning(t, r, v))
    decreases t
  {
    match t
    case Nil =>
    case Node(l, w, j, rt) =>
      if v < w {
        InsertedBalanced(l, v, i);
        GrownLeft(t, Inserted(l, v, i), v);
      } else if v > w {
        InsertedBalanced(rt, v, i);
        GrownRight(t, Inserted(rt, v, i), v);
      }
  }

  /** The step of `InsertedBalanced` after an insertion into the left subtree `l` gave `l'`. */
  lemma GrownLeft<A>(t: Tree<A>, l': Tree<A>, v: int)
    requires t.Node? && Balanced(t) && v < t.value
    requires l'.Node? && Balanced(l') && Height(t.left) <= Height(l') <= Height(t.left) + 1
    requires t.left.Node? && Height(l') == Height(t.left) + 1 ==> GrewLeaning(t.left, l', v)
    ensures var r := FixAfterInsert(Node(l', t.value, t.info, t.right), v);
      Balanced(r) && Height(t) <= Height(r) <= Height(t) + 1 &&
      (Height(r) == Height(t) + 1 ==> GrewLeaning(t, r, v))
  {
    var Node(l, w, j, rt) := t;
    var n := Node(l', w, j, rt);
    if Height(l') == Height(rt) + 2 {
      HeightNil(l);
      FixInsertLeft(l', w, j, rt, v, l);
    } else {
      assert FixAfterInsert(n, v) == n;
    }
  }

  /** The step of `InsertedBalanced` after an insertion into the right subtree `rt` gave `rt'`. */
  lemma GrownRight<A>(t: Tree<A>, rt': Tree<A>, v: int)
    requires t.Node? && Balanced(t) && v > t.value
    requires rt'.Node? && Balanced(rt') && Height(t.right) <= Height(rt') <= Height(t.right) + 1
    requires t.right.Node? && Height(rt') == Height(t.right) + 1 ==> GrewLeaning(t.right, rt', v)
    ensures var r := FixAfterInsert(Node(t.left, t.value, t.info, rt'), v);
      Balanced(r) && Height(t) <= Height(r) <= Height(t) + 1 &&
      (Height(r) == Height(t) + 1 ==> GrewLeaning(t, r, v))
  {
    var Node(l, w, j, rt) := t;
    var n := Node(l, w, j, rt');
    if Height(rt') == Height(l) + 2 {
      HeightNil(rt);
      FixInsertRight(l, w, j, rt', v, rt);
    } else {
      assert FixAfterInsert(n, v) == n;
    }
  }

  /** The left-left and left-right cases of insertion. */
  lemma FixInsertLeft<A>(l': Tree<A>, w: int, j: A, rt: Tree<A>, v: int, l: Tree<A>)
    requires l.Node? && l'.Node? && Balanced(l') && Balanced(rt)
    requires Height(l') == Height(rt) + 2 && Height(l') == Height(l) + 1 && GrewLeaning(l, l', v)
    ensures var r := FixAfterInsert(Node(l', w, j, rt), v); Balanced(r) && Height(r) == Height(rt) + 2
  {
    var Node(a, x, _, c) := l';
    if v < x {
      assert Height(a) == Height(rt) + 1 && Height(c) == Height(rt);
    } else {
      assert Height(c) == Height(rt) + 1 && Height(a) == Height(rt);
      HeightNil(c);
      var Node(c1, _, _, c2) := c;
      assert Height(c1) <= Height(rt) && Height(c2) <= Height(rt);
    }
  }

  /** The right-right and right-left cases of insertion. */
  lemma FixInsertRight<A>(l: Tree<A>, w: int, j: A, rt': Tree<A>, v: int, rt: Tree<A>)
    requires rt.Node? && rt'.Node? && Balanced(rt') && Balanced(l)
    requires Height(rt') == Height(l) + 2 && Height(rt') == Height(rt) + 1 && GrewLeaning(rt, rt', v)
    ensures var r := FixAfterInsert(Node(l, w, j, rt'), v); Balanced(r) && Height(r) == Height(l) + 2
  {
    var Node(a, x, _, c) := rt';
    if v > x {
      assert Height(c) == Height(l) + 1 && Height(a) == Height(l);
    } else {
      assert Height(a) == Height(l) + 1 && Height(c) == Height(l);
      HeightNil(a);
      var Node(a1, _, _, a2) := a;
      assert Height(a1) <= Height(l) && Height(a2) <= Height(l);
    }
  }

  /** On a balanced search tree, inserting a key already present changes nothing. */
  lemma {:induction false} InsertedExisting<A>(t: Tree<A>, v: int, i: A)
    requires Balanced(t) && Ordered(t) && v in Values(t)
    ensures Inserted(t, v, i) == t
    decreases t
  {
    match t
    case Node(l, w, j, rt) =>
      if v < w {
        InsertedExisting(l, v, i);
        assert FixAfterInsert(Node(l, w, j, rt), v) == t;
      } else if v > w {
        InsertedExisting(rt, v, i);
        assert FixAfterInsert(Node(l, w, j, rt), v) == t;
      }
  }

  /** The rebalancing of deletion restores balance at a node whose subtrees are AVL trees
      differing in height by at most two; it leaves a node already in balance alone, and
      costs at most one level of height. */
  lemma FixDeleteBalances<A>(n: Tree<A>)
    requires n.Node? && Balanced(n.left) && Balanced(n.right) && -2 <= BalanceFactor(n) <= 2
    ensures var r := FixAfterDelete(n); Balanced(r) && Height(n) - 1 <= Height(r) <= Height(n)
    ensures -1 <= BalanceFactor(n) <= 1 ==> FixAfterDelete(n) == n
  {
    if BalanceFactor(n) == 2 {
      FixDeleteLeftHeavy(n);
    } else if BalanceFactor(n) == -2 {
      FixDeleteRightHeavy(n);
    }
  }

  lemma FixDeleteLeftHeavy<A>(n: Tree<A>)
    requires n.Node? && Balanced(n.left) && Balanced(n.right) && BalanceFactor(n) == 2
    ensures var r := FixAfterDelete(n); Balanced(r) && Height(n) - 1 <= Height(r) <= Height(n)
  {
    var Node(l, w, j, rt) := n;
    HeightNil(l);
    var Node(a, x, _, c) := l;
    assert Height(l) == Height(rt) + 2;
    if BalanceFactor(l) >= 0 {
      assert FixAfterDelete(n) == Node(a, x, l.info, Node(c, w, j, rt));
      assert Height(a) == Height(rt) + 1;
    } else {
      HeightNil(c);
      var Node(c1, y, k, c2) := c;
      assert FixAfterDelete(n) == Node(Node(a, x, l.info, c1), y, k, Node(c2, w, j, rt));
      assert Height(c) == Height(rt) + 1 && Height(a) == Height(rt);
      assert Height(c1) >= Height(rt) - 1 && Height(c2) >= Height(rt) - 1;
    }
  }

  lemma FixDeleteRightHeavy<A>(n: Tree<A>)
    requires n.Node? && Balanced(n.left) && Balanced(n.right) && BalanceFactor(n) == -2
    ensures var r := FixAfterDelete(n); Balanced(r) && Height(n) - 1 <= Height(r) <= Height(n)
  {
    var Node(l, w, j, rt) := n;
    HeightNil(rt);
    var Node(a, x, _, c) := rt;
    assert Height(rt) == Height(l) + 2;
    if BalanceFactor(rt) <= 0 {
      assert FixAfterDelete(n) == Node(Node(l, w, j, a), x, rt.info, c);
      assert Height(c) == Height(l) + 1;
    } else {
      HeightNil(a);
      var Node(a1, y, k, a2) := a;
      assert FixAfterDelete(n) == Node(Node(l, w, j, a1), y, k, Node(a2, x, rt.info, c));
      assert Height(a) == Height(l) + 1 && Height(c) == Height(l);
      assert Height(a1) >= Height(l) - 1 && Height(a2) >= Height(l) - 1;
    }
  }

  /** Rebalancing after one subtree of an AVL node lost at most one level. */
  lemma FixDeleteAfterShrink<A>(t: Tree<A>, n: Tree<A>)
    requires t.Node? && n.Node? && Balanced(t) && Balanced(n.left) && Balanced(n.right)
    requires (n.right == t.right && Height(t.left) - 1 <= Height(n.left) <= Height(t.left)) ||
             (n.left == t.left && Height(t.right) - 1 <= Height(n.right) <= Height(t.right))
    ensures Balanced(FixAfterDelete(n)) && Height(t) - 1 <= Height(FixAfterDelete(n)) <= Height(t)
  {
    FixDeleteBalances(n);
    if BalanceFactor(n) == 2 || BalanceFactor(n) == -2 {
      assert Height(n) == Height(t);
    } else {
      assert Height(t) - 1 <= Height(n) <= Height(t);
    }
  }

  /** Deletion from an AVL tree gives an AVL tree at most one lower. */
  lemma {:induction false} DeletedBalanced<A>(t: Tree<A>, v: int)
    requires Balanced(t)
    ensures Balanced(Deleted(t, v))
    ensures Height(t) - 1 <= Height(Deleted(t, v)) <= Height(t)
    decreases t
  {
    match t
    case Nil =>
    case Node(l, w, j, rt) =>
      if v < w {
        DeletedBalanced(l, v);
        FixDeleteAfterShrink(t, Node(Deleted(l, v), w, j, rt));
      } else if v > w {
        DeletedBalanced(rt, v);
        FixDeleteAfterShrink(t, Node(l, w, j, Deleted(rt, v)));
      } else if l.Node? && rt.Node? {
        var m := Min(rt);
        DeletedBalanced(rt, m);
        FixDeleteAfterShrink(t, Node(l, m, j, Deleted(rt, m)));
      }
  }

  // ---------------------------------------------------------------- forgetting payloads

  lemma EraseFixes<A>(n: Tree<A>, v: int)
    requires n.Node?
    ensures Erase(FixAfterInsert(n, v)) == FixAfterInsert(Erase(n), v)
    ensures Erase(FixAfterDelete(n)) == FixAfterDelete(Erase(n))
  {
    EraseFixInsert(n, v);
    EraseFixDelete(n);
  }

  lemma EraseFixInsert<A>(n: Tree<A>, v: int)
    requires n.Node?
    ensures Erase(FixAfterInsert(n, v)) == FixAfterInsert(Erase(n), v)
  {
    var e := Erase(n);
    assert e.left == Erase(n.left) && e.right == Erase(n.right);
    assert BalanceFactor(e) == BalanceFactor(n);
    var b := BalanceFactor(n);
    if b > 1 {
      assert e.left.value == n.left.value;
      if v < n.left.value {
        EraseRotate(n);
      } else if v > n.left.value {
        EraseRotated(n, true);
      }
    } else if b < -1 {
      assert e.right.value == n.right.value;
      if v > n.right.value {
        EraseRotate(n);
      } else if v < n.right.value {
        EraseRotated(n, false);
      }
    }
  }

  lemma EraseFixDelete<A>(n: Tree<A>)
    requires n.Node?
    ensures Erase(FixAfterDelete(n)) == FixAfterDelete(Erase(n))
  {
    var e := Erase(n);
    assert e.left == Erase(n.left) && e.right == Erase(n.right);
    assert BalanceFactor(e) == BalanceFactor(n);
    var b := BalanceFactor(n);
    if b > 1 {
      assert BalanceFactor(e.left) == BalanceFactor(n.left);
      if BalanceFactor(n.left) >= 0 {
        EraseRotate(n);
      } else {
        EraseRotated(n, true);
      }
    } else if b < -1 {
      assert BalanceFactor(e.right) == BalanceFactor(n.right);
      if BalanceFactor(n.right) <= 0 {
        EraseRotate(n);
      } else {
        EraseRotated(n, false);
      }
    }
  }

  /** Rotating one child, then the node, commutes with forgetting payloads. */
  lemma EraseRotated<A>(n: Tree<A>, leftChild: bool)
    requires n.Node?
    ensures var m := if leftChild then n.(left := RotateLeft(n.left)) else n.(right := RotateRight(n.right));
      var e := Erase(n);
      var em := if leftChild then e.(left := RotateLeft(e.left)) else e.(right := RotateRight(e.right));
      Erase(m) == em && Erase(RotateRight(m)) == RotateRight(em) && Erase(RotateLeft(m)) == RotateLeft(em)
  {
    var m := if leftChild then n.(left := RotateLeft(n.left)) else n.(right := RotateRight(n.right));
    EraseRotate(n.left);
    EraseRotate(n.right);
    EraseRotate(m);
  }

  /** Balance depends on the keys' arrangement only, not on the payloads. */
  lemma {:induction false} EraseBalanced<A>(t: Tree<A>)
    ensures Balanced(Erase(t)) <==> Balanced(t)
  {
    if t.Node? {
      EraseBalanced(t.left);
      EraseBalanced(t.right);
    }
  }

  lemma {:induction false} EraseInserted<A>(t: Tree<A>, v: int, i: A)
    ensures Erase(Inserted(t, v, i)) == Inserted(Erase(t), v, ())
  {
    match t
    case Nil =>
    case Node(l, w, j, rt) =>
      if v < w {
        EraseInserted(l, v, i);
        EraseFixes(Node(Inserted(l, v, i), w, j, rt), v);
      } else if v > w {
        EraseInserted(rt, v, i);
        EraseFixes(Node(l, w, j, Inserted(rt, v, i)), v);
      }
  }

  lemma {:induction false} EraseDeleted<A>(t: Tree<A>, v: int)
    ensures Erase(Deleted(t, v)) == Deleted(Erase(t), v)
  {
    match t
    case Nil =>
    case Node(l, w, j, rt) =>
      if v < w {
        EraseDeleted(l, v);
        EraseFixes(Node(Deleted(l, v), w, j, rt), v);
      } else if v > w {
        EraseDeleted(rt, v);
        EraseFixes(Node(l, w, j, Deleted(rt, v)), v);
      } else if l.Node? && rt.Node? {
        var m := Min(rt);
        EraseMin(rt);
        EraseDeleted(rt, m);
        EraseFixes(Node(l, m, j, Deleted(rt, m)), v);
      }
  }

  lemma {:induction false} InsertedInfos<A>(t: Tree<A>, v: int, i: A)
    ensures Infos(Inserted(t, v, i)) <= Infos(t) + {i}
  {
    match t
    case Nil =>
    case Node(l, w, j, rt) =>
      if v < w {
        InsertedInfos(l, v, i);
        FixInfos(Node(Inserted(l, v, i), w, j, rt), v);
      } else if v > w {
        InsertedInfos(rt, v, i);
        FixInfos(Node(l, w, j, Inserted(rt, v, i)), v);
      }
  }

  lemma {:induction false} DeletedInfos<A>(t: Tree<A>, v: int)
    ensures Infos(Deleted(t, v)) <= Infos(t)
  {
    match t
    case Nil =>
    case Node(l, w, j, rt) =>
      if v < w {
        DeletedInfos(l, v);
        FixInfos(Node(Deleted(l, v), w, j, rt), v);
      } else if v > w {
        DeletedInfos(rt, v);
        FixInfos(Node(l, w, j, Deleted(rt, v)), v);
      } else if l.Node? && rt.Node? {
        var m := Min(rt);
        DeletedInfos(rt, m);
        FixInfos(Node(l, m, j, Deleted(rt, m)), v);
      }
  }

  /** The rebalancings keep the node objects and, with them, their distinctness. */
  lemma FixInfos<A>(n: Tree<A>, v: int)
    requires n.Node?
    ensures Infos(FixAfterInsert(n, v)) == Infos(n) && Infos(FixAfterDelete(n)) == Infos(n)
    ensures Distinct(n) ==> Distinct(FixAfterInsert(n, v)) && Distinct(FixAfterDelete(n))
  {
    RotateInfos(n);
    ChildRotated(n, true);
    ChildRotated(n, false);
    FixInsertCases(n, v);
    FixDeleteCases(n);
  }

  /** Each rebalancing is one of five rearrangements of `n`. */
  lemma FixInsertCases<A>(n: Tree<A>, v: int)
    requires n.Node?
    ensures var r := FixAfterInsert(n, v);
      r == n || r == RotateRight(n) || r == RotateLeft(n) ||
      r == RotateRight(n.(left := RotateLeft(n.left))) || r == RotateLeft(n.(right := RotateRight(n.right)))
  {
  }

  lemma FixDeleteCases<A>(n: Tree<A>)
    requires n.Node?
    ensures var r := FixAfterDelete(n);
      r == n || r == RotateRight(n) || r == RotateLeft(n) ||
      r == RotateRight(n.(left := RotateLeft(n.left))) || r == RotateLeft(n.(right := RotateRight(n.right)))
  {
  }

  /** Rotating one child, then the node. */
  lemma ChildRotated<A>(n: Tree<A>, leftChild: bool)
    requires n.Node?
    ensures var m := if leftChild then n.(left := RotateLeft(n.left)) else n.(right := RotateRight(n.right));
      Infos(m) == Infos(n) && (Distinct(n) ==> Distinct(m)) &&
      Infos(RotateRight(m)) == Infos(n) && Infos(RotateLeft(m)) == Infos(n) &&
      (Distinct(n) ==> Distinct(RotateRight(m)) && Distinct(RotateLeft(m)))
  {
    var m := if leftChild then n.(left := RotateLeft(n.left)) else n.(right := RotateRight(n.right));
    RotateInfos(n.left);
    RotateInfos(n.right);
    RotateInfos(m);
  }

  // ---------------------------------------------------------------- an example

  /** Inserting 1, 2, 3, 4, 5 in turn: the rotations at 1 and then at 3 leave 2 at the
      root, with 4 above 3 and 5. */
  lemma ExampleInsertions()
    ensures var t := Inserted(Inserted(Inserted(Inserted(Inserted(Nil, 1, ()), 2, ()), 3, ()), 4, ()), 5, ());
      Preorder(t) == [2, 1, 4, 3, 5] && Inorder(t) == [1, 2, 3, 4, 5]
  {
    ExampleShape();
    ExampleTraversals();
  }

  lemma ExampleShape()
    ensures Inserted(Inserted(Inserted(Inserted(Inserted(Nil, 1, ()), 2, ()), 3, ()), 4, ()), 5, ()) ==
            Node(Leaf(1), 2, (), Node(Leaf(3), 4, (), Leaf(5)))
  {
    var t1 := Inserted(Nil, 1, ());
    assert t1 == Leaf(1);
    var t2 := Inserted(t1, 2, ());
    assert t2 == Node(Nil, 1, (), Leaf(2)) by {
      ExampleGrowsRight(1, 2);
    }
    var t3 := Inserted(t2, 3, ());
    assert t3 == Node(Leaf(1), 2, (), Leaf(3)) by {
      ExampleRotatesAtOne();
    }
    var t4 := Inserted(t3, 4, ());
    assert t4 == Node(Leaf(1), 2, (), Node(Nil, 3, (), Leaf(4))) by {
      ExampleGrowsBelow();
    }
    ExampleRotatesAtThree();
  }

  lemma ExampleTraversals()
    ensures var t := Node(Leaf(1), 2, (), Node(Leaf(3), 4, (), Leaf(5)));
      Preorder(t) == [2, 1, 4, 3, 5] && Inorder(t) == [1, 2, 3, 4, 5]
  {
    var right := Node(Leaf(3), 4, (), Leaf(5));
    assert Preorder(right) == [4, 3, 5];
    assert Inorder(right) == [3, 4, 5];
  }

  function Leaf(v: int): Tree<()>
  {
    Node(Nil, v, (), Nil)
  }

  lemma ExampleGrowsRight(v: int, w: int)
    requires v < w
    ensures Inserted(Leaf(v), w, ()) == Node(Nil, v, (), Leaf(w))
  {
    assert Inserted(Nil, w, ()) == Leaf(w);
    assert BalanceFactor(Node(Nil, v, (), Leaf(w))) == -1;
  }

  lemma ExampleRotatesAtOne()
    ensures Inserted(Node(Nil, 1, (), Leaf(2)), 3, ()) == Node(Leaf(1), 2, (), Leaf(3))
  {
    ExampleGrowsRight(2, 3);
    var n := Node(Nil, 1, (), Node(Nil, 2, (), Leaf(3)));
    assert BalanceFactor(n) == -2;
    assert RotateLeft(n) == Node(Leaf(1), 2, (), Leaf(3));
  }

  lemma ExampleGrowsBelow()
    ensures Inserted(Node(Leaf(1), 2, (), Leaf(3)), 4, ()) == Node(Leaf(1), 2, (), Node(Nil, 3, (), Leaf(4)))
  {
    ExampleGrowsRight(3, 4);
    assert BalanceFactor(Node(Leaf(1), 2, (), Node(Nil, 3, (), Leaf(4)))) == -1;
  }

  lemma ExampleRotatesAtThree()
    ensures Inserted(Node(Leaf(1), 2, (), Node(Nil, 3, (), Leaf(4))), 5, ()) == Node(Leaf(1), 2, (), Node(Leaf(3), 4, (), Leaf(5)))
  {
    ExampleGrowsRight(4, 5);
    var n := Node(Nil, 3, (), Node(Nil, 4, (), Leaf(5)));
    assert Inserted(Node(Nil, 3, (), Leaf(4)), 5, ()) == Node(Leaf(3), 4, (), Leaf(5)) by {
      assert BalanceFactor(n) == -2;
      assert RotateLeft(n) == Node(Leaf(3), 4, (), Leaf(5));
    }
    assert BalanceFactor(Node(Leaf(1), 2, (), Node(Leaf(3), 4, (), Leaf(5)))) == -1;
  }

  // ---------------------------------------------------------------- linked nodes

  class AVLNode {
    var value: int
    var left: AVLNode?
    var right: AVLNode?
    var height: int

    constructor (value: int)
      ensures this.value == value && left == null && right == null && height == 1
    {
      this.value := value;
      left := null;
      right := null;
      height := 1;
    }
  }

  /** A linked tree as a value: each tree node records a key and the object holding it. */
  type Shape = Tree<AVLNode>

  function RootOf(s: Shape): AVLNode?
  {
    if s.Nil? then null else s.info
  }

  /** The key and child fields of the heap follow the shape, and every node stores the
      height of its subtree. */
  ghost predicate Linked(s: Shape)
    reads Infos(s)
  {
    match s
    case Nil => true
    case Node(l, v, n, r) =>
      n.value == v && n.left == RootOf(l) && n.right == RootOf(r) && n.height == Height(s) &&
      Linked(l) && Linked(r)
  }

  /** Linked except that the root's stored height may be out of date. */
  ghost predicate Wired(s: Shape)
    reads Infos(s)
  {
    s.Node? && s.info.value == s.value && s.info.left == RootOf(s.left) && s.info.right == RootOf(s.right) &&
    Linked(s.left) && Linked(s.right)
  }

  lemma {:induction false} Allocated(s: Shape)
    ensures forall n | n in Infos(s) :: allocated(n)
  {
    if s.Node? {
      Allocated(s.left);
      Allocated(s.right);
    }
  }

  /** `getHeight`: the stored height, which is the subtree's height. */
  function GetHeight(node: AVLNode?, ghost s: Shape): (h: int)
    requires RootOf(s) == node && Linked(s)
    reads Infos(s)
    ensures h == Height(s)
  {
    if node == null then 0 else node.height
  }

  /** `getBalanceFactor`, read from the children's stored heights. */
  function GetBalanceFactor(node: AVLNode?, ghost s: Shape): (b: int)
    requires RootOf(s) == node && (s.Nil? || Wired(s))
    reads Infos(s)
    ensures b == BalanceFactor(s)
  {
    if node == null then 0 else GetHeight(node.left, s.left) - GetHeight(node.right, s.right)
  }

  /** `updateHeight`: store the height computed from the children's. */
  method UpdateHeight(node: AVLNode, ghost s: Shape)
    requires Wired(s) && s.info == node && Distinct(s)
    modifies node
    ensures Linked(s)
  {
    node.height := Max(GetHeight(node.left, s.left), GetHeight(node.right, s.right)) + 1;
  }

  /** `rotateRight`: promote the left child of `y`, refreshing both heights. */
  method RotateRightAt(y: AVLNode, ghost s: Shape) returns (x: AVLNode, ghost s': Shape)
    requires Wired(s) && s.info == y && s.left.Node? && Distinct(s)
    modifies y, s.left.info
    ensures s' == Trees.RotateRight(s) && Linked(s') && RootOf(s') == x
  {
    ghost var Node(Node(a, xv, xn, b), yv, _, c) := s;
    Allocated(a);
    DistinctRegrouped(a, xv, xn, b, yv, y, c);
    assert xn !in Infos(a) + Infos(b) + Infos(c) && y !in Infos(a) + Infos(b) + Infos(c);
    assert Linked(a) && Linked(b) && Linked(c);
    x := y.left;
    var t2 := x.right;
    x.right := y;
    y.left := t2;
    ghost var lower := Node(b, yv, y, c);
    UpdateHeight(y, lower);
    assert Linked(a);
    UpdateHeight(x, Node(a, xv, x, lower));
    s' := Node(a, xv, x, lower);
  }

  /** `rotateLeft`: promote the right child of `x`, refreshing both heights. */
  method RotateLeftAt(x: AVLNode, ghost s: Shape) returns (y: AVLNode, ghost s': Shape)
    requires Wired(s) && s.info == x && s.right.Node? && Distinct(s)
    modifies x, s.right.info
    ensures s' == Trees.RotateLeft(s) && Linked(s') && RootOf(s') == y
  {
    ghost var Node(a, xv, _, Node(b, yv, yn, c)) := s;
    Allocated(c);
    DistinctRegrouped(a, xv, x, b, yv, yn, c);
    assert yn !in Infos(a) + Infos(b) + Infos(c) && x !in Infos(a) + Infos(b) + Infos(c);
    assert Linked(a) && Linked(b) && Linked(c);
    y := x.right;
    var t2 := y.left;
    y.left := x;
    x.right := t2;
    ghost var lower := Node(a, xv, x, b);
    UpdateHeight(x, lower);
    assert Linked(c);
    UpdateHeight(y, Node(lower, yv, y, c));
    s' := Node(lower, yv, y, c);
  }

  /** The rebalancing at the end of `_insertNode`, on a node whose child on the key's side
      has just been replaced. Where a double rotation is chosen, the key lies below the
      child on the far side, so the inner rotation has a child to promote. */
  method FixInsert(node: AVLNode, ghost n: Shape, value: int) returns (r: AVLNode, ghost s': Shape)
    requires Wired(n) && n.info == node && Distinct(n)
    requires BalanceFactor(n) > 1 ==> value in Values(n.left) && Ordered(n.left)
    requires BalanceFactor(n) < -1 ==> value in Values(n.right) && Ordered(n.right)
    modifies Infos(n)
    ensures s' == FixAfterInsert(n, value) && Linked(s') && Distinct(s') && RootOf(s') == r
  {
    FixInfos(n, value);
    Allocated(n);
    UpdateHeight(node, n);
    var balance := GetBalanceFactor(node, n);
    HeightNil(n.left);
    HeightNil(n.right);
    if balance > 1 && value < node.left.value {
      r, s' := RotateRightAt(node, n);
    } else if balance < -1 && value > node.right.value {
      r, s' := RotateLeftAt(node, n);
    } else if balance > 1 && value > node.left.value {
      r, s' := LeftRight(node, n);
    } else if balance < -1 && value < node.right.value {
      r, s' := RightLeft(node, n);
    } else {
      r, s' := node, n;
    }
  }

  /** The rebalancing at the end of `_deleteNode`. */
  method FixDelete(node: AVLNode, ghost n: Shape) returns (r: AVLNode, ghost s': Shape)
    requires Wired(n) && n.info == node && Distinct(n)
    modifies Infos(n)
    ensures s' == FixAfterDelete(n) && Linked(s') && Distinct(s') && RootOf(s') == r
  {
    FixInfos(n, 0);
    Allocated(n);
    UpdateHeight(node, n);
    var balance := GetBalanceFactor(node, n);
    HeightNil(n.left);
    HeightNil(n.right);
    if balance > 1 && GetBalanceFactor(node.left, n.left) >= 0 {
      r, s' := RotateRightAt(node, n);
    } else if balance > 1 && GetBalanceFactor(node.left, n.left) < 0 {
      HeightNil(n.left.right);
      r, s' := LeftRight(node, n);
    } else if balance < -1 && GetBalanceFactor(node.right, n.right) <= 0 {
      r, s' := RotateLeftAt(node, n);
    } else if balance < -1 && GetBalanceFactor(node.right, n.right) > 0 {
      HeightNil(n.right.left);
      r, s' := RightLeft(node, n);
    } else {
      r, s' := node, n;
    }
  }

  /** The left-right case: `node.left = rotateLeft(node.left)`, then `rotateRight(node)`. */
  method LeftRight(node: AVLNode, ghost n: Shape) returns (r: AVLNode, ghost s': Shape)
    requires Wired(n) && n.info == node && Distinct(n) && n.left.Node? && n.left.right.Node?
    modifies Infos(n)
    ensures s' == Trees.RotateRight(n.(left := Trees.RotateLeft(n.left))) && Linked(s') && RootOf(s') == r
  {
    Allocated(n.right);
    ghost var m := n.(left := Trees.RotateLeft(n.left));
    ChildRotated(n, true);
    var l, sl := RotateLeftAt(node.left, n.left);
    node.left := l;
    r, s' := RotateRightAt(node, m);
  }

  /** The right-left case: `node.right = rotateRight(node.right)`, then `rotateLeft(node)`. */
  method RightLeft(node: AVLNode, ghost n: Shape) returns (r: AVLNode, ghost s': Shape)
    requires Wired(n) && n.info == node && Distinct(n) && n.right.Node? && n.right.left.Node?
    modifies Infos(n)
    ensures s' == Trees.RotateLeft(n.(right := Trees.RotateRight(n.right))) && Linked(s') && RootOf(s') == r
  {
    Allocated(n.left);
    ghost var m := n.(right := Trees.RotateRight(n.right));
    ChildRotated(n, false);
    var rt, sr := RotateRightAt(node.right, n.right);
    node.right := rt;
    r, s' := RotateLeftAt(node, m);
  }

  /** `node.left = ...`: hangs the linked subtree `sl` under `node`. */
  method SetLeft(node: AVLNode, l: AVLNode?, ghost sl: Shape, ghost v: int, ghost sr: Shape) returns (ghost n: Shape)
    requires node.value == v && node.right == RootOf(sr) && RootOf(sl) == l
    requires Linked(sl) && Linked(sr) && Distinct(sl) && Distinct(sr)
    requires node !in Infos(sl) && node !in Infos(sr) && Infos(sl) !! Infos(sr)
    modifies node
    ensures n == Node(sl, v, node, sr) && Wired(n) && Distinct(n)
  {
    node.left := l;
    n := Node(sl, v, node, sr);
  }

  /** `node.right = ...`: hangs the linked subtree `sr` under `node`. */
  method SetRight(node: AVLNode, r: AVLNode?, ghost sl: Shape, ghost v: int, ghost sr: Shape) returns (ghost n: Shape)
    requires node.value == v && node.left == RootOf(sl) && RootOf(sr) == r
    requires Linked(sl) && Linked(sr) && Distinct(sl) && Distinct(sr)
    requires node !in Infos(sl) && node !in Infos(sr) && Infos(sl) !! Infos(sr)
    modifies node
    ensures n == Node(sl, v, node, sr) && Wired(n) && Distinct(n)
  {
    node.right := r;
    n := Node(sl, v, node, sr);
  }

  /** `_insertNode`: the subtree at `node` with `value` inserted and rebalanced on the way
      up. `made` is the node the insertion created, if it created one. */
  method InsertNode(node: AVLNode?, ghost s: Shape, value: int) returns (r: AVLNode, ghost s': Shape, ghost made: AVLNode)
    requires RootOf(s) == node && Linked(s) && Distinct(s) && Ordered(s) && Balanced(s)
    modifies Infos(s)
    ensures s' == Inserted(s, value, made) && Linked(s') && Distinct(s') && RootOf(s') == r
    ensures fresh(Infos(s') - Infos(s))
    decreases s, 1
  {
    if node == null {
      r := new AVLNode(value);
      made := r;
      s' := Node(Nil, value, r, Nil);
    } else if value < node.value {
      r, s', made := InsertLeft(node, s, value);
    } else if value > node.value {
      r, s', made := InsertRight(node, s, value);
    } else {
      r, s', made := node, s, node;
    }
  }

  /** `node.left = this._insertNode(node.left, value)`, then the rebalancing. */
  method InsertLeft(node: AVLNode, ghost s: Shape, value: int) returns (r: AVLNode, ghost s': Shape, ghost made: AVLNode)
    requires s.Node? && s.info == node && value < s.value
    requires Linked(s) && Distinct(s) && Ordered(s) && Balanced(s)
    modifies Infos(s)
    ensures s' == Inserted(s, value, made) && Linked(s') && Distinct(s') && RootOf(s') == r
    ensures fresh(Infos(s') - Infos(s))
    decreases s, 0
  {
    Allocated(s);
    var l, sl, m := InsertNode(node.left, s.left, value);
    made := m;
    assert node !in Infos(sl) && Infos(sl) !! Infos(s.right);
    ghost var n := SetLeft(node, l, sl, s.value, s.right);
    assert fresh(Infos(n) - Infos(s));
    InsertedBelow(s, value, m);
    r, s' := FixInsert(node, n, value);
    FixInfos(n, value);
  }

  /** `node.right = this._insertNode(node.right, value)`, then the rebalancing. */
  method InsertRight(node: AVLNode, ghost s: Shape, value: int) returns (r: AVLNode, ghost s': Shape, ghost made: AVLNode)
    requires s.Node? && s.info == node && value > s.value
    requires Linked(s) && Distinct(s) && Ordered(s) && Balanced(s)
    modifies Infos(s)
    ensures s' == Inserted(s, value, made) && Linked(s') && Distinct(s') && RootOf(s') == r
    ensures fresh(Infos(s') - Infos(s))
    decreases s, 0
  {
    Allocated(s);
    var rt, sr, m := InsertNode(node.right, s.right, value);
    made := m;
    assert node !in Infos(sr) && Infos(sr) !! Infos(s.left);
    ghost var n := SetRight(node, rt, s.left, s.value, sr);
    assert fresh(Infos(n) - Infos(s));
    InsertedBelow(s, value, m);
    r, s' := FixInsert(node, n, value);
    FixInfos(n, value);
  }

  /** What the rebalancing after an insertion into one side of an AVL search tree may
      rely on. */
  lemma InsertedBelow<A>(s: Tree<A>, value: int, m: A)
    requires s.Node? && Ordered(s) && Balanced(s) && value != s.value
    ensures var n := if value < s.value then s.(left := Inserted(s.left, value, m)) else s.(right := Inserted(s.right, value, m));
      Inserted(s, value, m) == FixAfterInsert(n, value) &&
      (BalanceFactor(n) > 1 ==> value in Values(n.left) && Ordered(n.left)) &&
      (BalanceFactor(n) < -1 ==> value in Values(n.right) && Ordered(n.right))
  {
    if value < s.value {
      InsertedKeys(s.left, value, m);
      InsertedBalanced(s.left, value, m);
    } else {
      InsertedKeys(s.right, value, m);
      InsertedBalanced(s.right, value, m);
    }
  }

  /** `_deleteNode`: the subtree at `node` with `value` deleted and rebalanced on the way
      up. A node with two children takes over its successor's key. */
  method DeleteNode(node: AVLNode?, ghost s: Shape, value: int) returns (r: AVLNode?, ghost s': Shape)
    requires RootOf(s) == node && Linked(s) && Distinct(s)
    modifies Infos(s)
    ensures s' == Deleted(s, value) && Linked(s') && Distinct(s') && RootOf(s') == r
    ensures Infos(s') <= Infos(s)
    decreases s, 1
  {
    if node == null {
      return null, Nil;
    }
    if value < node.value {
      Allocated(s);
      var l, sl := DeleteNode(node.left, s.left, value);
      node.left := l;
      ghost var n := Node(sl, s.value, node, s.right);
      assert Linked(s.right);
      r, s' := FixDelete(node, n);
      FixInfos(n, value);
    } else if value > node.value {
      Allocated(s);
      var rt, sr := DeleteNode(node.right, s.right, value);
      node.right := rt;
      ghost var n := Node(s.left, s.value, node, sr);
      assert Linked(s.left);
      r, s' := FixDelete(node, n);
      FixInfos(n, value);
    } else if node.left == null {
      r, s' := node.right, s.right;
    } else if node.right == null {
      r, s' := node.left, s.left;
    } else {
      r, s' := DeleteHere(node, s);
    }
  }

  /** The two-children case of `_deleteNode`: copy in the successor's key, delete it from
      the right subtree, then rebalance. */
  method DeleteHere(node: AVLNode, ghost s: Shape) returns (r: AVLNode, ghost s': Shape)
    requires s.Node? && s.info == node && s.left.Node? && s.right.Node?
    requires Linked(s) && Distinct(s)
    modifies Infos(s)
    ensures s' == Deleted(s, s.value) && Linked(s') && Distinct(s') && RootOf(s') == r
    ensures Infos(s') <= Infos(s)
    decreases s, 0
  {
    Allocated(s);
    var successor := FindMin(node.right, s.right);
    node.value := successor.value;
    assert Linked(s.left) && Linked(s.right);
    var rt, sr := DeleteNode(node.right, s.right, successor.value);
    node.right := rt;
    ghost var n := Node(s.left, Min(s.right), node, sr);
    assert Linked(s.left);
    r, s' := FixDelete(node, n);
    FixInfos(n, 0);
  }

  /** `_findMin`: walk left links to the leftmost node, which holds the minimum. */
  method FindMin(node: AVLNode, ghost s: Shape) returns (m: AVLNode)
    requires s.Node? && s.info == node && Linked(s)
    ensures ValidPath(s, LeftSpine(s)) && Sub(s, LeftSpine(s)).Node?
    ensures m == Sub(s, LeftSpine(s)).info && m.left == null && m.value == Min(s)
  {
    m := node;
    ghost var walked: Path := [];
    while m.left != null
      invariant ValidPath(s, walked) && Sub(s, walked).Node? && Sub(s, walked).info == m
      invariant Linked(Sub(s, walked))
      invariant walked + LeftSpine(Sub(s, walked)) == LeftSpine(s)
      decreases |LeftSpine(s)| - |walked|
    {
      SpineStep(s, walked);
      walked := walked + [Left];
      m := m.left;
    }
    SpineEnd(s, walked);
  }

  /** One step of `_findMin` down the left spine. */
  lemma SpineStep(s: Shape, walked: Path)
    requires ValidPath(s, walked) && Sub(s, walked).Node? && Linked(Sub(s, walked))
    requires Sub(s, walked).info.left != null
    requires walked + LeftSpine(Sub(s, walked)) == LeftSpine(s)
    ensures ValidPath(s, walked + [Left]) && Sub(s, walked + [Left]) == Sub(s, walked).left
    ensures Sub(s, walked).left.Node? && Sub(s, walked).left.info == Sub(s, walked).info.left
    ensures Linked(Sub(s, walked).left)
    ensures (walked + [Left]) + LeftSpine(Sub(s, walked).left) == LeftSpine(s)
  {
    var cur := Sub(s, walked);
    SubStep(s, walked, Left);
    assert LeftSpine(cur) == [Left] + LeftSpine(cur.left);
    assert (walked + [Left]) + LeftSpine(cur.left) == walked + ([Left] + LeftSpine(cur.left));
  }

  /** Where `_findMin` stops: the leftmost node, holding the minimum. */
  lemma SpineEnd(s: Shape, walked: Path)
    requires ValidPath(s, walked) && Sub(s, walked).Node? && Linked(Sub(s, walked))
    requires Sub(s, walked).info.left == null
    requires walked + LeftSpine(Sub(s, walked)) == LeftSpine(s)
    ensures walked == LeftSpine(s) && Sub(s, walked).info.value == Min(s)
  {
    var cur := Sub(s, walked);
    assert LeftSpine(cur) == [];
    assert walked == walked + LeftSpine(cur);
    LeftSpineFindsMin(s);
  }

  // ---------------------------------------------------------------- the tree object

  class AVLTree {
    var root: AVLNode?
    ghost var shape: Shape

    /** The heap holds `shape`, an AVL search tree of distinct nodes with exact heights. */
    ghost predicate Valid()
      reads this, Infos(shape)
    {
      RootOf(shape) == root && Distinct(shape) && Linked(shape) && Ordered(shape) && Balanced(shape)
    }

    /** The keys the object holds, arranged as its nodes are. */
    ghost function Model(): Tree<()>
      reads this
    {
      Erase(shape)
    }

    /** Wraps an existing linked root (the empty tree when `root` is null). */
    constructor (root: AVLNode?, ghost shape: Shape)
      requires RootOf(shape) == root && Distinct(shape) && Linked(shape) && Ordered(shape) && Balanced(shape)
      ensures Valid() && this.shape == shape
    {
      this.root := root;
      this.shape := shape;
    }

    /** A valid object's model is an AVL search tree. */
    lemma ModelIsAvl()
      requires Valid()
      ensures Ordered(Model()) && Balanced(Model())
    {
      EraseKeepsOrderAndTraversals(shape);
      EraseBalanced(shape);
    }

    method Insert(value: int)
      requires Valid()
      modifies this, Infos(shape)
      ensures Valid() && fresh(Infos(shape) - old(Infos(shape)))
      ensures Model() == Inserted(old(Model()), value, ())
      ensures Values(Model()) == Values(old(Model())) + {value}
      ensures Trees.Inorder(Model()) == InsertSorted(Trees.Inorder(old(Model())), value)
    {
      ghost var s := shape;
      var r, s', made := InsertNode(root, shape, value);
      root, shape := r, s';
      InsertedTree(s, value, made);
    }

    method Delete(value: int)
      requires Valid()
      modifies this, Infos(shape)
      ensures Valid() && Infos(shape) <= old(Infos(shape))
      ensures Model() == Deleted(old(Model()), value)
      ensures Values(Model()) == Values(old(Model())) - {value}
      ensures Trees.Inorder(Model()) == Remove(Trees.Inorder(old(Model())), value)
      ensures value !in Values(old(Model())) ==> Model() == old(Model())
    {
      ghost var s := shape;
      ModelIsAvl();
      if value !in Values(Model()) {
        DeletedAbsent(Model(), value);
      }
      var r, s' := DeleteNode(root, shape, value);
      root, shape := r, s';
      DeletedTree(s, value);
    }

    // -------------------------------------------------------------- traversals

    method Preorder() returns (result: seq<int>)
      requires Valid()
      ensures result == Trees.Preorder(Model())
    {
      EraseKeepsOrderAndTraversals(shape);
      result := PreorderFrom(root, shape, []);
    }

    method Inorder() returns (result: seq<int>)
      requires Valid()
      ensures result == Trees.Inorder(Model())
    {
      EraseKeepsOrderAndTraversals(shape);
      result := InorderFrom(root, shape, []);
    }

    method Postorder() returns (result: seq<int>)
      requires Valid()
      ensures result == Trees.Postorder(Model())
    {
      EraseKeepsOrderAndTraversals(shape);
      result := PostorderFrom(root, shape, []);
    }

    method LevelOrder() returns (result: seq<int>)
      requires Valid()
      ensures result == Trees.LevelOrder(Model())
    {
      EraseKeepsLevelOrder(shape);
      if root == null {
        return [];
      }
      result := LevelOrderFrom(root, shape);
    }

    /** The breadth-first walk from a non-empty linked shape, with a queue of nodes. */
    method LevelOrderFrom(top: AVLNode, ghost s: Shape) returns (result: seq<int>)
      requires s.Node? && s.info == top && Linked(s)
      ensures result == Trees.LevelOrder(s)
    {
      result := [];
      var queue: seq<AVLNode> := [top];
      ghost var gq: seq<Shape> := [s];
      while |queue| > 0
        invariant |queue| == |gq|
        invariant forall k | 0 <= k < |gq| :: gq[k].Node? && gq[k].info == queue[k] && Linked(gq[k])
        invariant result + Bfs(gq) == Trees.LevelOrder(s)
        decreases SizeSum(gq), |gq|
      {
        var node := queue[0];
        ghost var g := gq[0];
        assert gq == [g] + gq[1..];
        LevelStep(g, gq[1..]);
        queue := queue[1..];
        gq := gq[1..];
        result := result + [node.value];
        var kids := ChildrenOf(node, g);
        Enqueued(queue, gq, kids, Kids(g.left, g.right));
        queue := queue + kids;
        gq := gq + Kids(g.left, g.right);
      }
    }
  }

  /** What `AVLTree.Insert` needs of the value-level insertion into its shape. */
  lemma InsertedTree<A>(s: Tree<A>, value: int, made: A)
    requires Ordered(s) && Balanced(s)
    ensures Ordered(Inserted(s, value, made)) && Balanced(Inserted(s, value, made))
    ensures Erase(Inserted(s, value, made)) == Inserted(Erase(s), value, ())
    ensures Values(Erase(Inserted(s, value, made))) == Values(Erase(s)) + {value}
    ensures Inorder(Erase(Inserted(s, value, made))) == InsertSorted(Inorder(Erase(s)), value)
  {
    InsertedKeys(s, value, made);
    InsertedBalanced(s, value, made);
    EraseInserted(s, value, made);
    EraseKeepsOrderAndTraversals(Inserted(s, value, made));
    EraseKeepsOrderAndTraversals(s);
  }

  /** What `AVLTree.Delete` needs of the value-level deletion from its shape. */
  lemma DeletedTree<A>(s: Tree<A>, value: int)
    requires Ordered(s) && Balanced(s)
    ensures Ordered(Deleted(s, value)) && Balanced(Deleted(s, value))
    ensures Erase(Deleted(s, value)) == Deleted(Erase(s), value)
    ensures Values(Erase(Deleted(s, value))) == Values(Erase(s)) - {value}
    ensures Inorder(Erase(Deleted(s, value))) == Remove(Inorder(Erase(s)), value)
  {
    DeletedKeys(s, value);
    DeletedBalanced(s, value);
    EraseDeleted(s, value);
    EraseKeepsOrderAndTraversals(Deleted(s, value));
    EraseKeepsOrderAndTraversals(s);
  }

  /** The recursive `traverse` of `preorder`, appending to `acc`. */
  method PreorderFrom(node: AVLNode?, ghost s: Shape, acc: seq<int>) returns (result: seq<int>)
    requires RootOf(s) == node && Linked(s)
    ensures result == acc + Trees.Preorder(s)
    decreases s
  {
    if node == null {
      return acc;
    }
    Allocated(s);
    Allocated(s.right);
    result := acc + [node.value];
    result := PreorderFrom(node.left, s.left, result);
    result := PreorderFrom(node.right, s.right, result);
  }

  /** The recursive `traverse` of `inorder`, appending to `acc`. */
  method InorderFrom(node: AVLNode?, ghost s: Shape, acc: seq<int>) returns (result: seq<int>)
    requires RootOf(s) == node && Linked(s)
    ensures result == acc + Trees.Inorder(s)
    decreases s
  {
    if node == null {
      return acc;
    }
    Allocated(s);
    Allocated(s.right);
    result := InorderFrom(node.left, s.left, acc);
    result := result + [node.value];
    result := InorderFrom(node.right, s.right, result);
  }

  /** The recursive `traverse` of `postorder`, appending to `acc`. */
  method PostorderFrom(node: AVLNode?, ghost s: Shape, acc: seq<int>) returns (result: seq<int>)
    requires RootOf(s) == node && Linked(s)
    ensures result == acc + Trees.Postorder(s)
    decreases s
  {
    if node == null {
      return acc;
    }
    Allocated(s);
    Allocated(s.right);
    result := PostorderFrom(node.left, s.left, acc);
    result := PostorderFrom(node.right, s.right, result);
    result := result + [node.value];
  }

  /** One step of the level-order loop: dequeue `g`, enqueue its non-empty children. */
  lemma LevelStep(g: Shape, rest: seq<Shape>)
    requires g.Node? && Linked(g)
    ensures g.info.left == RootOf(g.left) && g.info.right == RootOf(g.right)
    ensures forall k | 0 <= k < |Kids(g.left, g.right)| :: Kids(g.left, g.right)[k].Node? && Linked(Kids(g.left, g.right)[k])
    ensures Bfs([g] + rest) == [g.value] + Bfs(rest + Kids(g.left, g.right))
    ensures SizeSum(rest + Kids(g.left, g.right)) < SizeSum([g] + rest)
    ensures Kids(g.left, g.right) == (if g.info.left != null then [g.left] else []) + (if g.info.right != null then [g.right] else [])
  {
    var Node(l, _, n, r) := g;
    assert n.left == RootOf(l) && n.right == RootOf(r) && Linked(l) && Linked(r);
    assert (n.left != null) == l.Node? && (n.right != null) == r.Node?;
    assert ([g] + rest)[0] == g && ([g] + rest)[1..] == rest;
    BfsStep([g] + rest);
  }

  /** The children of `node` that `levelOrder` enqueues, left first, paired with the
      subtrees of `g` they head. */
  function ChildrenOf(node: AVLNode, ghost g: Shape): (kids: seq<AVLNode>)
    requires g.Node? && g.info == node && node.left == RootOf(g.left) && node.right == RootOf(g.right)
    reads node
    ensures |kids| == |Kids(g.left, g.right)|
    ensures forall k | 0 <= k < |kids| :: Kids(g.left, g.right)[k].Node? && Kids(g.left, g.right)[k].info == kids[k]
  {
    (if node.left != null then [node.left] else []) + (if node.right != null then [node.right] else [])
  }

  /** Appending matching node objects and subtrees keeps the queue and its shapes aligned. */
  lemma Enqueued(queue: seq<AVLNode>, gq: seq<Shape>, kids: seq<AVLNode>, gk: seq<Shape>)
    requires |queue| == |gq| && forall k | 0 <= k < |gq| :: gq[k].Node? && gq[k].info == queue[k] && Linked(gq[k])
    requires |kids| == |gk| && forall k | 0 <= k < |gk| :: gk[k].Node? && gk[k].info == kids[k] && Linked(gk[k])
    ensures |queue + kids| == |gq + gk|
    ensures forall k | 0 <= k < |gq + gk| :: (gq + gk)[k].Node? && (gq + gk)[k].info == (queue + kids)[k] && Linked((gq + gk)[k])
  {
    forall k | 0 <= k < |gq + gk|
      ensures (gq + gk)[k].Node? && (gq + gk)[k].info == (queue + kids)[k] && Linked((gq + gk)[k])
    {
      if k < |gq| {
        assert (gq + gk)[k] == gq[k] && (queue + kids)[k] == queue[k];
      } else {
        assert (gq + gk)[k] == gk[k - |gq|] && (queue + kids)[k] == kids[k - |queue|];
      }
    }
  }
}
