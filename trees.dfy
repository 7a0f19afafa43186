/** Value-level binary trees shared by the three engines.
    A node carries an integer key and an engine-specific payload `A`: nothing for the
    plain BST, the stored height for AVL, the colour for red-black. The heap classes of
    each engine are related to these values by an abstraction function, and the
    traversals, search paths, rotations and ordered-set laws of all three engines are
    stated here once. */
module Trees {

  datatype Tree<A> = Nil | Node(left: Tree<A>, value: int, info: A, right: Tree<A>)

  /** A step from a node to one of its children. */
  datatype Dir = Left | Right

  type Path = seq<Dir>

  function Size<A>(t: Tree<A>): nat
  {
    match t
    case Nil => 0
    case Node(l, _, _, r) => Size(l) + 1 + Size(r)
  }

  /** Number of nodes on the longest downward path (an empty tree has height 0). */
  function Height<A>(t: Tree<A>): nat
  {
    match t
    case Nil => 0
    case Node(l, _, _, r) => 1 + Max(Height(l), Height(r))
  }

  function Max(a: int, b: int): int { if a >= b then a else b }

  function Values<A>(t: Tree<A>): set<int>
  {
    match t
    case Nil => {}
    case Node(l, v, _, r) => Values(l) + {v} + Values(r)
  }

  /** Every node's key, counted once per node. */
  function Occurrences<A>(t: Tree<A>): multiset<int>
  {
    match t
    case Nil => multiset{}
    case Node(l, v, _, r) => Occurrences(l) + multiset{v} + Occurrences(r)
  }

  /** The binary-search-tree ordering: left keys < node key < right keys, everywhere. */
  predicate Ordered<A>(t: Tree<A>)
  {
    match t
    case Nil => true
    case Node(l, v, _, r) =>
      Ordered(l) && Ordered(r) &&
      (forall x | x in Values(l) :: x < v) &&
      (forall x | x in Values(r) :: v < x)
  }

  predicate Increasing(s: seq<int>)
  {
    forall i, j | 0 <= i < j < |s| :: s[i] < s[j]
  }

  // ---------------------------------------------------------------- traversals

  function Preorder<A>(t: Tree<A>): seq<int>
  {
    match t
    case Nil => []
    case Node(l, v, _, r) => [v] + Preorder(l) + Preorder(r)
  }

  function Inorder<A>(t: Tree<A>): seq<int>
  {
    match t
    case Nil => []
    case Node(l, v, _, r) => Inorder(l) + [v] + Inorder(r)
  }

  function Postorder<A>(t: Tree<A>): seq<int>
  {
    match t
    case Nil => []
    case Node(l, v, _, r) => Postorder(l) + Postorder(r) + [v]
  }

  function SizeSum<A>(q: seq<Tree<A>>): nat
  {
    if q == [] then 0 else Size(q[0]) + SizeSum(q[1..])
  }

  lemma {:induction false} SizeSumAppend<A>(a: seq<Tree<A>>, b: seq<Tree<A>>)
    ensures SizeSum(a + b) == SizeSum(a) + SizeSum(b)
  {
    if a == [] {
      assert a + b == b;
    } else {
      assert (a + b)[1..] == a[1..] + b;
      SizeSumAppend(a[1..], b);
    }
  }

  /** The queue entries a visited node contributes: its non-empty children, left first. */
  function Kids<A>(l: Tree<A>, r: Tree<A>): seq<Tree<A>>
  {
    (if l.Nil? then [] else [l]) + (if r.Nil? then [] else [r])
  }

  /** Breadth-first visit of a queue of subtrees. */
  function Bfs<A>(q: seq<Tree<A>>): seq<int>
    decreases SizeSum(q), |q|
  {
    if q == [] then []
    else
      match q[0]
      case Nil => Bfs(q[1..])
      case Node(l, v, _, r) =>
        SizeSumAppend(q[1..], Kids(l, r));
        SizeSumAppend([l], [r]);
        [v] + Bfs(q[1..] + Kids(l, r))
  }

  function LevelOrder<A>(t: Tree<A>): (r: seq<int>)
    ensures t.Nil? ==> r == []
    ensures t.Node? ==> |r| > 0 && r[0] == t.value
  {
    if t.Nil? then [] else Bfs([t])
  }

  lemma {:induction false} PreorderVisitsEachNodeOnce<A>(t: Tree<A>)
    ensures multiset(Preorder(t)) == Occurrences(t) && |Preorder(t)| == Size(t)
  {
    match t
    case Nil =>
    case Node(l, v, _, r) =>
      PreorderVisitsEachNodeOnce(l);
      PreorderVisitsEachNodeOnce(r);
  }

  lemma {:induction false} InorderVisitsEachNodeOnce<A>(t: Tree<A>)
    ensures multiset(Inorder(t)) == Occurrences(t) && |Inorder(t)| == Size(t)
  {
    match t
    case Nil =>
    case Node(l, v, _, r) =>
      InorderVisitsEachNodeOnce(l);
      InorderVisitsEachNodeOnce(r);
  }

  lemma {:induction false} PostorderVisitsEachNodeOnce<A>(t: Tree<A>)
    ensures multiset(Postorder(t)) == Occurrences(t) && |Postorder(t)| == Size(t)
  {
    match t
    case Nil =>
    case Node(l, v, _, r) =>
      PostorderVisitsEachNodeOnce(l);
      PostorderVisitsEachNodeOnce(r);
  }

  function QueueOccurrences<A>(q: seq<Tree<A>>): multiset<int>
  {
    if q == [] then multiset{} else Occurrences(q[0]) + QueueOccurrences(q[1..])
  }

  lemma {:induction false} QueueOccurrencesAppend<A>(a: seq<Tree<A>>, b: seq<Tree<A>>)
    ensures QueueOccurrences(a + b) == QueueOccurrences(a) + QueueOccurrences(b)
  {
    if a == [] {
      assert a + b == b;
    } else {
      assert (a + b)[1..] == a[1..] + b;
      QueueOccurrencesAppend(a[1..], b);
    }
  }

  lemma {:induction false} BfsVisitsEachNodeOnce<A>(q: seq<Tree<A>>)
    ensures multiset(Bfs(q)) == QueueOccurrences(q) && |Bfs(q)| == SizeSum(q)
    decreases SizeSum(q), |q|
  {
    if q != [] {
      match q[0]
      case Nil =>
        BfsVisitsEachNodeOnce(q[1..]);
      case Node(l, v, _, r) =>
        var next := q[1..] + Kids(l, r);
        BfsStep(q);
        BfsVisitsEachNodeOnce(next);
    }
  }

  /** One visiting step of the breadth-first walk: the queue loses the visited node and
      gains its children, so the remaining work is one node smaller. */
  lemma BfsStep<A>(q: seq<Tree<A>>)
    requires q != [] && q[0].Node?
    ensures var next := q[1..] + Kids(q[0].left, q[0].right);
      Bfs(q) == [q[0].value] + Bfs(next) &&
      SizeSum(next) + 1 == SizeSum(q) &&
      QueueOccurrences(next) + multiset{q[0].value} == QueueOccurrences(q)
  {
    var Node(l, v, _, r) := q[0];
    var k := Kids(l, r);
    SizeSumAppend(q[1..], k);
    QueueOccurrencesAppend(q[1..], k);
    KidsMeasures(l, r);
  }

  lemma KidsMeasures<A>(l: Tree<A>, r: Tree<A>)
    ensures SizeSum(Kids(l, r)) == Size(l) + Size(r)
    ensures QueueOccurrences(Kids(l, r)) == Occurrences(l) + Occurrences(r)
  {
    var a: seq<Tree<A>> := if l.Nil? then [] else [l];
    var b: seq<Tree<A>> := if r.Nil? then [] else [r];
    SizeSumAppend(a, b);
    QueueOccurrencesAppend(a, b);
    QueueSingleton(l);
    QueueSingleton(r);
  }

  lemma QueueSingleton<A>(x: Tree<A>)
    ensures SizeSum([x]) == Size(x) && QueueOccurrences([x]) == Occurrences(x)
  {
    assert [x][1..] == [];
  }

  lemma LevelOrderVisitsEachNodeOnce<A>(t: Tree<A>)
    ensures multiset(LevelOrder(t)) == Occurrences(t) && |LevelOrder(t)| == Size(t)
  {
    if t.Node? {
      BfsVisitsEachNodeOnce([t]);
      assert [t][1..] == [];
    }
  }

  // ---------------------------------------------------------------- ordering

  lemma {:induction false} OccurrencesValues<A>(t: Tree<A>)
    ensures forall x :: x in Occurrences(t) <==> x in Values(t)
  {
    match t
    case Nil =>
    case Node(l, v, _, r) =>
      OccurrencesValues(l);
      OccurrencesValues(r);
  }

  lemma InorderValues<A>(t: Tree<A>)
    ensures forall x :: x in Inorder(t) <==> x in Values(t)
  {
    InorderVisitsEachNodeOnce(t);
    OccurrencesValues(t);
    forall x ensures x in Inorder(t) <==> x in Values(t) {
      assert x in Inorder(t) <==> x in multiset(Inorder(t));
    }
  }

  lemma IncreasingConcat(a: seq<int>, v: int, b: seq<int>)
    ensures Increasing(a + [v] + b) <==>
      Increasing(a) && Increasing(b) &&
      (forall x | x in a :: x < v) && (forall x | x in b :: v < x)
  {
    var s := a + [v] + b;
    if Increasing(a) && Increasing(b) && (forall x | x in a :: x < v) && (forall x | x in b :: v < x) {
      forall i, j | 0 <= i < j < |s| ensures s[i] < s[j] {
        if j < |a| {
        } else if i < |a| {
          assert s[i] in a;
          if j > |a| { assert s[j] in b; }
        } else if i == |a| {
          assert s[j] in b;
        } else {
          assert s[i] == b[i - |a| - 1] && s[j] == b[j - |a| - 1];
        }
      }
    }
    if Increasing(s) {
      forall i, j | 0 <= i < j < |a| ensures a[i] < a[j] { assert s[i] == a[i] && s[j] == a[j]; }
      forall i, j | 0 <= i < j < |b| ensures b[i] < b[j] {
        assert s[|a| + 1 + i] == b[i] && s[|a| + 1 + j] == b[j];
      }
      forall x | x in a ensures x < v {
        var i :| 0 <= i < |a| && a[i] == x;
        assert s[i] == x && s[|a|] == v;
      }
      forall x | x in b ensures v < x {
        var i :| 0 <= i < |b| && b[i] == x;
        assert s[|a| + 1 + i] == x && s[|a|] == v;
      }
    }
  }

  /** A tree is ordered exactly when its inorder sequence is strictly increasing. */
  lemma {:induction false} OrderedIffInorderIncreasing<A>(t: Tree<A>)
    ensures Ordered(t) <==> Increasing(Inorder(t))
  {
    match t
    case Nil =>
    case Node(l, v, _, r) =>
      OrderedIffInorderIncreasing(l);
      OrderedIffInorderIncreasing(r);
      InorderValues(l);
      InorderValues(r);
      IncreasingConcat(Inorder(l), v, Inorder(r));
  }

  /** Two trees with the same inorder sequence hold the same keys and are ordered alike. */
  lemma SameInorder<A, B>(t: Tree<A>, u: Tree<B>)
    requires Inorder(t) == Inorder(u)
    ensures Values(t) == Values(u)
    ensures Ordered(t) <==> Ordered(u)
  {
    InorderValues(t);
    InorderValues(u);
    forall x ensures x in Values(t) <==> x in Values(u) {
      assert x in Values(t) <==> x in Inorder(t);
      assert x in Values(u) <==> x in Inorder(u);
    }
    OrderedIffInorderIncreasing(t);
    OrderedIffInorderIncreasing(u);
  }

  lemma {:induction false} OrderedNoDuplicates<A>(t: Tree<A>)
    requires Ordered(t)
    ensures |Values(t)| == Size(t)
  {
    match t
    case Nil =>
    case Node(l, v, _, r) =>
      OrderedNoDuplicates(l);
      OrderedNoDuplicates(r);
      assert Values(l) !! Values(r) by {
        forall x | x in Values(l) ensures x !in Values(r) { }
      }
      var a, b := Values(l), Values(r);
      assert a * b == {};
      assert |a + b| == |a| + |b|;
      assert v !in a + b;
      assert |(a + b) + {v}| == |a + b| + 1;
      assert Values(t) == (a + b) + {v};
  }

  // ---------------------------------------------------------------- paths and search

  function Child<A>(t: Tree<A>, d: Dir): Tree<A>
    requires t.Node?
  {
    if d == Left then t.left else t.right
  }

  function Other(d: Dir): Dir
  {
    if d == Left then Right else Left
  }

  /** A path that can be followed from the root; it may end at an empty slot. */
  predicate ValidPath<A>(t: Tree<A>, p: Path)
  {
    p == [] || (t.Node? && ValidPath(Child(t, p[0]), p[1..]))
  }

  function Sub<A>(t: Tree<A>, p: Path): Tree<A>
    requires ValidPath(t, p)
  {
    if p == [] then t else Sub(Child(t, p[0]), p[1..])
  }

  /** `t` with the subtree at `p` replaced by `x`. */
  function ReplaceAt<A>(t: Tree<A>, p: Path, x: Tree<A>): Tree<A>
    requires ValidPath(t, p)
  {
    if p == [] then x
    else if p[0] == Left then Node(ReplaceAt(t.left, p[1..], x), t.value, t.info, t.right)
    else Node(t.left, t.value, t.info, ReplaceAt(t.right, p[1..], x))
  }

  lemma {:induction false} ReplaceAtSameInorder<A>(t: Tree<A>, p: Path, x: Tree<A>)
    requires ValidPath(t, p)
    requires Inorder(x) == Inorder(Sub(t, p))
    ensures Inorder(ReplaceAt(t, p, x)) == Inorder(t)
  {
    if p != [] {
      ReplaceAtSameInorder(Child(t, p[0]), p[1..], x);
    }
  }

  lemma {:induction false} ReplaceAtSub<A>(t: Tree<A>, p: Path, x: Tree<A>)
    requires ValidPath(t, p)
    ensures ValidPath(ReplaceAt(t, p, x), p) && Sub(ReplaceAt(t, p, x), p) == x
  {
    if p != [] {
      ReplaceAtSub(Child(t, p[0]), p[1..], x);
    }
  }

  lemma {:induction false} ValidPathPrefix<A>(t: Tree<A>, p: Path, k: nat)
    requires ValidPath(t, p) && k <= |p|
    ensures ValidPath(t, p[..k])
  {
    if k > 0 {
      assert p[..k][1..] == p[1..][..k - 1];
      ValidPathPrefix(Child(t, p[0]), p[1..], k - 1);
    }
  }

  lemma {:induction false} SubAppend<A>(t: Tree<A>, p: Path, q: Path)
    requires ValidPath(t, p)
    ensures ValidPath(t, p + q) <==> ValidPath(Sub(t, p), q)
    ensures ValidPath(t, p + q) ==> Sub(t, p + q) == Sub(Sub(t, p), q)
  {
    if p == [] {
      assert p + q == q;
    } else {
      assert (p + q)[0] == p[0] && (p + q)[1..] == p[1..] + q;
      SubAppend(Child(t, p[0]), p[1..], q);
    }
  }

  lemma {:induction false} ReplaceAtAppend<A>(t: Tree<A>, p: Path, q: Path, x: Tree<A>)
    requires ValidPath(t, p) && ValidPath(Sub(t, p), q)
    ensures ValidPath(t, p + q)
    ensures ReplaceAt(t, p + q, x) == ReplaceAt(t, p, ReplaceAt(Sub(t, p), q, x))
  {
    SubAppend(t, p, q);
    if p == [] {
      assert p + q == q;
    } else {
      assert (p + q)[0] == p[0] && (p + q)[1..] == p[1..] + q;
      ReplaceAtAppend(Child(t, p[0]), p[1..], q, x);
    }
  }

  /** The comparison path from the root towards `v`: it stops at the node holding `v`,
      or at the empty slot where `v` would be attached. */
  function SearchPath<A>(t: Tree<A>, v: int): (p: Path)
    ensures ValidPath(t, p)
  {
    match t
    case Nil => []
    case Node(l, w, _, r) =>
      if v == w then []
      else if v < w then [Left] + SearchPath(l, v)
      else [Right] + SearchPath(r, v)
  }

  /** In an ordered tree the search path ends at `v`'s node when `v` is held,
      and at an empty slot otherwise. */
  lemma {:induction false} SearchPathFinds<A>(t: Tree<A>, v: int)
    requires Ordered(t)
    ensures var s := Sub(t, SearchPath(t, v));
      (v in Values(t) <==> s.Node?) && (s.Node? ==> s.value == v)
  {
    match t
    case Nil =>
    case Node(l, w, _, r) =>
      if v < w {
        SearchPathFinds(l, v);
        assert v !in Values(r);
      } else if v > w {
        SearchPathFinds(r, v);
        assert v !in Values(l);
      }
  }

  /** Below a node with a different key, the search continues on one side only. */
  lemma SearchPathSide<A>(t: Tree<A>, v: int, d: Dir)
    requires t.Node? && Ordered(t) && v != t.value && d == (if v < t.value then Left else Right)
    ensures SearchPath(t, v) == [d] + SearchPath(Child(t, d), v)
    ensures v in Values(t) <==> v in Values(Child(t, d))
    ensures Ordered(Child(t, d))
  {
    if d == Left {
      assert v !in Values(t.right);
    } else {
      assert v !in Values(t.left);
    }
  }

  /** Key of the leftmost node: the in-order successor source used by delete. */
  function Min<A>(t: Tree<A>): (m: int)
    requires t.Node?
    ensures m in Values(t)
    ensures Ordered(t) ==> forall x | x in Values(t) :: m <= x
  {
    if t.left.Nil? then t.value else Min(t.left)
  }

  /** Number of left steps from `t` to its leftmost node. */
  function LeftSpine<A>(t: Tree<A>): Path
    requires t.Node?
  {
    if t.left.Nil? then [] else [Left] + LeftSpine(t.left)
  }

  lemma {:induction false} LeftSpineFindsMin<A>(t: Tree<A>)
    requires t.Node?
    ensures ValidPath(t, LeftSpine(t))
    ensures var m := Sub(t, LeftSpine(t)); m.Node? && m.left.Nil? && m.value == Min(t)
    ensures forall i | 0 <= i < |LeftSpine(t)| :: LeftSpine(t)[i] == Left
  {
    if t.left.Node? {
      LeftSpineFindsMin(t.left);
    }
  }

  // ---------------------------------------------------------------- generic BST operations

  /** Leaf insertion as both the BST and the red-black engine do it: descend by
      comparison, ignore a key already met on the way, attach a new node carrying
      payload `i` at the first empty slot. */
  function Insert<A>(t: Tree<A>, v: int, i: A): (r: Tree<A>)
    ensures Values(r) == Values(t) + {v}
    ensures Ordered(t) ==> Ordered(r)
    ensures Ordered(t) && v in Values(t) ==> r == t
  {
    match t
    case Nil => Node(Nil, v, i, Nil)
    case Node(l, w, j, rt) =>
      if v == w then t
      else if v < w then Node(Insert(l, v, i), w, j, rt)
      else Node(l, w, j, Insert(rt, v, i))
  }

  /** Inserting a key already on its search path leaves the tree as it is. */
  lemma {:induction false} InsertFound<A>(t: Tree<A>, v: int, i: A)
    requires Sub(t, SearchPath(t, v)).Node?
    ensures Insert(t, v, i) == t
  {
    match t
    case Nil =>
    case Node(l, w, _, r) =>
      if v < w {
        InsertFound(l, v, i);
      } else if v > w {
        InsertFound(r, v, i);
      }
  }

  /** Inserting an absent key changes nothing but the empty slot at the end of its
      search path, which receives the new leaf. */
  lemma {:induction false} InsertAddsLeafAtSearchPath<A>(t: Tree<A>, v: int, i: A)
    requires v !in Values(t)
    ensures var p := SearchPath(t, v);
      Sub(t, p) == Nil && Insert(t, v, i) == ReplaceAt(t, p, Node(Nil, v, i, Nil))
  {
    match t
    case Nil =>
    case Node(l, w, _, r) =>
      if v < w {
        InsertAddsLeafAtSearchPath(l, v, i);
      } else {
        InsertAddsLeafAtSearchPath(r, v, i);
      }
  }

  /** Successor-copying delete as the BST engine does it: splice out a node with at
      most one child; otherwise copy in the minimum of the right subtree (the node
      keeps its payload) and delete that key from the right subtree. */
  function Delete<A>(t: Tree<A>, v: int): (r: Tree<A>)
    ensures Values(r) <= Values(t)
    ensures Ordered(t) ==> Ordered(r) && Values(r) == Values(t) - {v}
    ensures v !in Values(t) ==> r == t
  {
    match t
    case Nil => Nil
    case Node(l, w, i, rt) =>
      if v < w then Node(Delete(l, v), w, i, rt)
      else if v > w then Node(l, w, i, Delete(rt, v))
      else if l.Nil? then rt
      else if rt.Nil? then l
      else
        var m := Min(rt);
        Node(l, m, i, Delete(rt, m))
  }

  /** Removing the first occurrence of `v` from a sequence. */
  function Remove(s: seq<int>, v: int): seq<int>
  {
    if s == [] then [] else if s[0] == v then s[1..] else [s[0]] + Remove(s[1..], v)
  }

  /** Inserting into a sorted sequence. */
  function InsertSorted(s: seq<int>, v: int): seq<int>
  {
    if s == [] then [v] else if v == s[0] then s else if v < s[0] then [v] + s else [s[0]] + InsertSorted(s[1..], v)
  }

  lemma {:induction false} RemoveConcat(a: seq<int>, v: int, b: seq<int>)
    requires v !in a
    ensures Remove(a + b, v) == a + Remove(b, v)
  {
    if a != [] {
      assert (a + b)[0] == a[0] && (a + b)[1..] == a[1..] + b;
      RemoveConcat(a[1..], v, b);
    } else {
      assert a + b == b;
    }
  }

  lemma {:induction false} RemoveAbsent(s: seq<int>, v: int)
    requires v !in s
    ensures Remove(s, v) == s
  {
    if s != [] {
      RemoveAbsent(s[1..], v);
    }
  }

  lemma {:induction false} InsertSortedConcat(a: seq<int>, w: int, b: seq<int>, v: int)
    requires forall x | x in a :: x < v
    ensures InsertSorted(a + [w] + b, v) == a + InsertSorted([w] + b, v)
  {
    if a != [] {
      assert a[0] in a;
      assert (a + [w] + b)[0] == a[0] && (a + [w] + b)[1..] == a[1..] + [w] + b;
      assert forall x | x in a[1..] :: x in a;
      InsertSortedConcat(a[1..], w, b, v);
      assert a + InsertSorted([w] + b, v) == [a[0]] + (a[1..] + InsertSorted([w] + b, v));
    } else {
      assert a + [w] + b == [w] + b;
    }
  }

  lemma {:induction false} InsertSortedFront(a: seq<int>, v: int)
    requires forall x | x in a :: v < x
    ensures InsertSorted(a, v) == [v] + a
  {
    if a != [] {
      assert a[0] in a;
    }
  }

  /** The inorder sequence of an insertion is the sorted insertion into the inorder
      sequence. */
  lemma {:induction false} InsertInorder<A>(t: Tree<A>, v: int, i: A)
    requires Ordered(t)
    ensures Inorder(Insert(t, v, i)) == InsertSorted(Inorder(t), v)
  {
    match t
    case Nil =>
    case Node(l, w, j, r) =>
      if v == w {
        InorderValues(l);
        InsertSortedConcat(Inorder(l), w, Inorder(r), v);
      } else if v < w {
        InsertInorder(l, v, i);
        InsertSortedBefore(Inorder(l), v, w, Inorder(r));
      } else {
        InsertInorder(r, v, i);
        InsertRightInorder(t, v, i);
      }
  }

  lemma {:induction false} InsertRightInorder<A>(t: Tree<A>, v: int, i: A)
    requires Ordered(t) && t.Node? && v > t.value
    requires Inorder(Insert(t.right, v, i)) == InsertSorted(Inorder(t.right), v)
    ensures Inorder(Insert(t, v, i)) == InsertSorted(Inorder(t), v)
  {
    var Node(l, w, j, r) := t;
    var a, b := Inorder(l), Inorder(r);
    assert InsertSorted([w] + b, v) == [w] + InsertSorted(b, v) by {
      assert ([w] + b)[0] == w && ([w] + b)[1..] == b;
    }
    assert InsertSorted(Inorder(t), v) == a + ([w] + InsertSorted(b, v)) by {
      assert forall x | x in a :: x < v by { InorderValues(l); }
      InsertSortedConcat(a, w, b, v);
    }
    assert Inorder(Insert(t, v, i)) == a + [w] + InsertSorted(b, v);
  }

  lemma {:induction false} InsertSortedBefore(a: seq<int>, v: int, w: int, b: seq<int>)
    requires v < w
    ensures InsertSorted(a + [w] + b, v) == InsertSorted(a, v) + [w] + b
  {
    if a == [] {
      assert a + [w] + b == [w] + b;
    } else {
      assert (a + [w] + b)[0] == a[0] && (a + [w] + b)[1..] == a[1..] + [w] + b;
      InsertSortedBefore(a[1..], v, w, b);
    }
  }

  /** The inorder sequence of a deletion is the inorder sequence with that key removed. */
  lemma {:induction false} DeleteInorder<A>(t: Tree<A>, v: int)
    requires Ordered(t)
    ensures Inorder(Delete(t, v)) == Remove(Inorder(t), v)
    decreases t, 1
  {
    match t
    case Nil =>
    case Node(l, w, i, r) =>
      if v < w {
        DeleteInorder(l, v);
        InorderValues(r);
        RemoveBefore(Inorder(l), v, w, Inorder(r));
      } else if v > w {
        DeleteInorder(r, v);
        DeleteRightInorder(t, v);
      } else {
        DeleteRootInorder(t);
      }
  }

  lemma {:induction false} DeleteRightInorder<A>(t: Tree<A>, v: int)
    requires Ordered(t) && t.Node? && v > t.value
    requires Inorder(Delete(t.right, v)) == Remove(Inorder(t.right), v)
    ensures Inorder(Delete(t, v)) == Remove(Inorder(t), v)
  {
    var Node(l, w, i, r) := t;
    var a, b := Inorder(l), Inorder(r);
    assert v !in a by {
      InorderValues(l);
    }
    assert Remove([w] + b, v) == [w] + Remove(b, v) by {
      assert ([w] + b)[0] == w && ([w] + b)[1..] == b;
    }
    assert Remove(Inorder(t), v) == a + ([w] + Remove(b, v)) by {
      RemoveConcat(a, v, [w] + b);
      assert Inorder(t) == a + ([w] + b);
    }
    assert Inorder(Delete(t, v)) == a + [w] + Remove(b, v);
  }

  lemma {:induction false} DeleteRootInorder<A>(t: Tree<A>)
    requires Ordered(t) && t.Node?
    ensures Inorder(Delete(t, t.value)) == Remove(Inorder(t), t.value)
    decreases t, 0
  {
    var Node(l, w, i, r) := t;
    InorderValues(l);
    RemoveConcat(Inorder(l), w, [w] + Inorder(r));
    assert Inorder(t) == Inorder(l) + ([w] + Inorder(r));
    assert Remove([w] + Inorder(r), w) == Inorder(r);
    if l.Node? && r.Node? {
      var m := Min(r);
      DeleteInorder(r, m);
      MinInorder(r);
      assert Remove(Inorder(r), m) == Inorder(r)[1..];
      assert Inorder(r) == [m] + Inorder(r)[1..];
    }
  }

  lemma {:induction false} RemoveBefore(a: seq<int>, v: int, w: int, b: seq<int>)
    requires v < w && v !in b
    ensures Remove(a + [w] + b, v) == Remove(a, v) + [w] + b
  {
    if a == [] {
      assert a + [w] + b == [w] + b;
      RemoveAbsent(b, v);
    } else {
      assert (a + [w] + b)[0] == a[0] && (a + [w] + b)[1..] == a[1..] + [w] + b;
      RemoveBefore(a[1..], v, w, b);
    }
  }

  lemma {:induction false} MinInorder<A>(t: Tree<A>)
    requires t.Node?
    ensures Inorder(t)[0] == Min(t)
  {
    if t.left.Node? {
      MinInorder(t.left);
    }
  }

  // ---------------------------------------------------------------- rotations

  /** Right rotation about the root: the left child is promoted. No-op without one. */
  function RotateRight<A>(t: Tree<A>): (r: Tree<A>)
    ensures Inorder(r) == Inorder(t)
    ensures Values(r) == Values(t) && (Ordered(r) <==> Ordered(t))
    ensures t.Node? && t.left.Node? ==> r.Node? && r.value == t.left.value && r.right.Node? && r.right.value == t.value
  {
    match t
    case Node(Node(a, x, i, b), y, j, c) =>
      SameInorder(t, Node(a, x, i, Node(b, y, j, c)));
      Node(a, x, i, Node(b, y, j, c))
    case _ => t
  }

  /** Left rotation about the root: the right child is promoted. No-op without one. */
  function RotateLeft<A>(t: Tree<A>): (r: Tree<A>)
    ensures Inorder(r) == Inorder(t)
    ensures Values(r) == Values(t) && (Ordered(r) <==> Ordered(t))
    ensures t.Node? && t.right.Node? ==> r.Node? && r.value == t.right.value && r.left.Node? && r.left.value == t.value
  {
    match t
    case Node(a, x, i, Node(b, y, j, c)) =>
      SameInorder(t, Node(Node(a, x, i, b), y, j, c));
      Node(Node(a, x, i, b), y, j, c)
    case _ => t
  }

  /** `t` rotated down towards side `d`: the child on the other side is promoted
      (`_rotateLeft` for `Left`, `_rotateRight` for `Right`). */
  function RotateDown<A>(t: Tree<A>, d: Dir): (r: Tree<A>)
    ensures Inorder(r) == Inorder(t)
    ensures t.Node? && Child(t, Other(d)).Node? ==> r.Node? && Child(r, d).Node?
  {
    if d == Left then RotateLeft(t) else RotateRight(t)
  }

  /** `t` with its child on side `d` replaced by `x`. */
  function WithChild<A>(t: Tree<A>, d: Dir, x: Tree<A>): (r: Tree<A>)
    requires t.Node?
    ensures r.Node? && r.value == t.value && r.info == t.info && Child(r, d) == x && Child(r, Other(d)) == Child(t, Other(d))
    ensures Inorder(x) == Inorder(Child(t, d)) ==> Inorder(r) == Inorder(t)
  {
    if d == Left then t.(left := x) else t.(right := x)
  }

  lemma {:induction false} OrderedSub<A>(t: Tree<A>, p: Path)
    requires ValidPath(t, p) && Ordered(t)
    ensures Ordered(Sub(t, p)) && Values(Sub(t, p)) <= Values(t)
  {
    if p != [] {
      OrderedSub(Child(t, p[0]), p[1..]);
    }
  }

  /** The demoted node with its remaining children, as a rotation leaves it. */
  lemma RotationMidOrdered<A>(t: Tree<A>)
    requires Ordered(t) && t.Node?
    ensures t.left.Node? ==> var m := Node(t.left.right, t.value, t.info, t.right);
      Ordered(m) && Values(m) <= Values(t)
    ensures t.right.Node? ==> var m := Node(t.left, t.value, t.info, t.right.left);
      Ordered(m) && Values(m) <= Values(t)
  {
  }

  lemma {:induction false} ReplaceAtTwice<A>(t: Tree<A>, p: Path, x: Tree<A>, y: Tree<A>)
    requires ValidPath(t, p)
    ensures ValidPath(ReplaceAt(t, p, x), p)
    ensures ReplaceAt(ReplaceAt(t, p, x), p, y) == ReplaceAt(t, p, y)
  {
    ReplaceAtSub(t, p, x);
    if p != [] {
      ReplaceAtTwice(Child(t, p[0]), p[1..], x, y);
    }
  }

  /** Below a replaced subtree, paths lead into the replacement, and replacing there again
      is replacing inside the replacement. */
  lemma ReplaceBelow<A>(t: Tree<A>, g: Path, x: Tree<A>, q: Path, y: Tree<A>)
    requires ValidPath(t, g) && ValidPath(x, q)
    ensures ValidPath(ReplaceAt(t, g, x), g + q) && Sub(ReplaceAt(t, g, x), g + q) == Sub(x, q)
    ensures ReplaceAt(ReplaceAt(t, g, x), g + q, y) == ReplaceAt(t, g, ReplaceAt(x, q, y))
  {
    var t1 := ReplaceAt(t, g, x);
    ReplaceAtSub(t, g, x);
    SubAppend(t1, g, q);
    ReplaceAtAppend(t1, g, q, y);
    ReplaceAtTwice(t, g, x, ReplaceAt(x, q, y));
  }

  /** Rotating below a replaced subtree is rotating inside the replacement. */
  lemma RotateBelow<A>(t: Tree<A>, g: Path, x: Tree<A>, q: Path, rightwards: bool)
    requires ValidPath(t, g) && ValidPath(x, q)
    ensures ValidPath(ReplaceAt(t, g, x), g + q) && Sub(ReplaceAt(t, g, x), g + q) == Sub(x, q)
    ensures var y := if rightwards then RotateRight(Sub(x, q)) else RotateLeft(Sub(x, q));
      ReplaceAt(ReplaceAt(t, g, x), g + q, y) == ReplaceAt(t, g, ReplaceAt(x, q, y))
  {
    ReplaceBelow(t, g, x, q, if rightwards then RotateRight(Sub(x, q)) else RotateLeft(Sub(x, q)));
  }

  /** Where a rotation at `g` moves things: the demoted node drops to the side away from
      the promoted child, and the promoted child's outer subtree rises one level. */
  lemma RotateMoves<A>(t: Tree<A>, g: Path, rightwards: bool)
    requires ValidPath(t, g) && Sub(t, g).Node?
    requires (if rightwards then Sub(t, g).left else Sub(t, g).right).Node?
    ensures var d, o := (if rightwards then Left else Right), (if rightwards then Right else Left);
      var r := ReplaceAt(t, g, if rightwards then RotateRight(Sub(t, g)) else RotateLeft(Sub(t, g)));
      ValidPath(r, g + [o]) && Sub(r, g + [o]).Node? && Sub(r, g + [o]).info == Sub(t, g).info &&
      ValidPath(t, g + [d, d]) && ValidPath(r, g + [d]) && Sub(r, g + [d]) == Sub(t, g + [d, d])
  {
    var d, o := (if rightwards then Left else Right), (if rightwards then Right else Left);
    var x := if rightwards then RotateRight(Sub(t, g)) else RotateLeft(Sub(t, g));
    var r := ReplaceAt(t, g, x);
    ReplaceAtSub(t, g, x);
    SubStep(r, g, o);
    SubStep(r, g, d);
    SubStep(t, g, d);
    SubStep(t, g + [d], d);
    assert g + [d] + [d] == g + [d, d];
  }

  /** `RotateMoves` one level down: rotating the subtree at `g + [d]` moves its root to
      `g + [d, o]`, on the side `o` the rotation turns towards. */
  lemma RotateMovesBelow<A>(t: Tree<A>, g: Path, d: Dir, rightwards: bool)
    requires ValidPath(t, g + [d]) && Sub(t, g + [d]).Node?
    requires (if rightwards then Sub(t, g + [d]).left else Sub(t, g + [d]).right).Node?
    ensures var o := if rightwards then Right else Left;
      var r := ReplaceAt(t, g + [d], if rightwards then RotateRight(Sub(t, g + [d])) else RotateLeft(Sub(t, g + [d])));
      ValidPath(r, g + [d, o]) && Sub(r, g + [d, o]).Node? && Sub(r, g + [d, o]).info == Sub(t, g + [d]).info
  {
    RotateMoves(t, g + [d], rightwards);
    assert g + [d] + [if rightwards then Right else Left] == g + [d, if rightwards then Right else Left];
  }

  /** Where a rotation down towards `d` at `g` moves things: the demoted node drops to
      `g + [d]` with its child on side `d` below it, and the promoted child's inner
      subtree becomes the demoted node's child on the other side. */
  lemma RotateDownMoves<A>(t: Tree<A>, g: Path, d: Dir)
    requires ValidPath(t, g) && Sub(t, g).Node? && Child(Sub(t, g), Other(d)).Node?
    ensures var x, o := Sub(t, g), Other(d); var r := ReplaceAt(t, g, RotateDown(x, d));
      ValidPath(r, g) && Sub(r, g).Node? && Sub(r, g).info == Child(x, o).info &&
      ValidPath(r, g + [d]) && Sub(r, g + [d]).Node? && Sub(r, g + [d]).info == x.info &&
      ValidPath(r, g + [d] + [d]) && Sub(r, g + [d] + [d]) == Child(x, d) &&
      ValidPath(r, g + [d] + [o]) && Sub(r, g + [d] + [o]) == Child(Child(x, o), d)
  {
    var x, o := Sub(t, g), Other(d);
    var y := RotateDown(x, d);
    var r := ReplaceAt(t, g, y);
    ReplaceAtSub(t, g, y);
    SubStep(r, g, d);
    SubStep(r, g + [d], d);
    SubStep(r, g + [d], o);
  }

  /** Replacing a child of a replaced subtree is replacing that child inside it. */
  lemma ReplaceChild<A>(t: Tree<A>, g: Path, x: Tree<A>, d: Dir, y: Tree<A>)
    requires ValidPath(t, g) && x.Node?
    ensures ValidPath(ReplaceAt(t, g, x), g + [d]) && Sub(ReplaceAt(t, g, x), g + [d]) == Child(x, d)
    ensures ReplaceAt(ReplaceAt(t, g, x), g + [d], y) == ReplaceAt(t, g, WithChild(x, d, y))
  {
    ReplaceBelow(t, g, x, [d], y);
    assert [d][1..] == [];
    assert Sub(x, [d]) == Sub(Child(x, d), []);
    assert ReplaceAt(x, [d], y) == WithChild(x, d, y);
  }

  /** Replacing the child on side `d` of the node at `g` keeps the node, and its other
      child, where they were. */
  lemma ReplaceChildAt<A>(t: Tree<A>, g: Path, d: Dir, y: Tree<A>)
    requires ValidPath(t, g) && Sub(t, g).Node?
    ensures ValidPath(t, g + [d]) && Sub(t, g + [d]) == Child(Sub(t, g), d)
    ensures ValidPath(t, g + [Other(d)]) && Sub(t, g + [Other(d)]) == Child(Sub(t, g), Other(d))
    ensures var r := ReplaceAt(t, g + [d], y);
      ValidPath(r, g) && Sub(r, g) == WithChild(Sub(t, g), d, y) &&
      ValidPath(r, g + [d]) && Sub(r, g + [d]) == y &&
      ValidPath(r, g + [Other(d)]) && Sub(r, g + [Other(d)]) == Sub(t, g + [Other(d)])
  {
    SubStep(t, g, d);
    SubStep(t, g, Other(d));
    ReplaceAtSelf(t, g);
    ReplaceChild(t, g, Sub(t, g), d, y);
    var w := WithChild(Sub(t, g), d, y);
    ReplaceAtSub(t, g, w);
    SubStep(ReplaceAt(t, g, w), g, d);
    SubStep(ReplaceAt(t, g, w), g, Other(d));
  }

  /** Rotating the subtree at a path keeps the whole tree's inorder sequence. */
  lemma RotateAtPreservesInorder<A>(t: Tree<A>, p: Path, rightwards: bool)
    requires ValidPath(t, p)
    ensures var x := if rightwards then RotateRight(Sub(t, p)) else RotateLeft(Sub(t, p));
      Inorder(ReplaceAt(t, p, x)) == Inorder(t) &&
      Values(ReplaceAt(t, p, x)) == Values(t) &&
      (Ordered(ReplaceAt(t, p, x)) <==> Ordered(t))
  {
    var x := if rightwards then RotateRight(Sub(t, p)) else RotateLeft(Sub(t, p));
    ReplaceAtSameInorder(t, p, x);
    SameInorder(t, ReplaceAt(t, p, x));
  }

  // ---------------------------------------------------------------- forgetting payloads

  /** The same tree with every payload dropped: only shape and keys remain. */
  function Erase<A>(t: Tree<A>): (r: Tree<()>)
    ensures Size(r) == Size(t) && Values(r) == Values(t) && (r.Nil? <==> t.Nil?)
    ensures Height(r) == Height(t)
  {
    match t
    case Nil => Nil
    case Node(l, v, _, r) => Node(Erase(l), v, (), Erase(r))
  }

  lemma {:induction false} EraseKeepsOrderAndTraversals<A>(t: Tree<A>)
    ensures Ordered(Erase(t)) <==> Ordered(t)
    ensures Preorder(Erase(t)) == Preorder(t) && Inorder(Erase(t)) == Inorder(t)
    ensures Postorder(Erase(t)) == Postorder(t)
  {
    if t.Node? {
      EraseKeepsOrderAndTraversals(t.left);
      EraseKeepsOrderAndTraversals(t.right);
    }
  }

  function EraseQueue<A>(q: seq<Tree<A>>): (r: seq<Tree<()>>)
    ensures |r| == |q| && forall i | 0 <= i < |q| :: r[i] == Erase(q[i])
  {
    if q == [] then [] else [Erase(q[0])] + EraseQueue(q[1..])
  }

  lemma {:induction false} EraseKeepsBfs<A>(q: seq<Tree<A>>)
    ensures Bfs(EraseQueue(q)) == Bfs(q)
    decreases SizeSum(q), |q|
  {
    if q != [] {
      var e := EraseQueue(q);
      assert e[1..] == EraseQueue(q[1..]);
      match q[0]
      case Nil =>
        EraseKeepsBfs(q[1..]);
      case Node(l, v, _, r) =>
        SizeSumAppend(q[1..], Kids(l, r));
        SizeSumAppend([l], [r]);
        assert e[1..] + Kids(Erase(l), Erase(r)) == EraseQueue(q[1..] + Kids(l, r));
        EraseKeepsBfs(q[1..] + Kids(l, r));
    }
  }

  lemma EraseKeepsLevelOrder<A>(t: Tree<A>)
    ensures LevelOrder(Erase(t)) == LevelOrder(t)
  {
    if t.Node? {
      assert EraseQueue([t]) == [Erase(t)];
      EraseKeepsBfs([t]);
    }
  }

  lemma {:induction false} EraseSearchPath<A>(t: Tree<A>, v: int)
    ensures SearchPath(Erase(t), v) == SearchPath(t, v)
  {
    if t.Node? {
      EraseSearchPath(t.left, v);
      EraseSearchPath(t.right, v);
    }
  }

  lemma {:induction false} EraseSub<A>(t: Tree<A>, p: Path)
    requires ValidPath(t, p)
    ensures ValidPath(Erase(t), p) && Erase(Sub(t, p)) == Sub(Erase(t), p)
  {
    if p != [] {
      EraseSub(Child(t, p[0]), p[1..]);
    }
  }

  lemma {:induction false} EraseReplaceAt<A>(t: Tree<A>, p: Path, x: Tree<A>)
    requires ValidPath(t, p)
    ensures ValidPath(Erase(t), p) && Erase(ReplaceAt(t, p, x)) == ReplaceAt(Erase(t), p, Erase(x))
  {
    EraseSub(t, p);
    if p != [] {
      EraseReplaceAt(Child(t, p[0]), p[1..], x);
    }
  }

  lemma {:induction false} EraseInsert<A>(t: Tree<A>, v: int, i: A)
    ensures Erase(Insert(t, v, i)) == Insert(Erase(t), v, ())
  {
    if t.Node? {
      EraseInsert(t.left, v, i);
      EraseInsert(t.right, v, i);
    }
  }

  lemma {:induction false} EraseMin<A>(t: Tree<A>)
    requires t.Node?
    ensures Min(Erase(t)) == Min(t)
  {
    if t.left.Node? {
      EraseMin(t.left);
    }
  }

  lemma {:induction false} EraseDelete<A>(t: Tree<A>, v: int)
    ensures Erase(Delete(t, v)) == Delete(Erase(t), v)
  {
    match t
    case Nil =>
    case Node(l, w, _, r) =>
      if v < w {
        EraseDelete(l, v);
      } else if v > w {
        EraseDelete(r, v);
      } else if l.Node? && r.Node? {
        EraseMin(r);
        EraseDelete(r, Min(r));
      }
  }

  lemma EraseRotate<A>(t: Tree<A>)
    ensures Erase(RotateLeft(t)) == RotateLeft(Erase(t))
    ensures Erase(RotateRight(t)) == RotateRight(Erase(t))
  {
  }

  // ---------------------------------------------------------------- payload sets and paths

  /** The payloads a tree holds; for a heap shape, its node objects. */
  ghost function Infos<A>(t: Tree<A>): set<A>
  {
    match t
    case Nil => {}
    case Node(l, _, i, r) => Infos(l) + {i} + Infos(r)
  }

  /** No payload occurs twice; for a heap shape: no node object is shared. */
  ghost predicate Distinct<A>(t: Tree<A>)
  {
    match t
    case Nil => true
    case Node(l, _, i, r) => Distinct(l) && Distinct(r) && i !in Infos(l) && i !in Infos(r) && Infos(l) !! Infos(r)
  }

  lemma {:induction false} SubInfos<A>(t: Tree<A>, p: Path)
    requires ValidPath(t, p)
    ensures Infos(Sub(t, p)) <= Infos(t) && (Distinct(t) ==> Distinct(Sub(t, p)))
  {
    if p != [] {
      SubInfos(Child(t, p[0]), p[1..]);
    }
  }

  lemma {:induction false} ReplaceInfos<A>(t: Tree<A>, p: Path, x: Tree<A>)
    requires ValidPath(t, p) && Distinct(t)
    requires Distinct(x) && Infos(x) !! (Infos(t) - Infos(Sub(t, p)))
    ensures Infos(ReplaceAt(t, p, x)) == (Infos(t) - Infos(Sub(t, p))) + Infos(x)
    ensures Distinct(ReplaceAt(t, p, x))
  {
    if p != [] {
      var c := Child(t, p[0]);
      SubInfos(c, p[1..]);
      ReplaceInfos(c, p[1..], x);
    }
  }

  /** The node at `p` replaced by its right child, which has no left child and takes
      over the left subtree: the payload at `p` is gone, nothing else. */
  lemma PromoteInfos<A>(t: Tree<A>, p: Path, v: int)
    requires ValidPath(t, p) && Distinct(t) && Sub(t, p).Node? && Sub(t, p).right.Node? && Sub(t, p).right.left.Nil?
    ensures var n := Sub(t, p); var x := Node(n.left, v, n.right.info, n.right.right);
      Distinct(x) && Infos(x) == Infos(n) - {n.info} &&
      Distinct(ReplaceAt(t, p, x)) && Infos(ReplaceAt(t, p, x)) == Infos(t) - {n.info}
  {
    var n := Sub(t, p);
    var x := Node(n.left, v, n.right.info, n.right.right);
    SubInfos(t, p);
    assert Infos(n.right) == {n.right.info} + Infos(n.right.right);
    ReplaceInfos(t, p, x);
  }

  /** The payload at `p` replaced by a new one `i`, both subtrees kept. */
  lemma SupplantInfos<A>(t: Tree<A>, p: Path, v: int, i: A)
    requires ValidPath(t, p) && Distinct(t) && Sub(t, p).Node? && i !in Infos(t)
    ensures var n := Sub(t, p); var x := Node(n.left, v, i, n.right);
      Distinct(x) && Infos(x) == Infos(n) - {n.info} + {i} &&
      Distinct(ReplaceAt(t, p, x)) && Infos(ReplaceAt(t, p, x)) == Infos(t) - {n.info} + {i}
  {
    var n := Sub(t, p);
    var x := Node(n.left, v, i, n.right);
    SubInfos(t, p);
    ReplaceInfos(t, p, x);
  }

  /** A path `spine` inside the right subtree of the node at `q`: replacing below it is
      replacing inside that right subtree. */
  lemma SpliceBelow<A>(t: Tree<A>, q: Path, spine: Path, y: Tree<A>)
    requires ValidPath(t, q) && Sub(t, q).Node? && ValidPath(Sub(t, q).right, spine)
    ensures var n, g := Sub(t, q), q + [Right] + spine;
      ValidPath(t, g) && Sub(t, g) == Sub(n.right, spine) &&
      ValidPath(ReplaceAt(t, g, y), q) &&
      Sub(ReplaceAt(t, g, y), q) == Node(n.left, n.value, n.info, ReplaceAt(n.right, spine, y)) &&
      ReplaceAt(t, g, y) == ReplaceAt(t, q, Node(n.left, n.value, n.info, ReplaceAt(n.right, spine, y)))
  {
    var n, g := Sub(t, q), q + [Right] + spine;
    assert g == q + ([Right] + spine);
    assert ([Right] + spine)[0] == Right && ([Right] + spine)[1..] == spine;
    assert ValidPath(n, [Right] + spine) && Sub(n, [Right] + spine) == Sub(n.right, spine);
    SubAppend(t, q, [Right] + spine);
    ReplaceAtAppend(t, q, [Right] + spine, y);
    var x := Node(n.left, n.value, n.info, ReplaceAt(n.right, spine, y));
    assert ReplaceAt(n, [Right] + spine, y) == x;
    ReplaceAtSub(t, q, x);
  }

  /** Replacing the node at `p` by one with the same right subtree keeps every path
      that runs through that right subtree. */
  lemma KeepsRight<A>(t: Tree<A>, p: Path, v: int, i: A, r: Path)
    requires ValidPath(t, p) && Sub(t, p).Node? && ValidPath(Sub(t, p).right, r)
    ensures var x := Node(Sub(t, p).left, v, i, Sub(t, p).right);
      ValidPath(ReplaceAt(t, p, x), p + [Right] + r) &&
      Sub(ReplaceAt(t, p, x), p + [Right] + r) == Sub(Sub(t, p).right, r)
  {
    var x := Node(Sub(t, p).left, v, i, Sub(t, p).right);
    assert p + [Right] + r == p + ([Right] + r);
    assert ([Right] + r)[0] == Right && ([Right] + r)[1..] == r;
    assert ValidPath(x, [Right] + r) && Sub(x, [Right] + r) == Sub(Sub(t, p).right, r);
    ReplaceBelow(t, p, x, [Right] + r, x);
  }

  lemma {:induction false} ParentPath<A>(t: Tree<A>, p: Path)
    requires ValidPath(t, p) && p != []
    ensures ValidPath(t, p[..|p| - 1]) && Sub(t, p[..|p| - 1]).Node?
    ensures Child(Sub(t, p[..|p| - 1]), p[|p| - 1]) == Sub(t, p)
  {
    if |p| > 1 {
      assert p[..|p| - 1][1..] == p[1..][..|p| - 2];
      ParentPath(Child(t, p[0]), p[1..]);
    }
  }

  lemma {:induction false} SubStep<A>(t: Tree<A>, p: Path, d: Dir)
    requires ValidPath(t, p) && Sub(t, p).Node?
    ensures ValidPath(t, p + [d]) && Sub(t, p + [d]) == Child(Sub(t, p), d)
  {
    if p != [] {
      assert (p + [d])[1..] == p[1..] + [d];
      SubStep(Child(t, p[0]), p[1..], d);
    }
  }

  /** A parent is outside the subtree of its child, which lies within its own. */
  lemma ParentOutside<A>(t: Tree<A>, p: Path)
    requires ValidPath(t, p) && Distinct(t) && p != []
    ensures ValidPath(t, p[..|p| - 1]) && Sub(t, p[..|p| - 1]).Node?
    ensures Sub(t, p[..|p| - 1]).info !in Infos(Sub(t, p))
    ensures Infos(Sub(t, p)) <= Infos(Sub(t, p[..|p| - 1])) <= Infos(t)
  {
    ParentPath(t, p);
    SubInfos(t, p[..|p| - 1]);
  }

  /** In a tree without shared payloads, the root's payload occurs at the root only. */
  lemma RootOnlyAtTop<A>(t: Tree<A>, p: Path)
    requires ValidPath(t, p) && Distinct(t) && t.Node? && Sub(t, p).Node? && Sub(t, p).info == t.info
    ensures p == []
  {
    if p != [] {
      SubInfos(Child(t, p[0]), p[1..]);
    }
  }

  /** Replacing below a proper prefix leaves the node at that prefix in place. */
  lemma {:induction false} ReplaceAtPrefix<A>(t: Tree<A>, p: Path, x: Tree<A>, k: nat)
    requires ValidPath(t, p) && k < |p|
    ensures ValidPath(t, p[..k]) && ValidPath(ReplaceAt(t, p, x), p[..k])
    ensures Sub(t, p[..k]).Node? && Sub(ReplaceAt(t, p, x), p[..k]).Node?
    ensures Sub(ReplaceAt(t, p, x), p[..k]).info == Sub(t, p[..k]).info
  {
    if k > 0 {
      assert p[..k][1..] == p[1..][..k - 1];
      ReplaceAtPrefix(Child(t, p[0]), p[1..], x, k - 1);
    }
  }

  lemma {:induction false} ReplaceAtSelf<A>(t: Tree<A>, p: Path)
    requires ValidPath(t, p)
    ensures ReplaceAt(t, p, Sub(t, p)) == t
  {
    if p != [] {
      ReplaceAtSelf(Child(t, p[0]), p[1..]);
    }
  }

  lemma {:induction false} SubValue<A>(t: Tree<A>, p: Path)
    requires ValidPath(t, p) && Sub(t, p).Node?
    ensures Sub(t, p).value in Values(t)
  {
    if p != [] {
      SubValue(Child(t, p[0]), p[1..]);
    }
  }

  /** In an ordered tree the search path of a node's key leads to that node. */
  lemma {:induction false} OrderedUniquePath<A>(t: Tree<A>, p: Path)
    requires ValidPath(t, p) && Ordered(t) && Sub(t, p).Node?
    ensures SearchPath(t, Sub(t, p).value) == p
  {
    if p != [] {
      var c := Child(t, p[0]);
      OrderedUniquePath(c, p[1..]);
      SubValue(c, p[1..]);
    }
  }

  /** Replacing the subtree at `p` by an ordered one holding some of its keys keeps the
      whole tree ordered. */
  lemma {:induction false} OrderedReplaceSubset<A>(t: Tree<A>, p: Path, x: Tree<A>)
    requires ValidPath(t, p) && Ordered(t) && Ordered(x) && Values(x) <= Values(Sub(t, p))
    ensures Ordered(ReplaceAt(t, p, x)) && Values(ReplaceAt(t, p, x)) <= Values(t)
  {
    if p != [] {
      OrderedReplaceSubset(Child(t, p[0]), p[1..], x);
    }
  }

  lemma {:induction false} InsertInfos<A>(t: Tree<A>, v: int, i: A)
    ensures Infos(Insert(t, v, i)) <= Infos(t) + {i}
    ensures Distinct(t) && i !in Infos(t) ==> Distinct(Insert(t, v, i))
  {
    if t.Node? {
      InsertInfos(t.left, v, i);
      InsertInfos(t.right, v, i);
    }
  }

  lemma {:induction false} DeleteInfos<A>(t: Tree<A>, v: int)
    ensures Infos(Delete(t, v)) <= Infos(t)
    ensures Distinct(t) ==> Distinct(Delete(t, v))
  {
    match t
    case Nil =>
    case Node(l, w, _, r) =>
      DeleteInfos(l, v);
      DeleteInfos(r, v);
      if r.Node? {
        DeleteInfos(r, Min(r));
      }
  }

  /** Rotations move payloads around without adding or losing any. */
  lemma RotateInfos<A>(t: Tree<A>)
    ensures Infos(RotateRight(t)) == Infos(t) && Infos(RotateLeft(t)) == Infos(t)
    ensures Distinct(t) ==> Distinct(RotateRight(t)) && Distinct(RotateLeft(t))
  {
    RotateRightInfos(t);
    RotateLeftInfos(t);
  }

  lemma RotateRightInfos<A>(t: Tree<A>)
    ensures Infos(RotateRight(t)) == Infos(t) && (Distinct(t) ==> Distinct(RotateRight(t)))
  {
    if t.Node? && t.left.Node? {
      var Node(Node(a, x, i, b), y, j, c) := t;
      assert Infos(RotateRight(t)) == Infos(a) + {i} + (Infos(b) + {j} + Infos(c));
      DistinctRegrouped(a, x, i, b, y, j, c);
    }
  }

  lemma RotateLeftInfos<A>(t: Tree<A>)
    ensures Infos(RotateLeft(t)) == Infos(t) && (Distinct(t) ==> Distinct(RotateLeft(t)))
  {
    if t.Node? && t.right.Node? {
      var Node(a, x, i, Node(b, y, j, c)) := t;
      assert Infos(RotateLeft(t)) == (Infos(a) + {i} + Infos(b)) + {j} + Infos(c);
      DistinctRegrouped(a, x, i, b, y, j, c);
    }
  }

  /** The two ways of hanging three subtrees off two nodes are distinct together. */
  lemma DistinctRegrouped<A>(a: Tree<A>, x: int, i: A, b: Tree<A>, y: int, j: A, c: Tree<A>)
    ensures Distinct(Node(Node(a, x, i, b), y, j, c)) <==> Distinct(Node(a, x, i, Node(b, y, j, c)))
  {
    var lower, upper := Node(a, x, i, b), Node(b, y, j, c);
    assert Infos(lower) == Infos(a) + {i} + Infos(b);
    assert Infos(upper) == Infos(b) + {j} + Infos(c);
  }
}
