// The state machine behind the binary-search-tree visualiser: a current tree, a list of
// saved iterations and the index of the iteration last saved, loaded or kept.
//
// Every tree the reducer handles is a deep copy (a JSON round trip of the root), so a
// tree is modelled as a value: the keys, arranged as the nodes are, with no identity.
// The edits run the value-level operations that `Bst.BST` is proved to perform on its
// linked nodes (`Bst.BST.Insert`, `Bst.BST.Delete`, `Bst.BST.Rotate`).
module Reducer {
  import opened Trees
  import Bst

  type Snapshot = Tree<()>

  datatype Action =
    | InsertKey(value: int)
    | DeleteKey(value: int)
    | RotateAt(parent: int, child: int)
    | Clear
    | SaveIteration
    | LoadIteration(index: int)
    | DeleteIteration(index: int)
    | ClearAllIterations

  datatype State = State(current: Snapshot, iterations: seq<Snapshot>, currentIndex: int)

  /** The state the visualiser starts in. */
  function Initial(): (r: State)
    ensures r.current.Nil? && r.iterations == [] && r.currentIndex == -1
  {
    State(Nil, [], -1)
  }

  function Smaller(a: int, b: int): int { if a <= b then a else b }

  /** The sequence with the element at `i` taken out (`Array.prototype.splice(i, 1)`). */
  function RemoveAt<T>(s: seq<T>, i: int): (r: seq<T>)
    requires 0 <= i < |s|
    ensures |r| == |s| - 1
    ensures forall k | 0 <= k < i :: r[k] == s[k]
    ensures forall k | i <= k < |r| :: r[k] == s[k + 1]
  {
    s[..i] + s[i + 1..]
  }

  /** One dispatch of the visualiser's reducer. An index out of range leaves the state as
      it is. */
  function Reduce(st: State, a: Action): (r: State)
    ensures a.InsertKey? || a.DeleteKey? || a.RotateAt? || a.Clear? ==>
      r.iterations == st.iterations && r.currentIndex == st.currentIndex
    ensures a.Clear? ==> r.current.Nil?
    ensures a.SaveIteration? ==>
      r.current == st.current && r.iterations == st.iterations + [st.current] &&
      r.currentIndex == |st.iterations| && r.iterations[r.currentIndex] == st.current
    ensures a.LoadIteration? ==>
      if 0 <= a.index < |st.iterations| then
        r.iterations == st.iterations && r.currentIndex == a.index && r.current == st.iterations[a.index]
      else r == st
    ensures a.DeleteIteration? ==>
      if 0 <= a.index < |st.iterations| then
        |r.iterations| == |st.iterations| - 1 &&
        (forall k | 0 <= k < |r.iterations| :: r.iterations[k] == st.iterations[if k < a.index then k else k + 1]) &&
        r.currentIndex <= st.currentIndex && r.currentIndex < |r.iterations| &&
        (r.currentIndex == st.currentIndex || r.currentIndex == |r.iterations| - 1) &&
        (if 0 <= r.currentIndex then r.current == r.iterations[r.currentIndex] else r.current.Nil?)
      else r == st
    ensures a.ClearAllIterations? ==> r.current == st.current && r.iterations == [] && r.currentIndex == -1
  {
    match a
    case InsertKey(v) => st.(current := Trees.Insert(st.current, v, ()))
    case DeleteKey(v) => st.(current := Trees.Delete(st.current, v))
    case RotateAt(p, c) => st.(current := Bst.Rotated(st.current, p, c))
    case Clear => st.(current := Nil)
    case SaveIteration =>
      st.(iterations := st.iterations + [st.current], currentIndex := |st.iterations|)
    case LoadIteration(i) =>
      if 0 <= i < |st.iterations| then st.(current := st.iterations[i], currentIndex := i)
      else st
    case DeleteIteration(i) =>
      if 0 <= i < |st.iterations| then
        var rest := RemoveAt(st.iterations, i);
        var j := Smaller(st.currentIndex, |rest| - 1);
        st.(iterations := rest, currentIndex := j, current := if j >= 0 then rest[j] else Nil)
      else st
    case ClearAllIterations => st.(iterations := [], currentIndex := -1)
  }

  /** The state after dispatching `actions` in order. */
  function Run(st: State, actions: seq<Action>): State
    decreases |actions|
  {
    if actions == [] then st else Run(Reduce(st, actions[0]), actions[1..])
  }

  /** What every state the visualiser can reach satisfies: the index names a saved
      iteration or is -1, and every tree held is a binary search tree. */
  ghost predicate Good(st: State)
  {
    -1 <= st.currentIndex < |st.iterations| &&
    Ordered(st.current) &&
    forall k | 0 <= k < |st.iterations| :: Ordered(st.iterations[k])
  }

  lemma InitialGood()
    ensures Good(Initial())
  {
  }

  /** Each action keeps a good state good. */
  lemma ReducePreservesGood(st: State, a: Action)
    requires Good(st)
    ensures Good(Reduce(st, a))
  {
    match a
    case RotateAt(p, c) =>
      Bst.RotatedPreservesInorder(st.current, p, c);
    case SaveIteration =>
      var r := Reduce(st, a);
      assert forall k | 0 <= k < |r.iterations| :: r.iterations[k] == (st.iterations + [st.current])[k];
    case DeleteIteration(i) =>
      if 0 <= i < |st.iterations| {
        var r := Reduce(st, a);
        forall k | 0 <= k < |r.iterations|
          ensures Ordered(r.iterations[k])
        {
          assert r.iterations[k] == st.iterations[if k < i then k else k + 1];
        }
      }
    case _ =>
  }

  /** Every state reached from a good one, in particular from the initial one, is good. */
  lemma {:induction false} RunPreservesGood(st: State, actions: seq<Action>)
    requires Good(st)
    ensures Good(Run(st, actions))
    decreases |actions|
  {
    if actions != [] {
      ReducePreservesGood(st, actions[0]);
      RunPreservesGood(Reduce(st, actions[0]), actions[1..]);
    }
  }

  lemma ReachableGood(actions: seq<Action>)
    ensures Good(Run(Initial(), actions))
  {
    InitialGood();
    RunPreservesGood(Initial(), actions);
  }

  /** On a binary search tree the edits do what their names say to the set of keys;
      inserting an existing key, deleting an absent one or rotating leave the sorted
      key sequence as it was. */
  lemma EditsOnKeys(st: State, v: int, p: int, c: int)
    requires Ordered(st.current)
    ensures Values(Reduce(st, InsertKey(v)).current) == Values(st.current) + {v}
    ensures Values(Reduce(st, DeleteKey(v)).current) == Values(st.current) - {v}
    ensures Inorder(Reduce(st, InsertKey(v)).current) == InsertSorted(Inorder(st.current), v)
    ensures Inorder(Reduce(st, DeleteKey(v)).current) == Remove(Inorder(st.current), v)
    ensures Inorder(Reduce(st, RotateAt(p, c)).current) == Inorder(st.current)
    ensures Reduce(st, Clear).current.Nil?
  {
    InsertInorder(st.current, v, ());
    DeleteInorder(st.current, v);
    Bst.RotatedPreservesInorder(st.current, p, c);
  }

  /** Saving copies the tree: later edits of the current tree leave the saved iteration
      as it was, and loading it back restores the tree as saved. */
  lemma SavedIterationSurvivesEdits(st: State, edits: seq<Action>)
    requires forall k | 0 <= k < |edits| :: edits[k].InsertKey? || edits[k].DeleteKey? || edits[k].RotateAt? || edits[k].Clear?
    ensures var saved := Reduce(st, SaveIteration);
      var later := Run(saved, edits);
      later.iterations == saved.iterations && later.currentIndex == saved.currentIndex &&
      Reduce(later, LoadIteration(|st.iterations|)).current == st.current
  {
    var saved := Reduce(st, SaveIteration);
    EditsKeepIterations(saved, edits);
  }

  lemma {:induction false} EditsKeepIterations(st: State, edits: seq<Action>)
    requires forall k | 0 <= k < |edits| :: edits[k].InsertKey? || edits[k].DeleteKey? || edits[k].RotateAt? || edits[k].Clear?
    ensures Run(st, edits).iterations == st.iterations && Run(st, edits).currentIndex == st.currentIndex
    decreases |edits|
  {
    if edits != [] {
      var next := Reduce(st, edits[0]);
      assert next.iterations == st.iterations && next.currentIndex == st.currentIndex;
      EditsKeepIterations(next, edits[1..]);
    }
  }

  /** Clearing all iterations and saving again starts the list afresh with the current
      tree at index 0. */
  lemma ClearAllThenSave(st: State)
    ensures var r := Reduce(Reduce(st, ClearAllIterations), SaveIteration);
      r.iterations == [st.current] && r.currentIndex == 0 && r.current == st.current
  {
  }
}
