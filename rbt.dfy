/** The red-black tree engine: linked nodes with parent links, updated in place.
    The ghost `shape` is the tree as a value whose payloads are the node objects; the
    key, child and parent fields follow it (`Wired`), and the colours read off it give
    the value-level tree of module RedBlack (`Painted`), against whose functions every
    method is proved. */
module Rbt {
  import opened Trees
  import opened RedBlack

  class RBTNode {
    var value: int
    var left: RBTNode?
    var right: RBTNode?
    var parent: RBTNode?
    var color: Color

    /** New nodes are red and unlinked. */
    constructor (value: int)
      ensures this.value == value && left == null && right == null && parent == null && color == Red
    {
      this.value := value;
      left := null;
      right := null;
      parent := null;
      color := Red;
    }
  }

  type Shape = Tree<RBTNode>

  function RootOf(s: Shape): RBTNode?
  {
    if s.Nil? then null else s.info
  }

  /** The key and child fields follow the shape, and every child points back to its
      parent. The root's own parent field is not looked at. */
  ghost predicate Wired(s: Shape)
    reads Infos(s)`value, Infos(s)`left, Infos(s)`right, Infos(s)`parent
  {
    match s
    case Nil => true
    case Node(l, v, n, r) =>
      RootIn(l);
      RootIn(r);
      n.value == v && n.left == RootOf(l) && n.right == RootOf(r) &&
      (l.Node? ==> l.info.parent == n) && (r.Node? ==> r.info.parent == n) &&
      Wired(l) && Wired(r)
  }

  lemma RootIn(s: Shape)
    ensures s.Node? ==> s.info in Infos(s)
  {
  }

  /** The colours held in the nodes, arranged as the shape is. */
  ghost function Painted(s: Shape): (t: RbTree)
    reads Infos(s)`color
    ensures Erase(t) == Erase(s) && (t.Node? <==> s.Node?)
  {
    match s
    case Nil => Nil
    case Node(l, v, n, r) => Node(Painted(l), v, n.color, Painted(r))
  }

  /** The node above the one at `p`; null for the root. */
  ghost function ParentAt(s: Shape, p: Path): (n: RBTNode?)
    requires ValidPath(s, p)
    ensures p != [] ==> ValidPath(s, p[..|p| - 1]) && Sub(s, p[..|p| - 1]).Node? && n == Sub(s, p[..|p| - 1]).info
  {
    if p == [] then null
    else
      ParentPath(s, p);
      Sub(s, p[..|p| - 1]).info
  }

  // ---------------------------------------------------------------- the shape and its values

  lemma {:induction false} WiredSub(s: Shape, p: Path)
    requires ValidPath(s, p) && Wired(s)
    ensures Wired(Sub(s, p))
  {
    if p != [] {
      WiredSub(Child(s, p[0]), p[1..]);
    }
  }

  /** A node below the root points to the node above it, from the side it hangs on. */
  lemma ParentLink(s: Shape, p: Path)
    requires ValidPath(s, p) && Distinct(s) && Wired(s) && p != [] && Sub(s, p).Node?
    ensures ParentAt(s, p) != null && ParentAt(s, p) in Infos(s) - Infos(Sub(s, p))
    ensures Sub(s, p).info.parent == ParentAt(s, p)
    ensures ParentAt(s, p).left == Sub(s, p).info <==> p[|p| - 1] == Left
    ensures ParentAt(s, p).right == Sub(s, p).info <==> p[|p| - 1] == Right
  {
    var pp, d := p[..|p| - 1], p[|p| - 1];
    ParentPath(s, p);
    var par := Sub(s, pp);
    SubInfos(s, pp);
    WiredSub(s, pp);
    ChildLink(par, d);
    RootIn(par);
  }

  lemma ChildLink(par: Shape, d: Dir)
    requires par.Node? && Distinct(par) && Wired(par) && Child(par, d).Node?
    ensures Child(par, d).info.parent == par.info
    ensures par.info.left == Child(par, d).info <==> d == Left
    ensures par.info.right == Child(par, d).info <==> d == Right
    ensures par.info !in Infos(Child(par, d))
  {
    RootIn(par.left);
    RootIn(par.right);
  }

  /** The root of a tree of distinct nodes is not found below it. */
  lemma RootAbove(s: Shape, p: Path)
    requires ValidPath(s, p) && Distinct(s) && s.Node? && p != []
    ensures s.info !in Infos(Sub(s, p))
  {
    SubInfos(Child(s, p[0]), p[1..]);
  }

  lemma {:induction false} PaintedSub(s: Shape, p: Path)
    requires ValidPath(s, p)
    ensures ValidPath(Painted(s), p) && Painted(Sub(s, p)) == Sub(Painted(s), p)
  {
    if p != [] {
      PaintedSub(Child(s, p[0]), p[1..]);
    }
  }

  lemma {:induction false} PaintedReplaceAt(s: Shape, p: Path, x: Shape)
    requires ValidPath(s, p)
    ensures ValidPath(Painted(s), p) && Painted(ReplaceAt(s, p, x)) == ReplaceAt(Painted(s), p, Painted(x))
  {
    PaintedSub(s, p);
    if p != [] {
      PaintedReplaceAt(Child(s, p[0]), p[1..], x);
    }
  }

  lemma PaintedRotate(x: Shape)
    ensures Painted(Trees.RotateLeft(x)) == Trees.RotateLeft(Painted(x))
    ensures Painted(Trees.RotateRight(x)) == Trees.RotateRight(Painted(x))
  {
  }

  // ---------------------------------------------------------------- heap frames

  lemma {:induction false} Allocated(s: Shape)
    ensures forall n | n in Infos(s) :: allocated(n)
  {
    if s.Node? {
      Allocated(s.left);
      Allocated(s.right);
    }
  }

  /** A shape none of whose nodes changed its key or children, nor, below the root, its
      parent, is still wired. */
  twostate lemma {:induction false} Unchanged(s: Shape)
    requires old(Wired(s)) && Distinct(s)
    requires forall n | n in Infos(s) :: old(allocated(n))
    requires forall n | n in Infos(s) :: n.value == old(n.value) && n.left == old(n.left) && n.right == old(n.right)
    requires forall n | n in Infos(s) && n != RootOf(s) :: n.parent == old(n.parent)
    ensures Wired(s)
  {
    if s.Node? {
      Unchanged(s.left);
      Unchanged(s.right);
    }
  }

  /** The shape `graft` put in place of the subtree of `host` at `at`. */
  datatype Graft = Graft(host: Shape, at: Path, graft: Shape)

  /** Replacing the subtree at a path by a wired shape with the same root node, whose
      parent field is unchanged, every node outside that subtree being unchanged (the
      host's root possibly in its parent field), gives a wired shape. */
  twostate lemma {:induction false} Reframed(g: Graft)
    requires ValidPath(g.host, g.at) && Distinct(g.host) && old(Wired(g.host)) && Wired(g.graft)
    requires forall n | n in Infos(g.host) :: old(allocated(n))
    requires g.at != [] ==>
      g.graft.Node? && Sub(g.host, g.at).Node? && g.graft.info == Sub(g.host, g.at).info &&
      g.graft.info.parent == old(g.graft.info.parent)
    requires forall n | n in Infos(g.host) && n !in Infos(Sub(g.host, g.at)) ::
      n.value == old(n.value) && n.left == old(n.left) && n.right == old(n.right)
    requires forall n | n in Infos(g.host) && n !in Infos(Sub(g.host, g.at)) && n != RootOf(g.host) ::
      n.parent == old(n.parent)
    ensures Wired(ReplaceAt(g.host, g.at, g.graft))
    decreases |g.at|
  {
    var Graft(s, p, x) := g;
    if p != [] {
      var c, o := Child(s, p[0]), Child(s, Other(p[0]));
      SubInfos(c, p[1..]);
      RootAbove(s, p);
      assert Infos(o) <= Infos(s) - Infos(Sub(s, p)) && s.info !in Infos(o) && s.info !in Infos(c);
      Unchanged(o);
      RootIn(c);
      if p[1..] != [] {
        RootAbove(c, p[1..]);
      }
      Reframed(Graft(c, p[1..], x));
    }
  }

  /** The end of a rotation or a transplant: the parent's slot is pointed at the new
      subtree, whose root points back at the parent. */
  twostate lemma Regrafted(g: Graft)
    requires ValidPath(g.host, g.at) && g.at != [] && Distinct(g.host) && old(Wired(g.host)) && Wired(g.graft)
    requires forall n | n in Infos(g.host) :: old(allocated(n))
    requires ValidPath(g.host, g.at[..|g.at| - 1]) && Sub(g.host, g.at[..|g.at| - 1]).Node?
    requires old(Wired(Sub(g.host, g.at[..|g.at| - 1]))) && old(allocated(Sub(g.host, g.at[..|g.at| - 1]).info))
    requires var pn := Sub(g.host, g.at[..|g.at| - 1]).info;
      pn.value == old(pn.value) && pn.parent == old(pn.parent) &&
      (g.graft.Node? ==> g.graft.info.parent == pn) &&
      if g.at[|g.at| - 1] == Left then pn.left == RootOf(g.graft) && pn.right == old(pn.right)
      else pn.right == RootOf(g.graft) && pn.left == old(pn.left)
    requires var pn := Sub(g.host, g.at[..|g.at| - 1]).info;
      forall n | n in Infos(g.host) && n !in Infos(Sub(g.host, g.at)) && n != pn ::
        n.value == old(n.value) && n.left == old(n.left) && n.right == old(n.right)
    requires forall n | n in Infos(g.host) && n !in Infos(Sub(g.host, g.at)) && n != RootOf(g.host) ::
      n.parent == old(n.parent)
    ensures Wired(ReplaceAt(g.host, g.at, g.graft))
  {
    var Graft(s, p, x) := g;
    var pp, d := p[..|p| - 1], p[|p| - 1];
    var par := Sub(s, pp);
    ParentSplit(s, p, x);
    RootIn(par);
    var o := Child(par, Other(d));
    assert Infos(o) <= Infos(par) - {par.info} && Infos(o) !! Infos(Sub(s, p)) by {
      RootIn(par.left);
      RootIn(par.right);
    }
    assert s.info !in Infos(o) by {
      if pp != [] {
        RootAbove(s, pp);
      }
    }
    var par' := WithChild(par, d, x);
    Rehang(Rehanging(par, d, x));
    assert Wired(par');
    assert forall n | n in Infos(s) && n !in Infos(par) ::
      n.value == old(n.value) && n.left == old(n.left) && n.right == old(n.right) && (n != RootOf(s) ==> n.parent == old(n.parent)) by {
      assert Infos(Sub(s, p)) <= Infos(par);
    }
    Reframed(Graft(s, pp, par'));
  }

  /** A node `x.info` hung over two subtrees of the one at `at` that were wired, both
      pointing back at it, and put in that place: as the root, or in the slot of the
      parent, the parent's other fields and everything else outside untouched. */
  twostate lemma Adopted(g: Graft)
    requires ValidPath(g.host, g.at) && Sub(g.host, g.at).Node? && Distinct(g.host) && old(Wired(g.host))
    requires forall n | n in Infos(g.host) :: old(allocated(n))
    requires var x := g.graft;
      x.Node? && Distinct(x) && Infos(x.left) + Infos(x.right) <= Infos(Sub(g.host, g.at)) &&
      x.info !in Infos(g.host) - Infos(Sub(g.host, g.at)) && old(Wired(x.left)) && old(Wired(x.right))
    requires var x := g.graft;
      x.info.value == x.value && x.info.left == RootOf(x.left) && x.info.right == RootOf(x.right) &&
      (x.left.Node? ==> x.left.info.parent == x.info) && (x.right.Node? ==> x.right.info.parent == x.info)
    requires var pn, x := ParentAt(g.host, g.at), g.graft;
      x.info.parent == pn &&
      (g.at != [] ==>
        old(Wired(Sub(g.host, g.at[..|g.at| - 1]))) && pn.value == old(pn.value) &&
        if g.at[|g.at| - 1] == Left then pn.left == x.info && pn.right == old(pn.right)
        else pn.right == x.info && pn.left == old(pn.left))
    requires forall n | n in Infos(g.host) && n != ParentAt(g.host, g.at) && n != g.graft.info ::
      n.value == old(n.value) && n.left == old(n.left) && n.right == old(n.right)
    requires forall n | n in Infos(g.host) && n != g.graft.info && n != RootOf(g.graft.left) && n != RootOf(g.graft.right) ::
      n.parent == old(n.parent)
    ensures Wired(ReplaceAt(g.host, g.at, g.graft))
  {
    var Graft(s, p, x) := g;
    SubInfos(s, p);
    RootIn(x.left);
    RootIn(x.right);
    if p != [] {
      ParentOutside(s, p);
      RootAbove(s, p);
    }
    Unchanged(x.left);
    Unchanged(x.right);
    assert Wired(x);
    if p != [] {
      Regrafted(g);
    }
  }

  /** Replacing the subtree at `p` is replacing one side of its parent. */
  lemma ParentSplit(s: Shape, p: Path, x: Shape)
    requires ValidPath(s, p) && p != [] && Distinct(s)
    ensures var pp, d := p[..|p| - 1], p[|p| - 1];
      ValidPath(s, pp) && Sub(s, pp).Node? && Infos(Sub(s, pp)) <= Infos(s) && Distinct(Sub(s, pp)) &&
      Child(Sub(s, pp), d) == Sub(s, p) && ReplaceAt(s, p, x) == ReplaceAt(s, pp, WithChild(Sub(s, pp), d, x))
  {
    var pp, d := p[..|p| - 1], p[|p| - 1];
    ParentPath(s, p);
    SubInfos(s, pp);
    assert p == pp + [d];
    SubAppend(s, pp, [d]);
    assert [d][1..] == [];
    assert ReplaceAt(Sub(s, pp), [d], x) == WithChild(Sub(s, pp), d, x);
    ReplaceAtAppend(s, pp, [d], x);
  }

  datatype Rehanging = Rehanging(par: Shape, side: Dir, graft: Shape)

  /** Pointing a parent's slot at a wired subtree whose root points back, the other
      side and the parent's key and own parent left alone, wires the parent. */
  twostate lemma Rehang(rh: Rehanging)
    requires rh.par.Node? && old(Wired(rh.par)) && Wired(rh.graft) && Distinct(rh.par)
    requires forall n | n in Infos(rh.par) :: old(allocated(n))
    requires var pn, d, x := rh.par.info, rh.side, rh.graft;
      pn.value == old(pn.value) && (x.Node? ==> x.info.parent == pn) &&
      if d == Left then pn.left == RootOf(x) && pn.right == old(pn.right)
      else pn.right == RootOf(x) && pn.left == old(pn.left)
    requires var o := Child(rh.par, Other(rh.side));
      forall n | n in Infos(o) :: old(allocated(n)) && n.value == old(n.value) && n.left == old(n.left) && n.right == old(n.right) && n.parent == old(n.parent)
    ensures Wired(WithChild(rh.par, rh.side, rh.graft))
  {
    var o := Child(rh.par, Other(rh.side));
    assert Infos(o) <= Infos(rh.par);
    Unchanged(o);
  }

  /** Recolouring the node at `p`, and nothing else, recolours that node of the model. */
  datatype Paint = Paint(host: Shape, at: Path)

  twostate lemma {:induction false} Repainted(pt: Paint)
    requires ValidPath(pt.host, pt.at) && Sub(pt.host, pt.at).Node? && Distinct(pt.host)
    requires forall n | n in Infos(pt.host) :: old(allocated(n))
    requires forall n | n in Infos(pt.host) && n != Sub(pt.host, pt.at).info :: n.color == old(n.color)
    ensures ValidPath(old(Painted(pt.host)), pt.at) && Sub(old(Painted(pt.host)), pt.at).Node?
    ensures Painted(pt.host) == Recolor(old(Painted(pt.host)), pt.at, Sub(pt.host, pt.at).info.color)
    decreases |pt.at|
  {
    var Paint(s, p) := pt;
    assert s.info !in Infos(s.left) + Infos(s.right) && Infos(s.left) + Infos(s.right) <= Infos(s);
    if p == [] {
      UnchangedColors(s.left);
      UnchangedColors(s.right);
    } else {
      var d := p[0];
      assert Sub(s, p).info in Infos(Child(s, d)) && Sub(Child(s, d), p[1..]).Node? by {
        SubInfos(Child(s, d), p[1..]);
      }
      UnchangedColors(Child(s, Other(d)));
      Repainted(Paint(Child(s, d), p[1..]));
      RecolorStep(old(Painted(s)), p, Sub(s, p).info.color);
    }
  }

  twostate lemma {:induction false} UnchangedColors(s: Shape)
    requires forall n | n in Infos(s) :: old(allocated(n)) && n.color == old(n.color)
    ensures Painted(s) == old(Painted(s))
  {
    if s.Node? {
      UnchangedColors(s.left);
      UnchangedColors(s.right);
    }
  }

  /** A rotation at path `at` of `host`, promoting the left child when `rightwards`. */
  datatype Site = Site(host: Shape, at: Path, rightwards: bool)

  ghost function Promoted(sub: Shape, rightwards: bool): Shape
    requires sub.Node?
  {
    if rightwards then sub.left else sub.right
  }

  /** A rotation of the subtree `sub`, promoting its left child when `rightwards`. */
  datatype Turn = Turn(sub: Shape, rightwards: bool)

  /** The rotated subtree is wired once the demoted node `n` has taken the promoted node's
      inner subtree and hangs below the promoted node `m`, all else below them unchanged. */
  twostate lemma Turned(tn: Turn)
    requires Distinct(tn.sub) && old(Wired(tn.sub)) && tn.sub.Node? && Promoted(tn.sub, tn.rightwards).Node?
    requires forall o | o in Infos(tn.sub) :: old(allocated(o))
    requires var n, m := tn.sub.info, Promoted(tn.sub, tn.rightwards).info;
      var b := if tn.rightwards then old(m.right) else old(m.left);
      n.value == old(n.value) && m.value == old(m.value) && n.parent == m &&
      (b != null ==> b.parent == n && b.value == old(b.value) && b.left == old(b.left) && b.right == old(b.right)) &&
      (if tn.rightwards then n.left == b && n.right == old(n.right) && m.right == n && m.left == old(m.left)
       else n.right == b && n.left == old(n.left) && m.left == n && m.right == old(m.right))
    requires var m := Promoted(tn.sub, tn.rightwards);
      var b := if tn.rightwards then m.right else m.left;
      forall o | o in Infos(tn.sub) && o != tn.sub.info && o != m.info && o != RootOf(b) ::
        o.value == old(o.value) && o.left == old(o.left) && o.right == old(o.right) && o.parent == old(o.parent)
    ensures Wired(if tn.rightwards then Trees.RotateRight(tn.sub) else Trees.RotateLeft(tn.sub))
  {
    if tn.rightwards {
      TurnedRight(tn);
    } else {
      TurnedLeft(tn);
    }
  }

  twostate lemma TurnedLeft(tn: Turn)
    requires !tn.rightwards
    requires Distinct(tn.sub) && old(Wired(tn.sub)) && tn.sub.Node? && tn.sub.right.Node?
    requires forall o | o in Infos(tn.sub) :: old(allocated(o))
    requires var n, m := tn.sub.info, tn.sub.right.info;
      var b := old(m.left);
      n.value == old(n.value) && m.value == old(m.value) && n.parent == m &&
      (b != null ==> b.parent == n && b.value == old(b.value) && b.left == old(b.left) && b.right == old(b.right)) &&
      n.right == b && n.left == old(n.left) && m.left == n && m.right == old(m.right)
    requires var m := tn.sub.right;
      forall o | o in Infos(tn.sub) && o != tn.sub.info && o != m.info && o != RootOf(m.left) ::
        o.value == old(o.value) && o.left == old(o.left) && o.right == old(o.right) && o.parent == old(o.parent)
    ensures Wired(Trees.RotateLeft(tn.sub))
  {
    var Node(a, x, n, Node(b, y, m, c)) := tn.sub;
    assert Infos(a) <= Infos(tn.sub) && n !in Infos(a) && m !in Infos(a) && RootOf(b) !in Infos(a) by {
      RootIn(b);
    }
    assert Infos(c) <= Infos(tn.sub) && n !in Infos(c) && m !in Infos(c) && RootOf(b) !in Infos(c) by {
      RootIn(b);
    }
    assert Infos(b) <= Infos(tn.sub) && n !in Infos(b) && m !in Infos(b);
    Unchanged(a);
    Unchanged(b);
    Unchanged(c);
    assert Wired(Node(a, x, n, b));
  }

  twostate lemma TurnedRight(tn: Turn)
    requires tn.rightwards
    requires Distinct(tn.sub) && old(Wired(tn.sub)) && tn.sub.Node? && tn.sub.left.Node?
    requires forall o | o in Infos(tn.sub) :: old(allocated(o))
    requires var n, m := tn.sub.info, tn.sub.left.info;
      var b := old(m.right);
      n.value == old(n.value) && m.value == old(m.value) && n.parent == m &&
      (b != null ==> b.parent == n && b.value == old(b.value) && b.left == old(b.left) && b.right == old(b.right)) &&
      n.left == b && n.right == old(n.right) && m.right == n && m.left == old(m.left)
    requires var m := tn.sub.left;
      forall o | o in Infos(tn.sub) && o != tn.sub.info && o != m.info && o != RootOf(m.right) ::
        o.value == old(o.value) && o.left == old(o.left) && o.right == old(o.right) && o.parent == old(o.parent)
    ensures Wired(Trees.RotateRight(tn.sub))
  {
    var Node(Node(a, y, m, b), x, n, c) := tn.sub;
    assert Infos(a) <= Infos(tn.sub) && n !in Infos(a) && m !in Infos(a) && RootOf(b) !in Infos(a) by {
      RootIn(b);
    }
    assert Infos(c) <= Infos(tn.sub) && n !in Infos(c) && m !in Infos(c) && RootOf(b) !in Infos(c) by {
      RootIn(b);
    }
    assert Infos(b) <= Infos(tn.sub) && n !in Infos(b) && m !in Infos(b);
    Unchanged(a);
    Unchanged(b);
    Unchanged(c);
    assert Wired(Node(b, x, n, c));
  }

  /** What `_rotateLeft` / `_rotateRight` leave in the heap: the demoted node `n` takes the
      promoted node's inner subtree and hangs below it; the promoted node `m` takes `n`'s
      place, as the root (the parent field null) or in the parent's slot. Every other
      node keeps its fields, except the inner subtree's root, which now points at `n`. */
  twostate lemma Pivot(site: Site)
    requires ValidPath(site.host, site.at) && Distinct(site.host) && old(Wired(site.host))
    requires forall o | o in Infos(site.host) :: old(allocated(o))
    requires var sub := Sub(site.host, site.at); sub.Node? && Promoted(sub, site.rightwards).Node?
    requires old(Wired(Sub(site.host, site.at)))
    requires site.at != [] ==>
      old(allocated(ParentAt(site.host, site.at))) && old(Wired(Sub(site.host, site.at[..|site.at| - 1]))) &&
      old(Sub(site.host, site.at).info.parent) == ParentAt(site.host, site.at) &&
      ParentAt(site.host, site.at) !in Infos(Sub(site.host, site.at))
    requires var sub := Sub(site.host, site.at); var n, m := sub.info, Promoted(sub, site.rightwards).info;
      var b := if site.rightwards then old(m.right) else old(m.left);
      n.value == old(n.value) && m.value == old(m.value) && n.parent == m &&
      m.parent == old(n.parent) &&
      (b != null ==> b.parent == n && b.value == old(b.value) && b.left == old(b.left) && b.right == old(b.right)) &&
      (if site.rightwards then n.left == b && n.right == old(n.right) && m.right == n && m.left == old(m.left)
       else n.right == b && n.left == old(n.left) && m.left == n && m.right == old(m.right))
    requires site.at != [] ==>
      var pn, n, m := ParentAt(site.host, site.at), Sub(site.host, site.at).info, Promoted(Sub(site.host, site.at), site.rightwards).info;
      pn.value == old(pn.value) && pn.parent == old(pn.parent) &&
      if site.at[|site.at| - 1] == Left then pn.left == m && pn.right == old(pn.right)
      else pn.right == m && pn.left == old(pn.left)
    requires var sub := Sub(site.host, site.at); var m := Promoted(sub, site.rightwards);
      var b := if site.rightwards then m.right else m.left;
      forall o | o in Infos(site.host) && o != sub.info && o != m.info && o != RootOf(b) && o != ParentAt(site.host, site.at) ::
        o.value == old(o.value) && o.left == old(o.left) && o.right == old(o.right) && o.parent == old(o.parent)
    ensures var sub := Sub(site.host, site.at);
      Wired(ReplaceAt(site.host, site.at, if site.rightwards then Trees.RotateRight(sub) else Trees.RotateLeft(sub)))
  {
    var Site(s, p, rw) := site;
    var sub := Sub(s, p);
    var fin := if rw then Trees.RotateRight(sub) else Trees.RotateLeft(sub);
    SubInfos(s, p);
    var m := Promoted(sub, rw);
    var b := if rw then m.right else m.left;
    RootIn(m);
    RootIn(b);
    assert Infos(b) <= Infos(m) <= Infos(sub);
    Turned(Turn(sub, rw));
    if p != [] {
      var pn := ParentAt(s, p);
      assert fin.info == m.info && m.info.parent == pn;
      assert forall o | o in Infos(s) && o !in Infos(sub) && o != pn ::
        o.value == old(o.value) && o.left == old(o.left) && o.right == old(o.right) && o.parent == old(o.parent);
      Regrafted(Graft(s, p, fin));
    }
  }

  /** The nodes a rotation at `p` touches, and how they hang together before it. */
  lemma Hinges(s: Shape, p: Path, rightwards: bool)
    requires ValidPath(s, p) && Distinct(s) && Wired(s)
    requires Sub(s, p).Node? && (if rightwards then Sub(s, p).info.left else Sub(s, p).info.right) != null
    ensures Promoted(Sub(s, p), rightwards).Node?
    ensures var sub := Sub(s, p); var n, m := sub.info, Promoted(sub, rightwards).info;
      var b := if rightwards then Promoted(sub, rightwards).right else Promoted(sub, rightwards).left;
      Wired(sub) && Distinct(sub) && Infos(sub) <= Infos(s) &&
      m in Infos(sub) && n != m && (if rightwards then n.left == m && m.right == RootOf(b) else n.right == m && m.left == RootOf(b)) &&
      (b.Node? ==> b.info in Infos(sub) && b.info != n && b.info != m)
    ensures p == [] ==> Sub(s, p).info == RootOf(s)
    ensures p != [] ==>
      var pn := ParentAt(s, p);
      pn in Infos(s) - Infos(Sub(s, p)) && Sub(s, p).info.parent == pn &&
      (pn.left == Sub(s, p).info <==> p[|p| - 1] == Left) &&
      (pn.right == Sub(s, p).info <==> p[|p| - 1] == Right) && Wired(Sub(s, p[..|p| - 1]))
  {
    var sub := Sub(s, p);
    SubInfos(s, p);
    WiredSub(s, p);
    var m := Promoted(sub, rightwards);
    RootIn(m);
    RootIn(m.left);
    RootIn(m.right);
    if p != [] {
      ParentLink(s, p);
      WiredSub(s, p[..|p| - 1]);
    }
  }

  // ---------------------------------------------------------------- insertion

  lemma SubIn(s: Shape, p: Path)
    requires ValidPath(s, p) && Sub(s, p).Node?
    ensures Sub(s, p).info in Infos(s)
  {
    SubInfos(s, p);
    RootIn(Sub(s, p));
  }

  lemma {:induction false} PaintedInsert(s: Shape, v: int, n: RBTNode)
    ensures Painted(Insert(s, v, n)) == Insert(Painted(s), v, n.color)
  {
    if s.Node? {
      PaintedInsert(s.left, v, n);
      PaintedInsert(s.right, v, n);
    }
  }

  /** Where `_insertNode` puts a node `n` with key `v`: the shape after it, the model
      after it, and, when the key is not held, the node's path. */
  lemma InsertPlan(s: Shape, v: int, n: RBTNode)
    requires Distinct(s) && n !in Infos(s) && s.Node?
    ensures var p, ins := SearchPath(s, v), Insert(s, v, n);
      p == SearchPath(Painted(s), v) && ValidPath(Painted(s), p) && ValidPath(s, p) &&
      (Sub(s, p).Nil? <==> Sub(Painted(s), p).Nil?) &&
      Painted(ins) == Insert(Painted(s), v, n.color) &&
      Distinct(ins) && Infos(ins) <= Infos(s) + {n} && RootOf(ins) == RootOf(s) &&
      (Sub(s, p).Nil? ==> ValidPath(ins, p) && Sub(ins, p).Node? && Sub(ins, p).info == n)
  {
    var p := SearchPath(s, v);
    PaintedSearchPath(s, v);
    PaintedInsert(s, v, n);
    InsertInfos(s, v, n);
    if Sub(s, p).Nil? {
      InsertAtEmptySlot(s, v, n);
      ReplaceAtSub(s, p, Node(Nil, v, n, Nil));
    }
  }

  /** The comparison path is the same in the heap's shape and in its model. */
  lemma PaintedSearchPath(s: Shape, v: int)
    ensures SearchPath(Painted(s), v) == SearchPath(s, v)
    ensures ValidPath(Painted(s), SearchPath(s, v)) && (Sub(Painted(s), SearchPath(s, v)).Nil? <==> Sub(s, SearchPath(s, v)).Nil?)
  {
    EraseSearchPath(Painted(s), v);
    EraseSearchPath(s, v);
    PaintedSub(s, SearchPath(s, v));
  }

  /** A grandchild at `g + [d1, d2]`, its parent and its grandparent, and how their fields
      point at each other. */
  lemma Lineage(s: Shape, g: Path, d1: Dir, d2: Dir)
    requires ValidPath(s, g + [d1, d2]) && Sub(s, g + [d1, d2]).Node? && Distinct(s) && Wired(s)
    ensures ValidPath(s, g) && Sub(s, g).Node? && Sub(s, g).info in Infos(s)
    ensures ValidPath(s, g + [d1]) && Sub(s, g + [d1]) == Child(Sub(s, g), d1) && Sub(s, g + [d1]).Node?
    ensures ValidPath(s, g + [Other(d1)]) && Sub(s, g + [Other(d1)]) == Child(Sub(s, g), Other(d1))
    ensures Sub(s, g + [d1, d2]) == Child(Child(Sub(s, g), d1), d2)
    ensures var n, pn, gn := Sub(s, g + [d1, d2]).info, Sub(s, g + [d1]).info, Sub(s, g).info;
      n in Infos(s) && pn in Infos(s) && n.parent == pn && pn.parent == gn &&
      (pn.left == n <==> d2 == Left) && (pn.right == n <==> d2 == Right) &&
      (gn.left == pn <==> d1 == Left) && (gn.right == pn <==> d1 == Right) &&
      gn.left == RootOf(Sub(s, g).left) && gn.right == RootOf(Sub(s, g).right)
    ensures Child(Sub(s, g), Other(d1)).Node? ==> Child(Sub(s, g), Other(d1)).info in Infos(s)
  {
    ValidPathPrefix(s, g + [d1, d2], |g|);
    assert (g + [d1, d2])[..|g|] == g;
    SubAppend(s, g, [d1, d2]);
    var x := Sub(s, g);
    assert [d1, d2][1..] == [d2] && [d2][1..] == [];
    assert Sub(x, [d1, d2]) == Sub(Child(x, d1), [d2]) == Sub(Child(Child(x, d1), d2), []);
    SubStep(s, g, d1);
    SubStep(s, g, Other(d1));
    SubStep(s, g + [d1], d2);
    assert g + [d1] + [d2] == g + [d1, d2];
    SubIn(s, g);
    SubIn(s, g + [d1]);
    SubIn(s, g + [d1, d2]);
    if Child(x, Other(d1)).Node? {
      SubIn(s, g + [Other(d1)]);
    }
    SubInfos(s, g);
    WiredSub(s, g);
    ChildLink(x, d1);
    RootIn(x.left);
    RootIn(x.right);
    ChildLink(Child(x, d1), d2);
  }

  /** At the head of a `_fixInsertion` pass (the node's parent red) from which the loop
      does not spin, the node has a grandparent. */
  lemma FixHinges(s: Shape, q: Path)
    requires ValidPath(s, q) && Sub(s, q).Node? && Distinct(s) && Wired(s) && (s.Node? ==> s.info.parent == null)
    requires Sub(s, q).info.parent != null && Sub(s, q).info.parent.color == Red
    requires ValidPath(Painted(s), q) && Sub(Painted(s), q).Node? && FixIns(Painted(s), q).Some?
    ensures |q| >= 2 && q == q[..|q| - 2] + [q[|q| - 2], q[|q| - 1]]
    ensures ValidPath(s, q[..|q| - 2] + [q[|q| - 2], q[|q| - 1]]) && Sub(s, q[..|q| - 2] + [q[|q| - 2], q[|q| - 1]]).Node?
    ensures Sub(s, q).info.parent.parent != null
  {
    PaintedSub(s, q);
    assert q != [];
    ParentLink(s, q);
    var pp := q[..|q| - 1];
    PaintedSub(s, pp);
    assert IsRed(Sub(Painted(s), pp));
    assert |q| >= 2;
    GrandparentPath(s, q);
    ParentLink(s, pp);
  }

  /** At the head of a red-uncle pass, where the parent, the grandparent and the uncle
      sit, and what their colours are in the model. */
  lemma RedUncle(s: Shape, q: Path, uncle: RBTNode)
    requires ValidPath(s, q) && Sub(s, q).Node? && Distinct(s) && Wired(s) && (s.Node? ==> s.info.parent == null)
    requires ValidPath(Painted(s), q) && Sub(Painted(s), q).Node? && FixIns(Painted(s), q).Some?
    requires var n := Sub(s, q).info;
      n.parent != null && n.parent.color == Red && n.parent.parent != null &&
      uncle == (if n.parent == n.parent.parent.left then n.parent.parent.right else n.parent.parent.left) &&
      uncle.color == Red
    ensures |q| >= 2
    ensures var g, d1, n := q[..|q| - 2], q[|q| - 2], Sub(s, q).info;
      ValidPath(s, g) && Sub(s, g).Node? && Sub(s, g).info == n.parent.parent &&
      ValidPath(s, g + [d1]) && Sub(s, g + [d1]).Node? && Sub(s, g + [d1]).info == n.parent &&
      ValidPath(s, g + [Other(d1)]) && Sub(s, g + [Other(d1)]).Node? && Sub(s, g + [Other(d1)]).info == uncle &&
      n.parent in Infos(s) && n.parent.parent in Infos(s) && uncle in Infos(s)
    ensures var g, d1 := q[..|q| - 2], q[|q| - 2];
      ValidPath(Painted(s), g) && Sub(Painted(s), g).Node? && IsRed(Child(Sub(Painted(s), g), Other(d1))) &&
      ValidPath(Painted(s), g + [d1]) && Sub(Painted(s), g + [d1]).Node? && IsRed(Sub(Painted(s), g + [d1]))
  {
    FixHinges(s, q);
    var g, d1, d2 := q[..|q| - 2], q[|q| - 2], q[|q| - 1];
    Lineage(s, g, d1, d2);
    PaintedSub(s, g);
    PaintedSub(s, g + [d1]);
    PaintedSub(s, g + [Other(d1)]);
  }

  /** At the head of a black-uncle pass with the parent on side `d1` of the grandparent,
      where the parent sits, on which side the node hangs, and what the colours are in
      the model. */
  lemma BlackUncle(s: Shape, q: Path, d1: Dir)
    requires ValidPath(s, q) && Sub(s, q).Node? && Distinct(s) && Wired(s) && (s.Node? ==> s.info.parent == null)
    requires ValidPath(Painted(s), q) && Sub(Painted(s), q).Node? && FixIns(Painted(s), q).Some?
    requires var n := Sub(s, q).info;
      n.parent != null && n.parent.color == Red && n.parent.parent != null &&
      (n.parent == n.parent.parent.left <==> d1 == Left) &&
      var u := if d1 == Left then n.parent.parent.right else n.parent.parent.left;
      u == null || u.color != Red
    ensures |q| >= 2 && q[|q| - 2] == d1
    ensures var g, d2, n := q[..|q| - 2], q[|q| - 1], Sub(s, q).info;
      q == g + [d1, d2] && ValidPath(s, g + [d1, d2]) &&
      ValidPath(s, g + [d1]) && Sub(s, g + [d1]).Node? && Sub(s, g + [d1]).info == n.parent &&
      Child(Sub(s, g + [d1]), d2) == Sub(s, q) &&
      (n == (if d1 == Left then n.parent.right else n.parent.left) <==> d2 != d1)
    ensures var g := q[..|q| - 2];
      ValidPath(Painted(s), g) && Sub(Painted(s), g).Node? && !IsRed(Child(Sub(Painted(s), g), Other(d1))) &&
      ValidPath(Painted(s), g + [d1]) && Sub(Painted(s), g + [d1]).Node? && IsRed(Sub(Painted(s), g + [d1]))
  {
    FixHinges(s, q);
    var g, d2 := q[..|q| - 2], q[|q| - 1];
    Lineage(s, g, q[|q| - 2], d2);
    PaintedSub(s, g);
    PaintedSub(s, g + [d1]);
    PaintedSub(s, g + [Other(d1)]);
  }

  /** Where the `_fixInsertion` loop stops (no parent, or a black one), `FixIns` stops. */
  lemma FixInsStops(s: Shape, q: Path)
    requires ValidPath(s, q) && Sub(s, q).Node? && Distinct(s) && Wired(s)
    requires Sub(s, q).info.parent == null || Sub(s, q).info.parent.color != Red
    requires s.Node? ==> s.info.parent == null
    ensures ValidPath(Painted(s), q) && Sub(Painted(s), q).Node? && FixIns(Painted(s), q) == Some(Painted(s))
  {
    PaintedSub(s, q);
    if q != [] {
      ParentLink(s, q);
      PaintedSub(s, q[..|q| - 1]);
    }
  }

  // ---------------------------------------------------------------- the deletion fix-up

  /** The node at `r` and its two children: where they sit, how their fields point at
      each other, and the node's subtree in the model. */
  lemma Kin(s: Shape, r: Path, d: Dir)
    requires ValidPath(s, r) && Sub(s, r).Node? && Distinct(s) && Wired(s)
    ensures var x, o := Sub(s, r), Other(d);
      x.info in Infos(s) &&
      ValidPath(s, r + [d]) && Sub(s, r + [d]) == Child(x, d) &&
      ValidPath(s, r + [o]) && Sub(s, r + [o]) == Child(x, o) &&
      RootOf(Child(x, d)) == (if d == Left then x.info.left else x.info.right) &&
      RootOf(Child(x, o)) == (if d == Left then x.info.right else x.info.left) &&
      (Child(x, d).Node? ==> Child(x, d).info in Infos(s) && Child(x, d).info.parent == x.info && Child(x, d).info != x.info) &&
      (Child(x, o).Node? ==> Child(x, o).info in Infos(s) && Child(x, o).info.parent == x.info && Child(x, o).info != x.info) &&
      (Child(x, d).Node? && Child(x, o).Node? ==> Child(x, d).info != Child(x, o).info)
    ensures ValidPath(Painted(s), r) && Sub(Painted(s), r) == Painted(Sub(s, r))
  {
    var x := Sub(s, r);
    SubStep(s, r, d);
    SubStep(s, r, Other(d));
    SubIn(s, r);
    SubInfos(s, r);
    WiredSub(s, r);
    RootIn(x.left);
    RootIn(x.right);
    PaintedSub(s, r);
  }

  /** What the fix-up reads of the sibling of the child on side `d` of `r`: whether it
      is there and whether both of its children are black, in the heap and in the
      colour tree. */
  lemma SiblingCase(s: Shape, r: Path, d: Dir)
    requires ValidPath(s, r) && Sub(s, r).Node? && Distinct(s) && Wired(s)
    ensures var o, sibling := Other(d), RootOf(Child(Sub(s, r), Other(d)));
      ValidPath(s, r + [o]) && ValidPath(Painted(s), r) && Sub(Painted(s), r).Node? &&
      ValidPath(Painted(s), r + [o]) && Sub(Painted(s), r + [o]) == Child(Sub(Painted(s), r), o) &&
      (sibling != null <==> Sub(s, r + [o]).Node?) &&
      (sibling != null <==> Child(Sub(Painted(s), r), o).Node?) &&
      (sibling != null ==>
        Sub(s, r + [o]).info == sibling && sibling in Infos(s) && sibling != Sub(s, r).info &&
        var s1 := Child(Sub(Painted(s), r), o);
        (IsRed(s1) <==> sibling.color == Red) &&
        (((sibling.left == null || sibling.left.color == Black) && (sibling.right == null || sibling.right.color == Black)) <==>
          (!IsRed(s1.left) && !IsRed(s1.right))))
  {
    var o := Other(d);
    Kin(s, r, d);
    SubStep(Painted(s), r, o);
    if Sub(s, r + [o]).Node? {
      ChildColors(s, r + [o]);
      PaintedSub(s, r + [o]);
    }
  }

  /** The colours of the children of the node at `g`, as the model has them. */
  lemma ChildColors(s: Shape, g: Path)
    requires ValidPath(s, g) && Sub(s, g).Node? && Wired(s)
    ensures ValidPath(Painted(s), g) && Sub(Painted(s), g).Node?
    ensures var n, y := Sub(s, g).info, Sub(Painted(s), g);
      (IsRed(y.left) <==> n.left != null && n.left.color == Red) &&
      (IsRed(y.right) <==> n.right != null && n.right.color == Red)
  {
    PaintedSub(s, g);
    WiredSub(s, g);
  }

  /** At the head of a `_fixDeletion` pass the node at `q` is not the root: it hangs on
      side `q[|q| - 1]` of its parent, which sits at `q[..|q| - 1]`. */
  lemma DelHinges(s: Shape, q: Path)
    requires ValidPath(s, q) && Sub(s, q).Node? && Distinct(s) && Wired(s) && Sub(s, q).info != RootOf(s)
    ensures q != [] && q == q[..|q| - 1] + [q[|q| - 1]]
    ensures ValidPath(s, q[..|q| - 1]) && Sub(s, q[..|q| - 1]).Node?
    ensures var n, pn := Sub(s, q).info, Sub(s, q[..|q| - 1]).info;
      Child(Sub(s, q[..|q| - 1]), q[|q| - 1]) == Sub(s, q) &&
      n.parent == pn && (n == pn.left <==> q[|q| - 1] == Left)
    ensures ValidPath(Painted(s), q) && Sub(Painted(s), q) == Painted(Sub(s, q))
  {
    assert q != [];
    ParentLink(s, q);
    ParentPath(s, q);
    PaintedSub(s, q);
  }

  /** The in-order successor of the node at `q`, which has two children, sits at the
      end `g` of the left spine of its right subtree; its parent field points at the
      node at `q` exactly when it is that node's right child. */
  lemma SuccessorAt(s: Shape, q: Path)
    requires ValidPath(s, q) && Sub(s, q).Node? && Distinct(s) && Wired(s)
    requires Sub(s, q).right.Node?
    ensures var n := Sub(s, q); var g := q + [Right] + LeftSpine(n.right);
      ValidPath(n.right, LeftSpine(n.right)) &&
      ValidPath(s, g) && Sub(s, g) == Sub(n.right, LeftSpine(n.right)) && Sub(s, g).Node? && Sub(s, g).left.Nil? &&
      (Sub(s, g).info.parent == n.info <==> LeftSpine(n.right) == []) &&
      (LeftSpine(n.right) == [] <==> n.right.left.Nil?) &&
      (LeftSpine(n.right) == [] ==> Sub(s, g) == n.right)
  {
    var n := Sub(s, q);
    var spine := LeftSpine(n.right);
    var g := q + [Right] + spine;
    LeftSpineFindsMin(n.right);
    SpliceBelow(s, q, spine, Nil);
    ParentLink(s, g);
    if spine == [] {
      assert g[..|g| - 1] == q;
    } else {
      var h := spine[..|spine| - 1];
      assert g[..|g| - 1] == q + [Right] + h;
      ValidPathPrefix(n.right, spine, |spine| - 1);
      SpliceBelow(s, q, h, Nil);
      SubIn(n.right, h);
      SubInfos(s, q);
    }
  }

  /** The deeper-successor case of `_deleteNode` on the shape `s`: the successor `m` at
      `g`, the end of the left spine of the right subtree of the node at `q`, and the
      shape once its right subtree `m.right` has taken its place. */
  lemma SupplantPlan(s: Shape, q: Path)
    requires ValidPath(s, q) && Sub(s, q).Node? && Distinct(s) && Wired(s)
    requires Sub(s, q).left.Node? && Sub(s, q).right.Node? && Sub(s, q).right.left.Node?
    ensures var n := Sub(s, q); var spine := LeftSpine(n.right); var g := q + [Right] + spine;
      ValidPath(n.right, spine) && ValidPath(s, g) && Sub(s, g).Node? && Sub(s, g).left.Nil? &&
      var m := Sub(s, g); var rest := ReplaceAt(n.right, spine, m.right);
      RootOf(m.right) == m.info.right && m.info.value == m.value && rest.Node? &&
      ValidPath(rest, spine) && Sub(rest, spine) == m.right &&
      ValidPath(ReplaceAt(s, g, m.right), q) && Sub(ReplaceAt(s, g, m.right), q) == Node(n.left, n.value, n.info, rest)
    ensures UnlinkPlan(s, q)
  {
    var n := Sub(s, q);
    var spine := LeftSpine(n.right);
    var g := q + [Right] + spine;
    SuccessorAt(s, q);
    var m := Sub(s, g);
    WiredSub(s, g);
    SpliceBelow(s, q, spine, m.right);
    ReplaceAtSub(n.right, spine, m.right);
    UnlinkModel(s, q);
  }

  /** What `Unlink` makes of the model in the deeper-successor case: the successor's right
      subtree takes its place (`t1`), then it takes the place of the node at `q`, with
      that node's colour. */
  ghost predicate UnlinkPlan(s: Shape, q: Path)
    reads Infos(s)`color
    requires ValidPath(s, q) && Sub(s, q).Node? && Sub(s, q).right.Node?
  {
    var n := Sub(s, q); var g := q + [Right] + LeftSpine(n.right);
    ValidPath(s, g) && Sub(s, g).Node? &&
    var m := Sub(s, g); var t0 := Painted(s);
    ValidPath(t0, g) && Sub(t0, g).Node? && ValidPath(t0, q) && Sub(t0, q).Node? &&
    var t1 := ReplaceAt(t0, g, Child(Sub(t0, g), Right));
    ValidPath(t1, q) && Sub(t1, q).Node? &&
    Unlink(t0, q) == (ReplaceAt(t1, q, Node(Sub(t1, q).left, m.value, Sub(t0, q).info, Sub(t1, q).right)), g, Sub(t0, g).info)
  }

  lemma UnlinkModel(s: Shape, q: Path)
    requires ValidPath(s, q) && Sub(s, q).Node? && Distinct(s) && Wired(s)
    requires Sub(s, q).left.Node? && Sub(s, q).right.Node? && Sub(s, q).right.left.Node?
    ensures UnlinkPlan(s, q)
  {
    var n := Sub(s, q);
    var g := q + [Right] + LeftSpine(n.right);
    SuccessorAt(s, q);
    PaintedSub(s, g);
    PaintedSub(s, q);
    PaintedSpine(n.right);
    var t0 := Painted(s);
    assert Sub(t0, q) == Painted(n) && Sub(t0, g) == Painted(Sub(s, g));
    UnlinkBySupplant(t0, q);
  }

  lemma {:induction false} PaintedSpine(x: Shape)
    requires x.Node?
    ensures LeftSpine(Painted(x)) == LeftSpine(x)
  {
    if x.left.Node? {
      PaintedSpine(x.left);
    }
  }

  /** The node `child` read from the heap heads the subtree at `xp`: the model has a
      node there exactly when `child` is not null. */
  lemma Located(s: Shape, xp: Path, child: RBTNode?)
    requires ValidPath(s, xp) && RootOf(Sub(s, xp)) == child
    ensures ValidPath(Painted(s), xp) && (Sub(Painted(s), xp).Node? <==> child != null)
    ensures child != null ==> Sub(s, xp).Node? && Sub(s, xp).info == child
  {
    PaintedSub(s, xp);
  }

  /** Where the `_fixDeletion` loop stops (at the root, or at a red node), `FixDel`
      stops: it only blackens the node. */
  lemma FixDelStops(s: Shape, q: Path)
    requires ValidPath(s, q) && Sub(s, q).Node? && Distinct(s)
    requires Sub(s, q).info == RootOf(s) || Sub(s, q).info.color != Black
    ensures ValidPath(Painted(s), q) && Sub(Painted(s), q).Node?
    ensures FixDel(Painted(s), q) == Some(Recolor(Painted(s), q, Black))
  {
    PaintedSub(s, q);
    if Sub(s, q).info == RootOf(s) {
      RootOnlyAtTop(s, q);
    }
  }

  // ---------------------------------------------------------------- lookups, traversals, snapshots

  /** `_findNode`: follow the comparisons from `node`, the root of `s`, towards `value`.
      The node reached holds `value`; on a search tree it is null exactly when `value`
      is not held. */
  function FindNode(node: RBTNode?, ghost s: Shape, value: int): (r: RBTNode?)
    reads Infos(s)`value, Infos(s)`left, Infos(s)`right, Infos(s)`parent
    requires RootOf(s) == node && Wired(s)
    ensures r == RootOf(Sub(s, SearchPath(s, value)))
    ensures r != null ==> r.value == value
    ensures Ordered(s) ==> (r == null <==> value !in Values(s))
    decreases s
  {
    if node == null || node.value == value then node
    else if value < node.value then FindNode(node.left, s.left, value)
    else FindNode(node.right, s.right, value)
  }

  /** `serializeNode` of `toJSON`: the snapshot `{value, color, left, right}` of the
      subtree at `node`, which is the subtree's model. */
  function Serialize(node: RBTNode?, ghost s: Shape): (r: RbTree)
    reads Infos(s)`value, Infos(s)`left, Infos(s)`right, Infos(s)`parent, Infos(s)`color
    requires RootOf(s) == node && Wired(s)
    ensures r == Painted(s)
    decreases s
  {
    if node == null then Nil
    else Node(Serialize(node.left, s.left), node.value, node.color, Serialize(node.right, s.right))
  }

  /** The nodes of `s`, topped by `node`, hold the keys and colours of `obj` and are
      linked as `obj` is, every child pointing back at its parent; the top node has no
      parent. */
  ghost predicate Built(node: RBTNode?, s: Shape, obj: RbTree)
    reads Infos(s)`value, Infos(s)`left, Infos(s)`right, Infos(s)`parent, Infos(s)`color
  {
    RootOf(s) == node && Wired(s) && Distinct(s) && Painted(s) == obj && (node != null ==> node.parent == null)
  }

  /** `deserializeNode` of `fromJSON`: fresh nodes (`RBTNode.fromObject`) built as the
      snapshot says. */
  method Deserialize(obj: RbTree) returns (node: RBTNode?, ghost s: Shape)
    ensures Built(node, s, obj) && fresh(Infos(s))
    decreases obj, 1
  {
    if obj.Nil? {
      return null, Nil;
    }
    var n := new RBTNode(obj.value);
    n.color := obj.info;
    var l, sl, r, sr := DeserializeChildren(obj, n);
    Assemble(n, obj, l, sl, r, sr);
    node, s := n, Node(sl, obj.value, n, sr);
  }

  /** The two recursive calls of `deserializeNode`, left first: two built shapes of
      fresh nodes, apart from each other and from the node above them. */
  method DeserializeChildren(obj: RbTree, n: RBTNode) returns (l: RBTNode?, ghost sl: Shape, r: RBTNode?, ghost sr: Shape)
    requires obj.Node?
    ensures Built(l, sl, obj.left) && Built(r, sr, obj.right)
    ensures fresh(Infos(sl)) && fresh(Infos(sr)) && Infos(sl) !! Infos(sr) && n !in Infos(sl) + Infos(sr)
    decreases obj, 0
  {
    l, sl := Deserialize(obj.left);
    Allocated(sl);
    r, sr := Deserialize(obj.right);
  }

  /** The links `deserializeNode` writes once both sides are built. */
  method Assemble(n: RBTNode, ghost obj: RbTree, l: RBTNode?, ghost sl: Shape, r: RBTNode?, ghost sr: Shape)
    requires obj.Node? && n.value == obj.value && n.color == obj.info && n.parent == null
    requires Built(l, sl, obj.left) && Built(r, sr, obj.right)
    requires Infos(sl) !! Infos(sr) && n !in Infos(sl) + Infos(sr)
    modifies n`left, n`right, {l}`parent, {r}`parent
    ensures Built(n, Node(sl, obj.value, n, sr), obj)
  {
    RootIn(sl);
    RootIn(sr);
    Adopt(n, l, sl, false, sr);
    Adopt(n, r, sr, true, sl);
    Joined(sl, n, sr);
  }

  /** One child link `deserializeNode` writes: the child slot on the side `toRight`
      names, and the child's parent field; `other`, the sibling side, is left wired. */
  method Adopt(node: RBTNode, c: RBTNode?, ghost sc: Shape, toRight: bool, ghost other: Shape)
    requires RootOf(sc) == c && Wired(sc) && Distinct(sc) && node !in Infos(sc)
    requires Wired(other) && Distinct(other) && node !in Infos(other) && Infos(sc) !! Infos(other)
    modifies node`left, node`right, {c}`parent
    ensures toRight ==> node.right == c && node.left == old(node.left)
    ensures !toRight ==> node.left == c && node.right == old(node.right)
    ensures c != null ==> c.parent == node
    ensures Wired(sc) && Painted(sc) == old(Painted(sc))
    ensures Wired(other) && Painted(other) == old(Painted(other))
  {
    Allocated(sc);
    Allocated(other);
    RootIn(sc);
    if toRight {
      node.right := c;
    } else {
      node.left := c;
    }
    if c != null {
      c.parent := node;
    }
    Unchanged(sc);
    UnchangedColors(sc);
    Unchanged(other);
    UnchangedColors(other);
  }

  /** A node whose child fields name the roots of two wired shapes, which point back at
      it, tops a wired shape. */
  lemma Joined(sl: Shape, n: RBTNode, sr: Shape)
    requires Wired(sl) && Wired(sr) && Distinct(sl) && Distinct(sr)
    requires Infos(sl) !! Infos(sr) && n !in Infos(sl) + Infos(sr)
    requires n.left == RootOf(sl) && n.right == RootOf(sr)
    requires (sl.Node? ==> sl.info.parent == n) && (sr.Node? ==> sr.info.parent == n)
    ensures Wired(Node(sl, n.value, n, sr)) && Distinct(Node(sl, n.value, n, sr))
  {
  }

  /** The traversals of the model are the traversals of the shape. */
  lemma SameTraversals(s: Shape)
    ensures Trees.Preorder(Painted(s)) == Trees.Preorder(s) && Trees.Inorder(Painted(s)) == Trees.Inorder(s)
    ensures Trees.Postorder(Painted(s)) == Trees.Postorder(s) && Trees.LevelOrder(Painted(s)) == Trees.LevelOrder(s)
  {
    EraseKeepsOrderAndTraversals(s);
    EraseKeepsOrderAndTraversals(Painted(s));
    EraseKeepsLevelOrder(s);
    EraseKeepsLevelOrder(Painted(s));
  }

  /** The recursive `traverse` of `preorder`, appending to `acc`. */
  method PreorderFrom(node: RBTNode?, ghost s: Shape, acc: seq<int>) returns (result: seq<int>)
    requires RootOf(s) == node && Wired(s)
    ensures result == acc + Trees.Preorder(s)
    decreases s
  {
    if node == null {
      return acc;
    }
    Allocated(s);
    Allocated(s.right);
    result := acc + [node.value];
    result := PreorderFrom(node.left, s.left, result);
    result := PreorderFrom(node.right, s.right, result);
  }

  /** The recursive `traverse` of `inorder`. */
  method InorderFrom(node: RBTNode?, ghost s: Shape, acc: seq<int>) returns (result: seq<int>)
    requires RootOf(s) == node && Wired(s)
    ensures result == acc + Trees.Inorder(s)
    decreases s
  {
    if node == null {
      return acc;
    }
    Allocated(s);
    Allocated(s.right);
    result := InorderFrom(node.left, s.left, acc);
    result := result + [node.value];
    result := InorderFrom(node.right, s.right, result);
  }

  /** The recursive `traverse` of `postorder`. */
  method PostorderFrom(node: RBTNode?, ghost s: Shape, acc: seq<int>) returns (result: seq<int>)
    requires RootOf(s) == node && Wired(s)
    ensures result == acc + Trees.Postorder(s)
    decreases s
  {
    if node == null {
      return acc;
    }
    Allocated(s);
    Allocated(s.right);
    result := PostorderFrom(node.left, s.left, acc);
    result := PostorderFrom(node.right, s.right, result);
    result := result + [node.value];
  }

  /** The breadth-first walk of `levelOrder` from a non-empty wired shape, with a queue
      of nodes. */
  method LevelOrderFrom(top: RBTNode, ghost s: Shape) returns (result: seq<int>)
    requires s.Node? && s.info == top && Wired(s)
    ensures result == Trees.LevelOrder(s)
  {
    result := [];
    var queue: seq<RBTNode> := [top];
    ghost var gq: seq<Shape> := [s];
    while |queue| > 0
      invariant |queue| == |gq|
      invariant forall k | 0 <= k < |gq| :: gq[k].Node? && gq[k].info == queue[k] && Wired(gq[k])
      invariant result + Bfs(gq) == Trees.LevelOrder(s)
      decreases SizeSum(gq), |gq|
    {
      var node := queue[0];
      ghost var g := gq[0];
      assert gq == [g] + gq[1..];
      LevelStep(g, gq[1..]);
      queue := queue[1..];
      gq := gq[1..];
      result := result + [node.value];
      var kids := ChildrenOf(node, g);
      Enqueued(queue, gq, kids, Kids(g.left, g.right));
      queue := queue + kids;
      gq := gq + Kids(g.left, g.right);
    }
  }

  /** One step of the level-order loop: dequeue `g`, enqueue its non-empty children. */
  lemma LevelStep(g: Shape, rest: seq<Shape>)
    requires g.Node? && Wired(g)
    ensures g.info.left == RootOf(g.left) && g.info.right == RootOf(g.right)
    ensures forall k | 0 <= k < |Kids(g.left, g.right)| :: Kids(g.left, g.right)[k].Node? && Wired(Kids(g.left, g.right)[k])
    ensures Bfs([g] + rest) == [g.value] + Bfs(rest + Kids(g.left, g.right))
    ensures SizeSum(rest + Kids(g.left, g.right)) < SizeSum([g] + rest)
  {
    var Node(l, _, n, r) := g;
    assert n.left == RootOf(l) && n.right == RootOf(r) && Wired(l) && Wired(r);
    assert ([g] + rest)[0] == g && ([g] + rest)[1..] == rest;
    BfsStep([g] + rest);
  }

  /** The children of `node` that `levelOrder` enqueues, left first, paired with the
      subtrees of `g` they head. */
  function ChildrenOf(node: RBTNode, ghost g: Shape): (kids: seq<RBTNode>)
    requires g.Node? && g.info == node && node.left == RootOf(g.left) && node.right == RootOf(g.right)
    reads node
    ensures |kids| == |Kids(g.left, g.right)|
    ensures forall k | 0 <= k < |kids| :: Kids(g.left, g.right)[k].Node? && Kids(g.left, g.right)[k].info == kids[k]
  {
    (if node.left != null then [node.left] else []) + (if node.right != null then [node.right] else [])
  }

  /** Appending matching node objects and subtrees keeps the queue and its shapes aligned. */
  lemma Enqueued(queue: seq<RBTNode>, gq: seq<Shape>, kids: seq<RBTNode>, gk: seq<Shape>)
    requires |queue| == |gq| && forall k | 0 <= k < |gq| :: gq[k].Node? && gq[k].info == queue[k] && Wired(gq[k])
    requires |kids| == |gk| && forall k | 0 <= k < |gk| :: gk[k].Node? && gk[k].info == kids[k] && Wired(gk[k])
    ensures |queue + kids| == |gq + gk|
    ensures forall k | 0 <= k < |gq + gk| :: (gq + gk)[k].Node? && (gq + gk)[k].info == (queue + kids)[k] && Wired((gq + gk)[k])
  {
    forall k | 0 <= k < |gq + gk|
      ensures (gq + gk)[k].Node? && (gq + gk)[k].info == (queue + kids)[k] && Wired((gq + gk)[k])
    {
      if k < |gq| {
        assert (gq + gk)[k] == gq[k] && (queue + kids)[k] == queue[k];
      } else {
        assert (gq + gk)[k] == gk[k - |gq|] && (queue + kids)[k] == kids[k - |queue|];
      }
    }
  }

  /** One step of `_findMin` down the left spine. */
  lemma SpineStep(s: Shape, walked: Path)
    requires ValidPath(s, walked) && Sub(s, walked).Node? && Wired(Sub(s, walked))
    requires Sub(s, walked).info.left != null
    requires walked + LeftSpine(Sub(s, walked)) == LeftSpine(s)
    ensures ValidPath(s, walked + [Left]) && Sub(s, walked + [Left]) == Sub(s, walked).left
    ensures Sub(s, walked).left.Node? && Sub(s, walked).left.info == Sub(s, walked).info.left
    ensures Wired(Sub(s, walked).left)
    ensures (walked + [Left]) + LeftSpine(Sub(s, walked).left) == LeftSpine(s)
  {
    var cur := Sub(s, walked);
    assert cur.info.left == RootOf(cur.left) && cur.left.Node? && Wired(cur.left);
    SubStep(s, walked, Left);
    assert LeftSpine(cur) == [Left] + LeftSpine(cur.left);
    assert (walked + [Left]) + LeftSpine(cur.left) == walked + ([Left] + LeftSpine(cur.left));
  }

  /** Where `_findMin` stops: the leftmost node, holding the minimum. */
  lemma SpineEnd(s: Shape, walked: Path)
    requires ValidPath(s, walked) && Sub(s, walked).Node? && Wired(Sub(s, walked))
    requires Sub(s, walked).info.left == null
    requires walked + LeftSpine(Sub(s, walked)) == LeftSpine(s)
    ensures walked == LeftSpine(s) && Sub(s, walked).info.value == Min(s)
  {
    var cur := Sub(s, walked);
    assert LeftSpine(cur) == [];
    assert walked == walked + LeftSpine(cur);
    LeftSpineFindsMin(s);
  }

  // ---------------------------------------------------------------- the tree object

  class RedBlackTree {
    var root: RBTNode?
    ghost var shape: Shape

    /** The heap holds `shape`: distinct nodes, wired as the shape says, the root
        without a parent. */
    ghost predicate Valid()
      reads this, Infos(shape)`value, Infos(shape)`left, Infos(shape)`right, Infos(shape)`parent
    {
      RootIn(shape);
      RootOf(shape) == root && Distinct(shape) && Wired(shape) && (root != null ==> root.parent == null)
    }

    /** The keys and colours the object holds, arranged as its nodes are. */
    ghost function Model(): RbTree
      reads this, Infos(shape)`color
    {
      Painted(shape)
    }

    /** The tree object over an existing root, as `fromJSON` builds it; `s` is how the
        nodes below the root hang. */
    constructor (root: RBTNode?, ghost s: Shape)
      requires RootOf(s) == root && Distinct(s) && Wired(s) && (root != null ==> root.parent == null)
      ensures Valid() && shape == s && this.root == root
    {
      this.root := root;
      shape := s;
    }

    /** `toJSON`: the snapshot of the whole tree, which is its model. */
    function ToJSON(): (r: RbTree)
      reads this, Infos(shape)`value, Infos(shape)`left, Infos(shape)`right, Infos(shape)`parent, Infos(shape)`color
      requires Valid()
      ensures r == Model()
    {
      Serialize(root, shape)
    }

    /** `fromJSON`: a new tree of fresh nodes whose model is the snapshot, every child
        pointing back at its parent and the root at none. */
    static method FromJSON(data: RbTree) returns (t: RedBlackTree)
      ensures fresh(t) && fresh(Infos(t.shape))
      ensures t.Valid() && t.Model() == data
    {
      var node, s := Deserialize(data);
      Allocated(s);
      t := new RedBlackTree(node, s);
    }

    /** `fromJSON(toJSON())`: a copy of fresh nodes holding the same keys and colours in
        the same shape, wired with parent links like the original. */
    method Copy() returns (t: RedBlackTree)
      requires Valid()
      ensures fresh(t) && fresh(Infos(t.shape)) && t.Valid()
      ensures t.Model() == Model() && Erase(t.shape) == Erase(shape)
    {
      Allocated(shape);
      t := FromJSON(ToJSON());
      assert Erase(t.shape) == Erase(Painted(t.shape));
    }

    /** `flipNodeColor`: the node `_findNode` reaches for `value`, if any, changes colour;
        the links stay. */
    method FlipNodeColor(value: int)
      requires Valid()
      modifies Infos(shape)`color
      ensures Valid() && shape == old(shape)
      ensures Model() == FlipColor(old(Model()), value)
    {
      var node := FindNode(root, shape, value);
      ghost var p, m0 := SearchPath(shape, value), Model();
      PaintedSearchPath(shape, value);
      if node != null {
        PaintedSub(shape, p);
        SubIn(shape, p);
        assert Sub(m0, p).info == node.color;
        SetColor(node, if node.color == Red then Black else Red, p);
      } else {
        assert FlipColor(m0, value) == m0;
      }
    }

    /** `_findMin`: walk left from `node`, the root of the subtree `s`, to its leftmost
        node, which holds the subtree's minimum. */
    method FindMin(node: RBTNode, ghost s: Shape) returns (m: RBTNode)
      requires s.Node? && s.info == node && Wired(s)
      ensures ValidPath(s, LeftSpine(s)) && Sub(s, LeftSpine(s)).Node?
      ensures m == Sub(s, LeftSpine(s)).info && m.left == null && m.value == Min(s)
    {
      m := node;
      ghost var walked: Path := [];
      while m.left != null
        invariant ValidPath(s, walked) && Sub(s, walked).Node? && Sub(s, walked).info == m
        invariant Wired(Sub(s, walked))
        invariant walked + LeftSpine(Sub(s, walked)) == LeftSpine(s)
        decreases |LeftSpine(s)| - |walked|
      {
        SpineStep(s, walked);
        walked := walked + [Left];
        m := m.left;
      }
      SpineEnd(s, walked);
    }

    method Preorder() returns (result: seq<int>)
      requires Valid()
      ensures result == Trees.Preorder(Model())
    {
      SameTraversals(shape);
      Allocated(shape);
      result := PreorderFrom(root, shape, []);
    }

    method Inorder() returns (result: seq<int>)
      requires Valid()
      ensures result == Trees.Inorder(Model())
    {
      SameTraversals(shape);
      Allocated(shape);
      result := InorderFrom(root, shape, []);
    }

    method Postorder() returns (result: seq<int>)
      requires Valid()
      ensures result == Trees.Postorder(Model())
    {
      SameTraversals(shape);
      Allocated(shape);
      result := PostorderFrom(root, shape, []);
    }

    method LevelOrder() returns (result: seq<int>)
      requires Valid()
      ensures result == Trees.LevelOrder(Model())
    {
      SameTraversals(shape);
      Allocated(shape);
      if root == null {
        return [];
      }
      result := LevelOrderFrom(root, shape);
    }


    /** `_rotateLeft`, for the node at path `p`: its right child takes its place, as the
        root or in its parent's slot. No-op without a right child. */
    method RotateLeft(node: RBTNode, ghost p: Path)
      requires Valid() && ValidPath(shape, p) && Sub(shape, p).Node? && Sub(shape, p).info == node
      modifies this, Infos(shape)`left, Infos(shape)`right, Infos(shape)`parent
      ensures Valid() && Infos(shape) == old(Infos(shape))
      ensures shape == ReplaceAt(old(shape), p, Trees.RotateLeft(Sub(old(shape), p)))
      ensures ValidPath(old(Model()), p)
      ensures Model() == ReplaceAt(old(Model()), p, Trees.RotateLeft(Sub(old(Model()), p)))
    {
      ghost var s := shape;
      ghost var sub := Sub(s, p);
      ghost var fin := Trees.RotateLeft(sub);
      ghost var t := ReplaceAt(s, p, fin);
      ghost var m0 := Painted(s);
      Allocated(s);
      assert ValidPath(m0, p) && Painted(t) == ReplaceAt(m0, p, Trees.RotateLeft(Sub(m0, p))) by {
        PaintedSub(s, p);
        PaintedReplaceAt(s, p, fin);
        PaintedRotate(sub);
      }
      assert Wired(sub) && Distinct(sub) && Infos(sub) <= Infos(s) && node.right == RootOf(sub.right) by {
        SubInfos(s, p);
        WiredSub(s, p);
      }
      if node.right == null {
        assert t == s by { ReplaceAtSelf(s, p); }
        return;
      }
      LinkLeft(node, p);
      assert Painted(t) == old(Painted(t)) by {
        UnchangedColors(t);
      }
    }

    /** The part of `_rotateLeft` past its guard, for the node at path `p`: the shape
        rotated there becomes the shape held. */
    method LinkLeft(node: RBTNode, ghost p: Path)
      requires Valid() && ValidPath(shape, p) && Sub(shape, p).Node? && Sub(shape, p).info == node && node.right != null
      modifies this`root, this`shape, Infos(shape)`left, Infos(shape)`right, Infos(shape)`parent
      ensures Valid() && Infos(shape) == old(Infos(shape))
      ensures shape == ReplaceAt(old(shape), p, Trees.RotateLeft(Sub(old(shape), p)))
    {
      ghost var s := shape;
      ghost var sub := Sub(s, p);
      ghost var t := ReplaceAt(s, p, Trees.RotateLeft(sub));
      Allocated(s);
      assert Infos(t) == Infos(s) && Distinct(t) by {
        SubInfos(s, p);
        RotateInfos(sub);
        ReplaceInfos(s, p, Trees.RotateLeft(sub));
      }
      Hinges(s, p, false);
      assert if p == [] then node == root && RootOf(t) == node.right else RootOf(t) == root && root !in Infos(sub) by {
        if p != [] {
          RootAbove(s, p);
        }
      }
      var newRoot := node.right;
      shape := t;
      PivotLeftWrites(node, newRoot, newRoot.left, node.parent);
      Pivot(Site(s, p, false));
      assert RootOf(t) == root && (root != null ==> root.parent == null);
    }

    /** The field writes of `_rotateLeft` once `node` is known to have a right child
        `newRoot`; `b` is that child's left child and `pn` the parent of `node`. */
    method PivotLeftWrites(node: RBTNode, newRoot: RBTNode, ghost b: RBTNode?, ghost pn: RBTNode?)
      requires node.right == newRoot && newRoot != node && b == newRoot.left && pn == node.parent
      requires b != node && b != newRoot && pn != node && pn != newRoot && (pn != null ==> pn != b)
      modifies this`root, node`right, node`parent, newRoot`left, newRoot`parent, {b}`parent, {pn}`left, {pn}`right
      ensures node.right == b && node.parent == newRoot && newRoot.left == node && newRoot.parent == pn
      ensures b != null ==> b.parent == node
      ensures pn == null ==> root == newRoot
      ensures pn != null ==> root == old(root)
      ensures pn != null ==>
        if old(pn.left) == node then pn.left == newRoot && pn.right == old(pn.right)
        else pn.right == newRoot && pn.left == old(pn.left)
    {
      node.right := newRoot.left;
      if newRoot.left != null {
        newRoot.left.parent := node;
      }
      newRoot.parent := node.parent;
      if node.parent == null {
        root := newRoot;
      } else if node == node.parent.left {
        node.parent.left := newRoot;
      } else {
        node.parent.right := newRoot;
      }
      newRoot.left := node;
      node.parent := newRoot;
    }

    /** `_rotateRight`, the mirror image. */
    method RotateRight(node: RBTNode, ghost p: Path)
      requires Valid() && ValidPath(shape, p) && Sub(shape, p).Node? && Sub(shape, p).info == node
      modifies this, Infos(shape)`left, Infos(shape)`right, Infos(shape)`parent
      ensures Valid() && Infos(shape) == old(Infos(shape))
      ensures shape == ReplaceAt(old(shape), p, Trees.RotateRight(Sub(old(shape), p)))
      ensures ValidPath(old(Model()), p)
      ensures Model() == ReplaceAt(old(Model()), p, Trees.RotateRight(Sub(old(Model()), p)))
    {
      ghost var s := shape;
      ghost var sub := Sub(s, p);
      ghost var fin := Trees.RotateRight(sub);
      ghost var t := ReplaceAt(s, p, fin);
      ghost var m0 := Painted(s);
      Allocated(s);
      assert ValidPath(m0, p) && Painted(t) == ReplaceAt(m0, p, Trees.RotateRight(Sub(m0, p))) by {
        PaintedSub(s, p);
        PaintedReplaceAt(s, p, fin);
        PaintedRotate(sub);
      }
      assert Wired(sub) && Distinct(sub) && Infos(sub) <= Infos(s) && node.left == RootOf(sub.left) by {
        SubInfos(s, p);
        WiredSub(s, p);
      }
      if node.left == null {
        assert t == s by { ReplaceAtSelf(s, p); }
        return;
      }
      LinkRight(node, p);
      assert Painted(t) == old(Painted(t)) by {
        UnchangedColors(t);
      }
    }

    /** The part of `_rotateRight` past its guard, for the node at path `p`: the shape
        rotated there becomes the shape held. */
    method LinkRight(node: RBTNode, ghost p: Path)
      requires Valid() && ValidPath(shape, p) && Sub(shape, p).Node? && Sub(shape, p).info == node && node.left != null
      modifies this`root, this`shape, Infos(shape)`left, Infos(shape)`right, Infos(shape)`parent
      ensures Valid() && Infos(shape) == old(Infos(shape))
      ensures shape == ReplaceAt(old(shape), p, Trees.RotateRight(Sub(old(shape), p)))
    {
      ghost var s := shape;
      ghost var sub := Sub(s, p);
      ghost var t := ReplaceAt(s, p, Trees.RotateRight(sub));
      Allocated(s);
      assert Infos(t) == Infos(s) && Distinct(t) by {
        SubInfos(s, p);
        RotateInfos(sub);
        ReplaceInfos(s, p, Trees.RotateRight(sub));
      }
      Hinges(s, p, true);
      assert if p == [] then node == root && RootOf(t) == node.left else RootOf(t) == root && root !in Infos(sub) by {
        if p != [] {
          RootAbove(s, p);
        }
      }
      var newRoot := node.left;
      shape := t;
      PivotRightWrites(node, newRoot, newRoot.right, node.parent);
      Pivot(Site(s, p, true));
      assert RootOf(t) == root && (root != null ==> root.parent == null);
    }

    /** A rotation that moves the node at `p` down towards side `d`: `_rotateLeft` for
        `Left`, `_rotateRight` for `Right`. */
    method Rotate(node: RBTNode, ghost p: Path, d: Dir)
      requires Valid() && ValidPath(shape, p) && Sub(shape, p).Node? && Sub(shape, p).info == node
      modifies this, Infos(shape)`left, Infos(shape)`right, Infos(shape)`parent
      ensures Valid() && Infos(shape) == old(Infos(shape))
      ensures shape == ReplaceAt(old(shape), p, RotateDown(Sub(old(shape), p), d))
      ensures ValidPath(old(Model()), p)
      ensures Model() == ReplaceAt(old(Model()), p, RotateDown(Sub(old(Model()), p), d))
    {
      if d == Left {
        RotateLeft(node, p);
      } else {
        RotateRight(node, p);
      }
    }

    /** The field writes of `_rotateRight` once `node` is known to have a left child
        `newRoot`; `b` is that child's right child and `pn` the parent of `node`. */
    method PivotRightWrites(node: RBTNode, newRoot: RBTNode, ghost b: RBTNode?, ghost pn: RBTNode?)
      requires node.left == newRoot && newRoot != node && b == newRoot.right && pn == node.parent
      requires b != node && b != newRoot && pn != node && pn != newRoot && (pn != null ==> pn != b)
      modifies this`root, node`left, node`parent, newRoot`right, newRoot`parent, {b}`parent, {pn}`left, {pn}`right
      ensures node.left == b && node.parent == newRoot && newRoot.right == node && newRoot.parent == pn
      ensures b != null ==> b.parent == node
      ensures pn == null ==> root == newRoot
      ensures pn != null ==> root == old(root)
      ensures pn != null ==>
        if old(pn.right) == node then pn.right == newRoot && pn.left == old(pn.left)
        else pn.left == newRoot && pn.right == old(pn.right)
    {
      node.left := newRoot.right;
      if newRoot.right != null {
        newRoot.right.parent := node;
      }
      newRoot.parent := node.parent;
      if node.parent == null {
        root := newRoot;
      } else if node == node.parent.right {
        node.parent.right := newRoot;
      } else {
        node.parent.left := newRoot;
      }
      newRoot.right := node;
      node.parent := newRoot;
    }

    /** A colour write to the node at path `q`: the model is recoloured there, and the
        node objects and their links are left as they are. */
    method SetColor(n: RBTNode, c: Color, ghost q: Path)
      requires Valid() && ValidPath(shape, q) && Sub(shape, q).Node? && Sub(shape, q).info == n
      modifies n`color
      ensures Valid() && n.color == c
      ensures ValidPath(old(Model()), q) && Sub(old(Model()), q).Node?
      ensures Model() == Recolor(old(Model()), q, c)
    {
      Allocated(shape);
      n.color := c;
      Repainted(Paint(shape, q));
    }

    /** `insert`: a new red node; into an empty tree it becomes the black root, otherwise
        it is linked as a leaf (unless its key is held already) and `_fixInsertion` runs
        from it. */
    method Insert(value: int)
      requires Valid() && RbInsert(Model(), value).Some?
      modifies this, Infos(shape)`left, Infos(shape)`right, Infos(shape)`parent, Infos(shape)`color
      ensures Valid() && fresh(Infos(shape) - old(Infos(shape)))
      ensures Model() == RbInsert(old(Model()), value).value
    {
      ghost var s, m0 := shape, Model();
      Allocated(s);
      var newNode := new RBTNode(value);
      if root == null {
        root := newNode;
        newNode.color := Black;
        shape := Node(Nil, value, newNode, Nil);
        return;
      }
      RbInsertSteps(m0, value);
      ghost var p, attached := Attach(newNode);
      FixInsertion(newNode, p, attached);
    }

    /** The `_insertNode` call of `insert`: the red node `newNode` is linked into the
        non-empty tree as a leaf at the end of its comparison path, or left detached when
        its key is held already; the model gains the key, coloured red. */
    method Attach(newNode: RBTNode) returns (ghost p: Path, ghost attached: bool)
      requires Valid() && root != null && newNode !in Infos(shape)
      requires newNode.left == null && newNode.right == null && newNode.parent == null && newNode.color == Red
      modifies this, Infos(shape)`left, Infos(shape)`right, newNode`parent
      ensures Valid() && Infos(shape) <= old(Infos(shape)) + {newNode}
      ensures p == SearchPath(old(Model()), newNode.value) && ValidPath(old(Model()), p)
      ensures attached <==> Sub(old(Model()), p).Nil?
      ensures Model() == Trees.Insert(old(Model()), newNode.value, Red)
      ensures attached ==> ValidPath(shape, p) && Sub(shape, p).Node? && Sub(shape, p).info == newNode
      ensures !attached ==> newNode.parent == null
    {
      ghost var s := shape;
      ghost var ins := Trees.Insert(s, newNode.value, newNode);
      Allocated(s);
      p, attached := SearchPath(s, newNode.value), Sub(s, SearchPath(s, newNode.value)).Nil?;
      InsertPlan(s, newNode.value, newNode);
      Link(newNode, s);
    }

    /** The `_insertNode` call on the shape `s` held, with the colours untouched. */
    method Link(newNode: RBTNode, ghost s: Shape)
      requires s == shape && s.Node? && s.info == root && Distinct(s) && Wired(s)
      requires newNode !in Infos(s) && newNode.left == null && newNode.right == null && newNode.parent == null
      requires Infos(Trees.Insert(s, newNode.value, newNode)) <= Infos(s) + {newNode}
      modifies this`shape, Infos(s)`left, Infos(s)`right, newNode`parent
      ensures shape == Trees.Insert(s, newNode.value, newNode) && Wired(shape)
      ensures Painted(shape) == old(Painted(Trees.Insert(s, newNode.value, newNode)))
      ensures Sub(s, SearchPath(s, newNode.value)).Node? ==> newNode.parent == null
    {
      Allocated(s);
      shape := InsertNode(root, s, newNode);
      UnchangedColors(shape);
    }

    /** `_insertNode`: follow the comparisons from `node` and link `newNode` into the first
        empty slot, pointing it back at its new parent; a key already held ends the walk
        and leaves `newNode` detached. */
    method InsertNode(node: RBTNode, ghost s: Shape, newNode: RBTNode) returns (ghost s': Shape)
      requires s.Node? && s.info == node && Distinct(s) && Wired(s)
      requires newNode !in Infos(s) && newNode.left == null && newNode.right == null && newNode.parent == null
      modifies Infos(s)`left, Infos(s)`right, newNode`parent
      ensures Wired(s') && s' == Trees.Insert(s, newNode.value, newNode)
      ensures Sub(s, SearchPath(s, newNode.value)).Node? ==> newNode.parent == null
      decreases s
    {
      Allocated(s);
      if newNode.value == node.value {
        s' := s;
      } else if newNode.value < node.value {
        assert SearchPath(s, newNode.value)[1..] == SearchPath(s.left, newNode.value);
        assert Sub(s, SearchPath(s, newNode.value)) == Sub(s.left, SearchPath(s.left, newNode.value));
        if node.left == null {
          node.left := newNode;
          newNode.parent := node;
          s' := Node(Node(Nil, newNode.value, newNode, Nil), s.value, node, s.right);
          Unchanged(s.right);
        } else {
          var sl := InsertNode(node.left, s.left, newNode);
          s' := Node(sl, s.value, node, s.right);
          Unchanged(s.right);
        }
      } else {
        assert SearchPath(s, newNode.value)[1..] == SearchPath(s.right, newNode.value);
        assert Sub(s, SearchPath(s, newNode.value)) == Sub(s.right, SearchPath(s.right, newNode.value));
        if node.right == null {
          node.right := newNode;
          newNode.parent := node;
          s' := Node(s.left, s.value, node, Node(Nil, newNode.value, newNode, Nil));
          Unchanged(s.left);
        } else {
          var sr := InsertNode(node.right, s.right, newNode);
          s' := Node(s.left, s.value, node, sr);
          Unchanged(s.left);
        }
      }
    }

    /** `_fixInsertion` from `node`, which sits at path `p` when `attached`; a detached node
        (a duplicate key) has no parent, so the loop does not run. The root is blackened
        at the end. */
    method FixInsertion(node: RBTNode, ghost p: Path, ghost attached: bool)
      requires Valid()
      requires attached ==> ValidPath(shape, p) && Sub(shape, p).Node? && Sub(shape, p).info == node
      requires attached ==> ValidPath(Model(), p) && Sub(Model(), p).Node? && FixIns(Model(), p).Some?
      requires !attached ==> node.parent == null
      modifies this, Infos(shape)`left, Infos(shape)`right, Infos(shape)`parent, Infos(shape)`color
      ensures Valid() && Infos(shape) == old(Infos(shape))
      ensures Model() == Colored(if attached then FixIns(old(Model()), p).value else old(Model()), Black)
    {
      var n := node;
      ghost var q := p;
      while n.parent != null && n.parent.color == Red
        invariant Valid() && Infos(shape) == old(Infos(shape))
        invariant attached ==> ValidPath(shape, q) && Sub(shape, q).Node? && Sub(shape, q).info == n
        invariant attached ==> ValidPath(Model(), q) && Sub(Model(), q).Node? && FixIns(Model(), q) == FixIns(old(Model()), p)
        invariant !attached ==> n.parent == null && Model() == old(Model())
        decreases |q|
      {
        if !attached {
          assert false;
        }
        n, q := InsertionPass(n, q);
      }
      if attached {
        FixInsStops(shape, q);
      }
      if root != null {
        SetColor(root, Black, []);
      }
    }

    /** One pass of the `_fixInsertion` loop from the node `n` at `q`, whose parent is
        red: by the colour of the uncle, on the side of the grandparent the parent
        hangs on. */
    method InsertionPass(n: RBTNode, ghost q: Path) returns (up: RBTNode, ghost q': Path)
      requires Valid() && ValidPath(shape, q) && Sub(shape, q).Node? && Sub(shape, q).info == n
      requires ValidPath(Model(), q) && Sub(Model(), q).Node? && FixIns(Model(), q).Some?
      requires n.parent != null && n.parent.color == Red
      modifies this, Infos(shape)`left, Infos(shape)`right, Infos(shape)`parent, Infos(shape)`color
      ensures Valid() && Infos(shape) == old(Infos(shape))
      ensures ValidPath(shape, q') && Sub(shape, q').Node? && Sub(shape, q').info == up && |q'| < |q|
      ensures ValidPath(Model(), q') && Sub(Model(), q').Node? && FixIns(Model(), q') == FixIns(old(Model()), q)
    {
      FixHinges(shape, q);
      if n.parent.parent != null {
        if n.parent == n.parent.parent.left {
          var uncle := n.parent.parent.right;
          if uncle != null && uncle.color == Red {
            up, q' := UncleRed(n, uncle, q);
          } else {
            up, q' := UncleBlack(n, q, Left);
          }
        } else {
          var uncle := n.parent.parent.left;
          if uncle != null && uncle.color == Red {
            up, q' := UncleRed(n, uncle, q);
          } else {
            up, q' := UncleBlack(n, q, Right);
          }
        }
      } else {
        assert false;
      }
    }

    /** The red-uncle pass: the parent and the uncle turn black, the grandparent red, and
        the loop goes on from the grandparent. */
    method UncleRed(n: RBTNode, uncle: RBTNode, ghost q: Path) returns (up: RBTNode, ghost q': Path)
      requires Valid() && ValidPath(shape, q) && Sub(shape, q).Node? && Sub(shape, q).info == n
      requires ValidPath(Model(), q) && Sub(Model(), q).Node? && FixIns(Model(), q).Some?
      requires n.parent != null && n.parent.color == Red && n.parent.parent != null
      requires uncle == (if n.parent == n.parent.parent.left then n.parent.parent.right else n.parent.parent.left)
      requires uncle.color == Red
      modifies Infos(shape)`color
      ensures Valid()
      ensures ValidPath(shape, q') && Sub(shape, q').Node? && Sub(shape, q').info == up && |q'| < |q|
      ensures ValidPath(Model(), q') && Sub(Model(), q').Node? && FixIns(Model(), q') == FixIns(old(Model()), q)
    {
      ghost var m0 := Model();
      RedUncle(shape, q, uncle);
      ghost var g, d1 := q[..|q| - 2], q[|q| - 2];
      var parent := n.parent;
      var grand := parent.parent;
      ghost var m1, m2 := RecolorUncleRed(parent, uncle, grand, g, d1);
      UncleRedStep(m0, q, g, d1, m1, m2, Model());
      up, q' := grand, g;
    }

    /** The colour writes of the red-uncle pass, in the order of the source: the parent at
        `g + [d1]` and the uncle turn black, then the grandparent at `g` turns red. */
    method RecolorUncleRed(parent: RBTNode, uncle: RBTNode, grand: RBTNode, ghost g: Path, ghost d1: Dir)
      returns (ghost m1: RbTree, ghost m2: RbTree)
      requires Valid() && ValidPath(shape, g) && Sub(shape, g).Node? && Sub(shape, g).info == grand
      requires ValidPath(shape, g + [d1]) && Sub(shape, g + [d1]).Node? && Sub(shape, g + [d1]).info == parent
      requires ValidPath(shape, g + [Other(d1)]) && Sub(shape, g + [Other(d1)]).Node? && Sub(shape, g + [Other(d1)]).info == uncle
      modifies parent`color, uncle`color, grand`color
      ensures Valid()
      ensures ValidPath(old(Model()), g + [d1]) && Sub(old(Model()), g + [d1]).Node? && m1 == Recolor(old(Model()), g + [d1], Black)
      ensures ValidPath(m1, g + [Other(d1)]) && Sub(m1, g + [Other(d1)]).Node? && m2 == Recolor(m1, g + [Other(d1)], Black)
      ensures ValidPath(m2, g) && Sub(m2, g).Node? && Model() == Recolor(m2, g, Red)
    {
      SetColor(parent, Black, g + [d1]);
      m1 := Model();
      SetColor(uncle, Black, g + [Other(d1)]);
      m2 := Model();
      SetColor(grand, Red, g);
    }

    /** The black-uncle pass with the parent on side `d1` of the grandparent: an inner
        node first turns outward (`InnerTurn`), then the rest of the pass (`Straighten`);
        the loop goes on from the node that took the grandparent's place. */
    method UncleBlack(n: RBTNode, ghost q: Path, d1: Dir) returns (r: RBTNode, ghost q': Path)
      requires Valid() && ValidPath(shape, q) && Sub(shape, q).Node? && Sub(shape, q).info == n
      requires ValidPath(Model(), q) && Sub(Model(), q).Node? && FixIns(Model(), q).Some?
      requires n.parent != null && n.parent.color == Red && n.parent.parent != null
      requires n.parent == n.parent.parent.left <==> d1 == Left
      requires var u := if d1 == Left then n.parent.parent.right else n.parent.parent.left;
        u == null || u.color != Red
      modifies this, Infos(shape)`left, Infos(shape)`right, Infos(shape)`parent, Infos(shape)`color
      ensures Valid() && Infos(shape) == old(Infos(shape))
      ensures ValidPath(shape, q') && Sub(shape, q').Node? && Sub(shape, q').info == r && |q'| < |q|
      ensures ValidPath(Model(), q') && Sub(Model(), q').Node? && FixIns(Model(), q') == FixIns(old(Model()), q)
    {
      ghost var m0 := Model();
      BlackUncle(shape, q, d1);
      ghost var g := q[..|q| - 2];
      var m := InnerTurn(n, g, d1, q[|q| - 1]);
      ghost var m1 := Model();
      ghost var m2, m3 := Straighten(m, g, d1);
      UncleBlackStep(m0, q, g, d1, m1, m2, m3, Model());
      UncleBlackNext(m0, q, g, d1, Model());
      r, q' := m, g + [d1];
    }

    /** The first step of a black-uncle pass: a node `n` at `g + [d1, d2]` on the inner
        side (`d2 != d1`) rotates its parent towards side `d1`, and the parent, now at
        `g + [d1, d1]`, carries on; an outer node carries on itself. */
    method InnerTurn(n: RBTNode, ghost g: Path, d1: Dir, ghost d2: Dir) returns (m: RBTNode)
      requires Valid() && ValidPath(shape, g + [d1, d2]) && Sub(shape, g + [d1, d2]).Node? && Sub(shape, g + [d1, d2]).info == n
      requires ValidPath(shape, g + [d1]) && Sub(shape, g + [d1]).Node? && Sub(shape, g + [d1]).info == n.parent
      requires Child(Sub(shape, g + [d1]), d2) == Sub(shape, g + [d1, d2])
      requires n.parent != null && (n == (if d1 == Left then n.parent.right else n.parent.left) <==> d2 != d1)
      modifies this, Infos(shape)`left, Infos(shape)`right, Infos(shape)`parent
      ensures Valid() && Infos(shape) == old(Infos(shape))
      ensures ValidPath(shape, g + [d1, d1]) && Sub(shape, g + [d1, d1]).Node? && Sub(shape, g + [d1, d1]).info == m
      ensures ValidPath(old(Model()), g + [d1])
      ensures Model() == if d2 == d1 then old(Model())
        else ReplaceAt(old(Model()), g + [d1], if d1 == Left then Trees.RotateLeft(Sub(old(Model()), g + [d1])) else Trees.RotateRight(Sub(old(Model()), g + [d1])))
    {
      PaintedSub(shape, g + [d1]);
      m := n;
      if d1 == Left && n == n.parent.right {
        m := n.parent;
        ghost var s0 := shape;
        RotateLeft(m, g + [Left]);
        RotateMovesBelow(s0, g, Left, false);
      } else if d1 == Right && n == n.parent.left {
        m := n.parent;
        ghost var s0 := shape;
        RotateRight(m, g + [Right]);
        RotateMovesBelow(s0, g, Right, true);
      }
    }

    /** The end of a black-uncle pass, for the node `m` at `g + [d1, d1]`: its parent turns
        black, the grandparent at `g` red, and the grandparent rotates away from side `d1`,
        which brings `m` up to `g + [d1]`. */
    method Straighten(m: RBTNode, ghost g: Path, d1: Dir) returns (ghost m2: RbTree, ghost m3: RbTree)
      requires Valid() && ValidPath(shape, g + [d1, d1]) && Sub(shape, g + [d1, d1]).Node? && Sub(shape, g + [d1, d1]).info == m
      modifies this, Infos(shape)`left, Infos(shape)`right, Infos(shape)`parent, Infos(shape)`color
      ensures Valid() && Infos(shape) == old(Infos(shape))
      ensures ValidPath(shape, g + [d1]) && Sub(shape, g + [d1]).Node? && Sub(shape, g + [d1]).info == m
      ensures ValidPath(old(Model()), g + [d1]) && Sub(old(Model()), g + [d1]).Node? && m2 == Recolor(old(Model()), g + [d1], Black)
      ensures ValidPath(m2, g) && Sub(m2, g).Node? && m3 == Recolor(m2, g, Red)
      ensures ValidPath(m3, g) && Model() == ReplaceAt(m3, g, if d1 == Left then Trees.RotateRight(Sub(m3, g)) else Trees.RotateLeft(Sub(m3, g)))
    {
      Lineage(shape, g, d1, d1);
      if m.parent != null {
        var parent := m.parent;
        SetColor(parent, Black, g + [d1]);
        m2 := Model();
        if parent.parent != null {
          var grand := parent.parent;
          SetColor(grand, Red, g);
          m3 := Model();
          ghost var s3 := shape;
          if d1 == Left {
            RotateRight(grand, g);
          } else {
            RotateLeft(grand, g);
          }
          RotateMoves(s3, g, d1 == Left);
        } else {
          assert false;
        }
      } else {
        assert false;
      }
    }

    /** `_transplant`: `v` takes the place of `u`, as the root or in the slot of `u`'s
        parent, and points back at that parent. */
    method Transplant(u: RBTNode, v: RBTNode?)
      modifies this`root, {u.parent}`left, {u.parent}`right, {v}`parent
      ensures old(u.parent) == null ==> root == v
      ensures old(u.parent) != null ==> (root == old(root) &&
        if old(u.parent.left) == u then old(u.parent).left == v && old(u.parent).right == old(u.parent.right)
        else old(u.parent).right == v && old(u.parent).left == old(u.parent.left))
      ensures v != null ==> v.parent == old(u.parent)
    {
      if u.parent == null {
        root := v;
      } else if u == u.parent.left {
        u.parent.left := v;
      } else {
        u.parent.right := v;
      }
      if v != null {
        v.parent := u.parent;
      }
    }

    /** The transplant of the node `u` at `q`, which has no child on side `Other(d)`, by
        its subtree on side `d`: `u` leaves the tree, no colour changes. */
    method Splice(u: RBTNode, ghost q: Path, d: Dir)
      requires Valid() && ValidPath(shape, q) && Sub(shape, q).Node? && Sub(shape, q).info == u
      requires Child(Sub(shape, q), Other(d)).Nil?
      modifies this, Infos(shape)`left, Infos(shape)`right, Infos(shape)`parent
      ensures Valid() && Infos(shape) == old(Infos(shape)) - {u}
      ensures shape == ReplaceAt(old(shape), q, Child(Sub(old(shape), q), d))
      ensures ValidPath(old(Model()), q) && Sub(old(Model()), q).Node?
      ensures Model() == ReplaceAt(old(Model()), q, Child(Sub(old(Model()), q), d))
    {
      ghost var s, m0 := shape, Model();
      ghost var c := Child(Sub(s, q), d);
      Allocated(s);
      assert ValidPath(m0, q) && Sub(m0, q).Node? && Painted(ReplaceAt(s, q, c)) == ReplaceAt(m0, q, Child(Sub(m0, q), d)) by {
        PaintedSub(s, q);
        PaintedReplaceAt(s, q, c);
      }
      SpliceLink(u, q, d);
      UnchangedColors(shape);
    }

    /** The writes of `Splice`: the shape held loses `u`. */
    method SpliceLink(u: RBTNode, ghost q: Path, d: Dir)
      requires Valid() && ValidPath(shape, q) && Sub(shape, q).Node? && Sub(shape, q).info == u
      requires Child(Sub(shape, q), Other(d)).Nil?
      modifies this`root, this`shape, Infos(shape)`left, Infos(shape)`right, Infos(shape)`parent
      ensures Valid() && Infos(shape) == old(Infos(shape)) - {u}
      ensures shape == ReplaceAt(old(shape), q, Child(Sub(old(shape), q), d))
    {
      ghost var s := shape;
      ghost var c := Child(Sub(s, q), d);
      ghost var t := ReplaceAt(s, q, c);
      Allocated(s);
      assert Infos(Sub(s, q)) == Infos(c) + {u} && u !in Infos(c) && Distinct(c) && Wired(Sub(s, q)) by {
        SubInfos(s, q);
        WiredSub(s, q);
      }
      assert Infos(t) == Infos(s) - {u} && Distinct(t) by {
        SubInfos(s, q);
        ReplaceInfos(s, q, c);
      }
      var v := if d == Left then u.left else u.right;
      assert v == RootOf(c) && Infos(c) <= Infos(s) && (v != null ==> v in Infos(c)) by {
        RootIn(c);
        SubInfos(s, q);
      }
      ghost var pn := ParentAt(s, q);
      if q != [] {
        ParentLink(s, q);
        RootAbove(s, q);
        WiredSub(s, q[..|q| - 1]);
      }
      assert u.parent == pn && pn !in Infos(Sub(s, q));
      Transplant(u, v);
      shape := t;
      Unchanged(c);
      if q != [] {
        Regrafted(Graft(s, q, c));
      }
    }

    /** The two-child case of `_deleteNode` when the successor `succ` is the right child of
        `node` at `q`: `succ` takes the place of `node`, keeping its right subtree and
        taking over the left subtree of `node`. No colour changes. */
    method Promote(node: RBTNode, succ: RBTNode, ghost q: Path)
      requires Valid() && ValidPath(shape, q) && Sub(shape, q).Node? && Sub(shape, q).info == node
      requires var n := Sub(shape, q); n.left.Node? && n.right.Node? && n.right.info == succ && n.right.left.Nil?
      modifies this, Infos(shape)`left, Infos(shape)`right, Infos(shape)`parent
      ensures Valid() && Infos(shape) == old(Infos(shape)) - {node}
      ensures var n := Sub(old(shape), q); shape == ReplaceAt(old(shape), q, Node(n.left, n.right.value, succ, n.right.right))
      ensures ValidPath(old(Model()), q)
      ensures var n := Sub(old(Model()), q);
                n.Node? && n.right.Node? &&
                Model() == ReplaceAt(old(Model()), q, Node(n.left, n.right.value, n.right.info, n.right.right))
    {
      ghost var s, m0 := shape, Model();
      ghost var n := Sub(s, q);
      ghost var x := Node(n.left, n.right.value, succ, n.right.right);
      Allocated(s);
      assert ValidPath(m0, q) && Sub(m0, q) == Painted(n) && Painted(ReplaceAt(s, q, x)) == ReplaceAt(m0, q, Painted(x)) by {
        PaintedSub(s, q);
        PaintedReplaceAt(s, q, x);
      }
      ghost var pn := Sub(m0, q);
      assert pn.right == Painted(n.right) && Painted(x) == Node(pn.left, pn.right.value, pn.right.info, pn.right.right);
      PromoteLink(node, succ, q);
      UnchangedColors(shape);
    }

    /** The writes of `Promote`. */
    method PromoteLink(node: RBTNode, succ: RBTNode, ghost q: Path)
      requires Valid() && ValidPath(shape, q) && Sub(shape, q).Node? && Sub(shape, q).info == node
      requires var n := Sub(shape, q); n.left.Node? && n.right.Node? && n.right.info == succ && n.right.left.Nil?
      modifies this`root, this`shape, Infos(shape)`left, Infos(shape)`right, Infos(shape)`parent
      ensures Valid() && Infos(shape) == old(Infos(shape)) - {node}
      ensures var n := Sub(old(shape), q); shape == ReplaceAt(old(shape), q, Node(n.left, n.right.value, succ, n.right.right))
    {
      ghost var s := shape;
      ghost var n := Sub(s, q);
      ghost var l, r := n.left, n.right.right;
      ghost var x := Node(l, n.right.value, succ, r);
      ghost var t := ReplaceAt(s, q, x);
      Allocated(s);
      assert Wired(n) && Distinct(n) && Infos(n) <= Infos(s) by {
        SubInfos(s, q);
        WiredSub(s, q);
      }
      PromoteInfos(s, q, n.right.value);
      RootIn(l);
      RootIn(r);
      ghost var pn := ParentAt(s, q);
      if q != [] {
        ParentLink(s, q);
        RootAbove(s, q);
        WiredSub(s, q[..|q| - 1]);
        assert RootOf(t) == RootOf(s) && root !in Infos(n);
      }
      assert node.parent == pn && pn !in Infos(n);
      assert n.right == Node(Nil, n.right.value, succ, r) && Wired(n.right);
      assert node.left == RootOf(l) && succ.right == RootOf(r) && Infos(l) <= Infos(n) && Infos(r) <= Infos(n);
      assert Infos(l) !! Infos(r) && succ !in Infos(l) && succ !in Infos(r) && succ in Infos(n);
      PromoteWrites(node, succ, succ.right, pn, node.left);
      shape := t;
      Adopted(Graft(s, q, x));
    }

    /** The end of the two-child case of `_deleteNode` when the successor `succ`, already
        spliced out, was deeper: `succ` takes over both subtrees of `node` at `q` and its
        place. No colour changes. */
    method Supplant(node: RBTNode, succ: RBTNode, ghost q: Path)
      requires Valid() && ValidPath(shape, q) && Sub(shape, q).Node? && Sub(shape, q).info == node
      requires Sub(shape, q).left.Node? && Sub(shape, q).right.Node? && succ !in Infos(shape)
      modifies this, Infos(shape)`left, Infos(shape)`right, Infos(shape)`parent, succ`left, succ`right, succ`parent
      ensures Valid() && Infos(shape) == old(Infos(shape)) - {node} + {succ}
      ensures var n := Sub(old(shape), q); shape == ReplaceAt(old(shape), q, Node(n.left, succ.value, succ, n.right))
      ensures ValidPath(old(Model()), q)
      ensures var n := Sub(old(Model()), q);
                n.Node? && Model() == ReplaceAt(old(Model()), q, Node(n.left, succ.value, succ.color, n.right))
    {
      ghost var s, m0 := shape, Model();
      ghost var n := Sub(s, q);
      ghost var x := Node(n.left, succ.value, succ, n.right);
      Allocated(s);
      assert ValidPath(m0, q) && Sub(m0, q) == Painted(n) && Painted(ReplaceAt(s, q, x)) == ReplaceAt(m0, q, Painted(x)) by {
        PaintedSub(s, q);
        PaintedReplaceAt(s, q, x);
      }
      ghost var pn := Sub(m0, q);
      assert Painted(x) == Node(pn.left, succ.value, succ.color, pn.right);
      SupplantLink(node, succ, q);
      UnchangedColors(shape);
    }

    /** The writes of `Supplant`. */
    method SupplantLink(node: RBTNode, succ: RBTNode, ghost q: Path)
      requires Valid() && ValidPath(shape, q) && Sub(shape, q).Node? && Sub(shape, q).info == node
      requires Sub(shape, q).left.Node? && Sub(shape, q).right.Node? && succ !in Infos(shape)
      modifies this`root, this`shape, Infos(shape)`left, Infos(shape)`right, Infos(shape)`parent, succ`left, succ`right, succ`parent
      ensures Valid() && Infos(shape) == old(Infos(shape)) - {node} + {succ}
      ensures forall n | n in Infos(shape) :: old(allocated(n)) && n.color == old(n.color)
      ensures var n := Sub(old(shape), q); shape == ReplaceAt(old(shape), q, Node(n.left, succ.value, succ, n.right))
    {
      ghost var s := shape;
      ghost var n := Sub(s, q);
      ghost var l, r := n.left, n.right;
      ghost var x := Node(l, succ.value, succ, r);
      ghost var t := ReplaceAt(s, q, x);
      Allocated(s);
      assert Wired(n) && Distinct(n) && Infos(n) <= Infos(s) by {
        SubInfos(s, q);
        WiredSub(s, q);
      }
      SupplantInfos(s, q, succ.value, succ);
      RootIn(l);
      RootIn(r);
      ghost var pn := ParentAt(s, q);
      if q != [] {
        ParentLink(s, q);
        RootAbove(s, q);
        WiredSub(s, q[..|q| - 1]);
      }
      assert node.parent == pn && pn !in Infos(n);
      SupplantWrites(node, succ, pn, node.left, node.right);
      shape := t;
      Adopted(Graft(s, q, x));
    }

    /** The field writes of `Promote`; `child` is the right child of `succ`, `pn` the
        parent of `node` and `nl` its left child. */
    method PromoteWrites(node: RBTNode, succ: RBTNode, child: RBTNode?, ghost pn: RBTNode?, ghost nl: RBTNode)
      requires succ.right == child && node.parent == pn && node.left == nl
      requires node != succ && pn != node && pn != succ && nl != succ && nl != node && child != node && child != nl && child != succ
      modifies this`root, {child}`parent, {pn}`left, {pn}`right, succ`parent, succ`left, nl`parent
      ensures pn == null ==> root == succ
      ensures pn != null ==> (root == old(root) &&
        if old(pn.left) == node then pn.left == succ && pn.right == old(pn.right)
        else pn.right == succ && pn.left == old(pn.left))
      ensures succ.parent == pn && succ.left == nl && nl.parent == succ && (child != null ==> child.parent == succ)
    {
      if child != null {
        child.parent := succ;
      }
      Transplant(node, succ);
      succ.left := node.left;
      succ.left.parent := succ;
    }

    /** The field writes of `Supplant`; `pn` is the parent of `node`, `nl` and `nr` its
        children. */
    method SupplantWrites(node: RBTNode, succ: RBTNode, ghost pn: RBTNode?, ghost nl: RBTNode, ghost nr: RBTNode)
      requires node.parent == pn && node.left == nl && node.right == nr
      requires node != succ && pn != node && pn != succ && nl != succ && nl != node && nr != succ && nr != node && nl != nr
      modifies this`root, {pn}`left, {pn}`right, succ`parent, succ`left, succ`right, nl`parent, nr`parent
      ensures pn == null ==> root == succ
      ensures pn != null ==> (root == old(root) &&
        if old(pn.left) == node then pn.left == succ && pn.right == old(pn.right)
        else pn.right == succ && pn.left == old(pn.left))
      ensures succ.parent == pn && succ.left == nl && succ.right == nr && nl.parent == succ && nr.parent == succ
      ensures forall n: RBTNode | old(allocated(n)) :: n.color == old(n.color)
    {
      succ.right := node.right;
      succ.right.parent := succ;
      Transplant(node, succ);
      succ.left := node.left;
      succ.left.parent := succ;
    }

    /** `delete`: nothing when `_findNode` reaches no node for `value`, otherwise
        `_deleteNode` on the node reached. */
    method Delete(value: int)
      requires Valid() && RbDelete(Model(), value).Some?
      modifies this, Infos(shape)`left, Infos(shape)`right, Infos(shape)`parent, Infos(shape)`color
      ensures Valid() && Infos(shape) <= old(Infos(shape))
      ensures Model() == RbDelete(old(Model()), value).value
    {
      ghost var m0, q := Model(), SearchPath(shape, value);
      var node := FindNode(root, shape, value);
      PaintedSearchPath(shape, value);
      assert q == SearchPath(m0, value) && (node == null <==> Sub(m0, q).Nil?);
      if node != null {
        DeleteNode(node, q);
      }
    }

    /** `_deleteNode` on the node at `q`: it is unlinked (`_transplant` by its only child,
        or its successor takes its place and colour), and, when the colour removed was
        black and a child took the vacated place, `_fixDeletion` runs from that child. */
    method DeleteNode(node: RBTNode, ghost q: Path)
      requires Valid() && ValidPath(shape, q) && Sub(shape, q).Node? && Sub(shape, q).info == node
      requires ValidPath(Model(), q) && Sub(Model(), q).Node? && RbDeleteAt(Model(), q).Some?
      modifies this, Infos(shape)`left, Infos(shape)`right, Infos(shape)`parent, Infos(shape)`color
      ensures Valid() && Infos(shape) <= old(Infos(shape))
      ensures Model() == RbDeleteAt(old(Model()), q).value
    {
      var child: RBTNode?;
      var originalColor: Color;
      ghost var xp: Path;
      if node.left == null || node.right == null {
        child, originalColor, xp := SpliceOut(node, q);
      } else {
        child, originalColor, xp := ReplaceBySuccessor(node, q);
      }
      Located(shape, xp, child);
      if originalColor == Black && child != null {
        FixDeletion(child, xp);
      }
    }

    /** The one-child (or leaf) case of `_deleteNode`: the node at `q` is transplanted
        by its only child, or by null; its own colour is the one removed. */
    method SpliceOut(node: RBTNode, ghost q: Path) returns (child: RBTNode?, originalColor: Color, ghost xp: Path)
      requires Valid() && ValidPath(shape, q) && Sub(shape, q).Node? && Sub(shape, q).info == node
      requires node.left == null || node.right == null
      modifies this, Infos(shape)`left, Infos(shape)`right, Infos(shape)`parent
      ensures Valid() && Infos(shape) <= old(Infos(shape))
      ensures ValidPath(old(Model()), q) && Sub(old(Model()), q).Node?
      ensures (Model(), xp, originalColor) == Unlink(old(Model()), q)
      ensures ValidPath(shape, xp) && RootOf(Sub(shape, xp)) == child
    {
      ghost var s := shape;
      Kin(s, q, Left);
      ghost var n := Sub(s, q);
      originalColor := node.color;
      xp := q;
      assert q + [] == q;
      if node.left == null {
        child := node.right;
        Splice(node, q, Right);
        ReplaceAtSub(s, q, n.right);
      } else {
        child := node.left;
        Splice(node, q, Left);
        ReplaceAtSub(s, q, n.left);
      }
    }

    /** The two-child case of `_deleteNode` on the node at `q`: `_findMin` of the right
        subtree gives the successor, whose colour is the one removed and whose right
        child takes the successor's place; the successor then takes the node's place
        and colour. */
    method ReplaceBySuccessor(node: RBTNode, ghost q: Path) returns (child: RBTNode?, originalColor: Color, ghost xp: Path)
      requires Valid() && ValidPath(shape, q) && Sub(shape, q).Node? && Sub(shape, q).info == node
      requires node.left != null && node.right != null
      modifies this, Infos(shape)`left, Infos(shape)`right, Infos(shape)`parent, Infos(shape)`color
      ensures Valid() && Infos(shape) <= old(Infos(shape))
      ensures ValidPath(old(Model()), q) && Sub(old(Model()), q).Node?
      ensures (Model(), xp, originalColor) == Unlink(old(Model()), q)
      ensures ValidPath(shape, xp) && RootOf(Sub(shape, xp)) == child
    {
      ghost var s := shape;
      ghost var n := Sub(s, q);
      Allocated(s);
      WiredSub(s, q);
      PaintedSub(s, q);
      var successor := FindMin(node.right, n.right);
      SuccessorAt(s, q);
      originalColor := successor.color;
      child := successor.right;
      if successor.parent == node {
        xp := PromoteSuccessor(node, successor, q);
      } else {
        xp := SupplantSuccessor(node, successor, q);
      }
    }

    /** The successor is the right child of the node at `q`: it moves up into the node's
        place, with the node's colour; its right child stays below it. */
    method PromoteSuccessor(node: RBTNode, successor: RBTNode, ghost q: Path) returns (ghost xp: Path)
      requires Valid() && ValidPath(shape, q) && Sub(shape, q).Node? && Sub(shape, q).info == node
      requires var n := Sub(shape, q); n.left.Node? && n.right.Node? && n.right.info == successor && n.right.left.Nil?
      modifies this, Infos(shape)`left, Infos(shape)`right, Infos(shape)`parent, Infos(shape)`color
      ensures Valid() && Infos(shape) <= old(Infos(shape))
      ensures ValidPath(old(Model()), q) && Sub(old(Model()), q).Node?
      ensures (Model(), xp, old(successor.color)) == Unlink(old(Model()), q)
      ensures ValidPath(shape, xp) && RootOf(Sub(shape, xp)) == old(successor.right)
    {
      ghost var s, m0 := shape, Model();
      ghost var n := Sub(s, q);
      Allocated(s);
      Kin(s, q, Right);
      Kin(s, q + [Right], Right);
      ghost var pn := Sub(m0, q);
      ghost var x := Node(n.left, n.right.value, successor, n.right.right);
      ghost var y := Node(pn.left, pn.right.value, pn.right.info, pn.right.right);
      UnlinkByPromote(m0, q);
      RecolorReplaced(m0, q, y, pn.info);
      ReplaceChild(s, q, x, Right, Nil);
      ReplaceAtSub(s, q, x);
      xp := q + [Right];
      ghost var u := Unlink(m0, q);
      assert u == (Recolor(ReplaceAt(m0, q, y), q, node.color), xp, successor.color);
      assert RootOf(Sub(ReplaceAt(s, q, x), xp)) == successor.right;
      PromoteTakeOver(node, successor, q);
    }

    /** The end of the right-child-successor case: `successor` takes the place of the node
        at `q`, then its colour. */
    method PromoteTakeOver(node: RBTNode, successor: RBTNode, ghost q: Path)
      requires Valid() && ValidPath(shape, q) && Sub(shape, q).Node? && Sub(shape, q).info == node
      requires var n := Sub(shape, q); n.left.Node? && n.right.Node? && n.right.info == successor && n.right.left.Nil?
      modifies this, Infos(shape)`left, Infos(shape)`right, Infos(shape)`parent, Infos(shape)`color
      ensures Valid() && Infos(shape) == old(Infos(shape)) - {node}
      ensures var n := Sub(old(shape), q); shape == ReplaceAt(old(shape), q, Node(n.left, n.right.value, successor, n.right.right))
      ensures ValidPath(old(Model()), q)
      ensures var n := Sub(old(Model()), q);
                n.Node? && n.right.Node? &&
                Model() == ReplaceAt(old(Model()), q, Node(n.left, n.right.value, old(node.color), n.right.right))
    {
      ghost var m0 := Model();
      Promote(node, successor, q);
      ghost var pn := Sub(m0, q);
      ghost var n := Sub(old(shape), q);
      ReplaceAtSub(old(shape), q, Node(n.left, n.right.value, successor, n.right.right));
      SubIn(shape, q);
      RecolorReplaced(m0, q, Node(pn.left, pn.right.value, pn.right.info, pn.right.right), node.color);
      SetColor(successor, node.color, q);
    }

    /** The successor lies deeper, at `g`: its right child is transplanted into its place,
        and it takes over both subtrees, the place and the colour of the node at `q`. */
    method SupplantSuccessor(node: RBTNode, successor: RBTNode, ghost q: Path) returns (ghost xp: Path)
      requires Valid() && ValidPath(shape, q) && Sub(shape, q).Node? && Sub(shape, q).info == node
      requires var n := Sub(shape, q);
                 n.left.Node? && n.right.Node? && n.right.left.Node? &&
                 ValidPath(shape, q + [Right] + LeftSpine(n.right)) &&
                 Sub(shape, q + [Right] + LeftSpine(n.right)).Node? &&
                 Sub(shape, q + [Right] + LeftSpine(n.right)).info == successor
      modifies this, Infos(shape)`left, Infos(shape)`right, Infos(shape)`parent, Infos(shape)`color
      ensures Valid() && Infos(shape) <= old(Infos(shape))
      ensures ValidPath(old(Model()), q) && Sub(old(Model()), q).Node?
      ensures (Model(), xp, old(successor.color)) == Unlink(old(Model()), q)
      ensures ValidPath(shape, xp) && RootOf(Sub(shape, xp)) == old(successor.right)
    {
      ghost var spine := LeftSpine(Sub(shape, q).right);
      xp := q + [Right] + spine;
      ghost var u := DetachSuccessor(node, successor, q);
      ghost var s1, infos := shape, Infos(shape);
      TakeOver(node, successor, q);
      assert Infos(shape) == infos - {node} + {successor};
      KeepsRight(s1, q, successor.value, successor, spine);
    }

    /** The first half of `SupplantSuccessor`: the successor at `g` is transplanted by
        its right child. What is left of `Unlink` is the second half. */
    method DetachSuccessor(node: RBTNode, successor: RBTNode, ghost q: Path) returns (ghost u: (RbTree, Path, Color))
      requires Valid() && ValidPath(shape, q) && Sub(shape, q).Node? && Sub(shape, q).info == node
      requires var n := Sub(shape, q);
                 n.left.Node? && n.right.Node? && n.right.left.Node? &&
                 ValidPath(shape, q + [Right] + LeftSpine(n.right)) &&
                 Sub(shape, q + [Right] + LeftSpine(n.right)).Node? &&
                 Sub(shape, q + [Right] + LeftSpine(n.right)).info == successor
      modifies this, Infos(shape)`left, Infos(shape)`right, Infos(shape)`parent
      ensures Valid() && Infos(shape) == old(Infos(shape)) - {successor} && successor in old(Infos(shape))
      ensures ValidPath(old(Model()), q) && Sub(old(Model()), q).Node? && u == Unlink(old(Model()), q)
      ensures var n := Sub(old(shape), q); var spine := LeftSpine(n.right); var g := q + [Right] + spine;
                ValidPath(shape, q) && Sub(shape, q).Node? && Sub(shape, q).info == node &&
                Sub(shape, q).left.Node? && Sub(shape, q).right.Node? &&
                ValidPath(Sub(shape, q).right, spine) && RootOf(Sub(Sub(shape, q).right, spine)) == old(successor.right)
      ensures ValidPath(Model(), q) && Sub(Model(), q).Node?
      ensures u == (ReplaceAt(Model(), q, Node(Sub(Model(), q).left, successor.value, node.color, Sub(Model(), q).right)),
                    q + [Right] + LeftSpine(Sub(old(shape), q).right), old(successor.color))
    {
      ghost var s, m0 := shape, Model();
      ghost var n := Sub(s, q);
      ghost var spine := LeftSpine(n.right);
      ghost var g := q + [Right] + spine;
      Allocated(s);
      SupplantPlan(s, q);
      SubIn(s, g);
      PaintedSub(s, g);
      PaintedSub(s, q);
      assert Sub(m0, q).info == node.color && Sub(m0, g).info == successor.color && Sub(s, g).value == successor.value;
      u := Unlink(m0, q);
      Splice(successor, g, Right);
      ReplaceAtSub(s, g, Sub(s, g).right);
      assert Model() == ReplaceAt(m0, g, Child(Sub(m0, g), Right));
    }

    /** The end of the deeper-successor case: `successor`, already spliced out, takes over
        both subtrees, the place and the colour of the node at `q`. */
    method TakeOver(node: RBTNode, successor: RBTNode, ghost q: Path)
      requires Valid() && ValidPath(shape, q) && Sub(shape, q).Node? && Sub(shape, q).info == node
      requires Sub(shape, q).left.Node? && Sub(shape, q).right.Node? && successor !in Infos(shape)
      modifies this, Infos(shape)`left, Infos(shape)`right, Infos(shape)`parent, successor`left, successor`right, successor`parent, successor`color
      ensures Valid() && Infos(shape) == old(Infos(shape)) - {node} + {successor}
      ensures var n := Sub(old(shape), q);
                shape == ReplaceAt(old(shape), q, Node(n.left, successor.value, successor, n.right))
      ensures ValidPath(old(Model()), q)
      ensures var n := Sub(old(Model()), q);
                n.Node? && Model() == ReplaceAt(old(Model()), q, Node(n.left, successor.value, old(node.color), n.right))
    {
      ghost var m0 := Model();
      Supplant(node, successor, q);
      ghost var pn := Sub(m0, q);
      ReplaceAtSub(old(shape), q, Node(Sub(old(shape), q).left, successor.value, successor, Sub(old(shape), q).right));
      RecolorReplaced(m0, q, Node(pn.left, successor.value, successor.color, pn.right), node.color);
      SetColor(successor, node.color, q);
    }

    /** `_fixDeletion` from `node` at path `p`: while the node is neither the root nor
        red, one pass of the loop; then the node turns black. */
    method FixDeletion(node: RBTNode, ghost p: Path)
      requires Valid() && ValidPath(shape, p) && Sub(shape, p).Node? && Sub(shape, p).info == node
      requires ValidPath(Model(), p) && Sub(Model(), p).Node? && FixDel(Model(), p).Some?
      modifies this, Infos(shape)`left, Infos(shape)`right, Infos(shape)`parent, Infos(shape)`color
      ensures Valid() && Infos(shape) == old(Infos(shape))
      ensures Model() == FixDel(old(Model()), p).value
    {
      var n := node;
      ghost var q := p;
      while n != root && n.color == Black
        invariant Valid() && Infos(shape) == old(Infos(shape))
        invariant ValidPath(shape, q) && Sub(shape, q).Node? && Sub(shape, q).info == n
        invariant ValidPath(Model(), q) && Sub(Model(), q).Node? && FixDel(Model(), q) == FixDel(old(Model()), p)
        decreases |q|, if n.color == Red then 0 else 1
      {
        n, q := DeletionPass(n, q);
      }
      FixDelStops(shape, q);
      SubIn(shape, q);
      SetColor(n, Black, q);
    }

    /** One pass of the `_fixDeletion` loop from the black node `n` at `q`, which is not
        the root: by the side of its parent it hangs on. The loop goes on higher up, or
        at the same depth from a red node, where it stops. */
    method DeletionPass(n: RBTNode, ghost q: Path) returns (up: RBTNode, ghost q': Path)
      requires Valid() && ValidPath(shape, q) && Sub(shape, q).Node? && Sub(shape, q).info == n
      requires ValidPath(Model(), q) && Sub(Model(), q).Node? && FixDel(Model(), q).Some?
      requires n != root && n.color == Black
      modifies this, Infos(shape)`left, Infos(shape)`right, Infos(shape)`parent, Infos(shape)`color
      ensures Valid() && Infos(shape) == old(Infos(shape))
      ensures ValidPath(shape, q') && Sub(shape, q').Node? && Sub(shape, q').info == up
      ensures ValidPath(Model(), q') && Sub(Model(), q').Node? && FixDel(Model(), q') == FixDel(old(Model()), q)
      ensures |q'| < |q| || (|q'| == |q| && up.color == Red)
    {
      DelHinges(shape, q);
      if n.parent != null {
        if n == n.parent.left {
          up, q' := DeletionSide(n, q, Left);
        } else {
          up, q' := DeletionSide(n, q, Right);
        }
      } else {
        assert false;
      }
    }

    /** A pass for the node `n` on side `d` of its parent: a red sibling is dealt with
        first (`RedSibling`), then the black sibling (`SiblingPass`). */
    method DeletionSide(n: RBTNode, ghost q: Path, d: Dir) returns (up: RBTNode, ghost q': Path)
      requires Valid() && ValidPath(shape, q) && Sub(shape, q).Node? && Sub(shape, q).info == n
      requires ValidPath(Model(), q) && Sub(Model(), q).Node? && FixDel(Model(), q).Some?
      requires q != [] && q[|q| - 1] == d && n.color == Black
      requires ValidPath(shape, q[..|q| - 1]) && Sub(shape, q[..|q| - 1]).Node? && Sub(shape, q[..|q| - 1]).info == n.parent
      requires Child(Sub(shape, q[..|q| - 1]), d) == Sub(shape, q)
      modifies this, Infos(shape)`left, Infos(shape)`right, Infos(shape)`parent, Infos(shape)`color
      ensures Valid() && Infos(shape) == old(Infos(shape))
      ensures ValidPath(shape, q') && Sub(shape, q').Node? && Sub(shape, q').info == up
      ensures ValidPath(Model(), q') && Sub(Model(), q').Node? && FixDel(Model(), q') == FixDel(old(Model()), q)
      ensures |q'| < |q| || (|q'| == |q| && up.color == Red)
    {
      ghost var pp := q[..|q| - 1];
      Kin(shape, pp, d);
      PaintedSub(shape, q);
      var sibling := if d == Left then n.parent.right else n.parent.left;
      ghost var r := pp;
      if sibling != null && sibling.color == Red {
        sibling, r := RedSibling(n, sibling, q, d);
        PaintedSub(shape, r);
      } else {
        BlackSiblingPass(Model(), q);
      }
      up, q' := SiblingPass(n, sibling, r, d);
    }

    /** The red-sibling step of a pass: the sibling turns black, the parent red, and the
        parent rotates down towards the node; the sibling is read again. The parent now
        sits at `r`, one level lower, with the node still below it on side `d`. */
    method RedSibling(n: RBTNode, sibling: RBTNode, ghost q: Path, d: Dir) returns (s': RBTNode?, ghost r: Path)
      requires Valid() && ValidPath(shape, q) && Sub(shape, q).Node? && Sub(shape, q).info == n
      requires ValidPath(Model(), q) && Sub(Model(), q).Node? && !IsRed(Sub(Model(), q))
      requires q != [] && q[|q| - 1] == d
      requires ValidPath(shape, q[..|q| - 1]) && Sub(shape, q[..|q| - 1]).Node? && Sub(shape, q[..|q| - 1]).info == n.parent
      requires Child(Sub(shape, q[..|q| - 1]), d) == Sub(shape, q)
      requires sibling == RootOf(Child(Sub(shape, q[..|q| - 1]), Other(d))) && sibling.color == Red
      modifies this, Infos(shape)`left, Infos(shape)`right, Infos(shape)`parent, Infos(shape)`color
      ensures Valid() && Infos(shape) == old(Infos(shape))
      ensures r == q[..|q| - 1] + [d]
      ensures ValidPath(shape, r) && Sub(shape, r).Node? && Sub(shape, r).info == n.parent && n.parent.color == Red
      ensures ValidPath(shape, r + [d]) && Sub(shape, r + [d]).Node? && Sub(shape, r + [d]).info == n
      ensures s' == RootOf(Child(Sub(shape, r), Other(d)))
      ensures ValidPath(Model(), r) && Sub(Model(), r).Node? && SiblingFix(Model(), r, d) == FixDel(old(Model()), q)
    {
      var parent := n.parent;
      r := q[..|q| - 1] + [d];
      assert q == q[..|q| - 1] + [d];
      SiblingCase(shape, q[..|q| - 1], d);
      RedSiblingTurn(n, parent, sibling, q[..|q| - 1], d);
      Kin(shape, r, d);
      s' := if d == Left then parent.right else parent.left;
    }

    /** The writes of `RedSibling`: recolouring, then the rotation of the parent at the
        end of `q` into `r`. */
    method RedSiblingTurn(n: RBTNode, parent: RBTNode, sibling: RBTNode, ghost pp: Path, d: Dir)
      requires Valid() && ValidPath(shape, pp) && Sub(shape, pp).Node? && Sub(shape, pp).info == parent
      requires ValidPath(shape, pp + [d]) && Sub(shape, pp + [d]).Node? && Sub(shape, pp + [d]).info == n
      requires Child(Sub(shape, pp), d) == Sub(shape, pp + [d]) && Child(Sub(shape, pp), Other(d)).Node?
      requires ValidPath(shape, pp + [Other(d)]) && Sub(shape, pp + [Other(d)]).Node? && Sub(shape, pp + [Other(d)]).info == sibling
      requires ValidPath(Model(), pp + [d]) && Sub(Model(), pp + [d]).Node? && !IsRed(Sub(Model(), pp + [d]))
      requires ValidPath(Model(), pp) && Sub(Model(), pp).Node? && IsRed(Child(Sub(Model(), pp), Other(d)))
      requires ValidPath(Model(), pp + [Other(d)]) && Sub(Model(), pp + [Other(d)]).Node?
      modifies this, Infos(shape)`left, Infos(shape)`right, Infos(shape)`parent, Infos(shape)`color
      ensures Valid() && Infos(shape) == old(Infos(shape))
      ensures ValidPath(shape, pp + [d]) && Sub(shape, pp + [d]).Node? && Sub(shape, pp + [d]).info == parent && parent.color == Red
      ensures ValidPath(shape, pp + [d] + [d]) && Sub(shape, pp + [d] + [d]).Node? && Sub(shape, pp + [d] + [d]).info == n
      ensures ValidPath(Model(), pp + [d]) && Sub(Model(), pp + [d]).Node? && SiblingFix(Model(), pp + [d], d) == FixDel(old(Model()), pp + [d])
    {
      RedSiblingColors(sibling, parent, pp, d);
      TurnDown(parent, pp, d);
    }

    /** `Rotate` where the node at `p` has a child on side `Other(d)`, with where the
        node and its child on side `d` end up. */
    method TurnDown(node: RBTNode, ghost p: Path, d: Dir)
      requires Valid() && ValidPath(shape, p) && Sub(shape, p).Node? && Sub(shape, p).info == node
      requires Child(Sub(shape, p), Other(d)).Node?
      modifies this, Infos(shape)`left, Infos(shape)`right, Infos(shape)`parent
      ensures Valid() && Infos(shape) == old(Infos(shape))
      ensures ValidPath(shape, p + [d]) && Sub(shape, p + [d]).Node? && Sub(shape, p + [d]).info == node
      ensures ValidPath(shape, p + [d] + [d]) && Sub(shape, p + [d] + [d]) == old(Child(Sub(shape, p), d))
      ensures ValidPath(old(Model()), p) && Model() == ReplaceAt(old(Model()), p, RotateDown(Sub(old(Model()), p), d))
    {
      ghost var s := shape;
      Rotate(node, p, d);
      RotateDownMoves(s, p, d);
    }

    /** The colour writes of `RedSibling`: the sibling at `g + [Other(d)]` turns black and
        the parent at `g` red, after which the rotation of the parent towards `d` leaves
        the rest of the pass to `SiblingFix` one level lower. */
    method RedSiblingColors(sibling: RBTNode, parent: RBTNode, ghost g: Path, ghost d: Dir)
      requires Valid() && ValidPath(shape, g) && Sub(shape, g).Node? && Sub(shape, g).info == parent
      requires ValidPath(shape, g + [Other(d)]) && Sub(shape, g + [Other(d)]).Node? && Sub(shape, g + [Other(d)]).info == sibling
      requires ValidPath(Model(), g + [d]) && Sub(Model(), g + [d]).Node? && !IsRed(Sub(Model(), g + [d]))
      requires ValidPath(Model(), g) && Sub(Model(), g).Node? && IsRed(Child(Sub(Model(), g), Other(d)))
      requires ValidPath(Model(), g + [Other(d)]) && Sub(Model(), g + [Other(d)]).Node?
      modifies Infos(shape)`color
      ensures Valid() && parent.color == Red
      ensures ValidPath(Model(), g) && Sub(Model(), g).Node?
      ensures var m3 := ReplaceAt(Model(), g, RotateDown(Sub(Model(), g), d));
        ValidPath(m3, g + [d]) && Sub(m3, g + [d]).Node? && SiblingFix(m3, g + [d], d) == FixDel(old(Model()), g + [d])
    {
      ghost var m0 := Model();
      ghost var o := Other(d);
      ghost var q := g + [d];
      assert q[..|q| - 1] == g && q[|q| - 1] == d;
      SubIn(shape, g);
      SubIn(shape, g + [o]);
      SetColor(sibling, Black, g + [o]);
      ghost var m1 := Model();
      SetColor(parent, Red, g);
      ghost var m2 := Model();
      RedSiblingPass(m0, q, m1, m2, ReplaceAt(m2, g, RotateDown(Sub(m2, g), d)));
    }

    /** The rest of a pass, the parent `n.parent` at `r` and the sibling black: both of the
        sibling's children black, it turns red and the loop climbs to the parent;
        otherwise the sibling is turned (`TurnSibling`), the parent rotated
        (`FinalPass`), and the loop ends at the root. */
    method SiblingPass(n: RBTNode, sibling: RBTNode?, ghost r: Path, d: Dir) returns (up: RBTNode, ghost q': Path)
      requires Valid() && ValidPath(shape, r) && Sub(shape, r).Node? && Sub(shape, r).info == n.parent
      requires ValidPath(shape, r + [d]) && Sub(shape, r + [d]).Node? && Sub(shape, r + [d]).info == n
      requires sibling == RootOf(Child(Sub(shape, r), Other(d)))
      requires ValidPath(Model(), r) && Sub(Model(), r).Node? && SiblingFix(Model(), r, d).Some?
      modifies this, Infos(shape)`left, Infos(shape)`right, Infos(shape)`parent, Infos(shape)`color
      ensures Valid() && Infos(shape) == old(Infos(shape))
      ensures ValidPath(shape, q') && Sub(shape, q').Node? && Sub(shape, q').info == up
      ensures ValidPath(Model(), q') && Sub(Model(), q').Node? && FixDel(Model(), q') == SiblingFix(old(Model()), r, d)
      ensures q' == [] || (q' == r && shape == old(shape) && up.color == old(up.color))
    {
      SiblingCase(shape, r, d);
      if sibling != null && (sibling.left == null || sibling.left.color == Black) && (sibling.right == null || sibling.right.color == Black) {
        ClimbSibling(sibling, r, d);
        up, q' := n.parent, r;
      } else if sibling != null {
        Finish(n, sibling, r, d);
        up, q' := root, [];
      } else {
        assert false;
      }
    }

    /** The climbing pass: the sibling at `r + [Other(d)]`, both of whose children are
        black, turns red. */
    method ClimbSibling(sibling: RBTNode, ghost r: Path, d: Dir)
      requires Valid() && ValidPath(shape, r) && Sub(shape, r).Node? && sibling != Sub(shape, r).info
      requires ValidPath(shape, r + [Other(d)]) && Sub(shape, r + [Other(d)]).Node? && Sub(shape, r + [Other(d)]).info == sibling
      requires ValidPath(Model(), r) && Sub(Model(), r).Node?
      requires var s1 := Child(Sub(Model(), r), Other(d)); s1.Node? && !IsRed(s1.left) && !IsRed(s1.right)
      modifies sibling`color
      ensures Valid()
      ensures ValidPath(Model(), r) && Sub(Model(), r).Node? && FixDel(Model(), r) == SiblingFix(old(Model()), r, d)
    {
      ghost var m0 := Model();
      SetColor(sibling, Red, r + [Other(d)]);
      ClimbPass(m0, r, d, Model());
    }

    /** A finishing pass, the sibling having a red child: the inner turn
        (`TurnSibling`), then the end of the pass (`FinalPass`). */
    method Finish(n: RBTNode, sibling: RBTNode, ghost r: Path, d: Dir)
      requires Valid() && ValidPath(shape, r) && Sub(shape, r).Node? && Sub(shape, r).info == n.parent
      requires ValidPath(shape, r + [d]) && Sub(shape, r + [d]).Node? && Sub(shape, r + [d]).info == n
      requires ValidPath(shape, r + [Other(d)]) && Sub(shape, r + [Other(d)]).Node? && Sub(shape, r + [Other(d)]).info == sibling
      requires ValidPath(Model(), r) && Sub(Model(), r).Node?
      requires var s1 := Child(Sub(Model(), r), Other(d)); s1.Node? && (IsRed(s1.left) || IsRed(s1.right))
      modifies this, Infos(shape)`left, Infos(shape)`right, Infos(shape)`parent, Infos(shape)`color
      ensures Valid() && Infos(shape) == old(Infos(shape)) && root != null
      ensures Model().Node? && FixDel(Model(), []) == SiblingFix(old(Model()), r, d)
    {
      ghost var m0 := Model();
      ghost var o := Other(d);
      Kin(shape, r, d);
      var s2 := TurnSibling(n, sibling, r, d);
      ghost var m := Model();
      FinishPass(m0, r, d, m);
      PaintedSub(shape, r + [o]);
      if s2 != null {
        FinalPass(n, s2, r, d);
      } else {
        assert false;
      }
    }

    /** The inner turn of a finishing pass: when the sibling's far child is black, its near
        child (if any) turns black, the sibling red, and the sibling rotates away from the
        node; the sibling is read again. */
    method TurnSibling(n: RBTNode, sibling: RBTNode, ghost r: Path, d: Dir) returns (s2: RBTNode?)
      requires Valid() && ValidPath(shape, r) && Sub(shape, r).Node? && Sub(shape, r).info == n.parent
      requires ValidPath(shape, r + [d]) && Sub(shape, r + [d]).Node? && Sub(shape, r + [d]).info == n
      requires ValidPath(shape, r + [Other(d)]) && Sub(shape, r + [Other(d)]).Node? && Sub(shape, r + [Other(d)]).info == sibling
      modifies this, Infos(shape)`left, Infos(shape)`right, Infos(shape)`parent, Infos(shape)`color
      ensures Valid() && Infos(shape) == old(Infos(shape))
      ensures ValidPath(shape, r) && Sub(shape, r).Node? && Sub(shape, r).info == n.parent
      ensures ValidPath(shape, r + [d]) && Sub(shape, r + [d]).Node? && Sub(shape, r + [d]).info == n
      ensures ValidPath(shape, r + [Other(d)]) && s2 == RootOf(Sub(shape, r + [Other(d)]))
      ensures ValidPath(old(Model()), r + [Other(d)]) && Sub(old(Model()), r + [Other(d)]).Node?
      ensures Model() == ReplaceAt(old(Model()), r + [Other(d)], NearTurn(Sub(old(Model()), r + [Other(d)]), d))
    {
      ghost var o := Other(d);
      Kin(shape, r + [o], d);
      PaintedSub(shape, r + [o] + [o]);
      var far := if d == Left then sibling.right else sibling.left;
      if far == null || far.color == Black {
        s2 := TurnNear(n, sibling, r, d);
      } else {
        ReplaceAtSelf(Model(), r + [o]);
        s2 := sibling;
      }
    }

    /** The inner turn itself, the sibling's far child being black. */
    method TurnNear(n: RBTNode, sibling: RBTNode, ghost r: Path, d: Dir) returns (s2: RBTNode?)
      requires Valid() && ValidPath(shape, r) && Sub(shape, r).Node? && Sub(shape, r).info == n.parent
      requires ValidPath(shape, r + [d]) && Sub(shape, r + [d]).Node? && Sub(shape, r + [d]).info == n
      requires ValidPath(shape, r + [Other(d)]) && Sub(shape, r + [Other(d)]).Node? && Sub(shape, r + [Other(d)]).info == sibling
      requires ValidPath(Model(), r + [Other(d)]) && Sub(Model(), r + [Other(d)]).Node?
      requires !IsRed(Child(Sub(Model(), r + [Other(d)]), Other(d)))
      modifies this, Infos(shape)`left, Infos(shape)`right, Infos(shape)`parent, Infos(shape)`color
      ensures Valid() && Infos(shape) == old(Infos(shape))
      ensures ValidPath(shape, r) && Sub(shape, r).Node? && Sub(shape, r).info == n.parent
      ensures ValidPath(shape, r + [d]) && Sub(shape, r + [d]).Node? && Sub(shape, r + [d]).info == n
      ensures ValidPath(shape, r + [Other(d)]) && s2 == RootOf(Sub(shape, r + [Other(d)]))
      ensures Model() == ReplaceAt(old(Model()), r + [Other(d)], NearTurn(Sub(old(Model()), r + [Other(d)]), d))
    {
      ghost var m0 := Model();
      ghost var o := Other(d);
      ghost var m1, m2 := NearColors(sibling, r + [o], d);
      ghost var s0 := shape;
      Rotate(sibling, r + [o], Other(d));
      NearTurnSteps(m0, r + [o], d, m1, m2, Model());
      ReplaceChildAt(s0, r, o, RotateDown(Sub(s0, r + [o]), Other(d)));
      Kin(shape, r, d);
      s2 := if d == Left then n.parent.right else n.parent.left;
    }

    /** The colour writes of the inner turn, in the order of the source: the near child
        of the sibling at `g` (if any) turns black, then the sibling red. */
    method NearColors(sibling: RBTNode, ghost g: Path, d: Dir) returns (ghost m1: RbTree, ghost m2: RbTree)
      requires Valid() && ValidPath(shape, g) && Sub(shape, g).Node? && Sub(shape, g).info == sibling
      modifies Infos(shape)`color
      ensures Valid()
      ensures ValidPath(old(Model()), g + [d])
      ensures m1 == if Sub(old(Model()), g + [d]).Node? then Recolor(old(Model()), g + [d], Black) else old(Model())
      ensures ValidPath(m1, g) && Sub(m1, g).Node? && Model() == m2 && m2 == Recolor(m1, g, Red)
    {
      SubIn(shape, g);
      BlackenChild(sibling, g, d);
      m1 := Model();
      SetColor(sibling, Red, g);
      m2 := Model();
    }

    /** The end of a finishing pass, the turned sibling `s2` at `r + [Other(d)]`: it takes
        the parent's colour, the parent and the sibling's far child (if any) turn black,
        and the parent rotates down towards the node. */
    method FinalPass(n: RBTNode, s2: RBTNode, ghost r: Path, d: Dir)
      requires Valid() && ValidPath(shape, r) && Sub(shape, r).Node? && Sub(shape, r).info == n.parent
      requires ValidPath(shape, r + [Other(d)]) && Sub(shape, r + [Other(d)]).Node? && Sub(shape, r + [Other(d)]).info == s2
      modifies this, Infos(shape)`left, Infos(shape)`right, Infos(shape)`parent, Infos(shape)`color
      ensures Valid() && Infos(shape) == old(Infos(shape)) && root != null
      ensures ValidPath(old(Model()), r) && Sub(old(Model()), r).Node? && Child(Sub(old(Model()), r), Other(d)).Node?
      ensures Model() == ReplaceAt(old(Model()), r, FinalTurn(Sub(old(Model()), r), Child(Sub(old(Model()), r), Other(d)), d))
    {
      ghost var m0 := Model();
      Kin(shape, r, d);
      ghost var m1, m2, m3 := FinalColors(n.parent, s2, r, d);
      Rotate(n.parent, r, d);
      FinalTurnSteps(m0, r, d, m1, m2, m3, Model());
    }

    /** The colour writes of `FinalPass`, returning the colour trees between them. */
    method FinalColors(parent: RBTNode, s2: RBTNode, ghost r: Path, d: Dir) returns (ghost m1: RbTree, ghost m2: RbTree, ghost m3: RbTree)
      requires Valid() && ValidPath(shape, r) && Sub(shape, r).Node? && Sub(shape, r).info == parent
      requires ValidPath(shape, r + [Other(d)]) && Sub(shape, r + [Other(d)]).Node? && Sub(shape, r + [Other(d)]).info == s2
      modifies Infos(shape)`color
      ensures Valid()
      ensures ValidPath(old(Model()), r) && Sub(old(Model()), r).Node? && Child(Sub(old(Model()), r), Other(d)).Node?
      ensures ValidPath(old(Model()), r + [Other(d)]) && Sub(old(Model()), r + [Other(d)]).Node?
      ensures m1 == Recolor(old(Model()), r + [Other(d)], Sub(old(Model()), r).info)
      ensures ValidPath(m1, r) && Sub(m1, r).Node? && m2 == Recolor(m1, r, Black)
      ensures ValidPath(m2, r + [Other(d)] + [Other(d)])
      ensures m3 == if Sub(m2, r + [Other(d)] + [Other(d)]).Node? then Recolor(m2, r + [Other(d)] + [Other(d)], Black) else m2
      ensures Model() == m3
    {
      ghost var o := Other(d);
      Kin(shape, r, d);
      Kin(shape, r + [o], d);
      SetColor(s2, parent.color, r + [o]);
      m1 := Model();
      SetColor(parent, Black, r);
      m2 := Model();
      BlackenChild(s2, r + [o], Other(d));
      m3 := Model();
    }

    /** The child on side `e` of the node `x` at `g`, if there is one, turns black. */
    method BlackenChild(x: RBTNode, ghost g: Path, e: Dir)
      requires Valid() && ValidPath(shape, g) && Sub(shape, g).Node? && Sub(shape, g).info == x
      modifies Infos(shape)`color
      ensures Valid()
      ensures ValidPath(old(Model()), g + [e])
      ensures Model() == if Sub(old(Model()), g + [e]).Node? then Recolor(old(Model()), g + [e], Black) else old(Model())
    {
      Kin(shape, g, e);
      PaintedSub(shape, g + [e]);
      var child := if e == Left then x.left else x.right;
      if child != null {
        SetColor(child, Black, g + [e]);
      }
    }
  }
}
