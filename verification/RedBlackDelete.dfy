/** What the repair loop of a deletion (tdelete2) does to the described tree.
    The loop has two mirrored halves; `near` is the side of the missing black node. */
module RedBlackDelete {
  import opened RedBlackShape
  import opened RedBlackInsert
  import opened RedBlackHeap
  import opened Sequences

  function Make(onLeft: bool, n: Node, near: Shape, k: Entry, red: bool, far: Shape): Shape {
    if onLeft then Branch(n, near, k, red, far) else Branch(n, far, k, red, near)
  }

  function Near(t: Shape, onLeft: bool): Shape
    requires t.Branch?
  {
    if onLeft then t.left else t.right
  }

  function Far(t: Shape, onLeft: bool): Shape
    requires t.Branch?
  {
    if onLeft then t.right else t.left
  }

  /** Below place `z` hangs `d`, and every path through it misses one black node.  A red root of
      `d` stands for the missing one: painting it black completes the tree. */
  ghost predicate Short(z: Zipper, d: Shape, h: nat) {
    && Fits(z, h + 1, false)
    && (if IsRed(d) then Balanced(Blacken(d), h + 1) else Balanced(d, h))
  }

  // ---------- the four cases ----------

  /** For a red Q: P sinks below it and takes the red over. */
  function SiblingRed(z: Zipper): Zipper
    requires z.Down? && z.sibling.Branch?
  {
    var q := z.sibling;
    Down(z.onLeft, z.node, z.key, true, Near(q, z.onLeft),
         Down(z.onLeft, q.node, q.key, false, Far(q, z.onLeft), z.above))
  }

  /** For a black Q with black children: Q turns red, and the shortage is that of P. */
  function SiblingPainted(z: Zipper, d: Shape): Shape
    requires z.Down? && z.sibling.Branch?
  {
    Join(z.(sibling := z.sibling.(red := true)), d)
  }

  /** Only the grandchild on the side of the shortage is red: it rises above P and Q. */
  function NephewNear(z: Zipper, d: Shape): Shape
    requires z.Down? && z.sibling.Branch? && Near(z.sibling, z.onLeft).Branch?
  {
    var q := z.sibling;
    var q2 := Near(q, z.onLeft);
    Make(z.onLeft, q2.node, Make(z.onLeft, z.node, d, z.key, false, Near(q2, z.onLeft)), q2.key, z.red,
         Make(z.onLeft, q.node, Far(q2, z.onLeft), q.key, false, Far(q, z.onLeft)))
  }

  /** The grandchild on the other side is red: Q rises above P and inherits its colour. */
  function NephewFar(z: Zipper, d: Shape): Shape
    requires z.Down? && z.sibling.Branch?
  {
    var q := z.sibling;
    Make(z.onLeft, q.node, Make(z.onLeft, z.node, d, z.key, false, Near(q, z.onLeft)), q.key, z.red,
         Blacken(Far(q, z.onLeft)))
  }

  function HeightAt(z: Zipper, h: nat): nat
    requires z.Down?
  {
    if z.red then h + 1 else h + 2
  }

  /** The brother of a short subtree is never null. */
  lemma SiblingExists(z: Zipper, d: Shape, h: nat)
    requires Short(z, d, h) && z.Down?
    ensures z.sibling.Branch?
    ensures IsRed(z.sibling) ==> !z.red
  {
  }

  lemma SiblingRedShort(z: Zipper, d: Shape, h: nat)
    requires Short(z, d, h) && z.Down? && IsRed(z.sibling)
    ensures Short(SiblingRed(z), d, h)
    ensures SiblingRed(z).sibling.Branch? && !IsRed(SiblingRed(z).sibling)
  {
    assert Fits(z.above, h + 2, false);
    assert Balanced(Near(z.sibling, z.onLeft), h + 1);
  }

  lemma SiblingPaintedShort(z: Zipper, d: Shape, h: nat)
    requires Short(z, d, h) && z.Down? && !IsRed(d) && z.sibling.Branch? && !z.sibling.red
    requires !IsRed(z.sibling.left) && !IsRed(z.sibling.right)
    ensures Short(z.above, SiblingPainted(z, d), if z.red then h else h + 1)
  {
    assert Fits(z.above, if z.red then h + 1 else h + 2, z.red);
    assert Balanced(z.sibling.(red := true), h);
  }

  lemma NephewNearBalanced(z: Zipper, d: Shape, h: nat)
    requires Short(z, d, h) && z.Down? && !IsRed(d) && z.sibling.Branch? && !z.sibling.red
    requires IsRed(Near(z.sibling, z.onLeft)) && !IsRed(Far(z.sibling, z.onLeft))
    ensures Balanced(NephewNear(z, d), HeightAt(z, h)) && Fits(z.above, HeightAt(z, h), IsRed(NephewNear(z, d)))
  {
    assert Balanced(Near(z.sibling, z.onLeft), h) && Balanced(Far(z.sibling, z.onLeft), h);
  }

  lemma NephewFarBalanced(z: Zipper, d: Shape, h: nat)
    requires Short(z, d, h) && z.Down? && !IsRed(d) && z.sibling.Branch? && !z.sibling.red
    requires IsRed(Far(z.sibling, z.onLeft))
    ensures Balanced(NephewFar(z, d), HeightAt(z, h)) && Fits(z.above, HeightAt(z, h), IsRed(NephewFar(z, d)))
  {
    assert Balanced(Near(z.sibling, z.onLeft), h) && Balanced(Far(z.sibling, z.onLeft), h);
  }

  lemma MakeKeys(onLeft: bool, n: Node, near: Shape, k: Entry, red: bool, far: Shape)
    ensures Keys(Make(onLeft, n, near, k, red, far))
         == if onLeft then Keys(near) + [k] + Keys(far) else Keys(far) + [k] + Keys(near)
  {
  }

  /** Rotating an inner key out does not change the order of the keys. */
  lemma Rotate(a: seq<Entry>, j: Entry, b: seq<Entry>, k: Entry, c: seq<Entry>)
    ensures a + [j] + (b + [k] + c) == (a + [j] + b) + [k] + c
  {
  }

  lemma SiblingRedKeys(z: Zipper, d: Shape)
    requires z.Down? && z.sibling.Branch?
    ensures Keys(Join(SiblingRed(z).above, Join(SiblingRed(z), d))) == Keys(Join(z, d))
  {
    var q := z.sibling;
    if z.onLeft {
      Rotate(Keys(d), z.key, Keys(q.left), q.key, Keys(q.right));
    } else {
      Rotate(Keys(q.left), q.key, Keys(q.right), z.key, Keys(d));
    }
  }

  lemma NephewFarKeys(z: Zipper, d: Shape)
    requires z.Down? && z.sibling.Branch?
    ensures Keys(NephewFar(z, d)) == Keys(Join(z, d))
  {
    var q := z.sibling;
    var p := Make(z.onLeft, z.node, d, z.key, false, Near(q, z.onLeft));
    MakeKeys(z.onLeft, z.node, d, z.key, false, Near(q, z.onLeft));
    assert Keys(Blacken(Far(q, z.onLeft))) == Keys(Far(q, z.onLeft));
    MakeKeys(z.onLeft, q.node, p, q.key, z.red, Blacken(Far(q, z.onLeft)));
    if z.onLeft {
      Rotate(Keys(d), z.key, Keys(q.left), q.key, Keys(q.right));
    } else {
      Rotate(Keys(q.left), q.key, Keys(q.right), z.key, Keys(d));
    }
  }

  lemma NephewNearKeys(z: Zipper, d: Shape)
    requires z.Down? && z.sibling.Branch? && Near(z.sibling, z.onLeft).Branch?
    ensures Keys(NephewNear(z, d)) == Keys(Join(z, d))
  {
    var q := z.sibling;
    var q2 := Near(q, z.onLeft);
    var c, e := Keys(q2.left), Keys(q2.right);
    var p := Make(z.onLeft, z.node, d, z.key, false, Near(q2, z.onLeft));
    var o := Make(z.onLeft, q.node, Far(q2, z.onLeft), q.key, false, Far(q, z.onLeft));
    MakeKeys(z.onLeft, z.node, d, z.key, false, Near(q2, z.onLeft));
    MakeKeys(z.onLeft, q.node, Far(q2, z.onLeft), q.key, false, Far(q, z.onLeft));
    MakeKeys(z.onLeft, q2.node, p, q2.key, z.red, o);
    if z.onLeft {
      Rotate(c, q2.key, e, q.key, Keys(q.right));
      Rotate(Keys(d), z.key, c, q2.key, e + [q.key] + Keys(q.right));
      assert Keys(q) == c + [q2.key] + (e + [q.key] + Keys(q.right));
    } else {
      Rotate(Keys(q.left), q.key, c, q2.key, e);
      Rotate(Keys(q.left) + [q.key] + c, q2.key, e, z.key, Keys(d));
      assert Keys(q) == (Keys(q.left) + [q.key] + c) + [q2.key] + e;
    }
  }

  // ---------- the successor ----------

  /** The place of the leftmost node of `t`, and the subtree there. */
  function FirstPlace(z: Zipper, t: Shape): Zipper
    requires t.Branch?
    decreases t
  {
    if t.left.Leaf? then z else FirstPlace(Down(true, t.node, t.key, t.red, t.right, z), t.left)
  }

  function First(t: Shape): (u: Shape)
    requires t.Branch?
    ensures u.Branch? && u.left.Leaf?
  {
    if t.left.Leaf? then t else First(t.left)
  }

  lemma {:induction false} FirstKeys(z: Zipper, t: Shape)
    requires t.Branch?
    ensures Before(FirstPlace(z, t)) == Before(z)
    ensures Keys(First(t)) + After(FirstPlace(z, t)) == Keys(t) + After(z)
    ensures Plug(FirstPlace(z, t), First(t)) == Plug(z, t)
    decreases t
  {
    if t.left.Branch? {
      FirstKeys(Down(true, t.node, t.key, t.red, t.right, z), t.left);
      assert Keys(t.left) + ([t.key] + Keys(t.right) + After(z)) == Keys(t) + After(z);
    }
  }

  lemma {:induction false} FirstAt(m: Heap, z: Zipper, t: Shape)
    requires t.Branch? && At(m, z, t)
    ensures At(m, FirstPlace(z, t), First(t))
    ensures PathNodes(FirstPlace(z, t)) + Nodes(First(t)) == PathNodes(z) + Nodes(t)
    decreases t
  {
    if t.left.Branch? {
      var z' := Down(true, t.node, t.key, t.red, t.right, z);
      AtJoin(m, z', t.left);
      ApartJoin(z', t.left);
      FirstAt(m, z', t.left);
    }
  }

  lemma {:induction false} FirstFits(z: Zipper, t: Shape, h: nat) returns (k: nat)
    requires t.Branch? && Balanced(t, h) && Fits(z, h, IsRed(t))
    ensures Balanced(First(t), k) && Fits(FirstPlace(z, t), k, IsRed(First(t)))
    decreases t
  {
    k := h;
    if t.left.Branch? {
      k := FirstFits(Down(true, t.node, t.key, t.red, t.right, z), t.left, if t.red then h else h - 1);
    }
  }

  /** The key of node `z.node` only matters to that frame of a longer path. */
  lemma {:induction false} FirstRekeyed(z: Zipper, t: Shape, k: Entry)
    requires t.Branch? && z.Down? && z.node !in Nodes(t)
    ensures Rekeyed(FirstPlace(z, t), z.node, k) == FirstPlace(z.(key := k), t)
    ensures OnPath(FirstPlace(z, t), z.node)
    decreases t
  {
    if t.left.Branch? {
      FirstRekeyedBelow(Down(true, t.node, t.key, t.red, t.right, z), t.left, z.node, k);
    }
  }

  lemma {:induction false} FirstRekeyedBelow(z: Zipper, t: Shape, n: Node, k: Entry)
    requires t.Branch? && n !in Nodes(t) && OnPath(z, n)
    ensures Rekeyed(FirstPlace(z, t), n, k) == FirstPlace(Rekeyed(z, n, k), t)
    ensures OnPath(FirstPlace(z, t), n)
    decreases t
  {
    if t.left.Branch? {
      FirstRekeyedBelow(Down(true, t.node, t.key, t.red, t.right, z), t.left, n, k);
    }
  }

  ghost predicate OnPath(z: Zipper, n: Node) {
    z.Down? && (z.node == n || OnPath(z.above, n))
  }

  /** The path `z` with another key in node `n`. */
  function Rekeyed(z: Zipper, n: Node, k: Entry): Zipper {
    if z.Top? then Top
    else if z.node == n then z.(key := k)
    else z.(above := Rekeyed(z.above, n, k))
  }

  lemma {:induction false} RekeyedFits(z: Zipper, n: Node, k: Entry, h: nat, red: bool)
    requires Fits(z, h, red)
    ensures Fits(Rekeyed(z, n, k), h, red)
  {
    if z.Down? && z.node != n {
      RekeyedFits(z.above, n, k, if z.red then h else h + 1, z.red);
    }
  }

  lemma {:induction false} RekeyedPath(z: Zipper, n: Node, k: Entry)
    ensures PathNodes(Rekeyed(z, n, k)) == PathNodes(z)
    ensures DistinctPath(Rekeyed(z, n, k)) == DistinctPath(z)
    ensures SlotOf(Rekeyed(z, n, k)) == SlotOf(z)
    ensures StackOf(Rekeyed(z, n, k)) == StackOf(z)
    ensures Depth(Rekeyed(z, n, k)) == Depth(z)
  {
    if z.Down? && z.node != n {
      RekeyedPath(z.above, n, k);
    }
  }

  /** The slots of all nodes above place `z`, from the root down (nodestack). */
  function StackOf(z: Zipper): seq<Slot> {
    if z.Top? then [] else StackOf(z.above) + [SlotOf(z.above)]
  }

  lemma {:induction false} StackDepth(z: Zipper)
    ensures |StackOf(z)| == Depth(z)
  {
    if z.Down? {
      StackDepth(z.above);
    }
  }

  // ---------- unchaining a node ----------

  /** The only child of a node with at most one. */
  function OnlyChild(t: Shape): Shape
    requires t.Branch?
  {
    if t.left.Leaf? then t.right else t.left
  }

  /** `u` was cut out at place `z`, and node `n` got key `k`. */
  ghost predicate CutOut(m: Heap, m': Heap, z: Zipper, u: Shape, n: Node, k: Entry)
    requires u.Branch? && Legal(m, SlotOf(z))
  {
    var q := Put(m, SlotOf(z), Pointer(OnlyChild(u)));
    && m'.root == q.root && m'.cells.Keys == m.cells.Keys - {u.node}
    && forall x :: x in m'.cells ==> m'.cells[x] == (if x == n then q.cells[x].(key := k) else q.cells[x])
  }

  lemma {:induction false} AroundRekeyed(m: Heap, m': Heap, z: Zipper, x: Node?, n: Node, k: Entry)
    requires Around(m, z, x) && DistinctPath(z) && (OnPath(z, n) || n !in PathNodes(z))
    requires m'.root == m.root
    requires Agree(m, m', PathNodes(z) - {n})
    requires n in PathNodes(z) && n in m.cells ==> n in m'.cells && m'.cells[n] == m.cells[n].(key := k)
    ensures Around(m', Rekeyed(z, n, k), x)
  {
    if z.Down? {
      AroundFields(m, z, x);
      OnPathNodes(z.above, n);
      BelowFrame(m, m', Pointer(z.sibling), z.sibling);
      if z.node == n {
        AroundFrame(m, m', z.above, z.node);
      } else {
        AroundRekeyed(m, m', z.above, z.node, n, k);
      }
    }
  }

  lemma {:induction false} OnPathNodes(z: Zipper, n: Node)
    ensures OnPath(z, n) ==> n in PathNodes(z)
  {
    if z.Down? {
      OnPathNodes(z.above, n);
    }
  }

  lemma CutOutAt(m: Heap, m': Heap, z: Zipper, u: Shape, n: Node, k: Entry)
    requires At(m, z, u) && u.Branch? && (u.left.Leaf? || u.right.Leaf?)
    requires OnPath(z, n) || n == u.node
    requires Legal(m, SlotOf(z)) && CutOut(m, m', z, u, n, k)
    ensures At(m', Rekeyed(z, n, k), OnlyChild(u))
    ensures PathNodes(Rekeyed(z, n, k)) + Nodes(OnlyChild(u)) == PathNodes(z) + Nodes(u) - {u.node}
  {
    var d := OnlyChild(u);
    BelowFields(m, u);
    PutAround(m, z, u.node, Pointer(d));
    OnPathNodes(z, n);
    CutOutNodes(z, u, n, k);
    var q := Put(m, SlotOf(z), Pointer(d));
    assert z.Down? ==> z.node in PathNodes(z);
    AroundRekeyed(q, m', z, Pointer(d), n, k);
    BelowFrame(m, m', Pointer(d), d);
  }

  lemma CutOutNodes(z: Zipper, u: Shape, n: Node, k: Entry)
    requires Apart(z, u) && u.Branch? && (u.left.Leaf? || u.right.Leaf?)
    ensures Apart(Rekeyed(z, n, k), OnlyChild(u)) && Nodes(u) == {u.node} + Nodes(OnlyChild(u))
    ensures PathNodes(Rekeyed(z, n, k)) + Nodes(OnlyChild(u)) == PathNodes(z) + Nodes(u) - {u.node}
  {
    RekeyedPath(z, n, k);
    assert Nodes(u) == {u.node} + Nodes(OnlyChild(u));
  }

  /** Cutting out a red node leaves the tree balanced; cutting out a black one leaves it short. */
  lemma CutOutBalanced(z: Zipper, u: Shape, h: nat)
    requires u.Branch? && (u.left.Leaf? || u.right.Leaf?) && Balanced(u, h) && Fits(z, h, IsRed(u))
    ensures u.red ==> h == 0 && OnlyChild(u) == Leaf && Fits(z, 0, false)
    ensures !u.red ==> Short(z, OnlyChild(u), 0)
  {
  }

  /** Seen from any place, a balanced tree is a balanced subtree in a place that fits it. */
  lemma {:induction false} UnplugBalanced(z: Zipper, t: Shape) returns (h: nat)
    requires RedBlack(Plug(z, t))
    ensures Balanced(t, h) && Fits(z, h, IsRed(t))
  {
    if z.Top? {
      h :| Balanced(t, h);
    } else {
      var k := UnplugBalanced(z.above, Join(z, t));
      h := if z.red then k else k - 1;
    }
  }

  /** Keys after cutting out a node with at most one child: its key is gone. */
  lemma CutKeys(z: Zipper, t: Shape, keys: seq<Entry>)
    requires t.Branch? && (t.left.Leaf? || t.right.Leaf?)
    requires keys == Before(z) + Keys(t) + After(z)
    ensures var p := |Before(z)| + |Keys(t.left)|;
      p < |keys| && keys[p] == t.key && Before(z) + Keys(OnlyChild(t)) + After(z) == Removed(keys, p)
  {
    CutParts(Before(z), Keys(t.left), t.key, Keys(t.right), After(z), Keys(OnlyChild(t)));
  }

  lemma CutParts(a: seq<Entry>, l: seq<Entry>, k: Entry, r: seq<Entry>, c: seq<Entry>, only: seq<Entry>)
    requires (l == [] && only == r) || (r == [] && only == l)
    ensures var keys := a + (l + [k] + r) + c;
      |a| + |l| < |keys| && keys[|a| + |l|] == k && a + only + c == Removed(keys, |a| + |l|)
  {
  }

  /** Keys after the successor was cut out and its key moved up: the upper key is gone. */
  lemma SuccessorKeys(z: Zipper, t: Shape, keys: seq<Entry>)
    requires t.Branch? && t.right.Branch? && keys == Before(z) + Keys(t) + After(z)
    ensures var u := First(t.right);
      var b := Down(false, t.node, u.key, t.red, t.left, z);
      var p := |Before(z)| + |Keys(t.left)|;
      && p < |keys| && keys[p] == t.key && u.left.Leaf?
      && Before(FirstPlace(b, t.right)) + Keys(OnlyChild(u)) + After(FirstPlace(b, t.right)) == Removed(keys, p)
  {
    var u := First(t.right);
    var b := Down(false, t.node, u.key, t.red, t.left, z);
    var w := SuccessorEnds(z, t, u, b);
    SuccessorParts(Before(z), Keys(t.left), t.key, Keys(t.right), After(z), u.key, Keys(OnlyChild(u)), w);
  }

  lemma SuccessorEnds(z: Zipper, t: Shape, u: Shape, b: Zipper) returns (w: seq<Entry>)
    requires t.Branch? && t.right.Branch? && u == First(t.right)
    requires b == Down(false, t.node, u.key, t.red, t.left, z)
    ensures w == After(FirstPlace(b, t.right)) && Before(FirstPlace(b, t.right)) == Before(z) + Keys(t.left) + [u.key]
    ensures ([] + [u.key] + Keys(OnlyChild(u))) + w == Keys(t.right) + After(z)
  {
    FirstKeys(b, t.right);
    w := After(FirstPlace(b, t.right));
  }

  lemma SuccessorParts(a: seq<Entry>, l: seq<Entry>, k: Entry, r: seq<Entry>, c: seq<Entry>,
                       uk: Entry, d: seq<Entry>, w: seq<Entry>)
    requires ([] + [uk] + d) + w == r + c
    ensures var keys := a + (l + [k] + r) + c;
      && |a| + |l| < |keys| && keys[|a| + |l|] == k
      && (a + l + [uk]) + d + w == Removed(keys, |a| + |l|)
  {
    var keys := a + (l + [k] + r) + c;
    assert keys == (a + l) + [k] + (r + c);
    assert keys == (a + l) + [k] + ([uk] + d + w);
  }
}
