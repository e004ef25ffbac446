/** The field writes of the repair loop of a deletion, and the tree they leave on the heap. */
module RedBlackRepair {
  import opened RedBlackShape
  import opened RedBlackInsert
  import opened RedBlackHeap
  import opened RedBlackDelete

  /** A child pointer of a cell, by side. */
  function Child(c: Cell, left: bool): Node? {
    if left then c.left else c.right
  }

  function WithChild(c: Cell, left: bool, x: Node?): Cell {
    if left then c.(left := x) else c.(right := x)
  }

  /** P and Q lie outside the subtrees that a rotation moves. */
  lemma SiblingMovers(z: Zipper, d: Shape)
    requires Apart(z, d) && z.Down? && z.sibling.Branch?
    ensures var q, u := z.sibling, z.above;
      var s := {z.node, q.node};
      && z.node != q.node
      && s !! Nodes(d) && s !! Nodes(q.left) && s !! Nodes(q.right) && s !! PathNodes(u)
      && PathNodes(u) !! Nodes(d) && PathNodes(u) !! Nodes(q.left) && PathNodes(u) !! Nodes(q.right)
      && Nodes(q.left) !! Nodes(q.right) && Nodes(d) !! Nodes(q.left) && Nodes(d) !! Nodes(q.right)
      && Distinct(q.left) && Distinct(q.right) && Distinct(d) && DistinctPath(u)
      && (u.Down? ==> u.node !in s && u.node !in Nodes(q.left) && u.node !in Nodes(q.right))
      && (q.left.Branch? ==> q.left.node in Nodes(q.left)) && (q.right.Branch? ==> q.right.node in Nodes(q.right))
  {
    var q, u := z.sibling, z.above;
    assert Nodes(q) == {q.node} + Nodes(q.left) + Nodes(q.right);
    assert PathNodes(z) == {z.node} + Nodes(q) + PathNodes(u);
    assert Distinct(q);
    assert u.Down? ==> u.node in PathNodes(u);
  }

  lemma SiblingRedApart(z: Zipper, d: Shape)
    requires Apart(z, d) && z.Down? && z.sibling.Branch?
    ensures Apart(SiblingRed(z), d)
    ensures PathNodes(SiblingRed(z)) == PathNodes(z)
  {
    SiblingMovers(z, d);
  }

  lemma SiblingPaintedApart(z: Zipper, d: Shape)
    requires Apart(z, d) && z.Down? && z.sibling.Branch?
    ensures Apart(z.above, SiblingPainted(z, d))
    ensures PathNodes(z.above) + Nodes(SiblingPainted(z, d)) == PathNodes(z) + Nodes(d)
  {
    var z' := z.(sibling := z.sibling.(red := true));
    assert Nodes(z'.sibling) == Nodes(z.sibling) && (Distinct(z'.sibling) <==> Distinct(z.sibling));
    ApartJoin(z', d);
  }

  lemma NephewFarApart(z: Zipper, d: Shape)
    requires Apart(z, d) && z.Down? && z.sibling.Branch?
    ensures Apart(z.above, NephewFar(z, d))
    ensures PathNodes(z.above) + Nodes(NephewFar(z, d)) == PathNodes(z) + Nodes(d)
  {
    SiblingMovers(z, d);
    BlackenSame(Far(z.sibling, z.onLeft));
    var q := z.sibling;
    var p := Make(z.onLeft, z.node, d, z.key, false, Near(q, z.onLeft));
    assert Distinct(p) && Nodes(p) == {z.node} + Nodes(d) + Nodes(Near(q, z.onLeft));
    assert Nodes(q) == {q.node} + Nodes(q.left) + Nodes(q.right);
  }

  lemma NephewNearApart(z: Zipper, d: Shape)
    requires Apart(z, d) && z.Down? && z.sibling.Branch? && Near(z.sibling, z.onLeft).Branch?
    ensures Apart(z.above, NephewNear(z, d))
    ensures PathNodes(z.above) + Nodes(NephewNear(z, d)) == PathNodes(z) + Nodes(d)
  {
    SiblingMovers(z, d);
    NephewNearNodes(z, d);
    NephewNearDistinct(z, d);
  }

  lemma NephewNearNodes(z: Zipper, d: Shape)
    requires z.Down? && z.sibling.Branch? && Near(z.sibling, z.onLeft).Branch?
    ensures Nodes(NephewNear(z, d)) == {z.node} + Nodes(d) + Nodes(z.sibling)
  {
    var q := z.sibling;
    var q2 := Near(q, z.onLeft);
    assert Nodes(q2) == {q2.node} + Nodes(q2.left) + Nodes(q2.right);
    assert Nodes(q) == {q.node} + Nodes(q.left) + Nodes(q.right);
    var p := Make(z.onLeft, z.node, d, z.key, false, Near(q2, z.onLeft));
    var o := Make(z.onLeft, q.node, Far(q2, z.onLeft), q.key, false, Far(q, z.onLeft));
    assert Nodes(p) == {z.node} + Nodes(d) + Nodes(Near(q2, z.onLeft));
    assert Nodes(o) == {q.node} + Nodes(Far(q2, z.onLeft)) + Nodes(Far(q, z.onLeft));
  }

  lemma NephewNearDistinct(z: Zipper, d: Shape)
    requires Apart(z, d) && z.Down? && z.sibling.Branch? && Near(z.sibling, z.onLeft).Branch?
    ensures Distinct(NephewNear(z, d))
  {
    SiblingMovers(z, d);
    var q := z.sibling;
    var q2 := Near(q, z.onLeft);
    assert Distinct(q2) && Nodes(q2) == {q2.node} + Nodes(q2.left) + Nodes(q2.right);
    var p := Make(z.onLeft, z.node, d, z.key, false, Near(q2, z.onLeft));
    var o := Make(z.onLeft, q.node, Far(q2, z.onLeft), q.key, false, Far(q, z.onLeft));
    assert Distinct(p) && Nodes(p) == {z.node} + Nodes(d) + Nodes(Near(q2, z.onLeft));
    assert Distinct(o) && Nodes(o) == {q.node} + Nodes(Far(q2, z.onLeft)) + Nodes(Far(q, z.onLeft));
    assert Nodes(q) == {q.node} + Nodes(q.left) + Nodes(q.right);
  }

  /** The parts around P and Q are untouched by a rotation that rewrites `s`. */
  lemma RepairParts(m: Heap, m': Heap, z: Zipper, d: Shape, s: set<Node>, y: Node)
    requires At(m, z, d) && z.Down? && z.sibling.Branch?
    requires Legal(m, SlotOf(z.above)) && OnlyMovers(m, m', s, SlotOf(z.above), y)
    requires s !! PathNodes(z.above) && s !! Nodes(d)
    ensures Around(m', z.above, y) && Below(m', Pointer(d), d)
    ensures s !! Nodes(z.sibling.left) ==> Below(m', Pointer(z.sibling.left), z.sibling.left)
    ensures s !! Nodes(z.sibling.right) ==> Below(m', Pointer(z.sibling.right), z.sibling.right)
  {
    var q, u := z.sibling, z.above;
    SiblingMovers(z, d);
    AroundFields(m, z, Pointer(d));
    BelowFields(m, q);
    PathKept(m, m', u, z.node, s, y);
    SubtreeKept(m, m', u, s, y, Pointer(d), d);
    if s !! Nodes(q.left) {
      SubtreeKept(m, m', u, s, y, Pointer(q.left), q.left);
    }
    if s !! Nodes(q.right) {
      SubtreeKept(m, m', u, s, y, Pointer(q.right), q.right);
    }
  }

  /** What the rotation for a red Q writes. */
  ghost predicate LeaningRotated(m: Heap, m': Heap, p: Node, q: Node, left: bool)
    requires p in m.cells && q in m.cells
  {
    && OthersKept(m, m', {p, q})
    && m'.cells[p] == WithChild(m.cells[p], !left, Child(m.cells[q], left)).(red := true)
    && m'.cells[q] == WithChild(m.cells[q], left, p).(red := false)
  }

  /** Hanging the rotated subtree back into the tree. */
  lemma MovedPut(m: Heap, m': Heap, u: Zipper, s: set<Node>, y: Node)
    requires OthersKept(m, m', s) && Legal(m, SlotOf(u)) && (u.Down? ==> u.node !in s)
    ensures Legal(m', SlotOf(u)) && OnlyMovers(m, Put(m', SlotOf(u), y), s, SlotOf(u), y)
    ensures forall n :: n in s && n in m.cells ==> Put(m', SlotOf(u), y).cells[n] == m'.cells[n]
  {
  }

  lemma SiblingRedHeap(m: Heap, m': Heap, z: Zipper, d: Shape)
    requires At(m, z, d) && z.Down? && z.sibling.Branch?
    requires z.node in m.cells && z.sibling.node in m.cells
    requires LeaningRotated(m, m', z.node, z.sibling.node, z.onLeft)
    ensures Legal(m', SlotOf(z.above))
    ensures At(Put(m', SlotOf(z.above), z.sibling.node), SiblingRed(z), d)
  {
    var q, u := z.sibling, z.above;
    SiblingMovers(z, d);
    AroundFields(m, z, Pointer(d));
    BelowFields(m, q);
    SlotLegal(m, m', u, z.node);
    var m2 := Put(m', SlotOf(u), q.node);
    MovedPut(m, m', u, {z.node, q.node}, q.node);
    SiblingRedApart(z, d);
    RepairParts(m, m2, z, d, {z.node, q.node}, q.node);
    assert Around(m2, SiblingRed(z).above, z.node);
  }

  lemma SlotLegal(m: Heap, m': Heap, u: Zipper, x: Node?)
    requires Around(m, u, x) && m'.cells.Keys == m.cells.Keys
    ensures Legal(m, SlotOf(u)) && Legal(m', SlotOf(u)) && Look(m, SlotOf(u)) == x
  {
  }

  /** What lifting the grandchild on R's side writes. */
  ghost predicate NearRaised(m: Heap, m': Heap, p: Node, q: Node, q2: Node, left: bool)
    requires p in m.cells && q in m.cells && q2 in m.cells
  {
    && OthersKept(m, m', {p, q, q2})
    && m'.cells[p] == WithChild(m.cells[p], !left, Child(m.cells[q2], left)).(red := false)
    && m'.cells[q] == WithChild(m.cells[q], left, Child(m.cells[q2], !left))
    && m'.cells[q2] == Cell(m.cells[q2].key, if left then p else q, if left then q else p, m.cells[p].red)
  }

  lemma NephewNearParts(m: Heap, m': Heap, z: Zipper, d: Shape, y: Node)
    requires At(m, z, d) && z.Down? && z.sibling.Branch? && Near(z.sibling, z.onLeft).Branch?
    requires Legal(m, SlotOf(z.above))
    requires OnlyMovers(m, m', {z.node, z.sibling.node, Near(z.sibling, z.onLeft).node}, SlotOf(z.above), y)
    ensures var q, l := z.sibling, z.onLeft;
      var q2 := Near(q, l);
      && Around(m', z.above, y) && Below(m', Pointer(d), d)
      && Below(m', Pointer(Far(q, l)), Far(q, l))
      && Below(m', Pointer(q2.left), q2.left) && Below(m', Pointer(q2.right), q2.right)
  {
    var q, u, l := z.sibling, z.above, z.onLeft;
    var q2 := Near(q, l);
    var s := {z.node, q.node, q2.node};
    SiblingMovers(z, d);
    RepairParts(m, m', z, d, s, y);
    AroundFields(m, z, Pointer(d));
    BelowFields(m, q);
    BelowFields(m, q2);
    assert Nodes(q2) == {q2.node} + Nodes(q2.left) + Nodes(q2.right) && Distinct(q2);
    SubtreeKept(m, m', u, s, y, Pointer(q2.left), q2.left);
    SubtreeKept(m, m', u, s, y, Pointer(q2.right), q2.right);
  }

  /** What the field writes say about P, Q and its near successor, given the shape they had. */
  lemma NephewNearBelow(m: Heap, m': Heap, z: Zipper, d: Shape)
    requires z.Down? && z.sibling.Branch? && Near(z.sibling, z.onLeft).Branch?
    requires var q, l := z.sibling, z.onLeft;
      var q2 := Near(q, l);
      && z.node in m'.cells && q.node in m'.cells && q2.node in m'.cells
      && Child(m'.cells[z.node], l) == Pointer(d) && Child(m'.cells[z.node], !l) == Pointer(Near(q2, l))
      && m'.cells[z.node].key == z.key && !m'.cells[z.node].red
      && Child(m'.cells[q.node], l) == Pointer(Far(q2, l)) && Child(m'.cells[q.node], !l) == Pointer(Far(q, l))
      && m'.cells[q.node].key == q.key && !m'.cells[q.node].red
      && m'.cells[q2.node] == Cell(q2.key, if l then z.node else q.node, if l then q.node else z.node, z.red)
      && Below(m', Pointer(d), d) && Below(m', Pointer(Far(q, l)), Far(q, l))
      && Below(m', Pointer(q2.left), q2.left) && Below(m', Pointer(q2.right), q2.right)
    ensures Below(m', Near(z.sibling, z.onLeft).node, NephewNear(z, d))
  {
    var q, l := z.sibling, z.onLeft;
    var q2 := Near(q, l);
    assert Below(m', z.node, Make(l, z.node, d, z.key, false, Near(q2, l)));
    assert Below(m', q.node, Make(l, q.node, Far(q2, l), q.key, false, Far(q, l)));
  }

  lemma NephewNearHeap(m: Heap, m': Heap, z: Zipper, d: Shape)
    requires At(m, z, d) && z.Down? && z.sibling.Branch? && Near(z.sibling, z.onLeft).Branch?
    requires z.node in m.cells && z.sibling.node in m.cells && Near(z.sibling, z.onLeft).node in m.cells
    requires NearRaised(m, m', z.node, z.sibling.node, Near(z.sibling, z.onLeft).node, z.onLeft)
    requires !z.sibling.red
    ensures Legal(m', SlotOf(z.above))
    ensures At(Put(m', SlotOf(z.above), Near(z.sibling, z.onLeft).node), z.above, NephewNear(z, d))
  {
    var q, u, l := z.sibling, z.above, z.onLeft;
    var q2 := Near(q, l);
    SiblingMovers(z, d);
    AroundFields(m, z, Pointer(d));
    BelowFields(m, q);
    BelowFields(m, q2);
    SlotLegal(m, m', u, z.node);
    var m2 := Put(m', SlotOf(u), q2.node);
    MovedPut(m, m', u, {z.node, q.node, q2.node}, q2.node);
    NephewNearApart(z, d);
    NephewNearParts(m, m2, z, d, q2.node);
    assert q2.node != z.node && q2.node != q.node by {
      assert Distinct(q);
    }
    NephewNearBelow(m, m2, z, d);
  }

  /** What lifting Q over P writes. */
  ghost predicate FarRaised(m: Heap, m': Heap, p: Node, q: Node, f: Node, left: bool)
    requires p in m.cells && q in m.cells && f in m.cells
  {
    && OthersKept(m, m', {p, q, f})
    && m'.cells[p] == WithChild(m.cells[p], !left, Child(m.cells[q], left)).(red := false)
    && m'.cells[q] == WithChild(m.cells[q], left, p).(red := m.cells[p].red)
    && m'.cells[f] == m.cells[f].(red := false)
  }

  lemma NephewFarParts(m: Heap, m': Heap, z: Zipper, d: Shape, y: Node)
    requires At(m, z, d) && z.Down? && z.sibling.Branch? && Far(z.sibling, z.onLeft).Branch?
    requires Legal(m, SlotOf(z.above))
    requires OnlyMovers(m, m', {z.node, z.sibling.node, Far(z.sibling, z.onLeft).node}, SlotOf(z.above), y)
    requires var f := Far(z.sibling, z.onLeft).node;
      f in m.cells && f in m'.cells && m'.cells[f] == m.cells[f].(red := false)
    ensures var q, l := z.sibling, z.onLeft;
      && Around(m', z.above, y) && Below(m', Pointer(d), d)
      && Below(m', Pointer(Near(q, l)), Near(q, l))
      && Below(m', Far(q, l).node, Blacken(Far(q, l)))
  {
    var q, l := z.sibling, z.onLeft;
    var f := Far(q, l);
    SiblingMovers(z, d);
    RepairParts(m, m', z, d, {z.node, q.node, f.node}, y);
    AroundFields(m, z, Pointer(d));
    BelowFields(m, q);
    assert Agree(m, m', Nodes(f) - {f.node});
    RootPainted(m, m', f.node, f, false);
  }

  lemma NephewFarHeap(m: Heap, m': Heap, z: Zipper, d: Shape)
    requires At(m, z, d) && z.Down? && z.sibling.Branch? && Far(z.sibling, z.onLeft).Branch?
    requires z.node in m.cells && z.sibling.node in m.cells && Far(z.sibling, z.onLeft).node in m.cells
    requires FarRaised(m, m', z.node, z.sibling.node, Far(z.sibling, z.onLeft).node, z.onLeft)
    ensures Legal(m', SlotOf(z.above))
    ensures At(Put(m', SlotOf(z.above), z.sibling.node), z.above, NephewFar(z, d))
  {
    var q, u, l := z.sibling, z.above, z.onLeft;
    SiblingMovers(z, d);
    AroundFields(m, z, Pointer(d));
    BelowFields(m, q);
    SlotLegal(m, m', u, z.node);
    var m2 := Put(m', SlotOf(u), q.node);
    MovedPut(m, m', u, {z.node, q.node, Far(q, l).node}, q.node);
    NephewFarApart(z, d);
    NephewFarParts(m, m2, z, d, q.node);
    assert Below(m2, z.node, Make(l, z.node, d, z.key, false, Near(q, l)));
  }

  lemma SiblingPaintedHeap(m: Heap, m': Heap, z: Zipper, d: Shape)
    requires At(m, z, d) && z.Down? && z.sibling.Branch? && z.sibling.node in m.cells
    requires OthersKept(m, m', {z.sibling.node})
    requires m'.cells[z.sibling.node] == m.cells[z.sibling.node].(red := true)
    ensures At(m', z.above, SiblingPainted(z, d))
  {
    SiblingMovers(z, d);
    SiblingPaintedApart(z, d);
    assert Below(m, z.sibling.node, z.sibling);
    AroundFrame(m, m', z.above, z.node);
    BelowFrame(m, m', Pointer(d), d);
    RootPainted(m, m', z.sibling.node, z.sibling, true);
  }

  /** A short place: what the repair loop knows. */
  ghost predicate ShortAt(m: Heap, z: Zipper, d: Shape, h: nat, keys: seq<Entry>) {
    At(m, z, d) && Short(z, d, h) && Before(z) + Keys(d) + After(z) == keys
      && m.cells.Keys == PathNodes(z) + Nodes(d)
  }

  ghost predicate BalancedAt(m: Heap, z: Zipper, t: Shape, h: nat, keys: seq<Entry>) {
    At(m, z, t) && Balanced(t, h) && Fits(z, h, IsRed(t)) && Before(z) + Keys(t) + After(z) == keys
      && m.cells.Keys == PathNodes(z) + Nodes(t)
  }

  /** The pointers that a repair step reads. */
  lemma StepFields(m: Heap, z: Zipper, d: Shape, h: nat, keys: seq<Entry>)
    requires ShortAt(m, z, d, h, keys) && z.Down?
    ensures z.sibling.Branch? && (IsRed(z.sibling) ==> !z.red)
    ensures var q := z.sibling;
      && z.node in m.cells && q.node in m.cells && z.node != q.node
      && m.cells[z.node] == Cell(z.key, if z.onLeft then Pointer(d) else q.node,
                                 if z.onLeft then q.node else Pointer(d), z.red)
      && m.cells[q.node] == Cell(q.key, Pointer(q.left), Pointer(q.right), q.red)
      && (q.left.Branch? ==> q.left.node in m.cells && m.cells[q.left.node].red == q.left.red
                             && q.left.node != z.node && q.left.node != q.node)
      && (q.right.Branch? ==> q.right.node in m.cells && m.cells[q.right.node].red == q.right.red
                              && q.right.node != z.node && q.right.node != q.node)
      && Pointer(d) != q.node
    ensures Legal(m, SlotOf(z.above)) && Look(m, SlotOf(z.above)) == z.node
  {
    SiblingExists(z, d, h);
    AroundFields(m, z, Pointer(d));
    BelowFields(m, z.sibling);
    SiblingMovers(z, d);
    SlotLegal(m, m, z.above, z.node);
    assert z.sibling.node in PathNodes(z);
    assert d.Branch? ==> d.node in Nodes(d);
  }

  lemma SiblingRedDone(m: Heap, m': Heap, z: Zipper, d: Shape, h: nat, keys: seq<Entry>)
    requires ShortAt(m, z, d, h, keys) && z.Down? && IsRed(z.sibling)
    requires z.node in m.cells && z.sibling.node in m.cells
    requires LeaningRotated(m, m', z.node, z.sibling.node, z.onLeft)
    ensures Legal(m', SlotOf(z.above))
    ensures ShortAt(Put(m', SlotOf(z.above), z.sibling.node), SiblingRed(z), d, h, keys)
    ensures SiblingRed(z).sibling.Branch? && !IsRed(SiblingRed(z).sibling)
  {
    SiblingRedHeap(m, m', z, d);
    SiblingRedShort(z, d, h);
    SiblingRedApart(z, d);
    SiblingRedKeys(z, d);
    JoinKeys(z, d);
    JoinKeys(SiblingRed(z), d);
    JoinKeys(SiblingRed(z).above, Join(SiblingRed(z), d));
  }

  lemma SiblingPaintedDone(m: Heap, m': Heap, z: Zipper, d: Shape, h: nat, keys: seq<Entry>)
    requires ShortAt(m, z, d, h, keys) && z.Down? && !IsRed(d) && z.sibling.Branch? && !z.sibling.red
    requires !IsRed(z.sibling.left) && !IsRed(z.sibling.right) && z.sibling.node in m.cells
    requires OthersKept(m, m', {z.sibling.node})
    requires m'.cells[z.sibling.node] == m.cells[z.sibling.node].(red := true)
    ensures ShortAt(m', z.above, SiblingPainted(z, d), if z.red then h else h + 1, keys)
  {
    SiblingPaintedHeap(m, m', z, d);
    SiblingPaintedShort(z, d, h);
    SiblingPaintedApart(z, d);
    var z' := z.(sibling := z.sibling.(red := true));
    assert Keys(z'.sibling) == Keys(z.sibling);
    JoinKeys(z', d);
  }

  lemma NearDone(m: Heap, m': Heap, z: Zipper, d: Shape, h: nat, keys: seq<Entry>)
    requires ShortAt(m, z, d, h, keys) && z.Down? && !IsRed(d) && z.sibling.Branch? && !z.sibling.red
    requires IsRed(Near(z.sibling, z.onLeft)) && !IsRed(Far(z.sibling, z.onLeft))
    requires z.node in m.cells && z.sibling.node in m.cells && Near(z.sibling, z.onLeft).node in m.cells
    requires NearRaised(m, m', z.node, z.sibling.node, Near(z.sibling, z.onLeft).node, z.onLeft)
    ensures Legal(m', SlotOf(z.above))
    ensures BalancedAt(Put(m', SlotOf(z.above), Near(z.sibling, z.onLeft).node), z.above,
                       NephewNear(z, d), HeightAt(z, h), keys)
  {
    NephewNearHeap(m, m', z, d);
    NephewNearBalanced(z, d, h);
    NephewNearApart(z, d);
    NephewNearKeys(z, d);
    JoinKeys(z, d);
  }

  lemma FarDone(m: Heap, m': Heap, z: Zipper, d: Shape, h: nat, keys: seq<Entry>)
    requires ShortAt(m, z, d, h, keys) && z.Down? && !IsRed(d) && z.sibling.Branch? && !z.sibling.red
    requires IsRed(Far(z.sibling, z.onLeft))
    requires z.node in m.cells && z.sibling.node in m.cells && Far(z.sibling, z.onLeft).node in m.cells
    requires FarRaised(m, m', z.node, z.sibling.node, Far(z.sibling, z.onLeft).node, z.onLeft)
    ensures Legal(m', SlotOf(z.above))
    ensures BalancedAt(Put(m', SlotOf(z.above), z.sibling.node), z.above, NephewFar(z, d), HeightAt(z, h), keys)
  {
    NephewFarHeap(m, m', z, d);
    NephewFarBalanced(z, d, h);
    NephewFarApart(z, d);
    NephewFarKeys(z, d);
    JoinKeys(z, d);
  }

  /** R is red, or the place is the top: painting R black completes the tree. */
  lemma LastPaint(m: Heap, m': Heap, z: Zipper, d: Shape, h: nat, keys: seq<Entry>) returns (k: nat)
    requires ShortAt(m, z, d, h, keys) && (IsRed(d) || z.Top?)
    requires m'.root == m.root && m'.cells.Keys == m.cells.Keys
    requires if d.Leaf? then m' == m
      else OthersKept(m, m', {d.node}) && d.node in m.cells && m'.cells[d.node] == m.cells[d.node].(red := false)
    ensures BalancedAt(m', z, Blacken(d), k, keys)
  {
    k := if IsRed(d) then h + 1 else h;
    BlackenSame(d);
    assert Keys(Blacken(d)) == Keys(d);
    if d.Branch? {
      assert d.node in Nodes(d);
      RootPainted(m, m', d.node, d, false);
      AroundFrame(m, m', z, d.node);
    }
  }
}
