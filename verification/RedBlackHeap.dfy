/** What a heap of tree nodes stands for.  A `Heap` is a snapshot of the fields of the nodes of
    one tree; it says which `Shape` hangs below a pointer and which `Zipper` leads to a slot. */
module RedBlackHeap {
  import opened RedBlackShape
  import opened RedBlackInsert

  datatype Cell = Cell(key: Entry, left: Node?, right: Node?, red: bool)

  datatype Heap = Heap(root: Node?, cells: map<Node, Cell>)

  /** A pointer to a pointer to a node (node *): where a child is stored. */
  datatype Slot = NoSlot | RootSlot | LeftOf(node: Node) | RightOf(node: Node)

  function SlotOf(z: Zipper): Slot {
    if z.Top? then RootSlot else if z.onLeft then LeftOf(z.node) else RightOf(z.node)
  }

  ghost predicate Legal(m: Heap, s: Slot) {
    match s
    case NoSlot => false
    case RootSlot => true
    case LeftOf(n) => n in m.cells
    case RightOf(n) => n in m.cells
  }

  /** The pointer stored in a slot. */
  ghost function Look(m: Heap, s: Slot): Node?
    requires Legal(m, s)
  {
    match s
    case RootSlot => m.root
    case LeftOf(n) => m.cells[n].left
    case RightOf(n) => m.cells[n].right
  }

  /** Writing a pointer through a slot. */
  ghost function Put(m: Heap, s: Slot, x: Node?): Heap
    requires Legal(m, s)
  {
    match s
    case RootSlot => m.(root := x)
    case LeftOf(n) => m.(cells := m.cells[n := m.cells[n].(left := x)])
    case RightOf(n) => m.(cells := m.cells[n := m.cells[n].(right := x)])
  }

  /** Below pointer `x` hangs shape `t`. */
  ghost predicate Below(m: Heap, x: Node?, t: Shape) {
    match t
    case Leaf => x == null
    case Branch(n, l, k, red, r) =>
      && x == n && n in m.cells
      && m.cells[n].key == k && m.cells[n].red == red
      && Below(m, m.cells[n].left, l) && Below(m, m.cells[n].right, r)
  }

  /** The heap around place `z` is as `z` says, and the slot of the place holds `x`. */
  ghost predicate Around(m: Heap, z: Zipper, x: Node?) {
    match z
    case Top => m.root == x
    case Down(onLeft, n, k, red, sib, above) =>
      && n in m.cells && m.cells[n].key == k && m.cells[n].red == red
      && (if onLeft then m.cells[n].left == x && Below(m, m.cells[n].right, sib)
          else m.cells[n].right == x && Below(m, m.cells[n].left, sib))
      && Around(m, above, n)
  }

  /** The heap holds one tree, which has `t` at place `z`. */
  ghost predicate At(m: Heap, z: Zipper, t: Shape) {
    Around(m, z, Pointer(t)) && Below(m, Pointer(t), t) && Apart(z, t)
  }

  function Pointer(t: Shape): Node? {
    if t.Leaf? then null else t.node
  }

  /** Two snapshots agree on a set of nodes. */
  ghost predicate Agree(m: Heap, m': Heap, s: set<Node>) {
    forall n :: n in s && n in m.cells ==> n in m'.cells && m'.cells[n] == m.cells[n]
  }

  lemma {:induction false} BelowFrame(m: Heap, m': Heap, x: Node?, t: Shape)
    requires Below(m, x, t) && Agree(m, m', Nodes(t))
    ensures Below(m', x, t)
  {
    if t.Branch? {
      BelowFrame(m, m', m.cells[t.node].left, t.left);
      BelowFrame(m, m', m.cells[t.node].right, t.right);
    }
  }

  lemma {:induction false} AroundFrame(m: Heap, m': Heap, z: Zipper, x: Node?)
    requires Around(m, z, x) && Agree(m, m', PathNodes(z)) && m'.root == m.root
    ensures Around(m', z, x)
  {
    if z.Down? {
      BelowFrame(m, m', if z.onLeft then m.cells[z.node].right else m.cells[z.node].left, z.sibling);
      AroundFrame(m, m', z.above, z.node);
    }
  }

  /** Writing through the slot of a place replaces what the place holds. */
  lemma PutAround(m: Heap, z: Zipper, x: Node?, y: Node?)
    requires Around(m, z, x) && DistinctPath(z)
    ensures Legal(m, SlotOf(z)) && Look(m, SlotOf(z)) == x
    ensures Around(Put(m, SlotOf(z), y), z, y)
  {
    if z.Down? {
      var m' := Put(m, SlotOf(z), y);
      BelowFrame(m, m', if z.onLeft then m.cells[z.node].right else m.cells[z.node].left, z.sibling);
      AroundFrame(m, m', z.above, z.node);
    }
  }

  /** The fields of the node at the root of a shape. */
  lemma BelowFields(m: Heap, t: Shape)
    requires Below(m, Pointer(t), t) && t.Branch?
    ensures t.node in m.cells && m.cells[t.node] == Cell(t.key, Pointer(t.left), Pointer(t.right), t.red)
    ensures Below(m, Pointer(t.left), t.left) && Below(m, Pointer(t.right), t.right)
  {
  }

  /** The fields of the node above a place. */
  lemma AroundFields(m: Heap, z: Zipper, x: Node?)
    requires Around(m, z, x) && z.Down?
    ensures z.node in m.cells && m.cells[z.node] == Cell(z.key, if z.onLeft then x else Pointer(z.sibling),
                                                         if z.onLeft then Pointer(z.sibling) else x, z.red)
    ensures Below(m, Pointer(z.sibling), z.sibling) && Around(m, z.above, z.node)
  {
  }

  lemma SlotHolds(m: Heap, z: Zipper, t: Shape)
    requires At(m, z, t)
    ensures Legal(m, SlotOf(z)) && Look(m, SlotOf(z)) == Pointer(t)
  {
  }

  lemma AtJoin(m: Heap, z: Zipper, t: Shape)
    requires z.Down?
    ensures At(m, z, t) <==> At(m, z.above, Join(z, t))
  {
    ApartJoin(z, t);
    if At(m, z.above, Join(z, t)) {
      assert Below(m, if z.onLeft then m.cells[z.node].left else m.cells[z.node].right, t);
    }
  }

  lemma {:induction false} AtPlug(m: Heap, z: Zipper, t: Shape)
    requires At(m, z, t)
    ensures At(m, Top, Plug(z, t))
  {
    if z.Down? {
      AtJoin(m, z, t);
      AtPlug(m, z.above, Join(z, t));
    }
  }

  /** A subtree of which at most the colour of the root differs. */
  lemma RootPainted(m: Heap, m': Heap, x: Node?, t: Shape, red: bool)
    requires Below(m, x, t) && Distinct(t) && t.Branch?
    requires x in m'.cells && m'.cells[x] == m.cells[x].(red := red)
    requires Agree(m, m', Nodes(t) - {x})
    ensures Below(m', x, t.(red := red))
  {
    BelowFrame(m, m', m.cells[x].left, t.left);
    BelowFrame(m, m', m.cells[x].right, t.right);
  }

  // ---------- the writes of maybe_split_for_insert ----------

  /** A recoloured node and its children. */
  ghost predicate RaisedTo(m: Heap, m': Heap, x: Node)
    requires x in m.cells
  {
    var c := m.cells[x];
    && m'.root == m.root && m'.cells.Keys == m.cells.Keys
    && m'.cells[x] == c.(red := true)
    && (c.left != null && c.left in m.cells ==> m'.cells[c.left] == m.cells[c.left].(red := false))
    && (c.right != null && c.right in m.cells ==> m'.cells[c.right] == m.cells[c.right].(red := false))
    && forall n :: n in m.cells && n != x && n != c.left && n != c.right ==> m'.cells[n] == m.cells[n]
  }

  lemma RaisedHeap(m: Heap, m': Heap, z: Zipper, t: Shape)
    requires t.Branch? && At(m, z, t) && RaisedTo(m, m', t.node)
    ensures At(m', z, Raised(t))
  {
    var c := m.cells[t.node];
    assert Below(m, c.left, t.left) && Below(m, c.right, t.right);
    RaisedApart(z, t);
    AroundFrame(m, m', z, t.node);
    if t.left.Branch? {
      RootPainted(m, m', c.left, t.left, false);
    }
    if t.right.Branch? {
      RootPainted(m, m', c.right, t.right, false);
    }
  }

  /** What a double rotation writes. */
  ghost predicate TwiceRotated(m: Heap, m': Heap, x: Node, p: Node, gp: Node, onLeft: bool)
    requires x in m.cells && p in m.cells && gp in m.cells
  {
    var c := m.cells[x];
    && OthersKept(m, m', {x, p, gp})
    && m'.cells[x] == Cell(c.key, if onLeft then gp else p, if onLeft then p else gp, false)
    && m'.cells[p] == (if onLeft then m.cells[p].(left := c.right, red := true)
                       else m.cells[p].(right := c.left, red := true))
    && m'.cells[gp] == (if onLeft then m.cells[gp].(right := c.left, red := true)
                        else m.cells[gp].(left := c.right, red := true))
  }

  /** What a single rotation writes. */
  ghost predicate OnceRotated(m: Heap, m': Heap, p: Node, gp: Node, onLeft: bool)
    requires p in m.cells && gp in m.cells
  {
    && OthersKept(m, m', {p, gp})
    && m'.cells[p] == (if onLeft then m.cells[p].(right := gp, red := false)
                       else m.cells[p].(left := gp, red := false))
    && m'.cells[gp] == (if onLeft then m.cells[gp].(left := m.cells[p].right, red := true)
                        else m.cells[gp].(right := m.cells[p].left, red := true))
  }

  ghost predicate OthersKept(m: Heap, m': Heap, s: set<Node>) {
    && m'.root == m.root && m'.cells.Keys == m.cells.Keys
    && forall n :: n in m.cells && n !in s ==> m'.cells[n] == m.cells[n]
  }

  /** Apart from the nodes `s` that a rotation rewrites, `m'` differs from `m` only in that
      `y` now hangs in slot `d`. */
  ghost predicate OnlyMovers(m: Heap, m': Heap, s: set<Node>, d: Slot, y: Node)
    requires Legal(m, d)
  {
    var q := Put(m, d, y);
    && m'.root == q.root && m'.cells.Keys == m.cells.Keys
    && forall n :: n in m.cells && n !in s ==> m'.cells[n] == q.cells[n]
  }

  /** The path above a rotation is untouched but for the slot it hangs from. */
  lemma PathKept(m: Heap, m': Heap, u: Zipper, x: Node, s: set<Node>, y: Node)
    requires Around(m, u, x) && DistinctPath(u) && s !! PathNodes(u)
    requires Legal(m, SlotOf(u)) && OnlyMovers(m, m', s, SlotOf(u), y)
    ensures Around(m', u, y)
  {
    PutAround(m, u, x, y);
    AroundFrame(Put(m, SlotOf(u), y), m', u, y);
  }

  /** A subtree that holds none of the rewritten nodes is untouched. */
  lemma SubtreeKept(m: Heap, m': Heap, u: Zipper, s: set<Node>, y: Node, x: Node?, c: Shape)
    requires Legal(m, SlotOf(u)) && OnlyMovers(m, m', s, SlotOf(u), y)
    requires Below(m, x, c) && s !! Nodes(c) && PathNodes(u) !! Nodes(c)
    ensures Below(m', x, c)
  {
    assert u.Down? ==> u.node in PathNodes(u);
    BelowFrame(m, m', x, c);
  }

  /** The three nodes of a rotation lie outside the subtrees that it moves. */
  lemma Movers(z: Zipper, t: Shape)
    requires t.Branch? && z.Down? && z.above.Down? && Apart(z, t)
    ensures var s := {t.node, z.node, z.above.node};
      && t.node != z.node && t.node != z.above.node && z.node != z.above.node
      && s !! Nodes(t.left) && s !! Nodes(t.right) && s !! Nodes(z.sibling)
      && s !! Nodes(z.above.sibling) && s !! PathNodes(z.above.above)
      && (z.above.above.Down? ==> z.above.above.node !in s)
      && DistinctPath(z.above) && DistinctPath(z.above.above)
      && PathNodes(z.above.above) !! Nodes(t.left) && PathNodes(z.above.above) !! Nodes(t.right)
      && PathNodes(z.above.above) !! Nodes(z.sibling) && PathNodes(z.above.above) !! Nodes(z.above.sibling)
  {
    var g, u := z.above, z.above.above;
    assert Nodes(t) == {t.node} + Nodes(t.left) + Nodes(t.right);
    assert PathNodes(g) == {g.node} + Nodes(g.sibling) + PathNodes(u);
    assert PathNodes(z) == {z.node} + Nodes(z.sibling) + PathNodes(g);
    assert DistinctPath(g);
    assert u.Down? ==> u.node in PathNodes(u);
  }

  /** The other child of a place's parent. */
  ghost function Other(m: Heap, z: Zipper): Node?
    requires z.Down? && z.node in m.cells
  {
    if z.onLeft then m.cells[z.node].right else m.cells[z.node].left
  }

  /** The parts that a rotation moves are themselves untouched. */
  lemma PartsKept(m: Heap, m': Heap, z: Zipper, t: Shape, y: Node)
    requires t.Branch? && z.Down? && z.above.Down? && At(m, z, t)
    requires Legal(m, SlotOf(z.above.above))
    requires OnlyMovers(m, m', {t.node, z.node, z.above.node}, SlotOf(z.above.above), y)
    ensures Around(m', z.above.above, y)
    ensures Below(m', m.cells[t.node].left, t.left) && Below(m', m.cells[t.node].right, t.right)
    ensures z.node in m.cells && z.above.node in m.cells
    ensures Below(m', Other(m, z), z.sibling) && Below(m', Other(m, z.above), z.above.sibling)
  {
    var g, u, s := z.above, z.above.above, {t.node, z.node, z.above.node};
    Movers(z, t);
    assert Around(m, g, z.node) && Around(m, u, g.node);
    PathKept(m, m', u, g.node, s, y);
    SubtreeKept(m, m', u, s, y, m.cells[t.node].left, t.left);
    SubtreeKept(m, m', u, s, y, m.cells[t.node].right, t.right);
    SubtreeKept(m, m', u, s, y, Other(m, z), z.sibling);
    SubtreeKept(m, m', u, s, y, Other(m, g), g.sibling);
  }

  lemma DoubleBelow(m: Heap, m': Heap, z: Zipper, t: Shape)
    requires t.Branch? && TwoRedEdges(z) && Splittable(z) && z.onLeft != z.above.onLeft
    requires t.node in m.cells && z.node in m.cells && z.above.node in m.cells
    requires t.node in m'.cells && z.node in m'.cells && z.above.node in m'.cells
    requires var c := m.cells[t.node];
      && m'.cells[t.node] == Cell(t.key, if z.onLeft then z.above.node else z.node,
                                  if z.onLeft then z.node else z.above.node, false)
      && m'.cells[z.node] == (if z.onLeft then Cell(z.key, c.right, Other(m, z), true)
                              else Cell(z.key, Other(m, z), c.left, true))
      && m'.cells[z.above.node] == (if z.onLeft then Cell(z.above.key, Other(m, z.above), c.left, true)
                                    else Cell(z.above.key, c.right, Other(m, z.above), true))
      && Below(m', c.left, Blacken(t.left)) && Below(m', c.right, Blacken(t.right))
    requires Below(m', Other(m, z), z.sibling) && Below(m', Other(m, z.above), z.above.sibling)
    ensures Below(m', t.node, SplitTree(z, t))
  {
    var s := SplitTree(z, t);
    if z.onLeft {
      assert Below(m', z.above.node, s.left);
      assert Below(m', z.node, s.right);
    } else {
      assert Below(m', z.node, s.left);
      assert Below(m', z.above.node, s.right);
    }
  }

  lemma DoubleRotation(m: Heap, m': Heap, z: Zipper, t: Shape)
    requires t.Branch? && TwoRedEdges(z) && Splittable(z) && z.onLeft != z.above.onLeft
    requires At(m, z, Raised(t)) && Apart(SplitPlace(z), SplitTree(z, t))
    requires z.node in m.cells && z.above.node in m.cells && Legal(m, SlotOf(z.above.above))
    requires TwiceRotated(m, m', t.node, z.node, z.above.node, z.onLeft)
    ensures Legal(m', SlotOf(z.above.above))
    ensures At(Put(m', SlotOf(z.above.above), t.node), SplitPlace(z), SplitTree(z, t))
  {
    var m2 := Put(m', SlotOf(z.above.above), t.node);
    Movers(z, Raised(t));
    PartsKept(m, m2, z, Raised(t), t.node);
    assert Around(m, z.above, z.node);
    DoubleBelow(m, m2, z, t);
  }

  lemma SingleRotation(m: Heap, m': Heap, z: Zipper, t: Shape)
    requires t.Branch? && TwoRedEdges(z) && Splittable(z) && z.onLeft == z.above.onLeft
    requires At(m, z, t) && Apart(SplitPlace(z), t)
    requires z.node in m.cells && z.above.node in m.cells && Legal(m, SlotOf(z.above.above))
    requires OnceRotated(Put(m, SlotOf(z.above.above), z.node), m', z.node, z.above.node, z.onLeft)
    ensures At(m', SplitPlace(z), t)
  {
    Movers(z, t);
    PartsKept(m, m', z, t, z.node);
    assert Around(m, z.above, z.node);
    assert Below(m', t.node, t);
    assert Below(m', z.above.node, SplitPlace(z).sibling);
  }
}
