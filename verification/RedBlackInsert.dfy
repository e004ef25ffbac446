/** What the colour split of an insertion (maybe_split_for_insert) does to the described tree. */
module RedBlackInsert {
  import opened RedBlackShape

  predicate BothRed(t: Shape) {
    t.Branch? && IsRed(t.left) && IsRed(t.right)
  }

  /** The shape after recolouring. */
  function Raised(t: Shape): Shape
    requires t.Branch?
  {
    Branch(t.node, Blacken(t.left), t.key, true, Blacken(t.right))
  }

  predicate TwoRedEdges(z: Zipper) {
    z.Down? && z.red
  }

  /** A red parent has a parent of its own, whose other child is black: otherwise the search
      would have split the grandparent on its way down. */
  predicate Splittable(z: Zipper) {
    TwoRedEdges(z) ==> z.above.Down? && !IsRed(z.above.sibling)
  }

  /** The place of the node after the split: unchanged without a rotation, below its parent
      after a single one, and at the grandparent's place after a double one. */
  function SplitPlace(z: Zipper): Zipper
    requires Splittable(z)
  {
    if !TwoRedEdges(z) then z
    else if z.onLeft != z.above.onLeft then z.above.above
    else
      var g := z.above;
      Down(z.onLeft, z.node, z.key, false,
           if z.onLeft then Branch(g.node, z.sibling, g.key, true, g.sibling)
           else Branch(g.node, g.sibling, g.key, true, z.sibling),
           g.above)
  }

  function SplitTree(z: Zipper, t: Shape): Shape
    requires t.Branch?
    requires Splittable(z)
  {
    if !TwoRedEdges(z) || z.onLeft == z.above.onLeft then Raised(t)
    else
      var g := z.above;
      var (l, r) := (Blacken(t.left), Blacken(t.right));
      if z.onLeft then
        Branch(t.node, Branch(g.node, g.sibling, g.key, true, l), t.key, false,
               Branch(z.node, r, z.key, true, z.sibling))
      else
        Branch(t.node, Branch(z.node, z.sibling, z.key, true, l), t.key, false,
               Branch(g.node, r, g.key, true, g.sibling))
  }

  function SplitHeight(z: Zipper, h: nat): nat
    requires Splittable(z)
  {
    if TwoRedEdges(z) && z.onLeft != z.above.onLeft then h + 1 else h
  }

  lemma SplitBalanced(z: Zipper, t: Shape, h: nat)
    requires t.Branch? && Balanced(Raised(t), h) && Fits(z, h, false)
    requires Splittable(z)
    ensures Balanced(SplitTree(z, t), SplitHeight(z, h))
    ensures Fits(SplitPlace(z), SplitHeight(z, h), IsRed(SplitTree(z, t)))
  {
    if TwoRedEdges(z) {
      assert Fits(z.above, h, true);
      assert Fits(z.above.above, h + 1, false);
    }
  }

  lemma SplitKeys(z: Zipper, t: Shape)
    requires t.Branch?
    requires Splittable(z)
    ensures Before(SplitPlace(z)) + Keys(SplitTree(z, t)) + After(SplitPlace(z))
         == Before(z) + Keys(t) + After(z)
  {
    assert Keys(Raised(t)) == Keys(t);
    if TwoRedEdges(z) {
      var g, u := z.above, z.above.above;
      JoinKeys(z, t);
      JoinKeys(g, Join(z, t));
      if z.onLeft == g.onLeft {
        var z' := SplitPlace(z);
        JoinKeys(z', Raised(t));
        SameKeysSingle(z, t);
      } else {
        SameKeysDouble(z, t);
      }
    }
  }

  lemma SameKeysSingle(z: Zipper, t: Shape)
    requires t.Branch? && TwoRedEdges(z) && Splittable(z) && z.onLeft == z.above.onLeft
    ensures Keys(Join(SplitPlace(z), Raised(t))) == Keys(Join(z.above, Join(z, t)))
  {
    assert Keys(Raised(t)) == Keys(t);
    var g := z.above;
    if z.onLeft {
      assert Keys(Join(g, Join(z, t))) == (Keys(t) + [z.key] + Keys(z.sibling)) + [g.key] + Keys(g.sibling);
    } else {
      assert Keys(Join(g, Join(z, t))) == Keys(g.sibling) + [g.key] + (Keys(z.sibling) + [z.key] + Keys(t));
    }
  }

  lemma SameKeysDouble(z: Zipper, t: Shape)
    requires t.Branch? && TwoRedEdges(z) && Splittable(z) && z.onLeft != z.above.onLeft
    ensures Keys(SplitTree(z, t)) == Keys(Join(z.above, Join(z, t)))
  {
    var g := z.above;
    assert Keys(Blacken(t.left)) == Keys(t.left) && Keys(Blacken(t.right)) == Keys(t.right);
    if z.onLeft {
      DoubleParts(Keys(g.sibling), g.key, Keys(t.left), t.key, Keys(t.right), z.key, Keys(z.sibling));
    } else {
      assert Keys(Join(z, t)) == Keys(z.sibling) + [z.key] + Keys(t);
      DoubleParts(Keys(z.sibling), z.key, Keys(t.left), t.key, Keys(t.right), g.key, Keys(g.sibling));
    }
  }

  lemma DoubleParts(a: seq<Entry>, x: Entry, l: seq<Entry>, k: Entry, r: seq<Entry>, y: Entry, b: seq<Entry>)
    ensures (a + [x] + l) + [k] + (r + [y] + b) == a + [x] + ((l + [k] + r) + [y] + b)
    ensures (a + [x] + l) + [k] + (r + [y] + b) == (a + [x] + (l + [k] + r)) + [y] + b
  {
  }

  /** All nodes of the whole tree occur once, seen from place `z`. */
  ghost predicate Apart(z: Zipper, t: Shape) {
    Distinct(t) && DistinctPath(z) && Nodes(t) !! PathNodes(z)
  }

  lemma ApartJoin(z: Zipper, t: Shape)
    requires z.Down?
    ensures Apart(z, t) <==> Apart(z.above, Join(z, t))
    ensures PathNodes(z) + Nodes(t) == PathNodes(z.above) + Nodes(Join(z, t))
  {
  }

  lemma BlackenSame(t: Shape)
    ensures Nodes(Blacken(t)) == Nodes(t)
    ensures Distinct(t) ==> Distinct(Blacken(t))
  {
  }

  lemma RaisedApart(z: Zipper, t: Shape)
    requires t.Branch? && Apart(z, t)
    ensures Apart(z, Raised(t)) && Nodes(Raised(t)) == Nodes(t)
  {
    BlackenSame(t.left);
    BlackenSame(t.right);
  }

  lemma SplitNodes(z: Zipper, t: Shape)
    requires t.Branch? && Apart(z, t) && Splittable(z)
    ensures Apart(SplitPlace(z), SplitTree(z, t))
    ensures PathNodes(SplitPlace(z)) + Nodes(SplitTree(z, t)) == PathNodes(z) + Nodes(t)
  {
    RaisedApart(z, t);
    if TwoRedEdges(z) {
      var t', g := Raised(t), z.above;
      ApartJoin(z, t');
      ApartJoin(g, Join(z, t'));
      if z.onLeft == g.onLeft {
        var z' := SplitPlace(z);
        SingleNodes(z, t');
        ApartJoin(z', t');
      } else {
        DoubleNodes(z, t);
      }
    }
  }

  lemma SingleNodes(z: Zipper, t: Shape)
    requires t.Branch? && TwoRedEdges(z) && Splittable(z) && z.onLeft == z.above.onLeft
    requires Distinct(Join(z.above, Join(z, t)))
    ensures Distinct(Join(SplitPlace(z), t))
    ensures Nodes(Join(SplitPlace(z), t)) == Nodes(Join(z.above, Join(z, t)))
  {
    assert Distinct(Join(z, t));
  }

  lemma DoubleNodes(z: Zipper, t: Shape)
    requires t.Branch? && TwoRedEdges(z) && Splittable(z) && z.onLeft != z.above.onLeft
    requires Distinct(Join(z.above, Join(z, Raised(t))))
    ensures Distinct(SplitTree(z, t))
    ensures Nodes(SplitTree(z, t)) == Nodes(Join(z.above, Join(z, Raised(t))))
  {
    var s, t' := SplitTree(z, t), Raised(t);
    var j := Join(z, t');
    assert Distinct(j) && Distinct(t') && Distinct(z.sibling) && Distinct(z.above.sibling);
    assert Nodes(t') == {t.node} + Nodes(t'.left) + Nodes(t'.right);
    assert Nodes(j) == {z.node} + Nodes(t') + Nodes(z.sibling);
    assert Distinct(s.left) && Distinct(s.right);
  }

  lemma SplitToward(z: Zipper, e: Entry, i: nat)
    requires Toward(z, e, i)
    requires Splittable(z)
    ensures Toward(SplitPlace(z), e, i)
  {
  }
}
