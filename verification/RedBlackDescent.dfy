/** The downward search of an insertion (tsearch2): what its variables mean on the way. */
module RedBlackDescent {
  import opened RedBlackShape
  import opened RedBlackInsert
  import opened RedBlackHeap

  /** The pointers that tsearch2 remembers: the slots of the parent and of the grandparent, and
      the signs of the comparisons that chose the way. */
  datatype Trail = Trail(parentp: Slot, gparentp: Slot, pR: int, gpR: int)

  /** A black node with two black children is never split. */
  predicate Calm(t: Shape) {
    t.Branch? && !t.red && !IsRed(t.left) && !IsRed(t.right)
  }

  predicate Sign(r: int, onLeft: bool) {
    if onLeft then r < 0 else r > 0
  }

  predicate ParentKnown(z: Zipper, w: Trail) {
    && w.parentp == (if z.Top? then NoSlot else SlotOf(z.above))
    && (z.Down? ==> Sign(w.pR, z.onLeft))
  }

  predicate GrandparentKnown(z: Zipper, w: Trail) {
    z.Down? && z.above.Down? ==> w.gparentp == SlotOf(z.above.above) && Sign(w.gpR, z.above.onLeft)
  }

  function Toward1(t: Shape, e: Entry, i: nat): Shape
    requires t.Branch?
  {
    if Rank(e, i) < Rank(t.key, i) then t.left else t.right
  }

  /** A rotation leaves stale slots behind, but the nodes that follow are never split before the slots are
      fresh again. */
  predicate OnTrail(z: Zipper, t: Shape, w: Trail, e: Entry, i: nat) {
    && t.Branch?
    && ( || (ParentKnown(z, w) && GrandparentKnown(z, w) && Splittable(z)
             && (t.red ==> z.Down? && !IsRed(z.sibling)))
         || (ParentKnown(z, w) && Calm(t))
         || (t.red && Rank(e, i) != Rank(t.key, i) && Calm(Toward1(t, e, i))))
  }

  /** Place and tree after the split of one iteration. */
  function PlaceAfter(z: Zipper, t: Shape): Zipper
    requires BothRed(t) ==> Splittable(z)
  {
    if BothRed(t) then SplitPlace(z) else z
  }

  function TreeAfter(z: Zipper, t: Shape): Shape
    requires BothRed(t) ==> Splittable(z)
  {
    if BothRed(t) then SplitTree(z, t) else t
  }

  /** One level down on the side of `e`. */
  function Deeper(z: Zipper, t: Shape, e: Entry, i: nat): Zipper
    requires t.Branch?
  {
    if Rank(e, i) < Rank(t.key, i) then Down(true, t.node, t.key, t.red, t.right, z)
    else Down(false, t.node, t.key, t.red, t.left, z)
  }

  function HeightAfter(z: Zipper, t: Shape, h: nat): nat
    requires BothRed(t) ==> Splittable(z)
  {
    if BothRed(t) then SplitHeight(z, h) else h
  }

  /** How far the search can still go: black height, refined by what a split may bring up. */
  function Fuel(t: Shape, h: nat, e: Entry, i: nat): nat {
    if t.Leaf? then 4 * h
    else if t.red then 4 * h + (if Calm(Toward1(t, e, i)) then 1 else 3)
    else 4 * h + (if BothRed(t) then 2 else 0)
  }

  lemma NearSplits(z: Zipper, t: Shape, w: Trail, e: Entry, i: nat, h: nat)
    requires OnTrail(z, t, w, e, i) && Balanced(t, h) && BothRed(t)
    ensures Splittable(z) && ParentKnown(z, w) && GrandparentKnown(z, w)
    ensures Balanced(Raised(t), h)
  {
  }

  /** The search goes down although rotations lift nodes above it. */
  lemma NextFuel(z: Zipper, t: Shape, w: Trail, e: Entry, i: nat, h: nat)
    requires OnTrail(z, t, w, e, i) && Balanced(t, h) && Fits(z, h, IsRed(t))
    requires Toward(z, e, i) && Rank(e, i) != Rank(t.key, i)
    requires BothRed(t) ==> Splittable(z)
    ensures var h', t' := HeightAfter(z, t, h), TreeAfter(z, t);
      (t'.red || h' > 0) && Fuel(Toward1(t', e, i), if t'.red then h' else h' - 1, e, i) < Fuel(t, h, e, i)
  {
    if BothRed(t) {
      NearSplits(z, t, w, e, i, h);
      assert Calm(Blacken(t.left)) && Calm(Blacken(t.right));
    }
  }

  /** The next iteration again finds its pointers valid wherever it uses them. */
  lemma NextNear(z: Zipper, t: Shape, w: Trail, e: Entry, i: nat, h: nat)
    requires OnTrail(z, t, w, e, i) && Balanced(t, h) && Fits(z, h, IsRed(t))
    requires Toward(z, e, i) && Rank(e, i) != Rank(t.key, i)
    requires BothRed(t) ==> Splittable(z)
    ensures var z', t' := PlaceAfter(z, t), TreeAfter(z, t);
      && t'.node == t.node && t'.key == t.key
      && var c := Toward1(t', e, i);
         c.Branch? ==> OnTrail(Deeper(z', t', e, i), c, Trail(SlotOf(z), w.parentp, Compare(e, t.key, i), w.pR), e, i)
  {
    if BothRed(t) {
      NearSplits(z, t, w, e, i, h);
      assert Calm(Blacken(t.left)) && Calm(Blacken(t.right));
    }
  }

  /** Where the search ends, a new red leaf can be hung and, if its parent is red, rotated. */
  lemma EndNear(z: Zipper, t: Shape, w: Trail, e: Entry, i: nat)
    requires OnTrail(z, t, w, e, i) && Rank(e, i) != Rank(t.key, i)
    requires Toward1(t, e, i).Leaf?
    ensures !BothRed(t) && Splittable(Deeper(z, t, e, i))
    ensures t.red ==> ParentKnown(z, w) && z.Down?
  {
  }

  lemma DescendKeys(z: Zipper, t: Shape, e: Entry, i: nat, h: nat)
    requires t.Branch? && Balanced(t, h) && Fits(z, h, IsRed(t))
    requires Toward(z, e, i) && Rank(e, i) != Rank(t.key, i)
    ensures var z', c := Deeper(z, t, e, i), Toward1(t, e, i);
      && Join(z', c) == t && z'.above == z
      && Toward(z', e, i)
      && Before(z') + Keys(c) + After(z') == Before(z) + Keys(t) + After(z)
      && var k := if t.red then h else h - 1;
         Balanced(c, k) && Fits(z', k, IsRed(c))
  {
    JoinKeys(Deeper(z, t, e, i), Toward1(t, e, i));
  }
}
