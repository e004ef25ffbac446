/** The values that the red-black trees of lib/common/map.c stand for.

    A tree on the heap is described by a `Shape`, and a place inside a tree by a
    `Zipper`: the path from the place up to the root, together with the subtrees
    hanging off that path.  Everything in this module is a statement about these
    values; RedBlackTree ties them to heap nodes. */
module RedBlackShape {
  import opened Sequences

  /** A node of the map's doubly linked list.  Comparators only look at the keys
      of an item and the keys do not change while the item is stored, so they are
      constant.  `keys[i]` is the position of the item in the total order
      of comparator `i`. */
  class Entry {
    const keys: seq<real>
    var item: int
    var up: Entry?
    var down: Entry?

    constructor (keys: seq<real>, item: int)
      ensures this.keys == keys && this.item == item && up == null && down == null
    {
      this.keys := keys;
      this.item := item;
      up, down := null, null;
    }
  }

  /** A node of a search tree (struct node_t). */
  class Node {
    var key: Entry
    var left: Node?
    var right: Node?
    var red: bool

    constructor (key: Entry)
      ensures this.key == key && left == null && right == null && red
    {
      this.key := key;
      left, right, red := null, null, true;
    }
  }

  /** The position of an entry in the order of comparator `i`. */
  function Rank(e: Entry, i: nat): real {
    if i < |e.keys| then e.keys[i] else 0.0
  }

  /** The sign that comparator `i` returns for `a` against `b`. */
  function Compare(a: Entry, b: Entry, i: nat): int {
    if Rank(a, i) < Rank(b, i) then -1 else if Rank(b, i) < Rank(a, i) then 1 else 0
  }

  datatype Shape =
    | Leaf
    | Branch(node: Node, left: Shape, key: Entry, red: bool, right: Shape)

  datatype Zipper =
    | Top
    | Down(onLeft: bool, node: Node, key: Entry, red: bool, sibling: Shape, above: Zipper)

  function Join(z: Zipper, t: Shape): Shape
    requires z.Down?
  {
    if z.onLeft then Branch(z.node, t, z.key, z.red, z.sibling)
    else Branch(z.node, z.sibling, z.key, z.red, t)
  }

  /** The whole tree that has `t` at place `z`. */
  function Plug(z: Zipper, t: Shape): Shape {
    if z.Top? then t else Plug(z.above, Join(z, t))
  }

  function Keys(t: Shape): seq<Entry> {
    if t.Leaf? then [] else Keys(t.left) + [t.key] + Keys(t.right)
  }

  /** The keys that come before, and after, place `z`. */
  function Before(z: Zipper): seq<Entry> {
    if z.Top? then [] else if z.onLeft then Before(z.above)
    else Before(z.above) + Keys(z.sibling) + [z.key]
  }

  function After(z: Zipper): seq<Entry> {
    if z.Top? then [] else if z.onLeft then [z.key] + Keys(z.sibling) + After(z.above)
    else After(z.above)
  }

  ghost predicate Sorted(s: seq<Entry>, i: nat) {
    forall a, b :: 0 <= a < b < |s| ==> Rank(s[a], i) < Rank(s[b], i)
  }

  predicate IsRed(t: Shape) {
    t.Branch? && t.red
  }

  function Blacken(t: Shape): Shape {
    if t.Leaf? then t else t.(red := false)
  }

  /** No red node has a red child, and every path to a leaf passes `h` black nodes. */
  ghost predicate Balanced(t: Shape, h: nat) {
    match t
    case Leaf => h == 0
    case Branch(_, l, _, red, r) =>
      if red then Balanced(l, h) && Balanced(r, h) && !IsRed(l) && !IsRed(r)
      else h > 0 && Balanced(l, h - 1) && Balanced(r, h - 1)
  }

  /** Place `z` may hold any balanced tree of black height `h` whose root is red only if `red`. */
  ghost predicate Fits(z: Zipper, h: nat, red: bool) {
    z.Down? ==>
      && Balanced(z.sibling, h)
      && (z.red ==> !red && !IsRed(z.sibling))
      && Fits(z.above, if z.red then h else h + 1, z.red)
  }

  /** The weak red-black invariant: the root may be red between two calls. */
  ghost predicate RedBlack(t: Shape) {
    exists h: nat :: Balanced(t, h)
  }

  /** Place `z` lies on the search path of `e`. */
  ghost predicate Toward(z: Zipper, e: Entry, i: nat) {
    z.Down? ==>
      && (if z.onLeft then Rank(e, i) < Rank(z.key, i) else Rank(z.key, i) < Rank(e, i))
      && Toward(z.above, e, i)
  }

  ghost function Nodes(t: Shape): set<Node> {
    if t.Leaf? then {} else {t.node} + Nodes(t.left) + Nodes(t.right)
  }

  ghost function PathNodes(z: Zipper): set<Node> {
    if z.Top? then {} else {z.node} + Nodes(z.sibling) + PathNodes(z.above)
  }

  /** No heap node occurs twice. */
  ghost predicate Distinct(t: Shape) {
    t.Branch? ==>
      && Distinct(t.left) && Distinct(t.right)
      && t.node !in Nodes(t.left) && t.node !in Nodes(t.right) && Nodes(t.left) !! Nodes(t.right)
  }

  ghost predicate DistinctPath(z: Zipper) {
    z.Down? ==>
      && Distinct(z.sibling) && DistinctPath(z.above)
      && z.node !in Nodes(z.sibling) && z.node !in PathNodes(z.above)
      && Nodes(z.sibling) !! PathNodes(z.above)
  }

  function Size(t: Shape): nat {
    if t.Leaf? then 0 else Size(t.left) + 1 + Size(t.right)
  }

  function Height(t: Shape): nat {
    if t.Leaf? then 0
    else 1 + if Height(t.left) < Height(t.right) then Height(t.right) else Height(t.left)
  }

  function Depth(z: Zipper): nat {
    if z.Top? then 0 else 1 + Depth(z.above)
  }

  function Pow2(n: nat): nat {
    if n == 0 then 1 else 2 * Pow2(n - 1)
  }

  // ---------- laws of places ----------

  lemma {:induction false} PlugKeys(z: Zipper, t: Shape)
    ensures Keys(Plug(z, t)) == Before(z) + Keys(t) + After(z)
  {
    if z.Down? {
      PlugKeys(z.above, Join(z, t));
    }
  }

  lemma {:induction false} PlugBalanced(z: Zipper, t: Shape, h: nat)
    requires Balanced(t, h) && Fits(z, h, IsRed(t))
    ensures RedBlack(Plug(z, t))
  {
    if z.Down? {
      PlugBalanced(z.above, Join(z, t), if z.red then h else h + 1);
    }
  }

  lemma {:induction false} PlugNodes(z: Zipper, t: Shape)
    requires Distinct(t) && DistinctPath(z) && Nodes(t) !! PathNodes(z)
    ensures Distinct(Plug(z, t))
    ensures Nodes(Plug(z, t)) == PathNodes(z) + Nodes(t)
  {
    if z.Down? {
      PlugNodes(z.above, Join(z, t));
    }
  }

  /** The height bound of a red-black tree, with one extra level for a red root. */
  lemma {:induction false} BalancedHeight(t: Shape, h: nat)
    requires Balanced(t, h)
    ensures Height(t) <= 2 * h + (if IsRed(t) then 1 else 0)
    ensures Pow2(h) <= Size(t) + 1
  {
    if t.Branch? {
      var k := if t.red then h else h - 1;
      BalancedHeight(t.left, k);
      BalancedHeight(t.right, k);
    }
  }

  lemma {:induction false} Pow2Monotone(a: nat, b: nat)
    requires a <= b
    ensures Pow2(a) <= Pow2(b)
  {
    if a < b {
      Pow2Monotone(a, b - 1);
    }
  }

  /** Height at most 2 * log2(n + 1) + 1, stated without logarithms: n + 1 nodes below 2^(k+1)
      cannot reach past height 2 * k + 1. */
  lemma {:induction false} HeightBound(t: Shape, k: nat)
    requires RedBlack(t)
    requires Size(t) + 1 < Pow2(k + 1)
    ensures Height(t) <= 2 * k + 1
  {
    var h: nat :| Balanced(t, h);
    BalancedHeight(t, h);
    if h > k {
      Pow2Monotone(k + 1, h);
    }
  }

  lemma {:induction false} DepthBound(z: Zipper, t: Shape)
    ensures Depth(z) + Height(t) <= Height(Plug(z, t))
  {
    if z.Down? {
      DepthBound(z.above, Join(z, t));
    }
  }

  lemma {:induction false} SizeIsKeys(t: Shape)
    ensures |Keys(t)| == Size(t)
  {
    if t.Branch? {
      SizeIsKeys(t.left);
      SizeIsKeys(t.right);
    }
  }

  // ---------- search order ----------

  lemma SortedAround(a: seq<Entry>, k: Entry, b: seq<Entry>, i: nat)
    requires Sorted(a + [k] + b, i)
    ensures forall x :: x in a ==> Rank(x, i) < Rank(k, i)
    ensures forall x :: x in b ==> Rank(k, i) < Rank(x, i)
  {
    var s := a + [k] + b;
    assert s[|a|] == k;
    forall x | x in a ensures Rank(x, i) < Rank(k, i) {
      var j :| 0 <= j < |a| && a[j] == x;
      assert s[j] == x;
    }
    forall x | x in b ensures Rank(k, i) < Rank(x, i) {
      var j :| 0 <= j < |b| && b[j] == x;
      assert s[|a| + 1 + j] == x;
    }
  }

  lemma Regroup(a: seq<Entry>, b: seq<Entry>, k: Entry, c: seq<Entry>, d: seq<Entry>)
    ensures a + (b + [k] + c) + d == (a + b) + [k] + (c + d)
    ensures a + b + ([k] + c + d) == (a + b) + [k] + (c + d)
    ensures (a + b + [k]) + c + d == (a + b) + [k] + (c + d)
  {
  }

  /** Moving the place one level up does not change the keys of the whole tree; the key passed
      over separates those before from those after it. */
  lemma JoinKeys(z: Zipper, t: Shape)
    requires z.Down?
    ensures Before(z) + Keys(t) + After(z) == Before(z.above) + Keys(Join(z, t)) + After(z.above)
    ensures z.onLeft ==> (Before(z) + Keys(t) + After(z)
                         == (Before(z.above) + Keys(t)) + [z.key] + (Keys(z.sibling) + After(z.above)))
    ensures !z.onLeft ==> (Before(z) + Keys(t) + After(z)
                          == (Before(z.above) + Keys(z.sibling)) + [z.key] + (Keys(t) + After(z.above)))
  {
    if z.onLeft {
      Regroup(Before(z.above), Keys(t), z.key, Keys(z.sibling), After(z.above));
    } else {
      Regroup(Before(z.above), Keys(z.sibling), z.key, Keys(t), After(z.above));
    }
  }

  /** On the search path of `e`, all keys before the place are smaller and all after it larger. */
  lemma {:induction false} TowardSplits(z: Zipper, t: Shape, e: Entry, i: nat)
    requires Toward(z, e, i) && Sorted(Before(z) + Keys(t) + After(z), i)
    ensures forall k :: k in Before(z) ==> Rank(k, i) < Rank(e, i)
    ensures forall k :: k in After(z) ==> Rank(e, i) < Rank(k, i)
  {
    if z.Down? {
      JoinKeys(z, t);
      TowardSplits(z.above, Join(z, t), e, i);
      if z.onLeft {
        SortedAround(Before(z.above) + Keys(t), z.key, Keys(z.sibling) + After(z.above), i);
      } else {
        SortedAround(Before(z.above) + Keys(z.sibling), z.key, Keys(t) + After(z.above), i);
      }
    }
  }

  /** `s` with `e` put in at position `p`. */
  function Inserted(s: seq<Entry>, p: nat, e: Entry): seq<Entry>
    requires p <= |s|
  {
    s[..p] + [e] + s[p..]
  }

  /** Putting `e` in at an empty place on its search path keeps the keys sorted. */
  lemma InsertSorted(z: Zipper, e: Entry, i: nat)
    requires Toward(z, e, i) && Sorted(Before(z) + After(z), i)
    ensures Sorted(Before(z) + [e] + After(z), i)
    ensures Before(z) + [e] + After(z) == Inserted(Before(z) + After(z), |Before(z)|, e)
    ensures forall k :: k in Before(z) + After(z) ==> Rank(k, i) != Rank(e, i)
  {
    assert Before(z) + Keys(Leaf) + After(z) == Before(z) + After(z);
    TowardSplits(z, Leaf, e, i);
    SortedBetween(Before(z), After(z), e, i);
  }

  lemma SortedBetween(b: seq<Entry>, a: seq<Entry>, e: Entry, i: nat)
    requires Sorted(b + a, i)
    requires forall k :: k in b ==> Rank(k, i) < Rank(e, i)
    requires forall k :: k in a ==> Rank(e, i) < Rank(k, i)
    ensures Sorted(b + [e] + a, i)
    ensures b + [e] + a == Inserted(b + a, |b|, e)
    ensures forall k :: k in b + a ==> Rank(k, i) != Rank(e, i)
  {
    var s, o := b + [e] + a, b + a;
    forall x, y | 0 <= x < y < |s| ensures Rank(s[x], i) < Rank(s[y], i) {
      if x == |b| {
        assert s[y] == a[y - |b| - 1];
      } else if y == |b| {
        assert s[x] == b[x];
      } else {
        assert s[x] == o[if x < |b| then x else x - 1] && s[y] == o[if y < |b| then y else y - 1];
      }
    }
  }

  lemma RemoveSorted(s: seq<Entry>, p: nat, i: nat)
    requires Sorted(s, i) && p < |s|
    ensures Sorted(Removed(s, p), i)
    ensures s[p] !in Removed(s, p)
  {
  }
}
