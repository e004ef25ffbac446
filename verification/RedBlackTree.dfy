/** The search trees of lib/common/map.c on the heap: insertion, lookup, deletion and walk. */
module RedBlackTree {
  import opened RedBlackShape
  import opened RedBlackInsert
  import opened RedBlackHeap
  import opened RedBlackDescent
  import opened RedBlackDelete
  import opened RedBlackRepair
  import opened Sequences

  /** One search tree of a map (struct map_index). */
  class Index {
    const at: nat
    var root: Node?
    ghost var nodes: set<Node>
    ghost var shape: Shape

    constructor (at: nat)
      ensures Valid() && this.at == at && shape == Leaf && nodes == {}
    {
      this.at := at;
      root, shape, nodes := null, Leaf, {};
      new;
      assert Balanced(shape, 0);
    }

    /** A snapshot of the fields of the tree's nodes. */
    ghost function H(): Heap
      reads this`root, this`nodes, nodes
    {
      Heap(root, map n | n in nodes :: Cell(n.key, n.left, n.right, n.red))
    }

    ghost predicate Valid()
      reads this, nodes
    {
      && At(H(), Top, shape) && nodes == Nodes(shape)
      && RedBlack(shape)
      && Sorted(Keys(shape), at)
    }

    function Load(s: Slot): (x: Node?)
      requires Legal(H(), s)
      reads this`root, this`nodes, nodes
      ensures x == Look(H(), s)
    {
      match s
      case LeftOf(n) => n.left
      case RightOf(n) => n.right
      case RootSlot => root
    }

    /** Write a pointer through a slot. */
    method Store(s: Slot, x: Node?)
      requires Legal(H(), s)
      modifies this`root, nodes
      ensures H() == Put(old(H()), s, x)
    {
      match s
      case LeftOf(n) => n.left := x;
      case RightOf(n) => n.right := x;
      case RootSlot => root := x;
    }

    /** Recolouring: two red children hand their colour up. */
    method Raise(root: Node)
      requires root in nodes && root.left != root && root.right != root
      requires root.left == null || root.left in nodes
      requires root.right == null || root.right in nodes
      modifies nodes
      ensures RaisedTo(old(H()), H(), root)
    {
      root.red := true;
      if root.right != null {
        root.right.red := false;
      }
      if root.left != null {
        root.left.red := false;
      }
    }

    /** Zigzag: the lowest of three nodes rises above the two others. */
    method RotateTwice(root: Node, p: Node, gp: Node, pR: int)
      requires root in nodes && p in nodes && gp in nodes
      requires root != p && root != gp && p != gp
      modifies nodes
      ensures TwiceRotated(old(H()), H(), root, p, gp, pR < 0)
    {
      p.red := true;
      gp.red := true;
      root.red := false;
      if pR < 0 {
        p.left := root.right;
        root.right := p;
        gp.right := root.left;
        root.left := gp;
      } else {
        p.right := root.left;
        root.left := p;
        gp.left := root.right;
        root.right := gp;
      }
    }

    /** Straight line: the middle of three nodes rises above the two others. */
    method RotateOnce(p: Node, gp: Node, pR: int)
      requires p in nodes && gp in nodes && p != gp
      modifies nodes
      ensures OnceRotated(old(H()), H(), p, gp, pR < 0)
    {
      p.red := false;
      gp.red := true;
      if pR < 0 {
        gp.left := p.right;
        p.right := gp;
      } else {
        gp.right := p.left;
        p.left := gp;
      }
    }

    /** A red zigzag is straightened out. */
    method FixZigZag(root: Node, p: Node, gp: Node, gparentp: Slot, pR: int, ghost z: Zipper, ghost t: Shape)
      requires t.Branch? && TwoRedEdges(z) && Splittable(z) && At(H(), z, Raised(t))
      requires root == t.node && p == z.node && gp == z.above.node && gparentp == SlotOf(z.above.above)
      requires z.onLeft != z.above.onLeft && (if z.onLeft then pR < 0 else pR > 0)
      requires Apart(z, t)
      modifies this`root, nodes
      ensures At(H(), SplitPlace(z), SplitTree(z, t))
    {
      SplitNodes(z, t);
      ghost var m := H();
      Movers(z, Raised(t));
      assert Around(m, z.above, p) && Around(m, z.above.above, gp);
      PutAround(m, z.above.above, gp, root);
      RotateTwice(root, p, gp, pR);
      DoubleRotation(m, H(), z, t);
      Store(gparentp, root);
    }

    /** A red line is broken up. */
    method FixZigZig(p: Node, gp: Node, gparentp: Slot, pR: int, ghost z: Zipper, ghost t: Shape)
      requires t.Branch? && TwoRedEdges(z) && Splittable(z) && At(H(), z, Raised(t))
      requires p == z.node && gp == z.above.node && gparentp == SlotOf(z.above.above)
      requires z.onLeft == z.above.onLeft && (if z.onLeft then pR < 0 else pR > 0)
      requires Apart(z, t)
      modifies this`root, nodes
      ensures At(H(), SplitPlace(z), SplitTree(z, t))
    {
      SplitNodes(z, t);
      ghost var m := H();
      Movers(z, Raised(t));
      assert Around(m, z.above, p) && Around(m, z.above.above, gp);
      PutAround(m, z.above.above, gp, p);
      Store(gparentp, p);
      RotateOnce(p, gp, pR);
      SingleRotation(m, H(), z, Raised(t));
    }

    /** maybe_split_for_insert: recolour, then rotate if the parent is red as well. */
    method MaybeSplit(rootp: Slot, parentp: Slot, gparentp: Slot, pR: int, gpR: int, mode: int,
                      ghost z: Zipper, ghost t: Shape)
      requires t.Branch? && rootp == SlotOf(z) && At(H(), z, t)
      requires mode == 1 || BothRed(t) ==>
        && Splittable(z)
        && parentp == (if z.Top? then NoSlot else SlotOf(z.above))
        && (TwoRedEdges(z) ==>
              && gparentp == SlotOf(z.above.above)
              && (if z.onLeft then pR < 0 else pR > 0)
              && (if z.above.onLeft then gpR < 0 else gpR > 0))
      modifies this`root, nodes
      ensures if mode == 1 || BothRed(t) then At(H(), SplitPlace(z), SplitTree(z, t)) else H() == old(H())
    {
      PutAround(H(), z, t.node, t.node);
      var root := Load(rootp);
      assert Below(H(), root.left, t.left) && Below(H(), root.right, t.right);
      if mode == 1 || (root.right != null && root.left != null && root.right.red && root.left.red) {
        Raise(root);
        RaisedHeap(old(H()), H(), z, t);
        if parentp != NoSlot {
          RotateUp(root, parentp, gparentp, pR, gpR, z, t);
        }
      }
    }

    /** The rotations, if the parent is red. */
    method RotateUp(root: Node, parentp: Slot, gparentp: Slot, pR: int, gpR: int, ghost z: Zipper, ghost t: Shape)
      requires t.Branch? && root == t.node && At(H(), z, Raised(t)) && Apart(z, t)
      requires Splittable(z) && z.Down? && parentp == SlotOf(z.above)
      requires TwoRedEdges(z) ==>
        && gparentp == SlotOf(z.above.above)
        && (if z.onLeft then pR < 0 else pR > 0)
        && (if z.above.onLeft then gpR < 0 else gpR > 0)
      modifies this`root, nodes
      ensures At(H(), SplitPlace(z), SplitTree(z, t))
    {
      PutAround(H(), z.above, z.node, z.node);
      var p := Load(parentp);
      if p.red {
        PutAround(H(), z.above.above, z.above.node, z.node);
        var gp := Load(gparentp);
        if (pR > 0) != (gpR > 0) {
          FixZigZag(root, p, gp, gparentp, pR, z, t);
        } else {
          FixZigZig(p, gp, gparentp, pR, z, t);
        }
      }
    }

    /** What tsearch2 knows at the head of its loop: the heap holds one balanced tree with `t` at
        the slot reached, on the search path of `e`. */
    ghost predicate Searching(z: Zipper, t: Shape, h: nat, e: Entry, keys: seq<Entry>)
      reads this`root, this`nodes, nodes
    {
      && At(H(), z, t) && PathNodes(z) + Nodes(t) == nodes
      && Balanced(t, h) && Fits(z, h, IsRed(t))
      && Toward(z, e, at) && Before(z) + Keys(t) + After(z) == keys
    }

    /** Every search for a place starts by painting the root black. */
    method BlackenRoot() returns (ghost t: Shape, ghost h: nat)
      requires Valid()
      modifies nodes
      ensures At(H(), Top, t) && nodes == Nodes(t) && Balanced(t, h) && !IsRed(t)
      ensures Keys(t) == Keys(shape) && t.Leaf? == shape.Leaf?
    {
      h :| Balanced(shape, h);
      t := Blacken(shape);
      BlackenSame(shape);
      ghost var m := H();
      if root != null {
        root.red := false;
        RootPainted(m, H(), root, shape, false);
        h := if shape.red then h + 1 else h;
      }
    }

    /** One iteration's split, with the tree that it leaves. */
    method SplitStep(rootp: Slot, w: Trail, e: Entry,
                     ghost z: Zipper, ghost t: Shape, ghost h: nat, ghost keys: seq<Entry>)
      requires Searching(z, t, h, e, keys) && OnTrail(z, t, w, e, at) && rootp == SlotOf(z)
      modifies this`root, nodes
      ensures BothRed(t) ==> Splittable(z)
      ensures Searching(PlaceAfter(z, t), TreeAfter(z, t), HeightAfter(z, t, h), e, keys)
    {
      if BothRed(t) {
        NearSplits(z, t, w, e, at, h);
        SplitBalanced(z, t, h);
        SplitKeys(z, t);
        SplitNodes(z, t);
        SplitToward(z, e, at);
      }
      MaybeSplit(rootp, w.parentp, w.gparentp, w.pR, w.gpR, 0, z, t);
    }

    /** Allocate a node and link it to the slot the search ended in. */
    method Link(nextp: Slot, e: Entry, ghost z: Zipper) returns (q: Node)
      requires At(H(), z, Leaf) && PathNodes(z) == nodes && nextp == SlotOf(z)
      modifies this`root, this`nodes, nodes
      ensures fresh(q) && nodes == old(nodes) + {q}
      ensures At(H(), z, Branch(q, Leaf, e, true, Leaf))
    {
      ghost var m := H();
      q := new Node(e);
      nodes := nodes + {q};
      AroundFrame(m, H(), z, null);
      ghost var m1 := H();
      PutAround(m1, z, null, q);
      assert Put(m1, nextp, q).cells[q] == m1.cells[q];
      Store(nextp, q);
    }

    /** The described tree becomes the abstract value of the index. */
    ghost method Settle(z: Zipper, t: Shape, h: nat, keys: seq<Entry>)
      requires BalancedAt(H(), z, t, h, keys) && Sorted(keys, at)
      modifies this`shape
      ensures Valid() && Keys(shape) == keys
    {
      AtPlug(H(), z, t);
      PlugBalanced(z, t, h);
      PlugKeys(z, t);
      PlugNodes(z, t);
      ghost var whole := Plug(z, t);
      assert At(H(), Top, whole) && RedBlack(whole) && Keys(whole) == keys && nodes == Nodes(whole);
      shape := whole;
    }

    /** The described tree once a new red leaf is in place, and split unless it is the root. */
    lemma NewLeaf(z: Zipper, t: Shape, keys: seq<Entry>) returns (u: Zipper, s: Shape, h: nat)
      requires t.Branch? && t == Branch(t.node, Leaf, t.key, true, Leaf)
      requires Apart(z, t) && Splittable(z) && Fits(z, 0, false)
      requires Toward(z, t.key, at) && Before(z) + After(z) == keys && Sorted(keys, at)
      ensures if z.Down? then u == SplitPlace(z) && s == SplitTree(z, t) else u == z && s == t
      ensures Balanced(s, h) && Fits(u, h, IsRed(s))
      ensures PathNodes(u) + Nodes(s) == PathNodes(z) + {t.node}
      ensures |Before(z)| <= |keys| && Sorted(Inserted(keys, |Before(z)|, t.key), at)
      ensures Before(u) + Keys(s) + After(u) == Inserted(keys, |Before(z)|, t.key)
      ensures forall k :: k in keys ==> Rank(k, at) != Rank(t.key, at)
    {
      assert Keys(t) == [t.key];
      InsertSorted(z, t.key, at);
      assert Nodes(t) == {t.node};
      u, s, h := z, t, 0;
      if z.Down? {
        u, s, h := SplitPlace(z), SplitTree(z, t), SplitHeight(z, 0);
        SplitBalanced(z, t, 0);
        SplitKeys(z, t);
        SplitNodes(z, t);
      }
    }

    /** Hang `e` in the empty slot the search ended in, and rotate if its parent is red too. */
    method Attach(nextp: Slot, rootp: Slot, parentp: Slot, r: int, pR: int, e: Entry,
                  ghost z: Zipper, ghost keys: seq<Entry>)
      returns (q: Node)
      requires Searching(z, Leaf, 0, e, keys) && nextp == SlotOf(z) && Sorted(keys, at)
      requires (nextp != rootp <==> z.Down?) && Splittable(z)
      requires z.Down? ==> rootp == SlotOf(z.above) && Sign(r, z.onLeft)
      requires TwoRedEdges(z) ==> parentp == SlotOf(z.above.above) && Sign(pR, z.above.onLeft)
      modifies this, nodes
      ensures Valid() && fresh(q) && nodes == old(nodes) + {q} && |Before(z)| <= |keys|
      ensures Keys(shape) == Inserted(keys, |Before(z)|, e)
      ensures forall k :: k in keys ==> Rank(k, at) != Rank(e, at)
    {
      ghost var t, u, s, h;
      q, t, u, s, h := HangLeaf(nextp, e, z, keys);
      SplitLeaf(nextp, rootp, parentp, r, pR, z, t, u, s);
      Settle(u, s, h, Inserted(keys, |Before(z)|, e));
    }

    method SplitLeaf(nextp: Slot, rootp: Slot, parentp: Slot, r: int, pR: int,
                     ghost z: Zipper, ghost t: Shape, ghost u: Zipper, ghost s: Shape)
      requires t.Branch? && At(H(), z, t) && nextp == SlotOf(z) && Splittable(z) && (nextp != rootp <==> z.Down?)
      requires z.Down? ==> rootp == SlotOf(z.above) && Sign(r, z.onLeft)
      requires TwoRedEdges(z) ==> parentp == SlotOf(z.above.above) && Sign(pR, z.above.onLeft)
      requires if z.Down? then u == SplitPlace(z) && s == SplitTree(z, t) else u == z && s == t
      modifies this`root, nodes
      ensures At(H(), u, s)
    {
      if nextp != rootp {
        MaybeSplit(nextp, rootp, parentp, r, pR, 1, z, t);
      }
    }

    /** The new node in its slot, and the tree it will belong to after the split. */
    method HangLeaf(nextp: Slot, e: Entry, ghost z: Zipper, ghost keys: seq<Entry>)
      returns (q: Node, ghost t: Shape, ghost u: Zipper, ghost s: Shape, ghost h: nat)
      requires Searching(z, Leaf, 0, e, keys) && nextp == SlotOf(z) && Sorted(keys, at) && Splittable(z)
      modifies this`root, this`nodes, nodes
      ensures fresh(q) && nodes == old(nodes) + {q} && t == Branch(q, Leaf, e, true, Leaf) && At(H(), z, t)
      ensures if z.Down? then u == SplitPlace(z) && s == SplitTree(z, t) else u == z && s == t
      ensures Balanced(s, h) && Fits(u, h, IsRed(s)) && PathNodes(u) + Nodes(s) == nodes
      ensures |Before(z)| <= |keys| && Sorted(Inserted(keys, |Before(z)|, e), at)
      ensures Before(u) + Keys(s) + After(u) == Inserted(keys, |Before(z)|, e)
      ensures forall k :: k in keys ==> Rank(k, at) != Rank(e, at)
    {
      TopLeaf(z, keys);
      q := Link(nextp, e, z);
      t := Branch(q, Leaf, e, true, Leaf);
      u, s, h := NewLeaf(z, t, keys);
    }

    lemma TopLeaf(z: Zipper, keys: seq<Entry>)
      requires Before(z) + Keys(Leaf) + After(z) == keys
      ensures Before(z) + After(z) == keys
    {
    }

    /** One iteration of tsearch2 after the comparison: split, and go down one level. */
    method Descend(root: Node, rootp: Slot, parentp: Slot, gparentp: Slot, r: int, pR: int, gpR: int, e: Entry,
                   ghost z: Zipper, ghost t: Shape, ghost h: nat, ghost keys: seq<Entry>)
      returns (nextp: Slot, ghost z': Zipper, ghost c: Shape, ghost k: nat)
      requires Searching(z, t, h, e, keys) && rootp == SlotOf(z)
      requires OnTrail(z, t, Trail(parentp, gparentp, pR, gpR), e, at)
      requires root == t.node && r == Compare(e, t.key, at) && r != 0
      modifies this`root, nodes
      ensures Searching(z', c, k, e, keys) && nextp == SlotOf(z') && nextp != rootp && z'.Down?
      ensures Fuel(c, k, e, at) < Fuel(t, h, e, at)
      ensures c.Branch? ==> OnTrail(z', c, Trail(rootp, parentp, r, pR), e, at)
      ensures c.Leaf? ==>
        && k == 0 && Splittable(z') && rootp == SlotOf(z'.above) && Sign(r, z'.onLeft)
        && (TwoRedEdges(z') ==> parentp == SlotOf(z'.above.above) && Sign(pR, z'.above.onLeft))
    {
      var w := Trail(parentp, gparentp, pR, gpR);
      SplitStep(rootp, w, e, z, t, h, keys);
      NextPlace(z, t, w, e, h);
      ghost var z1, t1, h1 := PlaceAfter(z, t), TreeAfter(z, t), HeightAfter(z, t, h);
      nextp := if r < 0 then LeftOf(root) else RightOf(root);
      SearchingDown(z1, t1, h1, e, keys);
      z', c, k := Deeper(z1, t1, e, at), Toward1(t1, e, at), if t1.red then h1 else h1 - 1;
    }

    /** The place that one iteration of tsearch2 leads to, what it remembers there, and that the descent
        comes nearer to its end. */
    lemma NextPlace(z: Zipper, t: Shape, w: Trail, e: Entry, h: nat)
      requires OnTrail(z, t, w, e, at) && Balanced(t, h) && Fits(z, h, IsRed(t))
      requires Toward(z, e, at) && Rank(e, at) != Rank(t.key, at) && (BothRed(t) ==> Splittable(z))
      ensures var t', h' := TreeAfter(z, t), HeightAfter(z, t, h);
        && t'.Branch? && t'.node == t.node && t'.key == t.key && (t'.red || h' > 0)
        && Fuel(Toward1(t', e, at), if t'.red then h' else h' - 1, e, at) < Fuel(t, h, e, at)
      ensures var z', t', r := PlaceAfter(z, t), TreeAfter(z, t), Compare(e, t.key, at);
        var d, c := Deeper(z', t', e, at), Toward1(t', e, at);
        && (c.Branch? ==> OnTrail(d, c, Trail(SlotOf(z), w.parentp, r, w.pR), e, at))
        && (c.Leaf? ==>
              && Splittable(d) && SlotOf(z) == SlotOf(d.above) && Sign(r, d.onLeft)
              && (TwoRedEdges(d) ==> w.parentp == SlotOf(d.above.above) && Sign(w.pR, d.above.onLeft)))
    {
      NextNear(z, t, w, e, at, h);
      NextFuel(z, t, w, e, at, h);
      if Toward1(TreeAfter(z, t), e, at).Leaf? {
        EndAfter(z, t, w, e, h);
      }
    }

    lemma SearchingDown(z: Zipper, t: Shape, h: nat, e: Entry, keys: seq<Entry>)
      requires Searching(z, t, h, e, keys) && t.Branch? && Rank(e, at) != Rank(t.key, at)
      ensures t.red || h > 0
      ensures Searching(Deeper(z, t, e, at), Toward1(t, e, at), if t.red then h else h - 1, e, keys)
    {
      DescendKeys(z, t, e, at, h);
      AtJoin(H(), Deeper(z, t, e, at), Toward1(t, e, at));
    }

    lemma EndAfter(z: Zipper, t: Shape, w: Trail, e: Entry, h: nat)
      requires OnTrail(z, t, w, e, at) && Rank(e, at) != Rank(t.key, at) && Toward(z, e, at)
      requires BothRed(t) ==> Splittable(z)
      requires Balanced(t, h) && Fits(z, h, IsRed(t))
      requires Toward1(TreeAfter(z, t), e, at).Leaf?
      ensures !BothRed(t) && Splittable(Deeper(z, t, e, at))
      ensures t.red ==> ParentKnown(z, w) && z.Down?
    {
      if BothRed(t) {
        NearSplits(z, t, w, e, at, h);
        assert false;
      }
      EndNear(z, t, w, e, at);
    }

    /** The loop of tsearch2: either an equal entry is met, or an empty slot is reached. */
    method FindPlace(e: Entry)
      returns (found: Entry?, nextp: Slot, rootp: Slot, parentp: Slot, r: int, pR: int,
               ghost z: Zipper, ghost t: Shape, ghost h: nat)
      requires Valid()
      modifies this`root, nodes
      ensures Searching(z, t, h, e, Keys(shape))
      ensures found != null ==> found in Keys(shape) && Rank(found, at) == Rank(e, at)
      ensures found == null ==>
        && t.Leaf? && h == 0 && nextp == SlotOf(z) && (nextp != rootp <==> z.Down?) && Splittable(z)
        && (z.Down? ==> rootp == SlotOf(z.above) && Sign(r, z.onLeft))
        && (TwoRedEdges(z) ==> parentp == SlotOf(z.above.above) && Sign(pR, z.above.onLeft))
    {
      z, found := Top, null;
      t, h := BlackenRoot();
      TopKeys(t);
      var gparentp, gpR := NoSlot, 0;
      rootp, parentp, r, pR := RootSlot, NoSlot, 0, 0;
      nextp := rootp;
      SlotHolds(H(), z, t);
      while Load(nextp) != null
        invariant nextp == rootp == SlotOf(z) && found == null
        invariant Searching(z, t, h, e, Keys(shape))
        invariant Legal(H(), nextp) && Load(nextp) == Pointer(t)
        invariant if t.Leaf? then z == Top && h == 0 else OnTrail(z, t, Trail(parentp, gparentp, pR, gpR), e, at)
        decreases Fuel(t, h, e, at)
      {
        found, r, nextp, z, t, h := PlaceStep(rootp, parentp, gparentp, pR, gpR, e, z, t, h);
        if found != null || Load(nextp) == null {
          return;
        }
        gparentp, parentp, rootp := parentp, rootp, nextp;
        gpR, pR := pR, r;
      }
      SlotHolds(H(), z, t);
    }

    /** One iteration: an equal entry, or one level down. */
    method PlaceStep(rootp: Slot, parentp: Slot, gparentp: Slot, pR: int, gpR: int, e: Entry,
                     ghost z0: Zipper, ghost t0: Shape, ghost h0: nat)
      returns (found: Entry?, r: int, nextp: Slot, ghost z: Zipper, ghost t: Shape, ghost h: nat)
      requires Searching(z0, t0, h0, e, Keys(shape)) && rootp == SlotOf(z0) && t0.Branch?
      requires OnTrail(z0, t0, Trail(parentp, gparentp, pR, gpR), e, at)
      modifies this`root, nodes
      ensures Searching(z, t, h, e, Keys(shape))
      ensures found != null ==> found in Keys(shape) && Rank(found, at) == Rank(e, at)
      ensures found == null ==>
        && nextp == SlotOf(z) && nextp != rootp && z.Down? && Legal(H(), nextp) && Load(nextp) == Pointer(t)
        && Fuel(t, h, e, at) < Fuel(t0, h0, e, at)
        && (t.Branch? ==> OnTrail(z, t, Trail(rootp, parentp, r, pR), e, at))
        && (t.Leaf? ==>
              && h == 0 && Splittable(z) && rootp == SlotOf(z.above) && Sign(r, z.onLeft)
              && (TwoRedEdges(z) ==> parentp == SlotOf(z.above.above) && Sign(pR, z.above.onLeft)))
    {
      z, t, h := z0, t0, h0;
      SlotHolds(H(), z, t);
      var root := Load(rootp);
      r, nextp := Compare(e, root.key, at), rootp;
      if r == 0 {
        FoundHere(z, t, Keys(shape));
        found := root.key;
      } else {
        found := null;
        nextp, z, t, h := Descend(root, rootp, parentp, gparentp, r, pR, gpR, e, z, t, h, Keys(shape));
        SlotHolds(H(), z, t);
      }
    }

    /** tsearch2: find or insert.  Returns the stored entry that equals `e`, or `e` itself once it
        has been put at position `pos` of the order. */
    method TSearch(e: Entry) returns (leaf: Entry, ghost pos: nat)
      requires Valid()
      modifies this, nodes
      ensures Valid() && forall n :: n in nodes && n !in old(nodes) ==> fresh(n)
      ensures if exists k :: k in old(Keys(shape)) && Rank(k, at) == Rank(e, at)
        then leaf in old(Keys(shape)) && Rank(leaf, at) == Rank(e, at) && Keys(shape) == old(Keys(shape))
        else leaf == e && pos <= |old(Keys(shape))| && Keys(shape) == Inserted(old(Keys(shape)), pos, e)
    {
      var found, nextp, rootp, parentp, r, pR;
      ghost var z, t, h;
      found, nextp, rootp, parentp, r, pR, z, t, h := FindPlace(e);
      if found != null {
        leaf, pos := found, 0;
        Settle(z, t, h, Keys(shape));
      } else {
        var q := Attach(nextp, rootp, parentp, r, pR, e, z, Keys(shape));
        leaf, pos := e, |Before(z)|;
      }
    }

    lemma TopKeys(t: Shape)
      ensures Before(Top) + Keys(t) + After(Top) == Keys(t)
    {
    }

    lemma FoundHere(z: Zipper, t: Shape, keys: seq<Entry>)
      requires t.Branch? && Before(z) + Keys(t) + After(z) == keys
      ensures t.key in keys
    {
      assert keys[|Before(z)| + |Keys(t.left)|] == t.key;
    }

    /** What a plain search knows at each node. */
    ghost predicate Seeking(z: Zipper, t: Shape, e: Entry)
      reads this`root, this`nodes, this`shape, nodes
    {
      && At(H(), z, t) && Toward(z, e, at) && Plug(z, t) == shape
      && Before(z) + Keys(t) + After(z) == Keys(shape)
    }

    lemma SeekingDown(z: Zipper, t: Shape, e: Entry)
      requires Seeking(z, t, e) && t.Branch? && Rank(e, at) != Rank(t.key, at)
      ensures Seeking(Deeper(z, t, e, at), Toward1(t, e, at), e)
      ensures t.node in nodes && t.node.key == t.key
      ensures t.node.left == Pointer(t.left) && t.node.right == Pointer(t.right)
    {
      BelowFields(H(), t);
      JoinKeys(Deeper(z, t, e, at), Toward1(t, e, at));
      AtJoin(H(), Deeper(z, t, e, at), Toward1(t, e, at));
    }

    lemma SeekingEnds(z: Zipper, e: Entry)
      requires Seeking(z, Leaf, e) && Sorted(Keys(shape), at)
      ensures forall k :: k in Keys(shape) ==> Rank(k, at) != Rank(e, at)
    {
      assert Before(z) + Keys(Leaf) + After(z) == Before(z) + After(z);
      TowardSplits(z, Leaf, e, at);
    }

    /** tfind2: follow the comparisons down to an equal entry. */
    method TFind(e: Entry) returns (found: Entry?)
      requires Valid()
      ensures found != null ==> found in Keys(shape) && Rank(found, at) == Rank(e, at)
      ensures found == null ==> forall k :: k in Keys(shape) ==> Rank(k, at) != Rank(e, at)
    {
      ghost var z, t := Top, shape;
      var x := root;
      TopKeys(t);
      while x != null
        invariant Seeking(z, t, e) && x == Pointer(t)
        decreases t
      {
        BelowFields(H(), t);
        var r := Compare(e, x.key, at);
        if r == 0 {
          FoundHere(z, t, Keys(shape));
          return x.key;
        }
        SeekingDown(z, t, e);
        z, t := Deeper(z, t, e, at), Toward1(t, e, at);
        x := if r < 0 then x.left else x.right;
      }
      SeekingEnds(z, e);
      found := null;
    }

    // ---------- deletion ----------

    /** P sinks below its child Q, and they swap colours. */
    method RotateSiblingUp(p: Node, q: Node, left: bool)
      requires p in nodes && q in nodes && p != q
      modifies nodes
      ensures LeaningRotated(old(H()), H(), p, q, left)
    {
      q.red := false;
      p.red := true;
      if left {
        p.right := q.left;
        q.left := p;
      } else {
        p.left := q.right;
        q.right := p;
      }
    }

    /** The grandchild on R's side rises above P and Q and inherits the colour of P. */
    method RaiseNear(p: Node, q: Node, q2: Node, left: bool)
      requires p in nodes && q in nodes && q2 in nodes && p != q && p != q2 && q != q2
      modifies nodes
      ensures NearRaised(old(H()), H(), p, q, q2, left)
    {
      q2.red := p.red;
      if left {
        p.right := q2.left;
        q.left := q2.right;
        q2.right := q;
        q2.left := p;
      } else {
        p.left := q2.right;
        q.right := q2.left;
        q2.left := q;
        q2.right := p;
      }
      p.red := false;
    }

    /** Q rises above P and inherits its colour; the nodes below Q turn black. */
    method RaiseFar(p: Node, q: Node, f: Node, left: bool)
      requires p in nodes && q in nodes && f in nodes && p != q && p != f && q != f
      requires f == (if left then q.right else q.left)
      modifies nodes
      ensures FarRaised(old(H()), H(), p, q, f, left)
    {
      q.red := p.red;
      p.red := false;
      f.red := false;
      if left {
        p.right := q.left;
        q.left := p;
      } else {
        p.left := q.right;
        q.right := p;
      }
    }

    /** The rotation for a red Q. */
    method HangSibling(pp: Slot, p: Node, q: Node, left: bool,
                       ghost z: Zipper, ghost d: Shape, ghost h: nat, ghost keys: seq<Entry>)
      requires ShortAt(H(), z, d, h, keys) && z.Down? && IsRed(z.sibling)
      requires p == z.node && q == z.sibling.node && left == z.onLeft && pp == SlotOf(z.above)
      modifies this`root, nodes
      ensures ShortAt(H(), SiblingRed(z), d, h, keys)
      ensures SiblingRed(z).sibling.Branch? && !IsRed(SiblingRed(z).sibling)
    {
      ghost var m := H();
      StepFields(m, z, d, h, keys);
      RotateSiblingUp(p, q, left);
      SiblingRedDone(m, H(), z, d, h, keys);
      Store(pp, q);
    }

    /** The locals of an iteration: P, its slot, its child Q across from R. */
    ghost predicate Locals(z: Zipper, pp: Slot, p: Node, q: Node, left: bool) {
      && z.Down? && z.sibling.Branch?
      && p == z.node && q == z.sibling.node && left == z.onLeft && pp == SlotOf(z.above)
    }

    ghost predicate Stacked(nodestack: seq<Slot>, sp: nat, z: Zipper) {
      |nodestack| == 100 && sp <= 100 && nodestack[..sp] == StackOf(z)
    }

    /** If Q is red, rotate so that R's brother is black; the stack grows by one slot. */
    method MakeSiblingBlack(stack: seq<Slot>, sp0: nat, pp0: Slot, p: Node, q0: Node, left: bool,
                            ghost z: Zipper, ghost d: Shape, ghost h: nat, ghost keys: seq<Entry>)
      returns (nodestack: seq<Slot>, sp: nat, pp: Slot, q: Node, ghost z': Zipper)
      requires ShortAt(H(), z, d, h, keys) && Locals(z, pp0, p, q0, left)
      requires Stacked(stack, sp0, z) && 0 < sp0 < 100
      modifies this`root, nodes
      ensures ShortAt(H(), z', d, h, keys) && Locals(z', pp, p, q, left) && !z'.sibling.red
      ensures Stacked(nodestack, sp, z') && sp == if IsRed(z.sibling) then sp0 + 1 else sp0
      ensures IsRed(z.sibling) ==> z'.red
    {
      StepFields(H(), z, d, h, keys);
      nodestack, sp, pp, q, z' := stack, sp0, pp0, q0, z;
      if q.red {
        HangSibling(pp, p, q, left, z, d, h, keys);
        z' := SiblingRed(z);
        StepFields(H(), z', d, h, keys);
        pp := if left then LeftOf(q) else RightOf(q);
        StackPush(nodestack, sp, z, pp);
        nodestack := nodestack[sp := pp];
        sp := sp + 1;
        q := if left then p.right else p.left;
      }
    }

    /** With black children on both sides Q can turn red. */
    method PaintSibling(q: Node, ghost z: Zipper, ghost d: Shape, ghost h: nat, ghost keys: seq<Entry>)
      requires ShortAt(H(), z, d, h, keys) && z.Down? && !IsRed(d) && z.sibling.Branch? && !z.sibling.red
      requires !IsRed(z.sibling.left) && !IsRed(z.sibling.right)
      requires q == z.sibling.node
      modifies nodes
      ensures ShortAt(H(), z.above, SiblingPainted(z, d), if z.red then h else h + 1, keys)
    {
      ghost var m := H();
      StepFields(m, z, d, h, keys);
      q.red := true;
      SiblingPaintedDone(m, H(), z, d, h, keys);
    }

    /** Q is black and one of its successors is red: one operation repairs the tree. */
    method Finish(pp: Slot, p: Node, q: Node, left: bool,
                  ghost z: Zipper, ghost d: Shape, ghost h: nat, ghost keys: seq<Entry>)
      returns (ghost t: Shape)
      requires ShortAt(H(), z, d, h, keys) && z.Down? && !IsRed(d) && z.sibling.Branch? && !z.sibling.red
      requires IsRed(z.sibling.left) || IsRed(z.sibling.right)
      requires p == z.node && q == z.sibling.node && left == z.onLeft && pp == SlotOf(z.above)
      modifies this`root, nodes
      ensures BalancedAt(H(), z.above, t, HeightAt(z, h), keys)
    {
      ghost var m := H();
      StepFields(m, z, d, h, keys);
      var far := if left then q.right else q.left;
      if far == null || !far.red {
        var q2 := if left then q.left else q.right;
        t := NephewNear(z, d);
        RaiseNear(p, q, q2, left);
        NearDone(m, H(), z, d, h, keys);
        Store(pp, q2);
      } else {
        t := NephewFar(z, d);
        RaiseFar(p, q, far, left);
        FarDone(m, H(), z, d, h, keys);
        Store(pp, q);
      }
    }

    /** Where the loop stops, R is painted black. */
    method PaintLast(r: Node?, ghost done: bool, ghost z: Zipper, ghost d: Shape, ghost h: nat, ghost keys: seq<Entry>)
      returns (ghost k: nat)
      requires done ==> r == null && BalancedAt(H(), z, d, h, keys)
      requires !done ==> ShortAt(H(), z, d, h, keys) && r == Pointer(d) && (IsRed(d) || z.Top?)
      modifies nodes
      ensures BalancedAt(H(), z, if done then d else Blacken(d), k, keys)
    {
      ghost var m := H();
      assert d.Branch? ==> d.node in Nodes(d);
      if r != null {
        r.red := false;
      }
      k := h;
      if !done {
        k := LastPaint(m, H(), z, d, h, keys);
      }
    }

    /** Q is black: colour it red and go up with R = P, or repair the tree and be done (R = null). */
    method Resolve(pp: Slot, p: Node, q: Node, left: bool,
                   ghost z: Zipper, ghost d: Shape, ghost h: nat, ghost keys: seq<Entry>)
      returns (r: Node?, ghost done: bool, ghost z': Zipper, ghost d': Shape, ghost h': nat)
      requires ShortAt(H(), z, d, h, keys) && z.Down? && !IsRed(d) && z.sibling.Branch? && !z.sibling.red
      requires p == z.node && q == z.sibling.node && left == z.onLeft && pp == SlotOf(z.above)
      modifies this`root, nodes
      ensures z' == z.above && done == (r == null)
      ensures done ==> BalancedAt(H(), z', d', h', keys)
      ensures !done ==> ShortAt(H(), z', d', h', keys) && r == Pointer(d') && IsRed(d') == z.red
    {
      StepFields(H(), z, d, h, keys);
      z' := z.above;
      if (q.left == null || !q.left.red) && (q.right == null || !q.right.red) {
        PaintSibling(q, z, d, h, keys);
        d', h', done := SiblingPainted(z, d), if z.red then h else h + 1, false;
        r := p;
      } else {
        d' := Finish(pp, p, q, left, z, d, h, keys);
        h', done := HeightAt(z, h), true;
        r := null;
      }
    }

    /** One iteration of the repair loop; sp is 1 and R null when the tree is complete. */
    method RepairStep(stack: seq<Slot>, sp0: nat, r0: Node?,
                      ghost z0: Zipper, ghost d0: Shape, ghost h0: nat, ghost keys: seq<Entry>)
      returns (nodestack: seq<Slot>, sp: nat, r: Node?,
               ghost done: bool, ghost z: Zipper, ghost d: Shape, ghost h: nat)
      requires ShortAt(H(), z0, d0, h0, keys) && r0 == Pointer(d0) && !IsRed(d0)
      requires |stack| == 100 && 0 < sp0 < 100 && stack[..sp0] == StackOf(z0)
      modifies this`root, nodes
      ensures |nodestack| == 100 && sp < 100
      ensures done ==> sp == 0 && r == null && BalancedAt(H(), z, d, h, keys)
      ensures !done ==> ShortAt(H(), z, d, h, keys) && r == Pointer(d) && nodestack[..sp] == StackOf(z)
      ensures done || IsRed(d) || sp < sp0
    {
      var pp, p, q, left;
      nodestack, sp, pp, p, q, left, z := Approach(stack, sp0, r0, z0, d0, h0, keys);
      r, done, z, d, h := Resolve(pp, p, q, left, z, d0, h0, keys);
      sp := if r == null then 0 else sp - 1;
    }

    /** The nodes that an iteration works on; R's brother is black then. */
    method Approach(stack: seq<Slot>, sp0: nat, r: Node?,
                    ghost z0: Zipper, ghost d: Shape, ghost h: nat, ghost keys: seq<Entry>)
      returns (nodestack: seq<Slot>, sp: nat, pp: Slot, p: Node, q: Node, left: bool, ghost z: Zipper)
      requires ShortAt(H(), z0, d, h, keys) && r == Pointer(d) && !IsRed(d)
      requires Stacked(stack, sp0, z0) && 0 < sp0 < 100
      modifies this`root, nodes
      ensures ShortAt(H(), z, d, h, keys) && Locals(z, pp, p, q, left) && !z.sibling.red
      ensures |nodestack| == 100 && 0 < sp <= 100 && nodestack[..sp - 1] == StackOf(z.above)
      ensures sp <= sp0 || (sp == sp0 + 1 && z.red)
    {
      pp := stack[sp0 - 1];
      StackDown(stack, sp0, z0);
      StepFields(H(), z0, d, h, keys);
      p := Load(pp);
      left := r == p.left;
      q := if left then p.right else p.left;
      nodestack, sp, pp, q, z := MakeSiblingBlack(stack, sp0, pp, p, q, left, z0, d, h, keys);
      StackDown(nodestack, sp, z);
    }

    /** The repair loop: R, at place `z0`, misses a black node.  `nodestack[..sp]` holds the slots
        of the nodes above it. */
    method Repair(stack: seq<Slot>, sp0: nat, r0: Node?,
                  ghost z0: Zipper, ghost d0: Shape, ghost h0: nat, ghost keys: seq<Entry>)
      returns (ghost z: Zipper, ghost d: Shape, ghost h: nat)
      requires ShortAt(H(), z0, d0, h0, keys) && r0 == Pointer(d0)
      requires |stack| == 100 && sp0 < 100 && stack[..sp0] == StackOf(z0)
      modifies this`root, nodes
      ensures BalancedAt(H(), z, d, h, keys)
    {
      z, d, h := z0, d0, h0;
      var nodestack, sp: nat, r := stack, sp0, r0;
      ghost var done := false;
      RedField(r, z, d);
      while sp > 0 && (r == null || !r.red)
        invariant |nodestack| == 100 && sp < 100
        invariant done ==> sp == 0 && r == null && BalancedAt(H(), z, d, h, keys)
        invariant !done ==> ShortAt(H(), z, d, h, keys) && r == Pointer(d) && nodestack[..sp] == StackOf(z)
        invariant !done && r != null ==> r.red == IsRed(d)
        decreases if done then 0 else if IsRed(d) then 1 else 2 + sp
      {
        nodestack, sp, r, done, z, d, h := RepairStep(nodestack, sp, r, z, d, h, keys);
        if !done {
          RedField(r, z, d);
        }
      }
      if !done {
        StackTop(nodestack, sp, z);
      }
      h := PaintLast(r, done, z, d, h, keys);
      d := if done then d else Blacken(d);
    }

    lemma RedField(r: Node?, z: Zipper, d: Shape)
      requires At(H(), z, d) && r == Pointer(d)
      ensures r != null ==> r.red == IsRed(d)
    {
    }

    lemma StackDown(s: seq<Slot>, sp: nat, z: Zipper)
      requires 0 < sp <= |s| && s[..sp] == StackOf(z)
      ensures z.Down? && s[sp - 1] == SlotOf(z.above) && s[..sp - 1] == StackOf(z.above)
    {
      assert s[..sp][..sp - 1] == s[..sp - 1];
    }

    lemma StackPush(s: seq<Slot>, sp: nat, z: Zipper, pp: Slot)
      requires 0 < sp < |s| && s[..sp] == StackOf(z) && z.Down? && z.sibling.Branch?
      requires pp == SlotOf(SiblingRed(z).above)
      ensures s[sp := pp][..sp + 1] == StackOf(SiblingRed(z))
    {
      assert s[sp := pp][..sp + 1] == s[..sp] + [pp];
    }

    lemma StackTop(s: seq<Slot>, sp: nat, z: Zipper)
      requires sp <= |s| && s[..sp] == StackOf(z)
      ensures sp == 0 ==> z.Top?
    {
    }

    /** Every place of a tree of at most 2^50 - 2 nodes is less than 99 slots deep. */
    lemma DeepEnough(z: Zipper, t: Shape)
      requires RedBlack(Plug(z, t)) && |Keys(Plug(z, t))| + 1 < Pow2(50) && t.Branch?
      ensures Depth(z) < 99
    {
      SizeIsKeys(Plug(z, t));
      HeightBound(Plug(z, t), 49);
      DepthBound(z, t);
    }

    /** The tree is searchable, and not too deep for the stack. */
    ghost predicate Shallow()
      reads this`shape
    {
      RedBlack(shape) && Sorted(Keys(shape), at) && |Keys(shape)| + 1 < Pow2(50)
    }

    method Probe(rootp: Slot, e: Entry, ghost z: Zipper, ghost t: Shape) returns (p: Node, cmp: int)
      requires At(H(), z, t) && t.Branch? && rootp == SlotOf(z)
      ensures p == t.node && cmp == Compare(e, t.key, at)
    {
      SlotHolds(H(), z, t);
      BelowFields(H(), t);
      p := Load(rootp);
      cmp := Compare(e, p.key, at);
    }

    /** One step of that loop: the slot is remembered, and the next one taken. */
    method SeekOn(p: Node, cmp: int, rootp: Slot, stack: seq<Slot>, sp: nat, e: Entry, ghost z: Zipper, ghost t: Shape)
      returns (next: Slot, nodestack: seq<Slot>, ghost z': Zipper, ghost t': Shape)
      requires Shallow()
      requires Seeking(z, t, e) && t.Branch? && rootp == SlotOf(z) && Stacked(stack, sp, z)
      requires p == t.node && cmp == Compare(e, t.key, at) && cmp != 0
      ensures Seeking(z', t', e) && next == SlotOf(z') && Stacked(nodestack, sp + 1, z')
      ensures t' < t && Legal(H(), next) && Load(next) == Pointer(t')
    {
      StackDepth(z);
      DeepEnough(z, t);
      if sp == |stack| {
        assert false;  // abort()
      }
      SeekingDown(z, t, e);
      PushSlot(stack, sp, z, Deeper(z, t, e, at), rootp);
      nodestack := stack[sp := rootp];
      z', t' := Deeper(z, t, e, at), Toward1(t, e, at);
      next := if cmp < 0 then LeftOf(p) else RightOf(p);
      SlotHolds(H(), z', t');
    }

    /** The step, and whether it ends at an empty slot. */
    method SeekNext(p: Node, cmp: int, rootp: Slot, stack: seq<Slot>, sp: nat, e: Entry,
                    ghost z: Zipper, ghost t: Shape)
      returns (end: bool, next: Slot, nodestack: seq<Slot>, ghost z': Zipper, ghost t': Shape)
      requires Shallow()
      requires Seeking(z, t, e) && t.Branch? && rootp == SlotOf(z) && Stacked(stack, sp, z)
      requires p == t.node && cmp == Compare(e, t.key, at) && cmp != 0
      ensures Seeking(z', t', e) && next == SlotOf(z') && Stacked(nodestack, sp + 1, z')
      ensures t' < t && end == t'.Leaf?
      ensures end ==> forall k :: k in Keys(shape) ==> Rank(k, at) != Rank(e, at)
    {
      next, nodestack, z', t' := SeekOn(p, cmp, rootp, stack, sp, e, z, t);
      end := Load(next) == null;
      if end {
        SeekingEnds(z', e);
      }
    }

    /** The first loop of tdelete2: find the node, remembering the slots passed. */
    method Locate(e: Entry)
      returns (found: bool, rootp: Slot, nodestack: seq<Slot>, sp: nat, ghost z: Zipper, ghost t: Shape)
      requires Valid() && |Keys(shape)| + 1 < Pow2(50) && root != null
      ensures Seeking(z, t, e)
      ensures found ==> t.Branch? && Rank(t.key, at) == Rank(e, at)
      ensures found ==> rootp == SlotOf(z) && Stacked(nodestack, sp, z)
      ensures !found ==> forall k :: k in Keys(shape) ==> Rank(k, at) != Rank(e, at)
    {
      TopKeys(shape);
      found, rootp, nodestack, sp, z, t := Walk(e);
    }

    method Walk(e: Entry)
      returns (found: bool, rootp: Slot, nodestack: seq<Slot>, sp: nat, ghost z: Zipper, ghost t: Shape)
      requires Shallow() && Seeking(Top, shape, e) && shape.Branch?
      ensures Seeking(z, t, e)
      ensures found ==> t.Branch? && Rank(t.key, at) == Rank(e, at)
      ensures found ==> rootp == SlotOf(z) && Stacked(nodestack, sp, z)
      ensures !found ==> forall k :: k in Keys(shape) ==> Rank(k, at) != Rank(e, at)
    {
      z, t := Top, shape;
      rootp, nodestack, sp := RootSlot, seq(100, _ => NoSlot), 0;
      while true
        invariant Seeking(z, t, e) && t.Branch? && rootp == SlotOf(z)
        invariant Stacked(nodestack, sp, z)
        decreases t
      {
        var p, cmp := Probe(rootp, e, z, t);
        if cmp == 0 {
          found := true;
          return;
        }
        var end;
        end, rootp, nodestack, z, t := SeekNext(p, cmp, rootp, nodestack, sp, e, z, t);
        sp := sp + 1;
        if end {
          found := false;
          return;
        }
      }
    }

    lemma PushSlot(s: seq<Slot>, sp: nat, z: Zipper, z': Zipper, pp: Slot)
      requires Stacked(s, sp, z) && sp < 100 && z'.Down? && z'.above == z && pp == SlotOf(z)
      ensures Stacked(s[sp := pp], sp + 1, z')
    {
      assert s[sp := pp][..sp + 1] == s[..sp] + [pp];
    }

    /** The walk to the successor of a node with two children: right once, then left to the end. */
    method FindSuccessor(rootp: Slot, root: Node, stack: seq<Slot>, sp0: nat, ghost z: Zipper, ghost t: Shape)
      returns (up: Slot, nodestack: seq<Slot>, sp: nat)
      requires At(H(), z, t) && t.Branch? && t.right.Branch? && root == t.node && rootp == SlotOf(z)
      requires Stacked(stack, sp0, z)
      requires RedBlack(Plug(z, t)) && |Keys(Plug(z, t))| + 1 < Pow2(50)
      ensures var b := Down(false, t.node, t.key, t.red, t.left, z);
        && up == SlotOf(FirstPlace(b, t.right)) && Stacked(nodestack, sp, FirstPlace(b, t.right))
        && At(H(), FirstPlace(b, t.right), First(t.right))
    {
      ghost var b := Down(false, t.node, t.key, t.red, t.left, z);
      ghost var w, s := b, t.right;
      var parent := rootp;
      up := RightOf(root);
      nodestack, sp := stack, sp0;
      AtJoin(H(), b, s);
      while true
        invariant At(H(), w, s) && s.Branch? && w.Down?
        invariant Plug(w, s) == Plug(z, t)
        invariant FirstPlace(w, s) == FirstPlace(b, t.right) && First(s) == First(t.right)
        invariant up == SlotOf(w) && parent == SlotOf(w.above) && Stacked(nodestack, sp, w.above)
        decreases s
      {
        SlotHolds(H(), w, s);
        BelowFields(H(), s);
        StackDepth(w.above);
        DeepEnough(w, s);
        if sp == |nodestack| {
          assert false;  // abort()
        }
        PushSlot(nodestack, sp, w.above, w, parent);
        nodestack := nodestack[sp := parent];
        sp := sp + 1;
        parent := up;
        var x := Load(up);
        if x.left == null {
          return;
        }
        up := LeftOf(x);
        ghost var w' := Down(true, s.node, s.key, s.red, s.right, w);
        AtJoin(H(), w', s.left);
        w, s := w', s.left;
      }
    }

    /** Write R where UNCHAINED hangs: in the root slot, or in the right or left child of its parent. */
    method Rehang(unchained: Node, r: Node?, rootp: Slot, nodestack: seq<Slot>, sp: nat,
                  ghost z: Zipper, ghost u: Shape)
      requires At(H(), z, u) && u.Branch? && unchained == u.node && Stacked(nodestack, sp, z)
      requires z.Top? ==> rootp == SlotOf(z)
      modifies this`root, nodes
      ensures Legal(old(H()), SlotOf(z)) && H() == Put(old(H()), SlotOf(z), r)
    {
      SlotHolds(H(), z, u);
      if sp == 0 {
        StackTop(nodestack, sp, z);
        Store(rootp, r);
      } else {
        StackDown(nodestack, sp, z);
        AroundFields(H(), z, u.node);
        NotTwice(H(), z, u);
        SlotLegal(H(), H(), z.above, z.node);
        var q := Load(nodestack[sp - 1]);
        Store(if unchained == q.right then RightOf(q) else LeftOf(q), r);
      }
    }

    /** The child of a node that has at most one. */
    method ChildOf(unchained: Node, ghost z: Zipper, ghost u: Shape) returns (r: Node?)
      requires At(H(), z, u) && u.Branch? && (u.left.Leaf? || u.right.Leaf?) && unchained == u.node
      ensures r == Pointer(OnlyChild(u))
    {
      BelowFields(H(), u);
      r := unchained.left;
      if r == null {
        r := unchained.right;
      }
    }

    /** The node that goes leaves its child to its parent and its key to the node that stays. */
    method Unchain(unchained: Node, root: Node, rootp: Slot, nodestack: seq<Slot>, sp: nat,
                   ghost z: Zipper, ghost u: Shape)
      returns (r: Node?)
      requires At(H(), z, u) && u.Branch? && (u.left.Leaf? || u.right.Leaf?)
      requires unchained == u.node && root in nodes && Stacked(nodestack, sp, z)
      requires z.Top? ==> rootp == SlotOf(z)
      modifies this`root, this`nodes, nodes
      ensures nodes == old(nodes) - {unchained} && r == Pointer(OnlyChild(u))
      ensures Legal(old(H()), SlotOf(z)) && CutOut(old(H()), H(), z, u, root, u.key)
    {
      ghost var m := H();
      r := ChildOf(unchained, z, u);
      Rehang(unchained, r, rootp, nodestack, sp, z, u);
      CutKey(unchained, root);
      CutOutIs(m, H(), z, u, root);
    }

    /** The key of one node is now that of another, which is gone. */
    ghost predicate KeyMoved(q: Heap, m: Heap, unchained: Node, root: Node)
      requires unchained in q.cells
    {
      && m.root == q.root && m.cells.Keys == q.cells.Keys - {unchained}
      && forall x :: x in m.cells ==>
           m.cells[x] == if x == root then q.cells[x].(key := q.cells[unchained].key) else q.cells[x]
    }

    lemma CutOutIs(m: Heap, m': Heap, z: Zipper, u: Shape, root: Node)
      requires At(m, z, u) && u.Branch? && Legal(m, SlotOf(z)) && u.node in m.cells
      requires KeyMoved(Put(m, SlotOf(z), Pointer(OnlyChild(u))), m', u.node, root)
      ensures CutOut(m, m', z, u, root, u.key)
    {
      BelowFields(m, u);
    }

    /** A child hangs on one side of its parent only. */
    lemma NotTwice(m: Heap, z: Zipper, u: Shape)
      requires At(m, z, u) && z.Down? && u.Branch?
      ensures Pointer(z.sibling) != u.node
    {
      assert z.sibling.Branch? ==> z.sibling.node in PathNodes(z);
      assert u.node in Nodes(u);
    }

    /** The key moves over, and its node is no longer part of the tree. */
    method CutKey(unchained: Node, root: Node)
      requires unchained in nodes && root in nodes
      modifies this`nodes, nodes
      ensures nodes == old(nodes) - {unchained} && KeyMoved(old(H()), H(), unchained, root)
    {
      if unchained != root {
        root.key := unchained.key;
      }
      nodes := nodes - {unchained};
    }

    /** Choose the node to unchain: the node itself, or its successor if it has two children. */
    method ChooseUnchained(rootp: Slot, root: Node, stack: seq<Slot>, sp0: nat, ghost z: Zipper, ghost t: Shape)
      returns (unchained: Node, nodestack: seq<Slot>, sp: nat, ghost zu: Zipper, ghost u: Shape)
      requires At(H(), z, t) && t.Branch? && root == t.node && rootp == SlotOf(z) && Stacked(stack, sp0, z)
      requires RedBlack(Plug(z, t)) && |Keys(Plug(z, t))| + 1 < Pow2(50)
      ensures Chosen(z, t, zu, u)
      ensures At(H(), zu, u) && u.Branch? && unchained == u.node && Stacked(nodestack, sp, zu)
      ensures Depth(zu) < 99 && PathNodes(zu) + Nodes(u) == PathNodes(z) + Nodes(t)
    {
      BelowFields(H(), t);
      DeepEnough(z, t);
      if root.left == null || root.right == null {
        unchained, nodestack, sp, zu, u := root, stack, sp0, z, t;
      } else {
        var up;
        ghost var m := H();
        up, nodestack, sp := FindSuccessor(rootp, root, stack, sp0, z, t);
        ghost var b := Down(false, t.node, t.key, t.red, t.left, z);
        zu, u := FirstPlace(b, t.right), First(t.right);
        FirstKeys(b, t.right);
        DeepEnough(zu, u);
        SameNodes(m, z, t, zu, u);
        SlotHolds(H(), zu, u);
        unchained := Load(up);
      }
    }

    /** `u` at `zu` is what a deletion of `t` at `z` unchains. */
    ghost predicate Chosen(z: Zipper, t: Shape, zu: Zipper, u: Shape) {
      && t.Branch?
      && if t.left.Leaf? || t.right.Leaf? then zu == z && u == t
         else zu == FirstPlace(Down(false, t.node, t.key, t.red, t.left, z), t.right) && u == First(t.right)
    }

    /** What unchaining leaves: the shape facts that do not concern the heap. */
    lemma UnchainedShape(z: Zipper, t: Shape, zu: Zipper, u: Shape, keys: seq<Entry>)
      returns (pos: nat, rest: seq<Entry>)
      requires Chosen(z, t, zu, u) && RedBlack(Plug(z, t)) && Apart(z, t)
      requires keys == Before(z) + Keys(t) + After(z) && Sorted(keys, at)
      ensures Cuttable(zu, u, t.node, rest) && (zu.Top? ==> zu == z)
      ensures pos < |keys| && keys[pos] == t.key && rest == Removed(keys, pos) && Sorted(rest, at)
    {
      pos := |Before(z)| + |Keys(t.left)|;
      if t.left.Leaf? || t.right.Leaf? {
        rest := UnchainedSelf(z, t, keys, pos);
      } else {
        rest := UnchainedSuccessor(z, t, zu, u, keys, pos);
      }
      RemoveSorted(keys, pos, at);
    }

    lemma UnchainedSelf(z: Zipper, t: Shape, keys: seq<Entry>, pos: nat) returns (rest: seq<Entry>)
      requires t.Branch? && (t.left.Leaf? || t.right.Leaf?) && RedBlack(Plug(z, t)) && Apart(z, t)
      requires keys == Before(z) + Keys(t) + After(z) && pos == |Before(z)| + |Keys(t.left)|
      ensures Cuttable(z, t, t.node, rest) && pos < |keys| && keys[pos] == t.key && rest == Removed(keys, pos)
    {
      var h := UnplugBalanced(z, t);
      CutKeys(z, t, keys);
      NotOnPath(z, t);
      CutOutBalanced(z, t, h);
      rest := Removed(keys, pos);
    }

    lemma UnchainedSuccessor(z: Zipper, t: Shape, zu: Zipper, u: Shape, keys: seq<Entry>, pos: nat)
      returns (rest: seq<Entry>)
      requires Chosen(z, t, zu, u) && t.left.Branch? && t.right.Branch? && RedBlack(Plug(z, t)) && Apart(z, t)
      requires keys == Before(z) + Keys(t) + After(z) && pos == |Before(z)| + |Keys(t.left)|
      ensures Cuttable(zu, u, t.node, rest) && zu.Down?
      ensures pos < |keys| && keys[pos] == t.key && rest == Removed(keys, pos)
    {
      var h := UnplugBalanced(z, t);
      SuccessorKeys(z, t, keys);
      SuccessorShort(z, t, zu, u, h);
      rest := Removed(keys, pos);
    }

    lemma SuccessorShort(z: Zipper, t: Shape, zu: Zipper, u: Shape, h: nat)
      requires Chosen(z, t, zu, u) && t.left.Branch? && t.right.Branch? && Apart(z, t)
      requires Balanced(t, h) && Fits(z, h, IsRed(t))
      ensures zu.Down? && OnPath(zu, t.node) && u.left.Leaf?
      ensures Rekeyed(zu, t.node, u.key) == FirstPlace(Down(false, t.node, u.key, t.red, t.left, z), t.right)
      ensures var w, d := Rekeyed(zu, t.node, u.key), OnlyChild(u);
        (u.red ==> d == Leaf && Fits(w, 0, false)) && (!u.red ==> Short(w, d, 0))
    {
      var b := Down(false, t.node, t.key, t.red, t.left, z);
      FirstRekeyed(b, t.right, u.key);
      var k := FirstFits(b, t.right, if t.red then h else h - 1);
      FirstDown(b, t.right);
      RekeyedFits(zu, t.node, u.key, k, IsRed(u));
      CutOutBalanced(Rekeyed(zu, t.node, u.key), u, k);
    }

    lemma {:induction false} FirstDown(z: Zipper, t: Shape)
      requires t.Branch? && z.Down?
      ensures FirstPlace(z, t).Down?
      decreases t
    {
      if t.left.Branch? {
        FirstDown(Down(true, t.node, t.key, t.red, t.right, z), t.left);
      }
    }

    lemma NotOnPath(z: Zipper, t: Shape)
      requires Apart(z, t) && t.Branch?
      ensures Rekeyed(z, t.node, t.key) == z
    {
      assert t.node in Nodes(t);
      RekeyedElsewhere(z, t.node, t.key);
    }

    lemma {:induction false} RekeyedElsewhere(z: Zipper, n: Node, k: Entry)
      requires n !in PathNodes(z)
      ensures Rekeyed(z, n, k) == z
    {
      if z.Down? {
        RekeyedElsewhere(z.above, n, k);
      }
    }

    /** Unchain the located key's node or its successor, and repair the tree if a black node went. */
    method RemoveAt(rootp: Slot, stack: seq<Slot>, sp0: nat, ghost z: Zipper, ghost t: Shape)
      returns (ghost pos: nat)
      requires Valid() && |Keys(shape)| + 1 < Pow2(50)
      requires At(H(), z, t) && t.Branch? && Plug(z, t) == shape && Before(z) + Keys(t) + After(z) == Keys(shape)
      requires rootp == SlotOf(z) && Stacked(stack, sp0, z)
      modifies this, nodes
      ensures Valid() && nodes <= old(nodes)
      ensures pos < |old(Keys(shape))| && old(Keys(shape))[pos] == t.key
      ensures Keys(shape) == Removed(old(Keys(shape)), pos)
    {
      SlotHolds(H(), z, t);
      PlugNodes(z, t);
      BelowFields(H(), t);
      var top := Load(rootp);
      var unchained, nodestack, sp;
      ghost var zu, u, rest;
      unchained, nodestack, sp, zu, u := ChooseUnchained(rootp, top, stack, sp0, z, t);
      pos, rest := UnchainedShape(z, t, zu, u, Keys(shape));
      CutAndRepair(unchained, top, rootp, nodestack, sp, zu, u, rest);
    }

    /** Unchain a node, and repair the tree if it was black. */
    method CutAndRepair(unchained: Node, top: Node, rootp: Slot, nodestack: seq<Slot>, sp: nat,
                        ghost zu: Zipper, ghost u: Shape, ghost rest: seq<Entry>)
      requires At(H(), zu, u) && Cuttable(zu, u, top, rest) && Sorted(rest, at)
      requires unchained == u.node && top in nodes && Stacked(nodestack, sp, zu) && Depth(zu) < 99
      requires zu.Top? ==> rootp == SlotOf(zu)
      requires nodes == PathNodes(zu) + Nodes(u)
      modifies this, nodes
      ensures Valid() && nodes == old(nodes) - {unchained} && Keys(shape) == rest
    {
      BelowFields(H(), u);
      var black := !unchained.red;
      var r := CutOff(unchained, top, rootp, nodestack, sp, zu, u, rest);
      ghost var w, d, k := Rekeyed(zu, top, u.key), OnlyChild(u), 0;
      if black {
        StackKept(nodestack, sp, zu, top, u.key);
        w, d, k := Repair(nodestack, sp, r, w, d, 0, rest);
      }
      Settle(w, d, k, rest);
    }

    lemma StackKept(s: seq<Slot>, sp: nat, z: Zipper, n: Node, k: Entry)
      requires Stacked(s, sp, z) && Depth(z) < 99
      ensures Stacked(s, sp, Rekeyed(z, n, k)) && sp < 100
    {
      RekeyedPath(z, n, k);
      StackDepth(z);
    }

    lemma SameNodes(m: Heap, z: Zipper, t: Shape, zu: Zipper, u: Shape)
      requires Chosen(z, t, zu, u) && At(m, z, t)
      ensures PathNodes(zu) + Nodes(u) == PathNodes(z) + Nodes(t)
    {
      if t.left.Branch? && t.right.Branch? {
        var b := Down(false, t.node, t.key, t.red, t.left, z);
        AtJoin(m, b, t.right);
        ApartJoin(b, t.right);
        FirstAt(m, b, t.right);
      }
    }

    /** Unchain, with the description of what is left. */
    method CutOff(unchained: Node, root: Node, rootp: Slot, nodestack: seq<Slot>, sp: nat,
                  ghost z: Zipper, ghost u: Shape, ghost rest: seq<Entry>)
      returns (r: Node?)
      requires At(H(), z, u) && Cuttable(z, u, root, rest)
      requires unchained == u.node && root in nodes && Stacked(nodestack, sp, z)
      requires z.Top? ==> rootp == SlotOf(z)
      requires nodes == PathNodes(z) + Nodes(u)
      modifies this`root, this`nodes, nodes
      ensures nodes == old(nodes) - {unchained} && r == Pointer(OnlyChild(u))
      ensures u.red ==> BalancedAt(H(), Rekeyed(z, root, u.key), OnlyChild(u), 0, rest)
      ensures !u.red ==> ShortAt(H(), Rekeyed(z, root, u.key), OnlyChild(u), 0, rest)
    {
      ghost var m := H();
      r := Unchain(unchained, root, rootp, nodestack, sp, z, u);
      CutOutAt(m, H(), z, u, root, u.key);
    }

    /** Node `n` gets the key of `u`, `u` goes, and keys `rest` remain. */
    ghost predicate Cuttable(z: Zipper, u: Shape, n: Node, rest: seq<Entry>) {
      && u.Branch? && (u.left.Leaf? || u.right.Leaf?) && (OnPath(z, n) || n == u.node)
      && var w, d := Rekeyed(z, n, u.key), OnlyChild(u);
         && Before(w) + Keys(d) + After(w) == rest
         && (u.red ==> d == Leaf && Fits(w, 0, false))
         && (!u.red ==> Short(w, d, 0))
    }

    /** tdelete2: remove the entry that equals `e`, if there is one. */
    method TDelete(e: Entry) returns (found: bool, ghost pos: nat)
      requires Valid() && |Keys(shape)| + 1 < Pow2(50)
      modifies this, nodes
      ensures Valid() && nodes <= old(nodes)
      ensures found == exists k :: k in old(Keys(shape)) && Rank(k, at) == Rank(e, at)
      ensures found ==>
        && pos < |old(Keys(shape))| && Rank(old(Keys(shape))[pos], at) == Rank(e, at)
        && Keys(shape) == Removed(old(Keys(shape)), pos)
      ensures !found ==> shape == old(shape) && nodes == old(nodes) && H() == old(H())
    {
      found, pos := false, 0;
      if root != null {
        found, pos := DeleteKey(e);
      }
    }

    method DeleteKey(e: Entry) returns (found: bool, ghost pos: nat)
      requires Valid() && |Keys(shape)| + 1 < Pow2(50) && root != null
      modifies this, nodes
      ensures Valid() && nodes <= old(nodes)
      ensures found == exists k :: k in old(Keys(shape)) && Rank(k, at) == Rank(e, at)
      ensures found ==>
        && pos < |old(Keys(shape))| && Rank(old(Keys(shape))[pos], at) == Rank(e, at)
        && Keys(shape) == Removed(old(Keys(shape)), pos)
      ensures !found ==> shape == old(shape) && nodes == old(nodes) && H() == old(H())
    {
      pos := 0;
      var rootp, nodestack, sp;
      ghost var z, t;
      found, rootp, nodestack, sp, z, t := Locate(e);
      if found {
        assert t.key in Keys(t) && t.key in Keys(shape);
        pos := RemoveAt(rootp, nodestack, sp, z, t);
      }
    }

    // ---------- the walk ----------

    /** The entries that a walk with callback `exe` has been given: all of `keys` if it always
        returned 0, and otherwise those up to the first other value. */
    ghost predicate Visits(keys: seq<Entry>, exe: Entry -> int, visited: seq<Entry>, r: int) {
      && visited <= keys
      && (r == 0 ==> visited == keys && forall k :: k in keys ==> exe(k) == 0)
      && (r != 0 ==> visited != [] && exe(visited[|visited| - 1]) == r
                     && forall k :: k in visited[..|visited| - 1] ==> exe(k) == 0)
    }

    lemma VisitsAppend(a: seq<Entry>, b: seq<Entry>, exe: Entry -> int, v: seq<Entry>, w: seq<Entry>, r: int)
      requires Visits(a, exe, v, 0) && Visits(b, exe, w, r)
      ensures Visits(a + b, exe, v + w, r)
    {
      if r != 0 {
        assert (v + w)[..|v + w| - 1] == v + w[..|w| - 1];
      }
    }

    lemma VisitsShort(a: seq<Entry>, b: seq<Entry>, exe: Entry -> int, v: seq<Entry>, r: int)
      requires Visits(a, exe, v, r) && r != 0
      ensures Visits(a + b, exe, v, r)
    {
    }

    /** trecurse with map_internal_action: the callback sees a leaf, or an inner node between its
        two subtrees. */
    method TRecurse(x: Node, exe: Entry -> int, ghost t: Shape) returns (r: int, ghost visited: seq<Entry>)
      requires t.Branch? && Below(H(), x, t)
      ensures Visits(Keys(t), exe, visited, r)
      decreases t
    {
      BelowFields(H(), t);
      visited := [];
      assert Visits([], exe, [], 0);
      if x.left != null {
        r, visited := TRecurse(x.left, exe, t.left);
        if r != 0 {
          VisitsShort(Keys(t.left), [t.key] + Keys(t.right), exe, visited, r);
          assert Keys(t) == Keys(t.left) + ([t.key] + Keys(t.right));
          return;
        }
      }
      r := exe(x.key);
      VisitsAppend(Keys(t.left), [t.key], exe, visited, [t.key], r);
      visited := visited + [t.key];
      if r != 0 {
        VisitsShort(Keys(t.left) + [t.key], Keys(t.right), exe, visited, r);
        return;
      }
      if x.right != null {
        ghost var right;
        r, right := TRecurse(x.right, exe, t.right);
        VisitsAppend(Keys(t.left) + [t.key], Keys(t.right), exe, visited, right, r);
        visited := visited + right;
      }
    }
  }
}
