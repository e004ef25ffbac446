/** The ordered map with several indexes (lib/common/map.c): one list, one tree per comparator. */
module MultiMap {
  import opened RedBlackShape
  import opened RedBlackTree
  import opened MapIndexes
  import opened Sequences

  /** What callers store; a null pointer is NoItem. */
  datatype Item = NoItem | Item(keys: seq<real>, data: int)

  /** The callback cpy of map_push_find: a copy of a new item, or an update of a stored one. */
  datatype Copier = NoCopier | Copier(create: int -> int, update: (int, int) -> int)

  datatype Flag = NoFlag | Flag(insert: bool, update: bool, shift: bool)

  /** `s` is the doubly linked list from `root` to `tail`. */
  ghost predicate Linked(s: seq<Entry>, root: Entry?, tail: Entry?)
    reads s
  {
    && (forall i, j :: 0 <= i < j < |s| ==> s[i] != s[j])
    && root == (if s == [] then null else s[0])
    && tail == (if s == [] then null else s[|s| - 1])
    && (forall i {:trigger s[i].up} :: 0 <= i < |s| ==> s[i].up == if i == 0 then null else s[i - 1])
    && (forall i {:trigger s[i].down} :: 0 <= i < |s| ==> s[i].down == if i == |s| - 1 then null else s[i + 1])
  }

  /** Tree `k` holds exactly the entries of the list. */
  ghost predicate Holds(k: Index, list: seq<Entry>)
    reads k
  {
    (forall x :: x in Stored(k) ==> x in list) && (forall x :: x in list ==> x in Stored(k))
  }

  /** Comparator `i` tells any two stored entries apart. */
  ghost predicate ToldApart(list: seq<Entry>, i: nat) {
    forall a, b :: 0 <= a < b < |list| ==> Rank(list[a], i) != Rank(list[b], i)
  }

  function KeyAt(keys: seq<real>, i: nat): real {
    if i < |keys| then keys[i] else 0.0
  }

  /** A stored entry has, under one of the first `n` comparators, the key of the new item. */
  ghost predicate Taken(list: seq<Entry>, keys: seq<real>, n: nat) {
    exists i: nat, x :: i < n && x in list && Rank(x, i) == KeyAt(keys, i)
  }

  /** Tree `i` works with comparator `i`. */
  predicate Numbered(key: seq<Index>) {
    forall i :: 0 <= i < |key| ==> key[i].at == i
  }

  lemma ClashIsTaken(key: seq<Index>, list: seq<Entry>, e: Entry)
    requires Numbered(key) && forall k :: k in key ==> Holds(k, list)
    ensures NoClash(key, e) <==> !Taken(list, e.keys, |key|)
    ensures key != [] ==> (Clash(key[0], e) <==> Taken(list, e.keys, 1))
  {
    if Taken(list, e.keys, |key|) {
      var i: nat, x :| i < |key| && x in list && Rank(x, i) == KeyAt(e.keys, i);
      assert key[i] in key && x in Stored(key[i]);
      assert Clash(key[i], e);
    }
    if !NoClash(key, e) {
      var k :| k in key && Clash(k, e);
      var x :| x in Stored(k) && Rank(x, k.at) == Rank(e, k.at);
      var i :| 0 <= i < |key| && key[i] == k;
      assert x in list && Rank(x, i) == KeyAt(e.keys, i);
    }
    if key != [] {
      var k := key[0];
      assert k in key;
      if Clash(k, e) {
        var x :| x in Stored(k) && Rank(x, k.at) == Rank(e, k.at);
        assert x in list && Rank(x, 0) == KeyAt(e.keys, 0);
      }
      if Taken(list, e.keys, 1) {
        var i: nat, x :| i < 1 && x in list && Rank(x, i) == KeyAt(e.keys, i);
        assert x in Stored(k) && Rank(x, k.at) == Rank(e, k.at);
      }
    }
  }

  lemma GrownElements(s: seq<Entry>, t: seq<Entry>, e: Entry)
    requires Grown(s, t, e)
    ensures forall x :: x in t <==> x in s || x == e
  {
    var p :| 0 <= p <= |s| && t == Inserted(s, p, e);
    assert t == s[..p] + [e] + s[p..] && s == s[..p] + s[p..];
    assert t[p] == e;
  }

  lemma Pow2Of50()
    ensures Pow2(50) == 0x4_0000_0000_0000
  {
    assert Pow2(10) == 1024;
    assert Pow2(20) == 1024 * Pow2(10);
    assert Pow2(30) == 1024 * Pow2(20);
    assert Pow2(40) == 1024 * Pow2(30);
    assert Pow2(50) == 1024 * Pow2(40);
  }

  lemma {:induction false} DistinctBound(s: seq<Entry>, list: seq<Entry>)
    requires forall i, j :: 0 <= i < j < |s| ==> s[i] != s[j]
    requires forall x :: x in s ==> x in list
    ensures |s| <= |list|
  {
    if s != [] {
      var x := s[|s| - 1];
      assert x in s && x in list;
      var i :| 0 <= i < |list| && list[i] == x;
      var rest := Removed(list, i);
      forall y | y in s[..|s| - 1] ensures y in rest {
        assert y in s && y in list;
        var j :| 0 <= j < |list| && list[j] == y;
        assert y != x;
        assert rest[if j < i then j else j - 1] == y;
      }
      DistinctBound(s[..|s| - 1], rest);
    }
  }

  /** No tree is near the size at which a deletion would run out of stack. */
  lemma SmallTree(k: Index, list: seq<Entry>)
    requires k.Valid() && Holds(k, list) && |list| <= 0x7fff_ffff
    ensures |Stored(k)| + 2 < Pow2(50)
  {
    Pow2Of50();
    DistinctBound(Stored(k), list);
  }

  lemma AddedElements(s: seq<Entry>, x: Entry)
    ensures forall e :: e in [x] + s ==> e == x || e in s
    ensures forall e :: e in s + [x] ==> e == x || e in s
  {
  }

  lemma RemovedOnly(s: seq<Entry>, i: nat)
    requires i < |s|
    ensures forall e :: e in Removed(s, i) ==> e in s
  {
  }

  class Map {
    var root: Entry?
    var tail: Entry?
    var key: seq<Index>
    var size: int
    ghost var list: seq<Entry>

    constructor ()
      ensures Valid() && list == [] && key == []
    {
      root, tail, key, size, list := null, null, [], 0, [];
    }

    ghost predicate Valid()
      reads this, list, key, TreeNodes(key)
    {
      && Linked(list, root, tail) && size == |list| <= 0x7fff_ffff
      && Numbered(key) && TreesValid(key) && forall k :: k in key ==> Holds(k, list)
    }

    /** Link a new entry in front of the list. */
    method LinkFront(node: Entry)
      requires Linked(list, root, tail) && node !in list && node.up == null && node.down == root
      modifies this`root, this`tail, this`list, list`up, list`down
      ensures list == [node] + old(list) && Linked(list, root, tail)
    {
      ghost var s := list;
      assert s != [] ==> s[0].up == null;
      if root != null {
        root.up := node;
      } else {
        tail := node;
      }
      root := node;
      list := [node] + list;
    }

    /** Link a new entry at the end of the list. */
    method LinkBack(node: Entry)
      requires Linked(list, root, tail) && node !in list && node.up == tail && node.down == null
      modifies this`root, this`tail, this`list, list`up, list`down
      ensures list == old(list) + [node] && Linked(list, root, tail)
    {
      ghost var s := list;
      assert s != [] ==> s[|s| - 1].down == null;
      if tail != null {
        tail.down := node;
      } else {
        root := node;
      }
      tail := node;
      list := list + [node];
    }

    /** Take an entry out of the list; its own links keep their values. */
    method Unlink(node: Entry, ghost i: nat)
      requires Linked(list, root, tail) && i < |list| && list[i] == node
      modifies this`root, this`tail, this`list, list`up, list`down
      ensures list == Removed(old(list), i) && Linked(list, root, tail)
      ensures node.up == old(node.up) && node.down == old(node.down)
    {
      ghost var s := list;
      assert s[i].up == (if i == 0 then null else s[i - 1]);
      assert s[i].down == (if i == |s| - 1 then null else s[i + 1]);
      if node.up != null {
        node.up.down := node.down;
      } else {
        root := node.down;
      }
      if node.down != null {
        node.down.up := node.up;
      } else {
        tail := node.up;
      }
      list := Removed(list, i);
    }

    /** map_key from the first index on; the list is not touched. */
    method KeyAll(ks: seq<Index>, node: Entry) returns (r: KeyResult)
      requires ks == key && TreesValid(ks) && Linked(list, root, tail)
      requires forall k :: k in ks ==> node !in Stored(k) && |Stored(k)| + 2 < Pow2(50)
      modifies ks, TreeNodes(ks)
      ensures unchanged(this) && Linked(list, root, tail)
      ensures TreesValid(ks)
      ensures forall n :: n in TreeNodes(ks) && n !in old(TreeNodes(ks)) ==> fresh(n)
      ensures r.Zero? <==> old(NoClash(ks, node))
      ensures if r.Zero? then AllInserted(ks, node) else AllKept(ks)
      ensures r.Existing? <==> ks != [] && old(Clash(ks[0], node))
      ensures r.Existing? ==> r.entry in old(Stored(ks[0])) && Rank(r.entry, ks[0].at) == Rank(node, ks[0].at)
    {
      r := MapKey(ks, node);
    }

    /** map_index: put a new entry into every index, or leave all of them as they were. */
    method MapIndex(node: Entry) returns (r: KeyResult)
      requires Valid() && node !in list
      modifies key, TreeNodes(key)
      ensures unchanged(this) && TreesValid(key) && Linked(list, root, tail)
      ensures forall n :: n in TreeNodes(key) && n !in old(TreeNodes(key)) ==> fresh(n)
      ensures if r.Zero? then AllInserted(key, node) else AllKept(key)
      ensures r.Zero? <==> !Taken(list, node.keys, |key|)
      ensures r.Existing? <==> key != [] && Taken(list, node.keys, 1)
      ensures r.Existing? ==> r.entry in list && Rank(r.entry, 0) == Rank(node, 0)
    {
      ReadyFor(node);
      r := KeyAll(key, node);
    }

    lemma ReadyFor(node: Entry)
      requires Valid() && node !in list
      ensures forall k :: k in key ==> node !in Stored(k) && |Stored(k)| + 2 < Pow2(50)
      ensures NoClash(key, node) <==> !Taken(list, node.keys, |key|)
      ensures key != [] ==>
        && (Clash(key[0], node) <==> Taken(list, node.keys, 1)) && key[0].at == 0
        && forall x :: x in Stored(key[0]) ==> x in list
    {
      forall k | k in key ensures node !in Stored(k) && |Stored(k)| + 2 < Pow2(50) {
        SmallTree(k, list);
      }
      ClashIsTaken(key, list, node);
      assert key != [] ==> key[0] in key;
    }

    /** The same, in terms of the list that the indexes describe. */
    method IndexEntry(node: Entry) returns (r: KeyResult)
      requires Valid() && node !in list
      modifies key, TreeNodes(key)
      ensures TreesValid(key) && Linked(list, root, tail)
      ensures forall n :: n in TreeNodes(key) && n !in old(TreeNodes(key)) ==> fresh(n)
      ensures r.Zero? <==> !Taken(list, node.keys, |key|)
      ensures r.Zero? ==> forall k :: k in key ==> Holds(k, [node] + list) && Holds(k, list + [node])
      ensures !r.Zero? ==> AllKept(key) && Valid()
      ensures r.Existing? <==> key != [] && Taken(list, node.keys, 1)
      ensures r.Existing? ==> r.entry in list && Rank(r.entry, 0) == Rank(node, 0)
    {
      r := MapIndex(node);
      if r.Zero? {
        forall k | k in key ensures Holds(k, [node] + list) && Holds(k, list + [node]) {
          GrownElements(old(Stored(k)), Stored(k), node);
        }
      }
    }

    /** An indexed entry is linked in front and counted. */
    method AddFront(node: Entry)
      requires Linked(list, root, tail) && node !in list && node.up == null && node.down == root
      requires size == |list| < 0x7fff_ffff
      requires Numbered(key) && TreesValid(key) && forall k :: k in key ==> Holds(k, [node] + list)
      modifies this`root, this`tail, this`size, this`list, list`up, list`down
      ensures Valid() && list == [node] + old(list) && TreeNodes(key) == old(TreeNodes(key))
    {
      LinkFrontOnly(node);
      size := size + 1;
    }

    /** LinkFront, seen from the indexes. */
    method LinkFrontOnly(node: Entry)
      requires Linked(list, root, tail) && node !in list && node.up == null && node.down == root
      requires TreesValid(key) && forall k :: k in key ==> Holds(k, [node] + list)
      modifies this`root, this`tail, this`list, list`up, list`down
      ensures list == [node] + old(list) && Linked(list, root, tail)
      ensures TreesValid(key) && TreeNodes(key) == old(TreeNodes(key)) && forall k :: k in key ==> Holds(k, list)
    {
      LinkFront(node);
      forall k | k in key ensures k.Valid() && k.nodes == old(k.nodes) && Stored(k) == old(Stored(k)) {
      }
    }

    /** An indexed entry is linked at the end and counted. */
    method AddBack(node: Entry)
      requires Linked(list, root, tail) && node !in list && node.up == tail && node.down == null
      requires size == |list| < 0x7fff_ffff
      requires Numbered(key) && TreesValid(key) && forall k :: k in key ==> Holds(k, list + [node])
      modifies this`root, this`tail, this`size, this`list, list`up, list`down
      ensures Valid() && list == old(list) + [node] && TreeNodes(key) == old(TreeNodes(key))
    {
      LinkBackOnly(node);
      size := size + 1;
    }

    /** LinkBack, seen from the indexes. */
    method LinkBackOnly(node: Entry)
      requires Linked(list, root, tail) && node !in list && node.up == tail && node.down == null
      requires TreesValid(key) && forall k :: k in key ==> Holds(k, list + [node])
      modifies this`root, this`tail, this`list, list`up, list`down
      ensures list == old(list) + [node] && Linked(list, root, tail)
      ensures TreesValid(key) && TreeNodes(key) == old(TreeNodes(key)) && forall k :: k in key ==> Holds(k, list)
    {
      LinkBack(node);
      forall k | k in key ensures k.Valid() && k.nodes == old(k.nodes) && Stored(k) == old(Stored(k)) {
      }
    }

    /** The list and the keys of every index are as they were. */
    twostate predicate Untouched()
      reads this, key
    {
      list == old(list) && key == old(key) && AllKept(key)
    }

    twostate predicate TreesWithin()
      reads this, key
    {
      forall n :: n in TreeNodes(key) ==> n in old(TreeNodes(key)) || fresh(n)
    }

    /** What the map consists of was there before, or is new. */
    twostate predicate Within()
      reads this, key
    {
      && TreesWithin()
      && (forall e :: e in list ==> e in old(list) || fresh(e))
      && forall k :: k in key ==> k in old(key) || fresh(k)
    }

    /** A new entry for an item, not yet linked. */
    twostate predicate NewEntry(new e: Entry, item: Item)
      requires item.Item?
    {
      fresh(e) && e.keys == item.keys
    }

    /** A new entry between two others that do not know of it yet. */
    method Unlinked(item: Item, up: Entry?, down: Entry?) returns (node: Entry)
      requires Valid() && item.Item?
      ensures Valid() && TreeNodes(key) == old(TreeNodes(key))
      ensures NewEntry(node, item) && node.item == item.data && node.up == up && node.down == down
    {
      node := new Entry(item.keys, item.data);
      node.up, node.down := up, down;
    }

    /** map_push: a new entry in front, unless one of its keys is taken. */
    method Push(item: Item) returns (rv: int)
      requires Valid() && |list| < 0x7fff_ffff
      modifies this, list`up, list`down, key, TreeNodes(key)
      ensures Valid() && key == old(key) && Within()
      ensures rv == if item.Item? && !old(Taken(list, item.keys, |key|)) then 0 else -1
      ensures rv == 0 ==> list != [] && NewEntry(list[0], item) && list == [list[0]] + old(list)
      ensures rv == 0 ==> list[0].item == item.data
      ensures rv != 0 ==> Untouched()
    {
      if item.NoItem? {
        return -1;
      }
      var node := Unlinked(item, null, root);
      AddedElements(list, node);
      var added := PushNode(node);
      assert TreesWithin();
      rv := if added then 0 else -1;
    }

    /** A new entry is indexed and then linked in front. */
    method PushNode(node: Entry) returns (added: bool)
      requires Valid() && |list| < 0x7fff_ffff && node !in list && node.up == null && node.down == root
      modifies this`root, this`tail, this`size, this`list, list`up, list`down, key, TreeNodes(key)
      ensures Valid() && TreesWithin() && added == !old(Taken(list, node.keys, |key|))
      ensures if added then list == [node] + old(list) else list == old(list) && AllKept(key)
    {
      var r := IndexEntry(node);
      added := r.Zero?;
      assert TreesWithin();
      if added {
        AddFront(node);
      }
    }

    /** map_push_back: a new entry at the end, unless one of its keys is taken. */
    method PushBack(item: Item) returns (rv: int)
      requires Valid() && |list| < 0x7fff_ffff
      modifies this, list`up, list`down, key, TreeNodes(key)
      ensures Valid() && key == old(key) && Within()
      ensures rv == if item.Item? && !old(Taken(list, item.keys, |key|)) then 0 else -1
      ensures rv == 0 ==> list != [] && NewEntry(list[|list| - 1], item) && list == old(list) + [list[|list| - 1]]
      ensures rv == 0 ==> list[|list| - 1].item == item.data
      ensures rv != 0 ==> Untouched()
    {
      if item.NoItem? {
        return -1;
      }
      var node := Unlinked(item, tail, null);
      AddedElements(list, node);
      var added := PushNodeBack(node);
      assert TreesWithin();
      rv := if added then 0 else -1;
    }

    /** A new entry is indexed and then linked at the end. */
    method PushNodeBack(node: Entry) returns (added: bool)
      requires Valid() && |list| < 0x7fff_ffff && node !in list && node.up == tail && node.down == null
      modifies this`root, this`tail, this`size, this`list, list`up, list`down, key, TreeNodes(key)
      ensures Valid() && TreesWithin() && added == !old(Taken(list, node.keys, |key|))
      ensures if added then list == old(list) + [node] else list == old(list) && AllKept(key)
    {
      var r := IndexEntry(node);
      added := r.Zero?;
      assert TreesWithin();
      if added {
        AddBack(node);
      }
    }

    /** Delete an entry that is no longer in the list from every index. */
    method Unindex(node: Entry, ghost before: seq<Entry>)
      requires Linked(list, root, tail) && Numbered(key) && TreesValid(key)
      requires node in before && |before| <= 0x7fff_ffff && forall k :: k in key ==> Holds(k, before)
      requires forall x :: x in list <==> x in before && x != node
      modifies key, TreeNodes(key)
      ensures unchanged(this) && Linked(list, root, tail)
      ensures TreesValid(key) && TreeNodes(key) <= old(TreeNodes(key))
      ensures forall k :: k in key ==> Holds(k, list)
    {
      var ks := key;
      var index := 0;
      while index < |ks|
        invariant 0 <= index <= |ks| && ks == key && unchanged(this) && Linked(list, root, tail)
        invariant TreesValid(ks) && TreeNodes(ks) <= old(TreeNodes(ks))
        invariant forall j :: 0 <= j < index ==> Holds(ks[j], list)
        invariant forall j :: index <= j < |ks| ==> Holds(ks[j], before)
      {
        UnindexOne(ks, index, node, before);
        index := index + 1;
      }
    }

    /** Delete the entry from one index. */
    method UnindexOne(ks: seq<Index>, index: nat, node: Entry, ghost before: seq<Entry>)
      requires Linked(list, root, tail) && TreesValid(ks) && index < |ks|
      requires node in before && |before| <= 0x7fff_ffff && Holds(ks[index], before)
      requires forall x :: x in list <==> x in before && x != node
      modifies ks[index], ks[index].nodes
      ensures unchanged(this) && Linked(list, root, tail)
      ensures TreesValid(ks) && TreeNodes(ks) <= old(TreeNodes(ks)) && Holds(ks[index], list)
      ensures forall j :: 0 <= j < |ks| && j != index ==> Stored(ks[j]) == old(Stored(ks[j]))
    {
      SmallTree(ks[index], before);
      DeleteAt(ks, index, node);
    }

    /** map_remove: out of the list and out of every index. */
    method Remove(node: Entry?) returns (item: Item, ghost at: nat)
      requires Valid() && (node != null ==> node in list)
      modifies this, list`up, list`down, key, TreeNodes(key)
      ensures Valid() && key == old(key) && TreeNodes(key) <= old(TreeNodes(key))
      ensures node == null ==> item == NoItem && list == old(list)
      ensures node != null ==> item == Item(node.keys, node.item)
      ensures node != null ==> at < |old(list)| && old(list)[at] == node && list == Removed(old(list), at)
    {
      at := 0;
      if node == null {
        return NoItem, at;
      }
      at :| 0 <= at < |list| && list[at] == node;
      Detach(node, at);
      item := Item(node.keys, node.item);
    }

    method Detach(node: Entry, ghost at: nat)
      requires Valid() && at < |list| && list[at] == node
      modifies this`root, this`tail, this`size, this`list, list`up, list`down, key, TreeNodes(key)
      ensures Valid() && TreeNodes(key) <= old(TreeNodes(key))
      ensures list == Removed(old(list), at)
    {
      RemovedElements(list, at);
      Cut(node, at);
      size := size - 1;
    }

    /** An entry goes from the list and from every index. */
    method Cut(node: Entry, ghost at: nat)
      requires Valid() && at < |list| && list[at] == node
      requires forall x :: x in Removed(list, at) <==> x in list && x != node
      modifies this`root, this`tail, this`list, list`up, list`down, key, TreeNodes(key)
      ensures list == Removed(old(list), at) && Linked(list, root, tail)
      ensures Numbered(key) && TreesValid(key) && TreeNodes(key) <= old(TreeNodes(key))
      ensures forall k :: k in key ==> Holds(k, list)
    {
      ghost var before := list;
      UnlinkOnly(node, at);
      Unindex(node, before);
    }

    /** Unlink, seen from the indexes. */
    method UnlinkOnly(node: Entry, ghost i: nat)
      requires Valid() && i < |list| && list[i] == node
      modifies this`root, this`tail, this`list, list`up, list`down
      ensures list == Removed(old(list), i) && Linked(list, root, tail)
      ensures TreeNodes(key) == old(TreeNodes(key))
      ensures Numbered(key) && TreesValid(key) && forall k :: k in key ==> Holds(k, old(list))
    {
      Unlink(node, i);
      forall k | k in key ensures k.Valid() && k.nodes == old(k.nodes) && Stored(k) == old(Stored(k)) {
      }
    }

    /** map_pop: the newest entry. */
    method Pop() returns (item: Item)
      requires Valid()
      modifies this, list`up, list`down, key, TreeNodes(key)
      ensures Valid() && key == old(key) && Within() && TreeNodes(key) <= old(TreeNodes(key))
      ensures if old(list) == [] then item == NoItem && list == []
        else item == Item(old(list)[0].keys, old(list)[0].item) && list == old(list)[1..]
    {
      ghost var s, i := list, 0;
      item, i := Remove(root);
      assert s != [] ==> i == 0;
    }

    /** map_pop_back: the oldest entry. */
    method PopBack() returns (item: Item)
      requires Valid()
      modifies this, list`up, list`down, key, TreeNodes(key)
      ensures Valid() && key == old(key) && Within() && TreeNodes(key) <= old(TreeNodes(key))
      ensures if old(list) == [] then item == NoItem && list == []
        else var x := old(list)[|old(list)| - 1];
             item == Item(x.keys, x.item) && list == old(list)[..|old(list)| - 1]
    {
      ghost var s, i := list, 0;
      item, i := Remove(tail);
      assert s != [] ==> i == |s| - 1;
    }

    /** map_search: the entry with the item's key under comparator `index`. */
    method Search(item: Item, index: nat) returns (found: Entry?)
      requires Valid() && item.Item?
      ensures Valid()
      ensures found != null ==> index < |key| && found in list && Rank(found, index) == KeyAt(item.keys, index)
      ensures found == null ==>
        index >= |key| || forall x :: x in list ==> Rank(x, index) != KeyAt(item.keys, index)
    {
      if index >= |key| {
        return null;
      }
      var node := new Entry(item.keys, item.data);
      assert key[index] in key;
      found := key[index].TFind(node);
    }

    /** map_get: remove and return the item with the given key. */
    method Get(item: Item, index: nat) returns (got: Item)
      requires Valid() && item.Item?
      modifies this, list`up, list`down, key, TreeNodes(key)
      ensures Valid() && key == old(key) && Within()
      ensures got == NoItem ==> list == old(list)
      ensures got == NoItem ==> index >= |key| || forall x :: x in list ==> Rank(x, index) != KeyAt(item.keys, index)
      ensures got != NoItem ==> index < |key|
      ensures got != NoItem ==> KeyAt(got.keys, index) == KeyAt(item.keys, index)
      ensures got != NoItem ==> exists i :: (0 <= i < |old(list)| && list == Removed(old(list), i)
                                             && got == Item(old(list)[i].keys, old(list)[i].item))
    {
      var node := Search(item, index);
      got := NoItem;
      if node != null {
        ghost var i;
        got, i := Remove(node);
      }
    }

    /** map_until: drop entries from the end while the callback says yes. */
    method Until(yes: (seq<real>, int) -> bool)
      requires Valid()
      modifies this, list`up, list`down, key, TreeNodes(key)
      ensures Valid() && key == old(key) && Within()
      ensures list <= old(list)
      ensures forall i :: |list| <= i < |old(list)| ==> yes(old(list)[i].keys, old(list)[i].item)
      ensures list != [] ==> !yes(list[|list| - 1].keys, list[|list| - 1].item)
    {
      while tail != null && yes(tail.keys, tail.item)
        invariant Valid() && key == old(key) && list <= old(list)
        invariant TreeNodes(key) <= old(TreeNodes(key))
        invariant forall i :: |list| <= i < |old(list)| ==> yes(old(list)[i].keys, old(list)[i].item)
        decreases |list|
      {
        var item := PopBack();
      }
    }

    /** A new entry of a further tree; the list and the other trees do not notice. */
    method FillTree(k: Index, node: Entry)
      requires Linked(list, root, tail) && TreesValid(key) && k.Valid() && Aside(k, key)
      requires node !in Stored(k) && !Clash(k, node)
      modifies k, k.nodes
      ensures unchanged(this) && Linked(list, root, tail) && TreesValid(key) && k.Valid() && Aside(k, key)
      ensures TreeNodes(key) == old(TreeNodes(key)) && AllKept(key)
      ensures forall n :: n in k.nodes && n !in old(k.nodes) ==> fresh(n)
      ensures Grown(old(Stored(k)), Stored(k), node)
    {
      var leaf;
      ghost var p;
      leaf, p := InsertFirst(k, key, node);
    }

    /** One more entry of the list goes into the new tree. */
    method FillOne(k: Index, node: Entry, ghost i: nat)
      requires Valid() && k.Valid() && k.at == |key| && Aside(k, key)
      requires i < |list| && list[i] == node && ToldApart(list, k.at)
      requires Holds(k, list[..i])
      modifies k, k.nodes
      ensures Valid() && k.Valid() && Aside(k, key)
      ensures forall n :: n in k.nodes && n !in old(k.nodes) ==> fresh(n)
      ensures Holds(k, list[..i + 1])
    {
      FillReady(k, i);
      FillTree(k, node);
      GrownElements(old(Stored(k)), Stored(k), node);
      ghost var done := list[..i];
      assert list[..i + 1] == done + [node];
      forall x ensures x in done + [node] <==> x in done || x == node {
      }
    }

    lemma FillReady(k: Index, i: nat)
      requires Valid() && i < |list| && ToldApart(list, k.at)
      requires Holds(k, list[..i])
      ensures list[i] !in Stored(k) && !Clash(k, list[i])
    {
      forall x | x in Stored(k) ensures Rank(x, k.at) != Rank(list[i], k.at) {
        assert x in list[..i];
      }
    }

    /** map_add_key: a further comparator, under which the stored entries differ, gets its own tree. */
    method AddKey()
      requires Valid() && ToldApart(list, |key|)
      modifies this`key
      ensures Valid() && |key| == |old(key)| + 1 && key[..|old(key)|] == old(key) && fresh(key[|old(key)|])
      ensures list == old(list) && Within()
    {
      var k := new Index(|key|);
      FillAll(k);
      assert TreeNodes(key) == old(TreeNodes(key));
      Extend(k);
    }

    /** All entries of the list go into the new tree, newest first. */
    method FillAll(k: Index)
      requires Valid() && ToldApart(list, |key|)
      requires k.Valid() && k.at == |key| && Aside(k, key) && Stored(k) == []
      modifies k, k.nodes
      ensures Valid() && k.Valid() && Aside(k, key) && Holds(k, list)
      ensures forall n :: n in k.nodes && n !in old(k.nodes) ==> fresh(n)
    {
      var node := root;
      ghost var i := 0;
      while node != null
        invariant Valid() && i <= |list| && node == (if i < |list| then list[i] else null)
        invariant k.Valid() && Aside(k, key)
        invariant forall n :: n in k.nodes && n !in old(k.nodes) ==> fresh(n)
        invariant Holds(k, list[..i])
        decreases |list| - i
      {
        assert list[i].down == if i == |list| - 1 then null else list[i + 1];
        FillOne(k, node, i);
        node := node.down;
        i := i + 1;
      }
      assert i == |list| && list[..i] == list;
    }

    method Extend(k: Index)
      requires Valid() && k.Valid() && k.at == |key| && Aside(k, key) && Holds(k, list)
      modifies this`key
      ensures Valid() && key == old(key) + [k] && list == old(list)
      ensures forall n :: n in TreeNodes(key) ==> n in old(TreeNodes(key)) || n in k.nodes
      ensures forall x :: x in key ==> x in old(key) || x == k
    {
      key := key + [k];
    }

    /** map_erase: drop every entry, newest first. */
    method Erase()
      requires Valid()
      modifies this, list`up, list`down, key, TreeNodes(key)
      ensures Valid() && key == old(key) && Within() && list == []
    {
      while root != null
        invariant Valid() && key == old(key)
        invariant |list| <= |old(list)| && list == old(list)[|old(list)| - |list|..]
        invariant TreeNodes(key) <= old(TreeNodes(key))
        decreases |list|
      {
        var item := Pop();
      }
    }

    /** Link an entry that was just unlinked in front of the list. */
    method Relink(find: Entry)
      requires Linked(list, root, tail) && find !in list
      modifies this`root, this`tail, this`list, list`up, list`down, find`up, find`down
      ensures list == [find] + old(list) && Linked(list, root, tail)
    {
      ghost var s := list;
      assert s != [] ==> s[0].up == null;
      if root != null {
        root.up := find;
      } else {
        tail := find;
      }
      find.down := root;
      find.up := null;
      root := find;
      list := [find] + list;
    }

    /** A found entry moves to the front. */
    method ShiftUp(find: Entry, ghost i: nat)
      requires Valid() && i < |list| && list[i] == find
      modifies this`root, this`tail, this`list, list`up, list`down
      ensures Valid() && list == [find] + Removed(old(list), i)
    {
      RemovedElements(list, i);
      UnlinkOnly(find, i);
      RelinkOnly(find);
    }

    /** Relink, seen from the indexes. */
    method RelinkOnly(find: Entry)
      requires Linked(list, root, tail) && find !in list && size == |list| + 1 <= 0x7fff_ffff
      requires Numbered(key) && TreesValid(key)
      requires forall k :: k in key ==> Holds(k, [find] + list)
      modifies this`root, this`tail, this`list, list`up, list`down, find`up, find`down
      ensures Valid() && list == [find] + old(list)
    {
      Relink(find);
    }

    /** What map_push_find makes of the value of a new item. */
    static function Created(cpy: Copier, data: int): int {
      if cpy.Copier? then cpy.create(data) else data
    }

    static function Updated(cpy: Copier, flag: Flag, stored: int, data: int): int {
      if flag.Flag? && flag.update && cpy.Copier? then cpy.update(stored, data) else stored
    }

    /** A new entry for the item is in front; no other entry changed its value. */
    twostate predicate Fronted(item: Item, value: int)
      requires item.Item?
      reads this, list
    {
      && list != [] && NewEntry(list[0], item) && list[0].item == value && list == [list[0]] + old(list)
      && forall x :: x in old(list) ==> x in list && x.item == old(x.item)
    }

    /** The entry that was at `i` of the list has a new value and is in front if the flag says so; no other
        entry changed its value. */
    twostate predicate Renewed(before: seq<Entry>, i: nat, value: int, front: bool)
      reads this, before
    {
      && i < |before| && before[i].item == value
      && list == (if front then [before[i]] + Removed(before, i) else before)
      && forall j :: 0 <= j < |before| && j != i ==> before[j].item == old(before[j].item)
    }

    /** The insert branch of map_push_find. */
    method FindInsert(node: Entry, cpy: Copier)
      requires Linked(list, root, tail) && node !in list && node.up == null && node.down == root
      requires size == |list| < 0x7fff_ffff
      requires Numbered(key) && TreesValid(key) && forall k :: k in key ==> Holds(k, [node] + list)
      modifies this`root, this`tail, this`size, this`list, list`up, list`down, node`item
      ensures TreeNodes(key) == old(TreeNodes(key))
      ensures Valid() && list == [node] + old(list) && node.item == Created(cpy, old(node.item))
    {
      if cpy.Copier? {
        node.item := cpy.create(node.item);
      }
      AddFront(node);
    }

    method SetItem(find: Entry, data: int)
      requires Valid() && find in list
      modifies find`item
      ensures Valid() && find.item == data
    {
      find.item := data;
    }

    /** The update branch of map_push_find. */
    method FindUpdate(find: Entry, ghost i: nat, data: int, cpy: Copier, flag: Flag)
      requires Valid() && i < |list| && list[i] == find
      modifies this`root, this`tail, this`list, list`up, list`down, find`item
      ensures Valid() && Renewed(old(list), i, Updated(cpy, flag, old(find.item), data), flag.Flag? && flag.shift)
    {
      if flag.Flag? {
        if flag.update && cpy.Copier? {
          SetItem(find, cpy.update(find.item, data));
        }
        if flag.shift {
          ShiftUp(find, i);
        }
      }
    }

    /** map_push_find from the indexing of the new entry on. */
    method FindOrInsert(node: Entry, cpy: Copier, flag: Flag) returns (r: KeyResult, ghost at: nat)
      requires Valid() && |list| < 0x7fff_ffff && node !in list && node.up == null && node.down == root
      modifies this, list, key, TreeNodes(key), node`item
      ensures Valid() && key == old(key) && TreesWithin()
      ensures r.Zero? <==> !old(Taken(list, node.keys, |key|))
      ensures r.Zero? ==> list == [node] + old(list) && node.item == Created(cpy, old(node.item))
      ensures r.Zero? ==> forall x :: x in old(list) ==> x.item == old(x.item)
      ensures r.Existing? <==> key != [] && old(Taken(list, node.keys, 1))
      ensures r.Existing? ==>
        && at < |old(list)| && old(list)[at] == r.entry && Rank(r.entry, 0) == KeyAt(node.keys, 0)
        && Renewed(old(list), at, Updated(cpy, flag, old(list[at].item), old(node.item)), flag.Flag? && flag.shift)
      ensures r.Failure? ==> Untouched() && forall x :: x in list ==> x.item == old(x.item)
      ensures forall x :: x in list ==> x == node || x in old(list)
    {
      at := 0;
      AddedElements(list, node);
      r := IndexEntry(node);
      assert TreesWithin();
      if r.Zero? {
        FindInsert(node, cpy);
      } else if r.Existing? {
        at := FindExisting(r.entry, node.item, cpy, flag);
      }
    }

    /** The found entry is updated, wherever it is in the list. */
    method FindExisting(find: Entry, data: int, cpy: Copier, flag: Flag) returns (ghost at: nat)
      requires Valid() && find in list
      modifies this`root, this`tail, this`list, list`up, list`down, find`item
      ensures TreeNodes(key) == old(TreeNodes(key))
      ensures Valid() && at < |old(list)| && old(list)[at] == find
      ensures Renewed(old(list), at, Updated(cpy, flag, old(find.item), data), flag.Flag? && flag.shift)
      ensures forall x :: x in list ==> x in old(list)
    {
      at :| 0 <= at < |list| && list[at] == find;
      RemovedOnly(list, at);
      AddedElements(Removed(list, at), find);
      FindUpdate(find, at, data, cpy, flag);
    }

    /** map_push_find: insert; or, if the item's first key is taken, update and move up the entry
        that has it; or refuse if only another key is taken. */
    method PushFind(item: Item, cpy: Copier, flag: Flag) returns (rv: Item, flag': Flag, ghost at: nat)
      requires Valid() && |list| < 0x7fff_ffff
      modifies this, list, key, TreeNodes(key)
      ensures Valid() && key == old(key) && Within()
      ensures item.NoItem? ==>
        rv == NoItem && flag' == flag && Untouched() && forall x :: x in list ==> x.item == old(x.item)
      ensures item.Item? && !old(Taken(list, item.keys, |key|)) ==>
        && Fronted(item, Created(cpy, item.data)) && rv == Item(item.keys, Created(cpy, item.data))
        && flag' == (if flag.Flag? then Flag(flag.insert, false, false) else NoFlag)
      ensures item.Item? && key != [] && old(Taken(list, item.keys, 1)) ==>
        && at < |old(list)| && Rank(old(list)[at], 0) == KeyAt(item.keys, 0)
        && Renewed(old(list), at, Updated(cpy, flag, old(list[at].item), item.data), flag.Flag? && flag.shift)
        && rv == Item(old(list)[at].keys, old(list)[at].item) && flag' == flag
      ensures item.Item? && old(Taken(list, item.keys, |key|)) && (key == [] || !old(Taken(list, item.keys, 1))) ==>
        rv == NoItem && flag' == flag && Untouched() && forall x :: x in list ==> x.item == old(x.item)
    {
      flag', rv, at := flag, NoItem, 0;
      if item.Item? {
        rv, flag', at := PushFindItem(item, cpy, flag);
      }
    }

    method PushFindItem(item: Item, cpy: Copier, flag: Flag) returns (rv: Item, flag': Flag, ghost at: nat)
      requires Valid() && |list| < 0x7fff_ffff && item.Item?
      modifies this, list, key, TreeNodes(key)
      ensures Valid() && key == old(key) && Within()
      ensures !old(Taken(list, item.keys, |key|)) ==>
        && Fronted(item, Created(cpy, item.data)) && rv == Item(item.keys, Created(cpy, item.data))
        && flag' == (if flag.Flag? then Flag(flag.insert, false, false) else NoFlag)
      ensures key != [] && old(Taken(list, item.keys, 1)) ==>
        && at < |old(list)| && Rank(old(list)[at], 0) == KeyAt(item.keys, 0)
        && Renewed(old(list), at, Updated(cpy, flag, old(list[at].item), item.data), flag.Flag? && flag.shift)
        && rv == Item(old(list)[at].keys, old(list)[at].item) && flag' == flag
      ensures old(Taken(list, item.keys, |key|)) && (key == [] || !old(Taken(list, item.keys, 1))) ==>
        rv == NoItem && flag' == flag && Untouched() && forall x :: x in list ==> x.item == old(x.item)
    {
      var node := Unlinked(item, null, root);
      AddedElements(list, node);
      rv, flag', at := PushFindNode(node, cpy, flag);
      assert TreesWithin();
    }

    /** PushFindItem for an entry that is not linked. */
    method PushFindNode(node: Entry, cpy: Copier, flag: Flag) returns (rv: Item, flag': Flag, ghost at: nat)
      requires Valid() && |list| < 0x7fff_ffff && node !in list && node.up == null && node.down == root
      modifies this, list, key, TreeNodes(key), node`item
      ensures Valid() && key == old(key) && TreesWithin() && forall x :: x in list ==> x == node || x in old(list)
      ensures !old(Taken(list, node.keys, |key|)) ==>
        && list == [node] + old(list) && node.item == Created(cpy, old(node.item))
        && (forall x :: x in old(list) ==> x.item == old(x.item)) && rv == Item(node.keys, node.item)
        && flag' == (if flag.Flag? then Flag(flag.insert, false, false) else NoFlag)
      ensures key != [] && old(Taken(list, node.keys, 1)) ==>
        && at < |old(list)| && Rank(old(list)[at], 0) == KeyAt(node.keys, 0)
        && Renewed(old(list), at, Updated(cpy, flag, old(list[at].item), old(node.item)), flag.Flag? && flag.shift)
        && rv == Item(old(list)[at].keys, old(list)[at].item) && flag' == flag
      ensures old(Taken(list, node.keys, |key|)) && (key == [] || !old(Taken(list, node.keys, 1))) ==>
        rv == NoItem && flag' == flag && Untouched() && forall x :: x in list ==> x.item == old(x.item)
    {
      var r;
      r, at := FindOrInsert(node, cpy, flag);
      rv, flag' := Answer(r, node, flag);
    }

    /** What map_push_find returns, and what it leaves in the flag. */
    method Answer(r: KeyResult, node: Entry, flag: Flag) returns (rv: Item, flag': Flag)
      ensures r.Zero? ==> rv == Item(node.keys, node.item)
      ensures flag' == if r.Zero? && flag.Flag? then Flag(flag.insert, false, false) else flag
      ensures r.Existing? ==> rv == Item(r.entry.keys, r.entry.item)
      ensures r.Failure? ==> rv == NoItem
    {
      flag', rv := flag, NoItem;
      if r.Zero? {
        if flag.Flag? {
          flag' := Flag(flag.insert, false, false);
        }
        rv := Item(node.keys, node.item);
      } else if r.Existing? {
        rv := Item(r.entry.keys, r.entry.item);
      }
    }
  }
}
