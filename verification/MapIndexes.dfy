/** All search trees of one map: an entry is put into every tree, or into none (map_key). */
module MapIndexes {
  import opened RedBlackShape
  import opened RedBlackTree
  import opened Sequences

  /** The result of map_key: 0, the entry met in the first tree, or MAP_NODE_FAILURE. */
  datatype KeyResult = Zero | Existing(entry: Entry) | Failure

  ghost function TreeNodes(ks: seq<Index>): set<Node>
    reads ks
  {
    set k, n | k in ks && n in k.nodes :: n
  }

  /** The trees do not share nodes. */
  ghost predicate Separate(ks: seq<Index>)
    reads ks
  {
    forall i, j :: 0 <= i < j < |ks| ==> ks[i] != ks[j] && ks[i].nodes !! ks[j].nodes
  }

  ghost predicate TreesValid(ks: seq<Index>)
    reads ks, TreeNodes(ks)
  {
    Separate(ks) && forall k :: k in ks ==> k.Valid()
  }

  ghost function Stored(k: Index): seq<Entry>
    reads k
  {
    Keys(k.shape)
  }

  /** Some entry of tree `k` has the key of `e`. */
  ghost predicate Clash(k: Index, e: Entry)
    reads k
  {
    exists x :: x in Stored(k) && Rank(x, k.at) == Rank(e, k.at)
  }

  ghost predicate NoClash(ks: seq<Index>, e: Entry)
    reads ks
  {
    forall k :: k in ks ==> !Clash(k, e)
  }

  /** Inserting an entry and deleting its key again leaves the keys as they were. */
  lemma InsertRemove(s: seq<Entry>, p: nat, e: Entry, q: nat, i: nat)
    requires p <= |s| && q < |s| + 1 && Sorted(Inserted(s, p, e), i)
    requires Rank(Inserted(s, p, e)[q], i) == Rank(e, i)
    ensures q == p && Removed(Inserted(s, p, e), q) == s
  {
    assert Inserted(s, p, e)[p] == e;
  }

  /** Tree `k` shares nothing with the trees `ks`. */
  ghost predicate Aside(k: Index, ks: seq<Index>)
    reads k, ks
  {
    forall x :: x in ks ==> x != k && x.nodes !! k.nodes
  }

  lemma AsideNodes(k: Index, ks: seq<Index>)
    ensures Aside(k, ks) <==> k !in ks && TreeNodes(ks) !! k.nodes
  {
    if k !in ks && TreeNodes(ks) !! k.nodes {
      forall x | x in ks ensures x != k && x.nodes !! k.nodes {
        assert x.nodes <= TreeNodes(ks);
      }
    }
  }

  lemma FirstAndRest(ks: seq<Index>)
    requires ks != []
    ensures TreesValid(ks) <==> ks[0].Valid() && Aside(ks[0], ks[1..]) && TreesValid(ks[1..])
    ensures TreeNodes(ks) == ks[0].nodes + TreeNodes(ks[1..])
  {
    var k, rest := ks[0], ks[1..];
    assert ks == [k] + rest;
    if k.Valid() && Aside(k, rest) && TreesValid(rest) {
      forall i, j | 0 <= i < j < |ks| ensures ks[i] != ks[j] && ks[i].nodes !! ks[j].nodes {
        assert ks[j] == rest[j - 1];
        if i > 0 {
          assert ks[i] == rest[i - 1];
        }
      }
    }
    if TreesValid(ks) {
      forall x | x in rest ensures x != k && x.nodes !! k.nodes {
        var j :| 0 <= j < |rest| && rest[j] == x;
        assert ks[j + 1] == x && ks[0] == k;
      }
      forall i, j | 0 <= i < j < |rest| ensures rest[i] != rest[j] && rest[i].nodes !! rest[j].nodes {
        assert ks[i + 1] == rest[i] && ks[j + 1] == rest[j];
      }
    }
  }

  /** A tree insertion next to the other trees. */
  method InsertFirst(k: Index, rest: seq<Index>, node: Entry) returns (leaf: Entry, ghost p: nat)
    requires k.Valid() && Aside(k, rest) && TreesValid(rest) && node !in Stored(k)
    modifies k, k.nodes
    ensures k.Valid() && Aside(k, rest) && TreesValid(rest) && TreeNodes(rest) == old(TreeNodes(rest))
    ensures forall n :: n in k.nodes && n !in old(k.nodes) ==> fresh(n)
    ensures forall x :: x in rest ==> Stored(x) == old(Stored(x))
    ensures leaf == node <==> !old(Clash(k, node))
    ensures NoClash(rest, node) == old(NoClash(rest, node))
    ensures leaf == node ==> p <= |old(Stored(k))| && Stored(k) == Inserted(old(Stored(k)), p, node)
    ensures leaf != node ==>
      leaf in old(Stored(k)) && Rank(leaf, k.at) == Rank(node, k.at) && Stored(k) == old(Stored(k))
  {
    leaf, p := k.TSearch(node);
  }

  /** A deletion from one tree: the other trees do not notice. */
  method DeleteAside(k: Index, rest: seq<Index>, node: Entry) returns (found: bool, ghost q: nat)
    requires k.Valid() && Aside(k, rest) && TreesValid(rest) && |Stored(k)| + 1 < Pow2(50)
    modifies k, k.nodes
    ensures k.Valid() && Aside(k, rest) && TreesValid(rest) && TreeNodes(rest) == old(TreeNodes(rest))
    ensures k.nodes <= old(k.nodes)
    ensures forall x :: x in rest ==> Stored(x) == old(Stored(x))
    ensures found == exists e :: e in old(Stored(k)) && Rank(e, k.at) == Rank(node, k.at)
    ensures found ==> q < |old(Stored(k))| && Rank(old(Stored(k))[q], k.at) == Rank(node, k.at)
    ensures found ==> Stored(k) == Removed(old(Stored(k)), q)
  {
    found, q := k.TDelete(node);
    forall x | x in rest ensures x.Valid() && x.nodes == old(x.nodes) && Stored(x) == old(Stored(x)) {
    }
    assert TreeNodes(rest) == old(TreeNodes(rest));
  }

  /** Taking the entry out of the first tree again. */
  method UndoFirst(k: Index, rest: seq<Index>, node: Entry, ghost keys: seq<Entry>, ghost p: nat)
    requires k.Valid() && Aside(k, rest) && TreesValid(rest)
    requires p <= |keys| && Stored(k) == Inserted(keys, p, node) && |keys| + 2 < Pow2(50)
    modifies k, k.nodes
    ensures k.Valid() && Aside(k, rest) && TreesValid(rest) && TreeNodes(rest) == old(TreeNodes(rest))
    ensures k.nodes <= old(k.nodes) && Stored(k) == keys
    ensures forall x :: x in rest ==> Stored(x) == old(Stored(x))
  {
    ghost var before := Stored(k);
    assert before[p] == node && node in before;
    assert Sorted(before, k.at);
    var found;
    ghost var q;
    found, q := DeleteAside(k, rest, node);
    InsertRemove(keys, p, node, q, k.at);
  }

  /** `t` is `s` with `e` put in somewhere. */
  ghost predicate Grown(s: seq<Entry>, t: seq<Entry>, e: Entry) {
    exists p :: 0 <= p <= |s| && t == Inserted(s, p, e)
  }

  /** The entry was put into every tree. */
  twostate predicate AllInserted(ks: seq<Index>, node: Entry)
    reads ks
  {
    forall k :: k in ks ==> Grown(old(Stored(k)), Stored(k), node)
  }

  /** The keys of every tree are as they were. */
  twostate predicate AllKept(ks: seq<Index>)
    reads ks
  {
    forall k :: k in ks ==> Stored(k) == old(Stored(k))
  }

  /** The recursive call of map_key, seen from the first tree. */
  method RestKeys(k: Index, rest: seq<Index>, node: Entry) returns (r: KeyResult)
    requires k.Valid() && Aside(k, rest) && TreesValid(rest)
    requires forall x :: x in rest ==> node !in Stored(x) && |Stored(x)| + 2 < Pow2(50)
    modifies rest, TreeNodes(rest)
    ensures k.Valid() && Aside(k, rest) && TreesValid(rest)
    ensures Stored(k) == old(Stored(k)) && k.nodes == old(k.nodes)
    ensures forall n :: n in TreeNodes(rest) && n !in old(TreeNodes(rest)) ==> fresh(n)
    ensures r.Zero? <==> old(NoClash(rest, node))
    ensures if r.Zero? then AllInserted(rest, node) else AllKept(rest)
    decreases |rest|, 1
  {
    AsideNodes(k, rest);
    r := MapKey(rest, node);
    AsideNodes(k, rest);
  }

  /** The rest of map_key once the first tree has taken the entry at position `p`. */
  method KeyRest(k: Index, rest: seq<Index>, node: Entry, ghost keys: seq<Entry>, ghost p: nat) returns (r: KeyResult)
    requires k.Valid() && Aside(k, rest) && TreesValid(rest)
    requires p <= |keys| && Stored(k) == Inserted(keys, p, node) && |keys| + 2 < Pow2(50)
    requires forall x :: x in rest ==> node !in Stored(x) && |Stored(x)| + 2 < Pow2(50)
    modifies k, k.nodes, rest, TreeNodes(rest)
    ensures k.Valid() && Aside(k, rest) && TreesValid(rest) && k.nodes <= old(k.nodes)
    ensures forall n :: n in TreeNodes(rest) && n !in old(TreeNodes(rest)) ==> fresh(n)
    ensures !r.Existing?
    ensures r.Zero? <==> old(NoClash(rest, node))
    ensures if r.Zero? then Stored(k) == old(Stored(k)) && AllInserted(rest, node)
      else Stored(k) == keys && AllKept(rest)
    decreases |rest|, 2
  {
    r := RestKeys(k, rest, node);
    if !r.Zero? {
      UndoFirst(k, rest, node, keys, p);
      r := Failure;
    }
  }

  lemma FirstOrRest(ks: seq<Index>, node: Entry)
    requires ks != []
    ensures forall x :: x in ks <==> x == ks[0] || x in ks[1..]
    ensures NoClash(ks, node) <==> !Clash(ks[0], node) && NoClash(ks[1..], node)
  {
    assert ks == [ks[0]] + ks[1..];
  }

  /** map_key with at least one tree left. */
  method KeyFirst(k: Index, rest: seq<Index>, node: Entry) returns (r: KeyResult)
    requires k.Valid() && Aside(k, rest) && TreesValid(rest)
    requires node !in Stored(k) && |Stored(k)| + 2 < Pow2(50)
    requires forall x :: x in rest ==> node !in Stored(x) && |Stored(x)| + 2 < Pow2(50)
    modifies k, k.nodes, rest, TreeNodes(rest)
    ensures k.Valid() && Aside(k, rest) && TreesValid(rest)
    ensures forall n :: n in k.nodes && n !in old(k.nodes) ==> fresh(n)
    ensures forall n :: n in TreeNodes(rest) && n !in old(TreeNodes(rest)) ==> fresh(n)
    ensures r.Zero? <==> !old(Clash(k, node)) && old(NoClash(rest, node))
    ensures if r.Zero? then Grown(old(Stored(k)), Stored(k), node) && AllInserted(rest, node)
      else Stored(k) == old(Stored(k)) && AllKept(rest)
    ensures r.Existing? <==> old(Clash(k, node))
    ensures r.Existing? ==> r.entry in old(Stored(k)) && Rank(r.entry, k.at) == Rank(node, k.at)
    decreases |rest|, 3
  {
    var leaf;
    ghost var p;
    ghost var keys := Stored(k);
    leaf, p := InsertFirst(k, rest, node);
    if leaf != node {
      r := Existing(leaf);
    } else {
      assert Grown(keys, Stored(k), node);
      r := KeyRest(k, rest, node, keys, p);
    }
  }

  /** map_key: insert into the first tree, then into the rest; roll back if the rest refuses. */
  method MapKey(ks: seq<Index>, node: Entry) returns (r: KeyResult)
    requires TreesValid(ks)
    requires forall k :: k in ks ==> node !in Stored(k) && |Stored(k)| + 2 < Pow2(50)
    modifies ks, TreeNodes(ks)
    ensures TreesValid(ks)
    ensures forall n :: n in TreeNodes(ks) && n !in old(TreeNodes(ks)) ==> fresh(n)
    ensures r.Zero? <==> old(NoClash(ks, node))
    ensures if r.Zero? then AllInserted(ks, node) else AllKept(ks)
    ensures r.Existing? <==> ks != [] && old(Clash(ks[0], node))
    ensures r.Existing? ==> r.entry in old(Stored(ks[0])) && Rank(r.entry, ks[0].at) == Rank(node, ks[0].at)
    decreases |ks|, 0
  {
    if ks == [] {
      return Zero;
    }
    var k, rest := ks[0], ks[1..];
    FirstAndRest(ks);
    FirstOrRest(ks, node);
    r := KeyFirst(k, rest, node);
    FirstAndRest(ks);
  }

  /** The keys of `s` but for `e`. */
  ghost predicate Shrunk(s: seq<Entry>, t: seq<Entry>, e: Entry) {
    (forall x :: x in t ==> x in s && x != e) && (forall x :: x in s && x != e ==> x in t)
  }

  /** Delete a key from one tree; other trees do not notice. */
  method DeleteOne(k: Index, ghost others: set<Index>, node: Entry) returns (found: bool, ghost q: nat)
    requires k.Valid() && |Stored(k)| + 1 < Pow2(50)
    requires forall x :: x in others ==> x.Valid() && x != k && x.nodes !! k.nodes
    modifies k, k.nodes
    ensures k.Valid() && k.nodes <= old(k.nodes)
    ensures forall x :: x in others ==> x.Valid() && x.nodes == old(x.nodes) && Stored(x) == old(Stored(x))
    ensures found == exists e :: e in old(Stored(k)) && Rank(e, k.at) == Rank(node, k.at)
    ensures found ==> q < |old(Stored(k))| && Rank(old(Stored(k))[q], k.at) == Rank(node, k.at)
    ensures found ==> Stored(k) == Removed(old(Stored(k)), q)
  {
    found, q := k.TDelete(node);
  }

  /** Delete a stored entry from one tree; the other trees do not notice. */
  method DeleteAt(ks: seq<Index>, i: nat, node: Entry)
    requires TreesValid(ks) && i < |ks| && node in Stored(ks[i]) && |Stored(ks[i])| + 1 < Pow2(50)
    modifies ks[i], ks[i].nodes
    ensures TreesValid(ks) && TreeNodes(ks) <= old(TreeNodes(ks))
    ensures forall j :: 0 <= j < |ks| && j != i ==> Stored(ks[j]) == old(Stored(ks[j]))
    ensures Shrunk(old(Stored(ks[i])), Stored(ks[i]), node)
  {
    ghost var keys, at := Stored(ks[i]), ks[i].at;
    assert ks[i].Valid();
    var found;
    ghost var q;
    ghost var others := set j | 0 <= j < |ks| && j != i :: ks[j];
    Others(ks, i);
    found, q := DeleteOne(ks[i], others, node);
    assert forall j :: 0 <= j < |ks| && j != i ==> ks[j] in others;
    SameRank(keys, q, node, at);
    RemovedElements(keys, q);
  }

  lemma Others(ks: seq<Index>, i: nat)
    requires TreesValid(ks) && i < |ks|
    ensures forall j :: 0 <= j < |ks| && j != i ==> ks[j].Valid() && ks[j] != ks[i] && ks[j].nodes !! ks[i].nodes
  {
  }

  lemma SameRank(s: seq<Entry>, q: nat, e: Entry, i: nat)
    requires Sorted(s, i) && e in s && q < |s| && Rank(s[q], i) == Rank(e, i)
    ensures s[q] == e
  {
  }
}
