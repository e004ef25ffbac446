/** Whole runs of the map (lib/common/map.c): what any operations make of an empty map. */
module MapRuns {
  import opened MapIndexes
  import opened MultiMap
  import opened RedBlackShape
  import opened RedBlackTree
  import opened Sequences

  datatype Op =
    | Push(item: Item)
    | PushBack(item: Item)
    | PushFind(item: Item, cpy: Copier, flag: Flag)
    | Pop
    | PopBack
    | Get(keys: seq<real>, index: nat)
    | Until(yes: (seq<real>, int) -> bool)
    | Erase
    | Find(keys: seq<real>, index: nat)
    | Walk(exe: Entry -> int, index: nat)
    | AddKey

  /** What the list holds, newest first. */
  ghost function Contents(list: seq<Entry>): (r: seq<Item>)
    reads list
    ensures |r| == |list| && forall i :: 0 <= i < |list| ==> r[i] == Item(list[i].keys, list[i].item)
  {
    seq(|list|, (i: nat) requires i < |list| reads list => Item(list[i].keys, list[i].item))
  }

  predicate Same(x: Item, keys: seq<real>, i: nat) {
    x.Item? && KeyAt(x.keys, i) == KeyAt(keys, i)
  }

  /** Some item has one of the first `n` keys. */
  ghost predicate Has(s: seq<Item>, keys: seq<real>, n: nat) {
    exists i: nat, j: nat :: i < n && j < |s| && Same(s[j], keys, i)
  }

  /** No two items have the same key under one of `n` comparators. */
  ghost predicate Distinct(s: seq<Item>, n: nat) {
    forall i: nat, a, b :: i < n && 0 <= a < b < |s| && s[b].Item? ==> !Same(s[a], s[b].keys, i)
  }

  /** What an operation makes of the items of a map with `n` comparators. */
  ghost predicate Does(op: Op, s: seq<Item>, t: seq<Item>, n: nat) {
    match op
    case Push(item) => t == if item.Item? && !Has(s, item.keys, n) then [item] + s else s
    case PushBack(item) => t == if item.Item? && !Has(s, item.keys, n) then s + [item] else s
    case PushFind(item, cpy, flag) => Finds(item, cpy, flag, s, t, n)
    case Pop => t == if s == [] then [] else s[1..]
    case PopBack => t == if s == [] then [] else s[..|s| - 1]
    case Get(keys, index) =>
      || (index < n && exists at: nat :: at < |s| && Same(s[at], keys, index) && t == Removed(s, at))
      || (t == s && (index >= n || forall j: nat :: j < |s| ==> !Same(s[j], keys, index)))
    case Until(yes) =>
      && t <= s && (t != [] ==> t[|t| - 1].Item? && !yes(t[|t| - 1].keys, t[|t| - 1].data))
      && forall j :: |t| <= j < |s| ==> s[j].Item? && yes(s[j].keys, s[j].data)
    case Erase => t == []
    case _ => t == s
  }

  /** No two items have the same key number `i`. */
  ghost predicate Differing(s: seq<Item>, i: nat) {
    forall a, b :: 0 <= a < b < |s| && s[b].Item? ==> !Same(s[a], s[b].keys, i)
  }

  /** How many comparators there are after an operation: one is added only if it tells the items apart. */
  ghost function Count(op: Op, s: seq<Item>, n: nat): nat {
    if op.AddKey? && Differing(s, n) then n + 1 else n
  }

  /** A new item is in front; or the item with its first key is renewed; or nothing happens. */
  ghost predicate Finds(item: Item, cpy: Copier, flag: Flag, s: seq<Item>, t: seq<Item>, n: nat) {
    if item.NoItem? then t == s
    else if !Has(s, item.keys, n) then t == [Item(item.keys, Map.Created(cpy, item.data))] + s
    else if n > 0 && Has(s, item.keys, 1) then Renews(s, t, item, cpy, flag)
    else t == s
  }

  /** The item with the first key gets its value renewed, and is first if the flag says so. */
  ghost predicate Renews(s: seq<Item>, t: seq<Item>, item: Item, cpy: Copier, flag: Flag)
    requires item.Item?
  {
    exists at: nat ::
      && at < |s| && Same(s[at], item.keys, 0)
      && var x := Item(s[at].keys, Map.Updated(cpy, flag, s[at].data, item.data));
         t == if flag.Flag? && flag.shift then [x] + Removed(s, at) else s[at := x]
  }

  lemma AtMostOneMore(op: Op, s: seq<Item>, t: seq<Item>, n: nat)
    requires Does(op, s, t, n)
    ensures |t| <= |s| + 1
  {
  }

  lemma HasIs(list: seq<Entry>, keys: seq<real>, n: nat)
    ensures Taken(list, keys, n) <==> Has(Contents(list), keys, n)
  {
    var s := Contents(list);
    if Taken(list, keys, n) {
      var i: nat, x :| i < n && x in list && Rank(x, i) == KeyAt(keys, i);
      var j :| 0 <= j < |list| && list[j] == x;
      assert Same(s[j], keys, i);
    }
    if Has(s, keys, n) {
      var i: nat, j: nat :| i < n && j < |s| && Same(s[j], keys, i);
      assert list[j] in list && Rank(list[j], i) == KeyAt(keys, i);
    }
  }

  /** In a valid map every comparator tells all entries apart. */
  lemma AllApart(m: Map, i: nat)
    requires m.Valid() && i < |m.key|
    ensures ToldApart(m.list, i)
  {
    var k := m.key[i];
    assert k in m.key && k.Valid() && Holds(k, m.list);
    forall a, b | 0 <= a < b < |m.list| ensures Rank(m.list[a], i) != Rank(m.list[b], i) {
      assert m.list[a] in m.list && m.list[b] in m.list;
      var p :| 0 <= p < |Stored(k)| && Stored(k)[p] == m.list[a];
      var q :| 0 <= q < |Stored(k)| && Stored(k)[q] == m.list[b];
      assert p < q || q < p;
    }
  }

  lemma ContentsDistinct(m: Map)
    requires m.Valid()
    ensures Distinct(Contents(m.list), |m.key|)
  {
    var s := Contents(m.list);
    forall i: nat, a, b | i < |m.key| && 0 <= a < b < |s| && s[b].Item? ensures !Same(s[a], s[b].keys, i) {
      AllApart(m, i);
      assert Rank(m.list[a], i) != Rank(m.list[b], i);
    }
  }

  /** What a map consists of. */
  ghost function Objects(m: Map): set<object>
    reads m, m.key
  {
    var entries: set<object> := set e: Entry | e in m.list;
    var indexes: set<object> := set k: Index | k in m.key;
    var nodes: set<object> := TreeNodes(m.key);
    {m} + entries + indexes + nodes
  }

  twostate lemma WithinObjects(m: Map)
    requires m.Within()
    ensures forall o :: o in Objects(m) ==> o in old(Objects(m)) || fresh(o)
  {
  }

  twostate lemma NewObjects(new m: Map)
    requires fresh(m) && m.list == []
    requires (forall k :: k in m.key ==> fresh(k)) && forall x :: x in TreeNodes(m.key) ==> fresh(x)
    ensures forall o :: o in Objects(m) ==> fresh(o)
  {
  }

  method DoPush(m: Map, op: Op)
    requires m.Valid() && |m.list| < 0x7fff_ffff && op.Push?
    modifies m, m.list`up, m.list`down, m.key, TreeNodes(m.key)
    ensures m.Valid() && m.key == old(m.key) && m.Within()
    ensures Does(op, old(Contents(m.list)), Contents(m.list), |m.key|)
  {
    if op.item.Item? {
      HasIs(m.list, op.item.keys, |m.key|);
    }
    var rv := m.Push(op.item);
  }

  method DoPushBack(m: Map, op: Op)
    requires m.Valid() && |m.list| < 0x7fff_ffff && op.PushBack?
    modifies m, m.list`up, m.list`down, m.key, TreeNodes(m.key)
    ensures m.Valid() && m.key == old(m.key) && m.Within()
    ensures Does(op, old(Contents(m.list)), Contents(m.list), |m.key|)
  {
    if op.item.Item? {
      HasIs(m.list, op.item.keys, |m.key|);
    }
    var rv := m.PushBack(op.item);
  }

  method DoPushFind(m: Map, item: Item, cpy: Copier, flag: Flag)
    requires m.Valid() && |m.list| < 0x7fff_ffff
    modifies m, m.list, m.key, TreeNodes(m.key)
    ensures m.Valid() && m.key == old(m.key) && m.Within()
    ensures Finds(item, cpy, flag, old(Contents(m.list)), Contents(m.list), |m.key|)
  {
    ghost var s, list, n := Contents(m.list), m.list, |m.key|;
    if item.Item? {
      HasIs(list, item.keys, n);
      HasIs(list, item.keys, 1);
    }
    var rv, flag';
    ghost var at;
    rv, flag', at := m.PushFind(item, cpy, flag);
    if item.Item? && n > 0 && Has(s, item.keys, 1) {
      FoundDoes(list, s, m.list, at, item, cpy, flag, n);
    } else if item.Item? && !Has(s, item.keys, n) {
      NewDoes(list, s, m.list, item, cpy, flag, n);
    } else {
      NoneDoes(list, s, item, cpy, flag, n);
    }
  }

  lemma NoneDoes(list: seq<Entry>, s: seq<Item>, item: Item, cpy: Copier, flag: Flag, n: nat)
    requires item.Item? ==> Has(s, item.keys, n) && !(n > 0 && Has(s, item.keys, 1))
    requires |s| == |list| && forall i :: 0 <= i < |s| ==> s[i] == Item(list[i].keys, list[i].item)
    ensures Finds(item, cpy, flag, s, Contents(list), n)
  {
    assert Contents(list) == s;
  }

  lemma FoundDoes(before: seq<Entry>, s: seq<Item>, list: seq<Entry>, at: nat,
                  item: Item, cpy: Copier, flag: Flag, n: nat)
    requires item.Item? && n > 0 && Has(s, item.keys, 1)
    requires |s| == |before| && at < |s| && s[at].Item? && s[at].keys == before[at].keys
    requires Rank(before[at], 0) == KeyAt(item.keys, 0)
    requires before[at].item == Map.Updated(cpy, flag, s[at].data, item.data)
    requires forall i :: 0 <= i < |s| && i != at ==> s[i] == Item(before[i].keys, before[i].item)
    requires list == if flag.Flag? && flag.shift then [before[at]] + Removed(before, at) else before
    ensures Finds(item, cpy, flag, s, Contents(list), n)
  {
    var x := Item(s[at].keys, Map.Updated(cpy, flag, s[at].data, item.data));
    MovedContents(before, s, list, at, x, flag.Flag? && flag.shift);
    assert Same(s[at], item.keys, 0);
    HasFew(s, item.keys, n);
  }

  lemma NewDoes(before: seq<Entry>, s: seq<Item>, list: seq<Entry>, item: Item, cpy: Copier, flag: Flag, n: nat)
    requires item.Item? && !Has(s, item.keys, n)
    requires |s| == |before| && forall i :: 0 <= i < |s| ==> s[i] == Item(before[i].keys, before[i].item)
    requires list != [] && list == [list[0]] + before && list[0].keys == item.keys
    requires list[0].item == Map.Created(cpy, item.data)
    ensures Finds(item, cpy, flag, s, Contents(list), n)
  {
  }

  lemma HasFew(s: seq<Item>, keys: seq<real>, n: nat)
    requires n > 0 && Has(s, keys, 1)
    ensures Has(s, keys, n)
  {
  }

  lemma MovedContents(before: seq<Entry>, s: seq<Item>, list: seq<Entry>, at: nat, x: Item, front: bool)
    requires |s| == |before| && at < |s| && x == Item(before[at].keys, before[at].item)
    requires forall i :: 0 <= i < |s| && i != at ==> s[i] == Item(before[i].keys, before[i].item)
    requires list == if front then [before[at]] + Removed(before, at) else before
    ensures Contents(list) == if front then [x] + Removed(s, at) else s[at := x]
  {
  }

  lemma RemovedContents(list: seq<Entry>, at: nat)
    requires at < |list|
    ensures Contents(Removed(list, at)) == Removed(Contents(list), at)
  {
  }

  method DoPop(m: Map, op: Op)
    requires m.Valid() && (op.Pop? || op.PopBack? || op.Erase?)
    modifies m, m.list`up, m.list`down, m.key, TreeNodes(m.key)
    ensures m.Valid() && m.key == old(m.key) && m.Within()
    ensures Does(op, old(Contents(m.list)), Contents(m.list), |m.key|)
  {
    var item;
    match op
    case Pop => item := m.Pop();
    case PopBack => item := m.PopBack();
    case Erase => m.Erase();
  }

  method DoGet(m: Map, op: Op)
    requires m.Valid() && op.Get?
    modifies m, m.list`up, m.list`down, m.key, TreeNodes(m.key)
    ensures m.Valid() && m.key == old(m.key) && m.Within()
    ensures Does(op, old(Contents(m.list)), Contents(m.list), |m.key|)
  {
    ghost var list, s := m.list, Contents(m.list);
    var got := m.Get(Item(op.keys, 0), op.index);
    assert Contents(list) == s;
    if got != NoItem {
      ghost var at :| 0 <= at < |list| && m.list == Removed(list, at) && got == s[at];
      GetTakes(op, list, at, |m.key|);
    } else {
      GetMisses(op, list, |m.key|);
    }
  }

  lemma GetTakes(op: Op, list: seq<Entry>, at: nat, n: nat)
    requires op.Get? && op.index < n && at < |list| && Rank(list[at], op.index) == KeyAt(op.keys, op.index)
    ensures Does(op, Contents(list), Contents(Removed(list, at)), n)
  {
    RemovedContents(list, at);
    assert Same(Contents(list)[at], op.keys, op.index);
  }

  lemma GetMisses(op: Op, list: seq<Entry>, n: nat)
    requires op.Get? && (op.index >= n || forall x :: x in list ==> Rank(x, op.index) != KeyAt(op.keys, op.index))
    ensures Does(op, Contents(list), Contents(list), n)
  {
    forall j: nat | j < |list| && op.index < n ensures !Same(Contents(list)[j], op.keys, op.index) {
      assert list[j] in list;
    }
  }

  method DoUntil(m: Map, op: Op)
    requires m.Valid() && op.Until?
    modifies m, m.list`up, m.list`down, m.key, TreeNodes(m.key)
    ensures m.Valid() && m.key == old(m.key) && m.Within()
    ensures Does(op, old(Contents(m.list)), Contents(m.list), |m.key|)
  {
    m.Until(op.yes);
  }

  /** Does comparator `i` tell all entries apart?  What a caller of map_add_key has to know. */
  method TellsApart(m: Map, i: nat) returns (apart: bool)
    requires m.Valid()
    ensures apart <==> ToldApart(m.list, i)
  {
    var x := m.root;
    ghost var a := 0;
    while x != null
      invariant a <= |m.list| && x == (if a < |m.list| then m.list[a] else null)
      invariant forall c, b :: 0 <= c < a && c < b < |m.list| ==> Rank(m.list[c], i) != Rank(m.list[b], i)
      decreases |m.list| - a
    {
      apart := DiffersBelow(m, x, i, a);
      if !apart {
        return;
      }
      assert m.list[a].down == if a == |m.list| - 1 then null else m.list[a + 1];
      x := x.down;
      a := a + 1;
    }
    apart := true;
  }

  method DiffersBelow(m: Map, x: Entry, i: nat, ghost a: nat) returns (differs: bool)
    requires m.Valid() && a < |m.list| && x == m.list[a]
    ensures differs <==> forall b :: a < b < |m.list| ==> Rank(x, i) != Rank(m.list[b], i)
  {
    ghost var b := a + 1;
    assert m.list[a].down == if a == |m.list| - 1 then null else m.list[a + 1];
    var y := x.down;
    while y != null
      invariant a < b <= |m.list| && y == (if b < |m.list| then m.list[b] else null)
      invariant forall c :: a < c < b ==> Rank(x, i) != Rank(m.list[c], i)
      decreases |m.list| - b
    {
      if KeyAt(x.keys, i) == KeyAt(y.keys, i) {
        return false;
      }
      assert m.list[b].down == if b == |m.list| - 1 then null else m.list[b + 1];
      y := y.down;
      b := b + 1;
    }
    differs := true;
  }

  lemma DifferingIs(list: seq<Entry>, i: nat)
    ensures Differing(Contents(list), i) <==> ToldApart(list, i)
  {
    var s := Contents(list);
    forall a, b | 0 <= a < b < |list| ensures Same(s[a], s[b].keys, i) <==> Rank(list[a], i) == Rank(list[b], i) {
    }
  }

  method DoAddKey(m: Map, op: Op)
    requires m.Valid() && op.AddKey?
    modifies m`key
    ensures m.Valid() && m.Within() && m.list == old(m.list)
    ensures |m.key| == Count(op, Contents(m.list), |old(m.key)|)
  {
    DifferingIs(m.list, |m.key|);
    var apart := TellsApart(m, |m.key|);
    if apart {
      m.AddKey();
    }
  }

  /** Operations that only look. */
  method DoLook(m: Map, op: Op)
    requires m.Valid() && (op.Find? || op.Walk?)
    ensures m.Valid()
  {
    match op
    case Find(keys, index) =>
      var found := m.Search(Item(keys, 0), index);
    case Walk(exe, index) =>
      if index < |m.key| {
        var k := m.key[index];
        assert k in m.key;
        if k.root != null {
          var r;
          ghost var visited;
          r, visited := k.TRecurse(k.root, exe, k.shape);
        }
      }
  }

  method Step(m: Map, op: Op)
    requires m.Valid() && |m.list| < 0x7fff_ffff
    modifies Objects(m)
    ensures m.Valid() && forall o :: o in Objects(m) ==> o in old(Objects(m)) || fresh(o)
    ensures Does(op, old(Contents(m.list)), Contents(m.list), |old(m.key)|)
    ensures |m.key| == Count(op, old(Contents(m.list)), |old(m.key)|)
    ensures Distinct(Contents(m.list), |m.key|) && |m.list| <= |old(m.list)| + 1
  {
    ghost var s, n := Contents(m.list), |m.key|;
    StepOn(m, op);
    WithinObjects(m);
    ContentsDistinct(m);
    AtMostOneMore(op, s, Contents(m.list), n);
  }

  method StepOn(m: Map, op: Op)
    requires m.Valid() && |m.list| < 0x7fff_ffff
    modifies m, m.list, m.key, TreeNodes(m.key)
    ensures m.Valid() && m.Within()
    ensures Does(op, old(Contents(m.list)), Contents(m.list), |old(m.key)|)
    ensures |m.key| == Count(op, old(Contents(m.list)), |old(m.key)|)
  {
    match op
    case Push(_) => DoPush(m, op);
    case PushBack(_) => DoPushBack(m, op);
    case PushFind(item, cpy, flag) => DoPushFind(m, item, cpy, flag);
    case Get(_, _) => DoGet(m, op);
    case Until(_) => DoUntil(m, op);
    case AddKey => DoAddKey(m, op);
    case Find(_, _) => DoLook(m, op);
    case Walk(_, _) => DoLook(m, op);
    case _ => DoPop(m, op);
  }

  /** A new map with `n` comparators. */
  method Empty(n: nat) returns (m: Map)
    ensures m.Valid() && m.list == [] && |m.key| == n
    ensures forall o :: o in Objects(m) ==> fresh(o)
  {
    m := new Map();
    while |m.key| < n
      invariant m.Valid() && m.list == [] && |m.key| <= n
      invariant fresh(m) && (forall k :: k in m.key ==> fresh(k)) && forall x :: x in TreeNodes(m.key) ==> fresh(x)
    {
      m.AddKey();
    }
    NewObjects(m);
  }

  /** The items of a map, and how many comparators it has. */
  datatype Snapshot = Snapshot(items: seq<Item>, count: nat)

  ghost predicate Leads(op: Op, x: Snapshot, y: Snapshot) {
    Does(op, x.items, y.items, x.count) && y.count == Count(op, x.items, x.count)
  }

  /** The first steps of a run: every operation does what it says, and no two items ever have a key in
      common. */
  ghost predicate Traced(ops: seq<Op>, trace: seq<Snapshot>, n: nat) {
    && 0 < |trace| <= |ops| + 1 && trace[0] == Snapshot([], n)
    && (forall i :: 0 <= i < |trace| - 1 ==> Leads(ops[i], trace[i], trace[i + 1]))
    && forall i :: 0 <= i < |trace| ==> Distinct(trace[i].items, trace[i].count)
  }

  lemma TracedMore(ops: seq<Op>, trace: seq<Snapshot>, x: Snapshot, n: nat)
    requires Traced(ops, trace, n) && |trace| <= |ops|
    requires Leads(ops[|trace| - 1], trace[|trace| - 1], x) && Distinct(x.items, x.count)
    ensures Traced(ops, trace + [x], n)
  {
  }

  ghost function Snap(m: Map): Snapshot
    reads m, m.list
  {
    Snapshot(Contents(m.list), |m.key|)
  }

  /** Any operations on a new map leave it valid and do what they say. */
  method Run(n: nat, ops: seq<Op>) returns (m: Map, ghost trace: seq<Snapshot>)
    requires |ops| < 0x7fff_ffff
    ensures m.Valid() && |trace| == |ops| + 1 && trace[|ops|] == Snap(m)
    ensures Traced(ops, trace, n)
  {
    m := Empty(n);
    trace := [Snap(m)];
    ContentsDistinct(m);
    var i := 0;
    while i < |ops|
      invariant 0 <= i <= |ops| && m.Valid() && |m.list| <= i
      invariant forall o :: o in Objects(m) ==> fresh(o)
      invariant |trace| == i + 1 && trace[i] == Snap(m) && Traced(ops, trace, n)
    {
      Step(m, ops[i]);
      TracedMore(ops, trace, Snap(m), n);
      trace := trace + [Snap(m)];
      i := i + 1;
    }
  }
}
