/** Freeing a parsed JSON value (lib/common/json.c): a loop that goes down to the last member that is
    left, counts it off, and comes back up through parent pointers. */
module JsonFree {
  import opened Bytes
  import opened Json
  import opened JsonSecond
  import opened JsonPasses

  /** How many members a value has left. */
  function Count(a: Slot): nat {
    if Container(a.kind) then a.length else 0
  }

  /** Members are younger than what holds them, and point back to it. */
  predicate Treelike(s: seq<Slot>) {
    forall v :: 0 <= v < |s| ==>
      && -1 <= s[v].parent < v && Count(s[v]) == |s[v].items|
      && (forall k :: 0 <= k < |s[v].items| ==> v < s[v].items[k] < |s| && s[s[v].items[k]].parent == v)
      && (forall j, k :: 0 <= j < k < |s[v].items| ==> s[v].items[j] != s[v].items[k])
  }

  /** Everything in value `v`: its members, the last first, each with all it holds, and then itself. */
  function Order(s: seq<Slot>, v: nat): seq<nat>
    requires Treelike(s) && v < |s|
    decreases |s| - v, |s[v].items| + 1
  {
    Rest(s, v, |s[v].items|) + [v]
  }

  /** The first `k` members of `v`, the last first. */
  function Rest(s: seq<Slot>, v: nat, k: nat): seq<nat>
    requires Treelike(s) && v < |s| && k <= |s[v].items|
    decreases |s| - v, k
  {
    if k == 0 then [] else Order(s, s[v].items[k - 1]) + Rest(s, v, k - 1)
  }

  /** What is left to free when `v` has its first `length` members left, and so on upwards. */
  function Todo(s: seq<Slot>, now: seq<Slot>, v: int): seq<nat>
    requires Treelike(s) && |now| == |s| && -1 <= v < |s|
    requires forall x :: 0 <= x < |s| ==> Count(now[x]) <= |s[x].items| && -1 <= now[x].parent < x
    decreases v
  {
    if v < 0 then [] else Rest(s, v, Count(now[v])) + [v] + Todo(s, now, now[v].parent)
  }

  /** `x` is `v` or inside it. */
  ghost predicate Under(s: seq<Slot>, x: int, v: int)
    requires Treelike(s) && -1 <= x < |s|
    decreases x
  {
    x >= 0 && (x == v || Under(s, s[x].parent, v))
  }

  lemma {:induction false} UnderAbove(s: seq<Slot>, x: int, v: int)
    requires Treelike(s) && -1 <= x < |s| && Under(s, x, v)
    ensures v <= x
    decreases x
  {
    if x != v {
      UnderAbove(s, s[x].parent, v);
    }
  }

  lemma {:induction false} UnderTrans(s: seq<Slot>, x: int, v: int, w: int)
    requires Treelike(s) && -1 <= x < |s| && 0 <= v < |s| && Under(s, x, v) && Under(s, v, w)
    ensures Under(s, x, w)
    decreases x
  {
    if x != v {
      UnderTrans(s, s[x].parent, v, w);
    }
  }

  /** Nothing is inside two different members of one value. */
  lemma {:induction false} Apart(s: seq<Slot>, x: int, c: int, d: int)
    requires Treelike(s) && -1 <= x < |s| && 0 <= c < |s| && 0 <= d < |s| && s[c].parent == s[d].parent
    requires Under(s, x, c) && Under(s, x, d)
    ensures c == d
    decreases x
  {
    if x == c {
      if x != d {
        UnderAbove(s, s[c].parent, d);
      }
    } else if x == d {
      UnderAbove(s, s[d].parent, c);
    } else {
      Apart(s, s[x].parent, c, d);
    }
  }

  /** What is freed with the first `k` members of `v` is inside one of them. */
  lemma {:induction false} RestInside(s: seq<Slot>, v: nat, k: nat, x: nat) returns (j: nat)
    requires Treelike(s) && v < |s| && k <= |s[v].items| && x in Rest(s, v, k)
    ensures j < k && x < |s| && Under(s, x, s[v].items[j])
    decreases |s| - v, k, 0
  {
    if x in Order(s, s[v].items[k - 1]) {
      j := k - 1;
      OrderInside(s, s[v].items[k - 1], x);
    } else {
      j := RestInside(s, v, k - 1, x);
    }
  }

  lemma {:induction false} OrderInside(s: seq<Slot>, v: nat, x: nat)
    requires Treelike(s) && v < |s| && x in Order(s, v)
    ensures x < |s| && Under(s, x, v)
    decreases |s| - v, |s[v].items| + 1, 0
  {
    if x != v {
      var j := RestInside(s, v, |s[v].items|, x);
      assert Under(s, s[v].items[j], v);
      UnderTrans(s, x, s[v].items[j], v);
    }
  }

  predicate Distinct(q: seq<nat>) {
    forall i, j :: 0 <= i < j < |q| ==> q[i] != q[j]
  }

  lemma DistinctJoin(a: seq<nat>, b: seq<nat>)
    requires Distinct(a) && Distinct(b) && forall x :: x in a ==> x !in b
    ensures Distinct(a + b)
  {
    forall i, j | 0 <= i < j < |a + b| ensures (a + b)[i] != (a + b)[j] {
      if i < |a| && j >= |a| {
        assert a[i] in a && b[j - |a|] in b;
      }
    }
  }

  /** Nothing is freed twice. */
  lemma {:induction false} OrderDistinct(s: seq<Slot>, v: nat)
    requires Treelike(s) && v < |s|
    ensures Distinct(Order(s, v))
    decreases |s| - v, |s[v].items| + 1, 0
  {
    RestDistinct(s, v, |s[v].items|);
    forall x | x in Rest(s, v, |s[v].items|) ensures x !in [v] {
      NotBelow(s, v, |s[v].items|, x);
    }
    DistinctJoin(Rest(s, v, |s[v].items|), [v]);
  }

  lemma NotBelow(s: seq<Slot>, v: nat, k: nat, x: nat)
    requires Treelike(s) && v < |s| && k <= |s[v].items| && x in Rest(s, v, k)
    ensures x > v
  {
    var j := RestInside(s, v, k, x);
    UnderAbove(s, x, s[v].items[j]);
  }

  lemma {:induction false} RestDistinct(s: seq<Slot>, v: nat, k: nat)
    requires Treelike(s) && v < |s| && k <= |s[v].items|
    ensures Distinct(Rest(s, v, k))
    decreases |s| - v, k, 0
  {
    if k > 0 {
      var c := s[v].items[k - 1];
      OrderDistinct(s, c);
      RestDistinct(s, v, k - 1);
      forall x | x in Order(s, c) ensures x !in Rest(s, v, k - 1) {
        OrderInside(s, c, x);
        if x in Rest(s, v, k - 1) {
          var j := RestInside(s, v, k - 1, x);
          Apart(s, x, c, s[v].items[j]);
        }
      }
      DistinctJoin(Order(s, c), Rest(s, v, k - 1));
    }
  }

  /** Members are freed before what holds them. */
  predicate BottomUp(s: seq<Slot>, q: seq<nat>) {
    && (forall i :: 0 <= i < |q| ==> q[i] < |s|)
    && forall i, j :: 0 <= i < |q| && 0 <= j < |q| && s[q[j]].parent == q[i] ==> j < i
  }

  lemma BottomUpJoin(s: seq<Slot>, a: seq<nat>, b: seq<nat>)
    requires BottomUp(s, a) && BottomUp(s, b)
    requires forall x, y :: x in a && y in b && y < |s| ==> s[y].parent != x
    ensures BottomUp(s, a + b)
  {
    assert forall i :: 0 <= i < |a + b| ==> (a + b)[i] < |s|;
    forall i, j | 0 <= i < |a| && 0 <= j < |b| ensures s[b[j]].parent != a[i] {
      assert a[i] in a && b[j] in b;
    }
  }

  lemma {:induction false} OrderBottomUp(s: seq<Slot>, v: nat)
    requires Treelike(s) && v < |s|
    ensures BottomUp(s, Order(s, v))
    decreases |s| - v, |s[v].items| + 1, 0
  {
    RestBottomUp(s, v, |s[v].items|);
    forall x | x in Rest(s, v, |s[v].items|) ensures s[v].parent != x {
      NotBelow(s, v, |s[v].items|, x);
    }
    BottomUpJoin(s, Rest(s, v, |s[v].items|), [v]);
  }

  lemma {:induction false} RestBottomUp(s: seq<Slot>, v: nat, k: nat)
    requires Treelike(s) && v < |s| && k <= |s[v].items|
    ensures BottomUp(s, Rest(s, v, k))
    decreases |s| - v, k, 0
  {
    if k > 0 {
      var c := s[v].items[k - 1];
      OrderBottomUp(s, c);
      RestBottomUp(s, v, k - 1);
      forall x, y | x in Order(s, c) && y in Rest(s, v, k - 1) && y < |s| ensures s[y].parent != x {
        OrderInside(s, c, x);
        var j := RestInside(s, v, k - 1, y);
        if s[y].parent == x {
          UnderTrans(s, y, x, c);
          Apart(s, y, c, s[v].items[j]);
        }
      }
      BottomUpJoin(s, Order(s, c), Rest(s, v, k - 1));
    }
  }

  /** Every value inside `v` is freed with it, if members are listed where they belong. */
  ghost predicate Full(s: seq<Slot>) {
    Treelike(s) && forall x :: 0 <= x < |s| && s[x].parent >= 0 ==> x in s[s[x].parent].items
  }

  lemma {:induction false} OrderAll(s: seq<Slot>, v: nat, x: nat)
    requires Full(s) && v < |s| && x < |s| && Under(s, x, v)
    ensures x in Order(s, v)
    decreases x
  {
    if x != v {
      var p := s[x].parent;
      OrderAll(s, v, p);
      var k :| 0 <= k < |s[p].items| && s[p].items[k] == x;
      RestHas(s, p, |s[p].items|, k);
      OrderHas(s, v, p, x);
    }
  }

  lemma {:induction false} RestHas(s: seq<Slot>, v: nat, n: nat, k: nat)
    requires Treelike(s) && v < |s| && k < n <= |s[v].items|
    ensures s[v].items[k] in Rest(s, v, n)
    decreases n
  {
    if k == n - 1 {
      var c := s[v].items[k];
      assert Order(s, c) == Rest(s, c, |s[c].items|) + [c];
    } else {
      RestHas(s, v, n - 1, k);
    }
  }

  /** Who frees `p` frees what is freed with `p`. */
  lemma {:induction false} OrderHas(s: seq<Slot>, v: nat, p: nat, x: nat)
    requires Treelike(s) && v < |s| && p < |s| && p in Order(s, v) && x in Order(s, p)
    ensures x in Order(s, v)
    decreases |s| - v, |s[v].items| + 1, 0
  {
    if p != v {
      RestHasOrder(s, v, |s[v].items|, p, x);
    }
  }

  lemma {:induction false} RestHasOrder(s: seq<Slot>, v: nat, k: nat, p: nat, x: nat)
    requires Treelike(s) && v < |s| && k <= |s[v].items| && p < |s| && p in Rest(s, v, k) && x in Order(s, p)
    ensures x in Rest(s, v, k)
    decreases |s| - v, k, 0
  {
    if p in Order(s, s[v].items[k - 1]) {
      OrderHas(s, s[v].items[k - 1], p, x);
    } else {
      RestHasOrder(s, v, k - 1, p, x);
    }
  }

  /** What is freed with a value: all that is inside it, each once, members first. */
  lemma FreedOnce(s: seq<Slot>, v: nat)
    requires Full(s) && v < |s|
    ensures Distinct(Order(s, v)) && BottomUp(s, Order(s, v))
    ensures forall x: nat :: x in Order(s, v) <==> x < |s| && Under(s, x, v)
  {
    OrderDistinct(s, v);
    OrderBottomUp(s, v);
    forall x: nat ensures x in Order(s, v) <==> x < |s| && Under(s, x, v) {
      if x in Order(s, v) {
        OrderInside(s, v, x);
      }
      if x < |s| && Under(s, x, v) {
        OrderAll(s, v, x);
      }
    }
  }

  // The loop: `now` is the memory as lengths are counted down; `v` is the value it is at.

  ghost predicate Running(s: seq<Slot>, now: seq<Slot>) {
    && Treelike(s) && |now| == |s|
    && forall x :: 0 <= x < |s| ==>
      Count(now[x]) <= |s[x].items| && -1 <= now[x].parent < x && now[x].items == s[x].items && now[x].kind == s[x].kind
  }

  ghost predicate OnPath(s: seq<Slot>, now: seq<Slot>, v: int, x: nat)
    requires Running(s, now) && -1 <= v < |s|
    decreases v
  {
    v >= 0 && (x == v || OnPath(s, now, now[v].parent, x))
  }

  lemma {:induction false} PathIsTodo(s: seq<Slot>, now: seq<Slot>, v: int, x: nat)
    requires Running(s, now) && -1 <= v < |s| && OnPath(s, now, v, x)
    ensures v >= 0 && x in [v as nat] + Todo(s, now, now[v].parent)
    decreases v
  {
    if x != v {
      PathIsTodo(s, now, now[v].parent, x);
    }
  }

  /** Changing the length of a value that is not on the way up changes nothing there. */
  lemma {:induction false} SameTodo(s: seq<Slot>, now: seq<Slot>, next: seq<Slot>, v: int)
    requires Running(s, now) && Running(s, next) && -1 <= v < |s|
    requires forall x :: 0 <= x <= v ==> next[x] == now[x]
    ensures Todo(s, next, v) == Todo(s, now, v)
    decreases v
  {
    if v >= 0 {
      SameTodo(s, now, next, now[v].parent);
    }
  }

  lemma {:induction false} SamePath(s: seq<Slot>, now: seq<Slot>, next: seq<Slot>, v: int, x: nat)
    requires Running(s, now) && Running(s, next) && -1 <= v < |s|
    requires forall y :: 0 <= y < v ==> next[y] == now[y]
    requires 0 <= v ==> next[v].parent == now[v].parent
    ensures OnPath(s, next, v, x) <==> OnPath(s, now, v, x)
    decreases v
  {
    if v >= 0 {
      SamePath(s, now, next, now[v].parent, x);
    }
  }

  lemma JoinApart(a: seq<nat>, b: seq<nat>, x: nat)
    requires Distinct(a + b)
    ensures x in a ==> x !in b
  {
    forall i, j | 0 <= i < |a| && 0 <= j < |b| ensures a[i] != b[j] {
      assert (a + b)[i] == a[i] && (a + b)[|a| + j] == b[j];
    }
  }

  /** The last member that is left was not touched yet. */
  lemma Untouched(s: seq<Slot>, now: seq<Slot>, v: nat, freed: seq<nat>)
    requires Running(s, now) && v < |s| && Count(now[v]) > 0
    requires Distinct(freed + Todo(s, now, v))
    requires forall x :: 0 <= x < |s| && now[x] != s[x] ==> x in freed || OnPath(s, now, v, x)
    ensures var c := s[v].items[Count(now[v]) - 1];
      now[c] == s[c] && v < c < |s|
  {
    var c := s[v].items[Count(now[v]) - 1];
    var rest, up := Rest(s, v, Count(now[v])), [v] + Todo(s, now, now[v].parent);
    RestHas(s, v, Count(now[v]), Count(now[v]) - 1);
    assert Todo(s, now, v) == rest + up;
    assert freed + Todo(s, now, v) == (freed + rest) + up;
    JoinApart(freed + rest, up, c);
    JoinApart(freed, Todo(s, now, v), c);
    if OnPath(s, now, v, c) {
      PathIsTodo(s, now, v, c);
    }
  }

  /** Containers and strings own a block of memory: the list of members, the bytes. */
  predicate Owner(s: seq<Slot>, v: nat) {
    v < |s| && (Container(s[v].kind) || s[v].kind == Str)
  }

  /** The owners of a list of values, in its order. */
  function Owners(s: seq<Slot>, q: seq<nat>): seq<nat> {
    if q == [] then []
    else Owners(s, q[..|q| - 1]) + if Owner(s, q[|q| - 1]) then [q[|q| - 1]] else []
  }

  lemma {:induction false} OwnersOnce(s: seq<Slot>, q: seq<nat>)
    requires Distinct(q)
    ensures Distinct(Owners(s, q)) && forall x :: x in Owners(s, q) <==> x in q && Owner(s, x)
  {
    if q == [] {
    } else {
      var p, x := q[..|q| - 1], q[|q| - 1];
      OwnersOnce(s, p);
      assert q == p + [x] && x !in p;
      DistinctJoin(Owners(s, p), if Owner(s, x) then [x] else []);
    }
  }

  /** The blocks freed with a value: those of all owners inside it, each once. */
  lemma BlocksOnce(s: seq<Slot>, v: nat)
    requires Full(s) && v < |s|
    ensures Distinct(Owners(s, Order(s, v)))
    ensures forall x: nat :: x in Owners(s, Order(s, v)) <==> Owner(s, x) && Under(s, x, v)
  {
    FreedOnce(s, v);
    OwnersOnce(s, Order(s, v));
  }

  lemma Regroup(a: seq<nat>, b: seq<nat>, c: seq<nat>, d: seq<nat>)
    ensures a + (b + c + d) == (a + b) + c + d
  {
  }

  /** Going down to the last member that is left. */
  lemma Down(s: seq<Slot>, now: seq<Slot>, v: nat, freed: seq<nat>, next: seq<Slot>)
    requires Running(s, now) && v < |s| && Count(now[v]) > 0
    requires Distinct(freed + Todo(s, now, v))
    requires forall x :: 0 <= x < |s| && now[x] != s[x] ==> x in freed || OnPath(s, now, v, x)
    requires next == now[v := now[v].(length := now[v].length - 1)]
    ensures Running(s, next)
    ensures var c := s[v].items[Count(now[v]) - 1];
      && v < c < |s| && Todo(s, next, c) == Todo(s, now, v)
      && forall x :: 0 <= x < |s| && next[x] != s[x] ==> x in freed || OnPath(s, next, c, x)
  {
    var n := Count(now[v]);
    var c := s[v].items[n - 1];
    Untouched(s, now, v, freed);
    SameTodo(s, now, next, now[v].parent);
    assert Todo(s, next, c) == Rest(s, c, |s[c].items|) + [c] + Todo(s, next, v);
    calc {
      Todo(s, next, c);
      Order(s, c) + (Rest(s, v, n - 1) + [v] + Todo(s, now, now[v].parent));
      { Regroup(Order(s, c), Rest(s, v, n - 1), [v], Todo(s, now, now[v].parent)); }
      (Order(s, c) + Rest(s, v, n - 1)) + [v] + Todo(s, now, now[v].parent);
      Todo(s, now, v);
    }
    forall x | 0 <= x < |s| && next[x] != s[x] ensures x in freed || OnPath(s, next, c, x) {
      SamePath(s, now, next, v, x);
      assert next[c].parent == v;
    }
  }

  /** The value that the loop is at was not freed before. */
  lemma Alive(s: seq<Slot>, now: seq<Slot>, v: nat, freed: seq<nat>)
    requires Running(s, now) && v < |s| && Distinct(freed + Todo(s, now, v))
    ensures v !in freed
  {
    PathIsTodo(s, now, v, v);
    JoinApart(freed, Todo(s, now, v), v);
  }

  /** A value without members left is freed, and its holder is next. */
  lemma Up(s: seq<Slot>, now: seq<Slot>, v: nat, freed: seq<nat>)
    requires Running(s, now) && v < |s| && Count(now[v]) == 0
    requires forall x :: 0 <= x < |s| && now[x] != s[x] ==> x in freed || OnPath(s, now, v, x)
    ensures freed + Todo(s, now, v) == (freed + [v]) + Todo(s, now, now[v].parent)
    ensures |Todo(s, now, now[v].parent)| < |Todo(s, now, v)|
    ensures forall x :: 0 <= x < |s| && now[x] != s[x] ==> x in freed + [v] || OnPath(s, now, now[v].parent, x)
  {
    var rest := Todo(s, now, now[v].parent);
    assert Todo(s, now, v) == [v] + rest;
    assert freed + ([v] + rest) == (freed + [v]) + rest;
    forall x | 0 <= x < |s| && now[x] != s[x] ensures x in freed + [v] || OnPath(s, now, now[v].parent, x) {
      assert x in freed ==> x in freed + [v];
      assert v in freed + [v];
    }
  }

  lemma OwnersMore(s: seq<Slot>, q: seq<nat>, v: nat)
    ensures Owners(s, q + [v]) == Owners(s, q) + if Owner(s, v) then [v] else []
  {
    assert (q + [v])[..|q|] == q;
  }

  /** json_value_free: `freed` lists the values in the order in which they are freed, `blocks` those
      whose block is. */
  method FreeValue(values: seq<Slot>, root: nat) returns (freed: seq<nat>, blocks: seq<nat>)
    requires Treelike(values) && root < |values|
    ensures freed == Order(values, root) && blocks == Owners(values, freed)
  {
    var now := values[root := values[root].(parent := -1)];
    var value: int := root;
    freed, blocks := [], [];
    OrderDistinct(values, root);
    while value >= 0
      invariant Running(values, now) && -1 <= value < |values|
      invariant freed + Todo(values, now, value) == Order(values, root) && blocks == Owners(values, freed)
      invariant forall x :: 0 <= x < |values| && now[x] != values[x] ==> x in freed || OnPath(values, now, value, x)
      decreases |Todo(values, now, value)|, |values| - value
    {
      Alive(values, now, value, freed);
      assert value !in freed;
      var a := now[value];
      if Container(a.kind) && a.length > 0 {
        ghost var before := now;
        now := now[value := a.(length := a.length - 1)];
        Down(values, before, value, freed, now);
        value := a.items[a.length - 1];
      } else {
        Up(values, now, value, freed);
        OwnersMore(values, freed, value);
        if Container(a.kind) || a.kind == Str {
          blocks := blocks + [value as nat];
        }
        freed := freed + [value as nat];
        value := a.parent;
      }
    }
  }

  lemma {:induction false} ChildrenAre(t: seq<Value>, v: int, n: nat)
    requires n <= |t|
    ensures var q := Children(t, v, n);
      && (forall k :: 0 <= k < |q| ==> q[k] < n && t[q[k]].parent == v)
      && (forall j, k :: 0 <= j < k < |q| ==> q[j] < q[k])
      && (forall x :: 0 <= x < n && t[x].parent == v ==> x in q)
  {
    if n > 0 {
      ChildrenAre(t, v, n - 1);
      var r := Children(t, v, n - 1);
      if t[n - 1].parent == v {
        OneMore(r, n - 1);
      }
      forall x | 0 <= x < n && t[x].parent == v ensures x in Children(t, v, n) {
        assert x < n - 1 ==> x in r;
      }
    }
  }

  lemma OneMore(r: seq<nat>, x: nat)
    ensures forall y :: y in r + [x] <==> y in r || y == x
    ensures forall k :: 0 <= k < |r| ==> (r + [x])[k] == r[k]
  {
  }

  lemma ParsedMembers(t: seq<Value>, s: seq<Slot>, v: nat)
    requires Parented(t) && |s| == |t| && v < |t| && forall x :: 0 <= x < |t| ==> Complete(s[x], t, x)
    ensures Count(s[v]) == |s[v].items|
    ensures forall k :: 0 <= k < |s[v].items| ==> v < s[v].items[k] < |s| && s[s[v].items[k]].parent == v
    ensures forall j, k :: 0 <= j < k < |s[v].items| ==> s[v].items[j] != s[v].items[k]
    ensures forall x :: 0 <= x < |s| && s[x].parent == v ==> x in s[v].items
  {
    ChildrenAre(t, v, |t|);
    assert Sized(s[v], t[v]);
    forall k | 0 <= k < |s[v].items| ensures v < s[v].items[k] < |s| && s[s[v].items[k]].parent == v {
      var c := s[v].items[k];
      assert c == Children(t, v, |t|)[k];
      assert Sized(s[c], t[c]);
    }
    forall x | 0 <= x < |s| && s[x].parent == v ensures x in s[v].items {
      assert Sized(s[x], t[x]);
    }
  }

  lemma {:induction false} AllUnderRoot(s: seq<Slot>, x: nat)
    requires Treelike(s) && x < |s| && forall y :: 0 < y < |s| ==> s[y].parent >= 0
    ensures Under(s, x, 0)
    decreases x
  {
    if x > 0 {
      AllUnderRoot(s, s[x].parent);
    }
  }

  /** Only the first value has no parent. */
  predicate OneRoot(values: seq<Value>) {
    forall v :: 0 < v < |values| ==> values[v].parent >= 0
  }

  lemma FinishRoot(s: First, i: nat)
    requires 0 <= s.top < |s.values| && -1 <= s.values[s.top].parent < s.top && OneRoot(s.values)
    ensures Finish1(s, i).Next? ==> OneRoot(Finish1(s, i).next.values)
  {
  }

  lemma StringRoot(json: seq<Byte>, s: First)
    requires Sound(json, s) && s.f.str && OneRoot(s.values) && String1(json, s).Next?
    ensures OneRoot(String1(json, s).next.values)
  {
    var v := s.values[s.top];
    if At(json, s.i) == Chr('"') && v.kind == Str {
      FinishRoot(s.(f := s.f.(str := false), values := s.values[s.top := v.(length := s.len)]), s.i + 1);
    }
  }

  lemma SeekRoot(json: seq<Byte>, s: First)
    requires Sound(json, s) && s.f.seek && OneRoot(s.values) && Seek1(json, s).Next?
    ensures OneRoot(Seek1(json, s).next.values)
  {
    var b, t := At(json, s.i), s.(f := s.f.(seek := false));
    if b == Chr(']') && s.top >= 0 {
      FinishRoot(s.(f := s.f.(seek := false, needComma := false)), s.i + 1);
    } else if b in {Chr('t'), Chr('f'), Chr('n')} {
      var kind := if b == Chr('n') then Null else Boolean;
      FinishRoot(New1(t, kind), s.i + if b == Chr('f') then 5 else 4);
    }
  }

  lemma NumberRoot(json: seq<Byte>, s: First)
    requires Sound(json, s) && 0 <= s.top && OneRoot(s.values) && Number1(json, s).Next?
    ensures OneRoot(Number1(json, s).next.values)
  {
    FinishRoot(s, s.i);
  }

  lemma ObjectRoot(json: seq<Byte>, s: First)
    requires Sound(json, s) && 0 <= s.top && OneRoot(s.values) && Object1(json, s).Next?
    ensures OneRoot(Object1(json, s).next.values)
  {
    FinishRoot(s.(f := s.f.(needComma := false)), s.i + 1);
  }

  lemma StepRoot(json: seq<Byte>, s: First)
    requires Sound(json, s) && OneRoot(s.values) && Step1(json, s).Next?
    ensures OneRoot(Step1(json, s).next.values)
  {
    if s.f.done {
    } else if s.f.str {
      StringRoot(json, s);
    } else if s.f.seek {
      SeekRoot(json, s);
    } else if s.values[s.top].kind == Object {
      ObjectRoot(json, s);
    } else {
      NumberRoot(json, s);
    }
  }

  lemma {:induction false} RunRoot(json: seq<Byte>, s: First)
    requires Text(json) && Sound(json, s) && OneRoot(s.values) && Run1(json, s).Done?
    ensures OneRoot(Run1(json, s).end.values)
    decreases Left(json, s)
  {
    var r := Step1(json, s);
    if r.Next? {
      Step1Sound(json, s);
      StepRoot(json, s);
      RunRoot(json, r.next);
    }
  }

  /** Of a parsed text, freeing the outermost value frees every value exactly once, members first. */
  lemma ParsedFreed(json: seq<Byte>, s: seq<Slot>)
    requires Text(json) && Run1(json, START).Done? && |s| == |Run1(json, START).end.values|
    requires forall v :: 0 <= v < |s| ==> Complete(s[v], Run1(json, START).end.values, v)
    ensures |s| > 0 && Full(s) && Distinct(Order(s, 0)) && BottomUp(s, Order(s, 0))
    ensures forall x: nat :: x in Order(s, 0) <==> x < |s|
  {
    var t := Run1(json, START).end.values;
    RunEnds(json, START);
    RunRoot(json, START);
    ParsedFull(t, s);
    FreedOnce(s, 0);
    forall x: nat | x < |s| ensures Under(s, x, 0) {
      assert forall y :: 0 <= y < |s| ==> Sized(s[y], t[y]);
      AllUnderRoot(s, x);
    }
  }

  lemma ParsedFull(t: seq<Value>, s: seq<Slot>)
    requires Parented(t) && |s| == |t| && forall v :: 0 <= v < |t| ==> Complete(s[v], t, v)
    ensures Full(s)
  {
    forall v | 0 <= v < |t| ensures Count(s[v]) == |s[v].items| && -1 <= s[v].parent < v {
      ParsedMembers(t, s, v);
    }
    forall v, k | 0 <= v < |t| && 0 <= k < |s[v].items|
      ensures v < s[v].items[k] < |s| && s[s[v].items[k]].parent == v
    {
      ParsedMembers(t, s, v);
    }
    forall v, j, k | 0 <= v < |t| && 0 <= j < k < |s[v].items| ensures s[v].items[j] != s[v].items[k] {
      ParsedMembers(t, s, v);
    }
    forall x | 0 <= x < |s| && s[x].parent >= 0 ensures x in s[s[x].parent].items {
      ParsedMembers(t, s, s[x].parent);
    }
  }
}
