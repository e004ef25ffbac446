/** If the first pass of the JSON parser (lib/common/json.c) succeeds, so does the second: it creates the
    same values in the same order from the same text, and fills exactly what the first pass sized. */
module JsonPasses {
  import opened Bytes
  import opened Json
  import opened JsonSecond

  /** The values that hold `v`. */
  ghost function Above(t: seq<Value>, v: int): set<int>
    requires Parented(t) && -1 <= v < |t|
    decreases v
  {
    if v < 0 || t[v].parent < 0 then {} else {t[v].parent} + Above(t, t[v].parent)
  }

  lemma {:induction false} AboveBelow(t: seq<Value>, v: int, u: int)
    requires Parented(t) && -1 <= v < |t| && u in Above(t, v)
    ensures 0 <= u < v && Container(t[u].kind)
    decreases v
  {
    if u != t[v].parent {
      AboveBelow(t, t[v].parent, u);
    }
  }

  /** What the first pass counted by some time never becomes less. */
  ghost predicate Grows(a: seq<Value>, t: seq<Value>) {
    && |a| <= |t|
    && forall v :: 0 <= v < |a| ==> Alike(a[v], t[v]) && a[v].length <= t[v].length && a[v].names <= t[v].names
  }

  /** In the end, `t`, there is more than in `s`: of every open value's parent a member more, and of the
      string being read all that was read so far. */
  ghost predicate Future(s: First, t: seq<Value>) {
    && Parented(t) && Grows(s.values, t) && -1 <= s.top < |s.values|
    && (s.f.seek && s.top >= 0 && s.values[s.top].kind == Object ==> t[s.top].length > s.values[s.top].length)
    && (!s.f.done ==> Waiting(s, t))
    && (s.f.str ==> s.top >= 0 && Longer(s, t))
  }

  ghost predicate Waiting(s: First, t: seq<Value>)
    requires Parented(t) && Grows(s.values, t) && -1 <= s.top < |s.values|
  {
    forall v :: 0 <= v < |s.values| && v in Above(t, s.top) ==> t[v].length > s.values[v].length
  }

  ghost predicate Longer(s: First, t: seq<Value>)
    requires Grows(s.values, t) && 0 <= s.top < |s.values|
  {
    if s.values[s.top].kind == Str then t[s.top].length >= s.len
    else t[s.top].names >= s.values[s.top].names + s.len + 1
  }

  lemma FinishBack(s: First, i: nat, t: seq<Value>)
    requires 0 <= s.top < |s.values| && -1 <= s.values[s.top].parent < s.top && !s.f.done
    requires Finish1(s, i).Next? && Future(Finish1(s, i).next, t)
    ensures Grows(s.values, t) && Waiting(s, t)
  {
    var r := Finish1(s, i).next;
    var p := s.values[s.top].parent;
    if p >= 0 {
      forall v | 0 <= v < |s.values| && v in Above(t, s.top) ensures t[v].length > s.values[v].length {
        assert Alike(r.values[v], t[v]) && r.values[v].length <= t[v].length;
        if v != p {
          assert v in Above(t, p);
          AboveBelow(t, p, v);
        }
      }
      forall v | 0 <= v < |s.values|
        ensures Alike(s.values[v], t[v]) && s.values[v].length <= t[v].length && s.values[v].names <= t[v].names
      {
        assert Alike(r.values[v], t[v]);
      }
    }
  }

  lemma NewBack(s: First, kind: Kind, r: First, t: seq<Value>)
    requires -1 <= s.top < |s.values| && r.values == New1(s, kind).values && r.top == |s.values|
    requires Parented(t) && Grows(r.values, t) && Waiting(r, t)
    ensures Grows(s.values, t) && Waiting(s, t)
    ensures s.top >= 0 ==> t[s.top].length > s.values[s.top].length
  {
    var c := |s.values|;
    assert Alike(r.values[c], t[c]);
    forall v | 0 <= v < |s.values|
      ensures Alike(s.values[v], t[v]) && s.values[v].length <= t[v].length && s.values[v].names <= t[v].names
    {
      assert r.values[v] == s.values[v];
    }
    assert s.top >= 0 ==> s.top in Above(t, c);
    assert forall v :: v in Above(t, s.top) ==> v in Above(t, c);
  }

  lemma StringBack(json: seq<Byte>, s: First, t: seq<Value>)
    requires Text(json) && Sound(json, s) && s.f.str && String1(json, s).Next? && Future(String1(json, s).next, t)
    ensures Future(s, t)
  {
    var r, v := String1(json, s).next, s.values[s.top];
    if At(json, s.i) != Chr('"') || s.f.escaped {
      assert r.values == s.values && r.f.str && r.len >= s.len;
    } else {
      assert r == Quote1(s).next;
      QuoteBack(s, t);
    }
  }

  lemma QuoteBack(s: First, t: seq<Value>)
    requires Parented(s.values) && 0 <= s.top < |s.values| && s.f.str && !s.f.seek && !s.f.done
    requires s.values[s.top].kind in {Object, Str} && (s.values[s.top].kind == Str ==> s.values[s.top].length == 0)
    requires Quote1(s).Next? && Future(Quote1(s).next, t)
    ensures Future(s, t)
  {
    var r, v := Quote1(s).next, s.values[s.top];
    if v.kind == Str {
      var u := s.(f := s.f.(str := false), values := s.values[s.top := v.(length := s.len)]);
      FinishBack(u, s.i + 1, t);
      ValuesBack(s, u.values, t);
    } else {
      ValuesBack(s, r.values, t);
    }
  }

  /** Counts that grow by the string just read. */
  lemma ValuesBack(s: First, values: seq<Value>, t: seq<Value>)
    requires Parented(t) && 0 <= s.top < |s.values| && |values| == |s.values| && Grows(values, t)
    requires values == s.values[s.top := values[s.top]]
    requires var x, y := s.values[s.top], values[s.top];
      x.kind == y.kind && x.parent == y.parent && x.length <= y.length && x.names <= y.names
    ensures Grows(s.values, t)
  {
    forall v | 0 <= v < |s.values|
      ensures Alike(s.values[v], t[v]) && s.values[v].length <= t[v].length && s.values[v].names <= t[v].names
    {
      assert Alike(values[v], t[v]) && values[v].length <= t[v].length;
    }
  }

  lemma SeekBack(json: seq<Byte>, s: First, t: seq<Value>)
    requires Text(json) && Sound(json, s) && s.f.seek && Seek1(json, s).Next? && Future(Seek1(json, s).next, t)
    ensures Future(s, t)
  {
    var b, r := At(json, s.i), Seek1(json, s).next;
    if Space(b) {
    } else if b == Chr(']') {
      FinishBack(s.(f := s.f.(seek := false, needComma := false)), s.i + 1, t);
    } else if s.f.needComma || s.f.needColon {
    } else {
      ValueBack(json, s, t);
    }
  }

  lemma ValueBack(json: seq<Byte>, s: First, t: seq<Value>)
    requires Text(json) && Sound(json, s) && s.f.seek && !s.f.needComma && !s.f.needColon
    requires Value1(json, s).Next? && Future(Value1(json, s).next, t)
    ensures Future(s, t)
  {
    var b, r := At(json, s.i), Value1(json, s).next;
    if b == Chr('t') {
      LiteralBack(json, s, Boolean, "true", t);
    } else if b == Chr('f') {
      LiteralBack(json, s, Boolean, "false", t);
    } else if b == Chr('n') {
      LiteralBack(json, s, Null, "null", t);
    } else {
      var kind := if b == Chr('{') then Object else if b == Chr('[') then Array
                  else if b == Chr('"') then Str else Integer;
      NewBack(s, kind, r, t);
    }
  }

  lemma LiteralBack(json: seq<Byte>, s: First, kind: Kind, word: string, t: seq<Value>)
    requires Sound(json, s) && s.f.seek
    requires Literal1(json, s, kind, word).Next? && Future(Literal1(json, s, kind, word).next, t)
    ensures Future(s, t)
  {
    var u := s.(f := s.f.(seek := false));
    FinishBack(New1(u, kind), s.i + |word|, t);
    NewBack(u, kind, New1(u, kind), t);
  }

  lemma ObjectBack(json: seq<Byte>, s: First, t: seq<Value>)
    requires Sound(json, s) && s.top >= 0 && !s.f.seek && !s.f.str && !s.f.done
    requires Object1(json, s).Next? && Future(Object1(json, s).next, t)
    ensures Future(s, t)
  {
    if At(json, s.i) == Chr('}') {
      FinishBack(s.(f := s.f.(needComma := false)), s.i + 1, t);
    }
  }

  lemma NumberBack(json: seq<Byte>, s: First, t: seq<Value>)
    requires Sound(json, s) && s.top >= 0 && !s.f.seek && !s.f.str && !s.f.done
    requires s.values[s.top].kind in {Integer, Double}
    requires Number1(json, s).Next? && Future(Number1(json, s).next, t)
    ensures Future(s, t)
  {
    var r := Number1(json, s).next;
    if r.i == s.i {
      assert r == Ending1(json, s).next == Finish1(s, s.i).next;
      FinishBack(s, s.i, t);
    } else if r.values == s.values {
    } else {
      WidenBack(s, r, t);
    }
  }

  lemma WidenBack(s: First, r: First, t: seq<Value>)
    requires 0 <= s.top < |s.values| && !s.f.seek && !s.f.str && !s.f.done && s.values[s.top].kind in {Integer, Double}
    requires r.values == Widen(s).values && r.top == s.top && r.f == s.f && Future(r, t)
    ensures Future(s, t)
  {
    forall v | 0 <= v < |s.values|
      ensures Alike(s.values[v], t[v]) && s.values[v].length <= t[v].length && s.values[v].names <= t[v].names
    {
      assert Alike(r.values[v], t[v]);
    }
  }

  lemma StepBack(json: seq<Byte>, s: First, t: seq<Value>)
    requires Text(json) && Sound(json, s) && Step1(json, s).Next? && Future(Step1(json, s).next, t)
    ensures Future(s, t)
  {
    if s.f.done {
    } else if s.f.str {
      StringBack(json, s, t);
    } else if s.f.seek {
      SeekBack(json, s, t);
    } else if s.values[s.top].kind == Object {
      ObjectBack(json, s, t);
    } else {
      NumberBack(json, s, t);
    }
  }

  /** Where the first pass gets to tells the future of every state on its way. */
  lemma {:induction false} FutureHolds(json: seq<Byte>, s: First)
    requires Text(json) && Sound(json, s) && Run1(json, s).Done?
    ensures Future(s, Run1(json, s).end.values)
    decreases Left(json, s)
  {
    var r := Step1(json, s);
    if r.Next? {
      Step1Sound(json, s);
      FutureHolds(json, r.next);
      StepBack(json, s, Run1(json, s).end.values);
    }
  }

  // The two passes side by side; `t` is what the first pass ends with.

  /** The values held by `v`, of the first `n`, in order of creation. */
  function Children(t: seq<Value>, v: int, n: nat): seq<nat>
    requires n <= |t|
  {
    if n == 0 then [] else Children(t, v, n - 1) + if t[n - 1].parent == v then [n - 1] else []
  }

  lemma {:induction false} NoneYet(t: seq<Value>, v: nat, n: nat)
    requires Parented(t) && n <= |t| && n <= v + 1
    ensures Children(t, v, n) == []
  {
    if n > 0 {
      NoneYet(t, v, n - 1);
    }
  }

  /** The child of `v` that is, or holds, `u`. */
  ghost function Branch(t: seq<Value>, u: int, v: int): int
    requires Parented(t) && 0 <= u < |t| && v in Above(t, u)
    decreases u
  {
    if t[u].parent == v then u else Branch(t, t[u].parent, v)
  }

  function KeyBytes(keys: seq<seq<Byte>>): nat {
    if keys == [] then 0 else KeyBytes(keys[..|keys| - 1]) + |keys[|keys| - 1]| + 1
  }

  /** Slot `a` is for value `x`. */
  predicate Sized(a: Slot, x: Value) {
    a.kind == x.kind && a.parent == x.parent && a.cap == x.length && a.nameCap == x.names
  }

  /** Slot `a` holds now what the first pass had counted then in `x`. */
  predicate Filled(a: Slot, x: Value) {
    && (a.kind in {Array, Object, Str} ==> a.length == x.length)
    && a.used == x.names == KeyBytes(a.keys)
    && (a.kind == Str ==> |a.text| == a.length)
    && (if Container(a.kind) then |a.items| == a.length else a.items == [])
  }

  /** The members of `v` so far: all its children but the open one; an open member has its key. */
  ghost predicate Members(t: seq<Value>, a: Slot, v: nat, top: int, seek: bool, n: nat)
    requires Parented(t) && -1 <= top < n <= |t| && v < n
  {
    && (Container(a.kind) ==>
          a.items + (if v in Above(t, top) then [Branch(t, top, v)] else []) == Children(t, v, n))
    && (a.kind == Object ==> |a.keys| == a.length + if v in Above(t, top) || (v == top && seek) then 1 else 0)
  }

  ghost predicate Same(s: First, u: Second, t: seq<Value>) {
    && u.i == s.i && u.f == s.f && u.top == s.top && u.alloc == |s.values| <= |t| == |u.slots|
    && Parented(t) && -1 <= s.top < |s.values|
    && (s.f.str ==> |u.buf| == s.len)
  }

  ghost predicate Sim(s: First, u: Second, t: seq<Value>) {
    && Same(s, u, t)
    && (forall v :: 0 <= v < |t| ==> Sized(u.slots[v], t[v]))
    && (forall v :: 0 <= v < |s.values| ==> Filled(u.slots[v], s.values[v]))
    && (forall v :: 0 <= v < |s.values| ==> Members(t, u.slots[v], v, s.top, s.f.seek, |s.values|))
    && (forall v :: |s.values| <= v < |t| ==> u.slots[v] == Left1(t[v]))
  }

  lemma SimLoaded(s: First, u: Second, t: seq<Value>)
    requires Sim(s, u, t)
    ensures Loaded(u)
  {
    forall v | 0 <= v < |u.slots| ensures -1 <= u.slots[v].parent < v {
      assert Sized(u.slots[v], t[v]);
    }
  }

  /** One member more of the parent, in both passes. */
  lemma MembersFinish(t: seq<Value>, a: Slot, v: nat, top: int, seek: bool, n: nat)
    requires Parented(t) && 0 <= top < n <= |t| && v < n && t[top].parent >= 0
    requires Members(t, a, v, top, false, n) && Sized(a, t[v]) && (seek ==> t[t[top].parent].kind == Array)
    ensures var p := t[top].parent;
      var b := if v == p then a.(length := a.length + 1, items := a.items + [top]) else a;
      Members(t, b, v, p, seek, n)
  {
    var p := t[top].parent;
    if v in Above(t, p) {
      AboveBelow(t, p, v);
    }
    if p in Above(t, p) {
      AboveBelow(t, p, p);
    }
    if v == top && v in Above(t, p) {
      AboveBelow(t, p, v);
    }
  }

  /** A member is complete in both passes. */
  lemma SimMember(s: First, u: Second, i: nat, p: nat, r: First, t: seq<Value>) returns (w: Second)
    requires Sim(s, u, t) && Loaded(u) && 0 <= s.top && !s.f.seek && !s.f.str && p == s.values[s.top].parent < s.top
    requires t[s.top].parent == u.slots[s.top].parent == p
    requires Finish1(s, i) == Next(r) && Alike(r.values[p], t[p]) && r.values[p].length <= t[p].length
    requires Container(t[p].kind) && Alike(s.values[p], t[p])
    ensures Finish2(u, i) == Next(w) && Sim(r, w, t)
  {
    assert Sized(u.slots[p], t[p]) && Filled(u.slots[p], s.values[p]);
    w := Finish2(u, i).next;
    forall v | 0 <= v < |s.values| ensures Members(t, w.slots[v], v, p, r.f.seek, |s.values|) {
      assert Members(t, u.slots[v], v, s.top, false, |s.values|);
      MembersFinish(t, u.slots[v], v, s.top, r.f.seek, |s.values|);
    }
    forall v | 0 <= v < |s.values| ensures Filled(w.slots[v], r.values[v]) {
      assert Filled(u.slots[v], s.values[v]);
    }
  }

  /** A value is complete in both passes. */
  lemma SimFinish(s: First, u: Second, i: nat, r: First, t: seq<Value>) returns (w: Second)
    requires Sim(s, u, t) && Grows(s.values, t) && 0 <= s.top && !s.f.seek && !s.f.str
    requires -1 <= s.values[s.top].parent < s.top && Finish1(s, i) == Next(r) && Grows(r.values, t)
    ensures Loaded(u) && Finish2(u, i) == Next(w) && Sim(r, w, t)
  {
    SimLoaded(s, u, t);
    var p := s.values[s.top].parent;
    assert Sized(u.slots[s.top], t[s.top]) && Alike(s.values[s.top], t[s.top]);
    if p >= 0 {
      assert Alike(r.values[p], t[p]) && Alike(s.values[p], t[p]);
      w := SimMember(s, u, i, p, r, t);
    } else {
      SimMoved(s, u, i, s.f.(needComma := true, done := true), t);
      w := u.(i := i, f := s.f.(needComma := true, done := true));
    }
  }

  lemma MembersNew(t: seq<Value>, a: Slot, v: nat, top: int, n: nat, seek: bool)
    requires Parented(t) && -1 <= top < n < |t| && v < n && t[n].parent == top
    requires Members(t, a, v, top, true, n)
    ensures Members(t, a, v, n, seek, n + 1)
  {
    if top in Above(t, top) {
      AboveBelow(t, top, top);
    }
  }

  /** A value begins in both passes. */
  lemma SimNew(s: First, u: Second, kind: Kind, seek: bool, r: First, t: seq<Value>) returns (w: Second)
    requires Sim(s, u, t) && s.f.seek && !s.f.str && r == New1(s.(f := s.f.(seek := seek)), kind) && Grows(r.values, t)
    requires seek ==> kind == Array
    ensures Loaded(u) && New2(u.(f := s.f.(seek := seek))) == Next(w) && Sim(r, w, t)
    ensures w.slots[r.top].kind == t[r.top].kind
  {
    SimLoaded(s, u, t);
    var n := |s.values|;
    w := New2(u.(f := s.f.(seek := seek))).next;
    assert Alike(r.values[n], t[n]) && u.slots[n] == Left1(t[n]);
    NoneYet(t, n, n + 1);
    if n in Above(t, n) {
      AboveBelow(t, n, n);
    }
    forall v | 0 <= v < n + 1 ensures Members(t, w.slots[v], v, n, seek, n + 1) {
      if v < n {
        MembersNew(t, u.slots[v], v, s.top, n, seek);
      }
    }
    forall v | 0 <= v < n ensures Filled(w.slots[v], r.values[v]) {
      assert Filled(u.slots[v], s.values[v]);
    }
  }

  /** Only the place in the text and flags change. */
  lemma SimMoved(s: First, u: Second, i: nat, f: Flags, t: seq<Value>)
    requires Sim(s, u, t) && f.seek == s.f.seek && (f.str ==> s.f.str)
    ensures Sim(s.(i := i, f := f), u.(i := i, f := f), t)
  {
    var u' := u.(i := i, f := f);
    forall v | 0 <= v < |s.values|
      ensures Filled(u'.slots[v], s.values[v]) && Members(t, u'.slots[v], v, s.top, f.seek, |s.values|)
    {
      assert Filled(u.slots[v], s.values[v]) && Members(t, u.slots[v], v, s.top, s.f.seek, |s.values|);
    }
  }

  /** A string begins. */
  lemma SimOpened(s: First, u: Second, t: seq<Value>)
    requires Sim(s, u, t)
    ensures Sim(s.(f := s.f.(str := true), len := 0), u.(f := s.f.(str := true), buf := []), t)
  {
    var u' := u.(f := s.f.(str := true), buf := []);
    forall v | 0 <= v < |s.values|
      ensures Filled(u'.slots[v], s.values[v]) && Members(t, u'.slots[v], v, s.top, s.f.seek, |s.values|)
    {
      assert Filled(u.slots[v], s.values[v]) && Members(t, u.slots[v], v, s.top, s.f.seek, |s.values|);
    }
  }

  lemma SimStr(s: First, u: Second, t: seq<Value>)
    requires Sim(s, u, t) && s.f.str && !s.f.seek && 0 <= s.top && u.slots[s.top].kind == Str
    ensures var s' := s.(f := s.f.(str := false), values := s.values[s.top := s.values[s.top].(length := s.len)]);
      var b := u.slots[s.top].(length := |u.buf|, text := u.buf);
      var u' := u.(f := s.f.(str := false), slots := u.slots[s.top := b]);
      Sim(s', u', t)
  {
    var s' := s.(f := s.f.(str := false), values := s.values[s.top := s.values[s.top].(length := s.len)]);
    var u' := u.(f := s.f.(str := false), slots := u.slots[s.top := u.slots[s.top].(length := |u.buf|, text := u.buf)]);
    forall v | 0 <= v < |s.values|
      ensures Filled(u'.slots[v], s'.values[v]) && Members(t, u'.slots[v], v, s.top, false, |s.values|)
    {
      assert Filled(u.slots[v], s.values[v]) && Members(t, u.slots[v], v, s.top, false, |s.values|);
    }
  }

  lemma SimKey(s: First, u: Second, t: seq<Value>)
    requires Sim(s, u, t) && s.f.str && !s.f.seek && 0 <= s.top && u.slots[s.top].kind == Object
    ensures var f := s.f.(str := false, seek := true, needColon := true);
      var v, a := s.values[s.top], u.slots[s.top];
      var b := a.(used := a.used + |u.buf| + 1, keys := a.keys + [u.buf]);
      Sim(s.(i := s.i + 1, f := f, values := s.values[s.top := v.(names := v.names + s.len + 1)]),
          u.(i := u.i + 1, f := f, slots := u.slots[s.top := b]), t)
  {
    var x, a := s.values[s.top], u.slots[s.top];
    var values := s.values[s.top := x.(names := x.names + s.len + 1)];
    var keys := a.keys + [u.buf];
    var slots := u.slots[s.top := a.(used := a.used + |u.buf| + 1, keys := keys)];
    assert keys[..|keys| - 1] == a.keys;
    if s.top in Above(t, s.top) {
      AboveBelow(t, s.top, s.top);
    }
    forall v | 0 <= v < |s.values|
      ensures Filled(slots[v], values[v]) && Members(t, slots[v], v, s.top, true, |s.values|)
    {
      assert Filled(u.slots[v], s.values[v]) && Members(t, u.slots[v], v, s.top, false, |s.values|);
    }
  }

  lemma SimQuoteStr(s: First, u: Second, r: First, t: seq<Value>) returns (w: Second)
    requires Parented(s.values) && Sim(s, u, t) && Future(s, t) && s.f.str && !s.f.seek && !s.f.done
    requires s.values[s.top].kind == Str && Quote1(s) == Next(r) && Future(r, t)
    ensures Loaded(u) && Quote2(u) == Next(w) && Sim(r, w, t)
  {
    SimLoaded(s, u, t);
    var v, a := s.values[s.top], u.slots[s.top];
    assert Sized(a, t[s.top]) && Alike(v, t[s.top]);
    var s' := s.(f := s.f.(str := false), values := s.values[s.top := v.(length := s.len)]);
    var u' := u.(f := s.f.(str := false), slots := u.slots[s.top := a.(length := |u.buf|, text := u.buf)]);
    SimStr(s, u, t);
    FinishBack(s', s.i + 1, t);
    w := SimFinish(s', u', s.i + 1, r, t);
    assert Fits(a, |u.buf| + 1);
  }

  lemma SimQuoteKey(s: First, u: Second, r: First, t: seq<Value>) returns (w: Second)
    requires Parented(s.values) && Sim(s, u, t) && Future(s, t) && s.f.str && !s.f.seek && !s.f.done
    requires s.values[s.top].kind == Object && Quote1(s) == Next(r) && Future(r, t)
    ensures Loaded(u) && Quote2(u) == Next(w) && Sim(r, w, t)
  {
    SimLoaded(s, u, t);
    SimKey(s, u, t);
    KeyFits(s, u, r, t);
    w := Quote2(u).next;
  }

  /** There is room for a key and its NUL, and a place in the list of members. */
  lemma KeyFits(s: First, u: Second, r: First, t: seq<Value>)
    requires Sim(s, u, t) && Future(s, t) && s.f.str && s.values[s.top].kind == Object
    requires Quote1(s) == Next(r) && Future(r, t)
    ensures Fits(u.slots[s.top], |u.buf| + 1) && u.slots[s.top].length < u.slots[s.top].cap
    ensures u.slots[s.top].kind == Object
  {
    assert Sized(u.slots[s.top], t[s.top]) && Filled(u.slots[s.top], s.values[s.top]);
    assert Alike(s.values[s.top], t[s.top]);
  }

  /** Bytes go to the string in the second pass, and are counted in the first. */
  lemma SimPut(s: First, u: Second, bytes: seq<Byte>, i: nat, f: Flags, r: First, t: seq<Value>) returns (w: Second)
    requires Sim(s, u, t) && s.f.str && 0 <= s.top && s.values[s.top].kind in {Object, Str} && f.seek == s.f.seek
    requires r == s.(i := i, f := f, len := s.len + |bytes|) && Grows(r.values, t) && Longer(r, t)
    ensures Loaded(u) && Put(u.(f := f), bytes, i) == Next(w) && Sim(r, w, t)
  {
    SimLoaded(s, u, t);
    assert Sized(u.slots[s.top], t[s.top]) && Filled(u.slots[s.top], s.values[s.top]);
    assert Alike(s.values[s.top], t[s.top]);
    w := Put(u.(f := f), bytes, i).next;
    SimMoved(s, u, i, f, t);
    forall v | 0 <= v < |s.values|
      ensures Filled(w.slots[v], r.values[v]) && Members(t, w.slots[v], v, s.top, f.seek, |s.values|)
    {
      assert Filled(u.slots[v], s.values[v]) && Members(t, u.slots[v], v, s.top, s.f.seek, |s.values|);
    }
  }

  lemma SimString(json: seq<Byte>, s: First, u: Second, r: First, t: seq<Value>) returns (w: Second)
    requires Text(json) && Sound(json, s) && Sim(s, u, t) && Future(s, t) && s.f.str && !s.f.done
    requires String1(json, s) == Next(r) && Future(r, t)
    ensures Loaded(u) && String2(json, u) == Next(w) && Sim(r, w, t)
  {
    SimLoaded(s, u, t);
    var b := At(json, s.i);
    if s.f.escaped {
      var e := Unescape(json, s.i);
      w := SimPut(s, u, e.bytes, e.last + 1, s.f.(escaped := false), r, t);
    } else if b == Chr('\\') {
      SimMoved(s, u, r.i, r.f, t);
      w := u.(i := r.i, f := r.f);
    } else if b != Chr('"') {
      w := SimPut(s, u, [b], s.i + 1, s.f, r, t);
    } else {
      assert Sized(u.slots[s.top], t[s.top]) && Alike(s.values[s.top], t[s.top]);
      if s.values[s.top].kind == Str {
        w := SimQuoteStr(s, u, r, t);
      } else {
        w := SimQuoteKey(s, u, r, t);
      }
    }
  }

  lemma SimObject(json: seq<Byte>, s: First, u: Second, r: First, t: seq<Value>) returns (w: Second)
    requires Sound(json, s) && Sim(s, u, t) && Future(s, t) && s.top >= 0 && !s.f.seek && !s.f.str && !s.f.done
    requires s.values[s.top].kind == Object && Object1(json, s) == Next(r) && Future(r, t)
    ensures Loaded(u) && Object2(json, u) == Next(w) && Sim(r, w, t)
  {
    SimLoaded(s, u, t);
    var b := At(json, s.i);
    if b == Chr('}') && !Space(b) {
      var f := s.f.(needComma := false);
      SimMoved(s, u, s.i, f, t);
      w := SimFinish(s.(f := f), u.(f := f), s.i + 1, r, t);
    } else {
      w := Object2(json, u).next;
      SimMoved(s, u, r.i, if r.f.str then s.f else r.f, t);
      if r.f.str {
        SimOpened(s.(i := r.i), u.(i := r.i), t);
      }
    }
  }

  predicate InNumber(s: First) {
    0 <= s.top < |s.values| && s.values[s.top].kind in {Integer, Double} && !s.f.seek && !s.f.str && !s.f.done
  }

  /** What may follow a value is no part of a number. */
  lemma AfterNumber(json: seq<Byte>, s: First)
    requires Text(json) && Sound(json, s) && Run1(json, s).Done? && s.f.needComma && !s.f.str && !InNumber(s)
    ensures !Numeric(At(json, s.i))
  {
    var b := At(json, s.i);
    assert Step1(json, s).Next? || Step1(json, s).Done?;
  }

  /** The first pass goes through a number character by character; in the end only the kind of the value
      has changed. */
  lemma {:induction false} NumberRun(json: seq<Byte>, s: First) returns (j: nat, v: First)
    requires Text(json) && Sound(json, s) && InNumber(s) && Run1(json, s).Done?
    ensures s.i <= j <= |json| && !Numeric(At(json, j)) && forall k :: s.i <= k < j ==> Numeric(At(json, k))
    ensures v.f == s.f && v.top == s.top && v.len == s.len
    ensures v.values == s.values || v.values == Widen(s).values
    ensures Finish1(v, j).Next?
    ensures Sound(json, Finish1(v, j).next) && Left(json, Finish1(v, j).next) < Left(json, s)
    ensures !InNumber(Finish1(v, j).next)
    ensures Run1(json, Finish1(v, j).next) == Run1(json, s)
    decreases Left(json, s)
  {
    var r := Number1(json, s).next;
    Step1Sound(json, s);
    if r.i == s.i {
      j, v := s.i, s;
      assert r == Finish1(s, s.i).next;
      AfterNumber(json, r);
    } else {
      NumberStep(json, s);
      j, v := NumberRun(json, r);
      WidenTwice(s, r, v);
    }
  }

  lemma WidenTwice(s: First, r: First, v: First)
    requires 0 <= s.top < |s.values| && r.top == s.top && (r.values == s.values || r.values == Widen(s).values)
    requires v.values == r.values || v.values == Widen(r).values
    ensures v.values == s.values || v.values == Widen(s).values
  {
    assert Widen(Widen(s)).values == Widen(s).values;
  }

  lemma NumberStep(json: seq<Byte>, s: First)
    requires Text(json) && Sound(json, s) && InNumber(s) && Number1(json, s).Next? && Number1(json, s).next.i != s.i
    ensures var r := Number1(json, s).next;
      && r.i == s.i + 1 && InNumber(r) && r.f == s.f && r.top == s.top && r.len == s.len && Numeric(At(json, s.i))
      && (r.values == s.values || r.values == Widen(s).values)
  {
  }

  lemma {:induction false} SkipIs(json: seq<Byte>, i: nat, j: nat)
    requires Text(json) && i <= j <= |json| && !Numeric(At(json, j)) && forall k :: i <= k < j ==> Numeric(At(json, k))
    ensures Skip(json, i) == j
    decreases j - i
  {
    if i < j {
      assert Numeric(At(json, i));
      SkipIs(json, i + 1, j);
    }
  }

  /** The kind of the open number does not matter. */
  lemma SimKind(s: First, v: First, u: Second, t: seq<Value>)
    requires Sim(s, u, t) && 0 <= s.top && !s.f.str
    requires v.i == s.i && v.f == s.f && v.top == s.top && (v.values == s.values || v.values == Widen(s).values)
    ensures Sim(v, u, t)
  {
    forall x | 0 <= x < |s.values|
      ensures Filled(u.slots[x], v.values[x]) && Members(t, u.slots[x], x, s.top, s.f.seek, |s.values|)
    {
      assert Filled(u.slots[x], s.values[x]);
    }
  }

  /** The second pass meets the number and finishes it at `j`. */
  lemma SimNumberEnd(s: First, u: Second, n: First, v: First, j: nat, r: First, t: seq<Value>) returns (w: Second)
    requires Parented(s.values) && Sim(s, u, t) && s.f.seek && !s.f.str && !s.f.done && -1 <= s.top < |s.values|
    requires n == New1(s.(f := s.f.(seek := false)), Integer) && Grows(n.values, t)
    requires v.f == n.f && v.top == n.top && (v.values == n.values || v.values == Widen(n).values)
    requires Finish1(v, j) == Next(r) && Future(r, t)
    ensures Loaded(u) && New2(u.(f := s.f.(seek := false))).Next?
    ensures var w1 := New2(u.(f := s.f.(seek := false))).next;
      Loaded(w1) && 0 <= w1.top && Finish2(w1, j) == Next(w) && Sim(r, w, t)
  {
    var w1 := SimNew(s, u, Integer, false, n, t);
    var v' := v.(i := s.i);
    SimKind(n, v', w1, t);
    FinishBack(v, j, t);
    assert Finish1(v', j) == Finish1(v, j);
    w := SimFinish(v', w1, j, r, t);
  }

  lemma NumberOver(json: seq<Byte>, s: First) returns (j: nat, v: First)
    requires Text(json) && Sound(json, s) && s.f.seek && !s.f.needComma && !s.f.needColon
    requires Digit(At(json, s.i)) || At(json, s.i) == Chr('-')
    requires Run1(json, s).Done?
    ensures Skip(json, s.i) == j
    ensures var n := New1(s.(f := s.f.(seek := false)), Integer);
      && v.f == n.f && v.top == n.top && (v.values == n.values || v.values == Widen(n).values)
      && Grows(n.values, Run1(json, s).end.values)
    ensures Finish1(v, j).Next?
    ensures Sound(json, Finish1(v, j).next) && Left(json, Finish1(v, j).next) < Left(json, s)
    ensures !InNumber(Finish1(v, j).next)
    ensures Run1(json, Finish1(v, j).next) == Run1(json, s)
  {
    Step1Sound(json, s);
    var n := Value1(json, s).next;
    assert Step1(json, s) == Next(n);
    FutureHolds(json, n);
    j, v := NumberRun(json, n);
    forall k | s.i <= k < j ensures Numeric(At(json, k)) {
      assert k == s.i || n.i <= k;
    }
    SkipIs(json, s.i, j);
  }

  lemma NumberIs2(json: seq<Byte>, u: Second, w1: Second)
    requires Loaded(u) && u.i <= |json| && (Digit(At(json, u.i)) || At(json, u.i) == Chr('-'))
    requires New2(u.(f := u.f.(seek := false))) == Next(w1)
    ensures Loaded(w1) && 0 <= w1.top && Value2(json, u) == Finish2(w1, Skip(json, u.i))
  {
  }

  /** A number: several steps of the first pass, one of the second. */
  lemma SimNumber(json: seq<Byte>, s: First, u: Second, t: seq<Value>) returns (r: First, w: Second)
    requires Text(json) && Sound(json, s) && Sim(s, u, t) && s.f.seek && !s.f.needComma && !s.f.needColon
    requires Digit(At(json, s.i)) || At(json, s.i) == Chr('-')
    requires Run1(json, s).Done? && Run1(json, s).end.values == t
    ensures Sound(json, r) && !InNumber(r) && Left(json, r) < Left(json, s) && Run1(json, r) == Run1(json, s)
    ensures Loaded(u) && Value2(json, u) == Next(w) && Sim(r, w, t)
  {
    var j, v := NumberOver(json, s);
    r := Finish1(v, j).next;
    FutureHolds(json, r);
    w := SimNumberEnd(s, u, New1(s.(f := s.f.(seek := false)), Integer), v, j, r, t);
    NumberIs2(json, u, New2(u.(f := s.f.(seek := false))).next);
  }

  lemma SimClose(s: First, u: Second, r: First, t: seq<Value>) returns (w: Second)
    requires Parented(s.values) && Sim(s, u, t) && s.f.seek && !s.f.str && !s.f.done
    requires s.top >= 0 && s.values[s.top].kind == Array
    requires Finish1(s.(f := s.f.(seek := false, needComma := false)), s.i + 1) == Next(r) && Future(r, t)
    ensures Loaded(u) && u.slots[s.top].kind == Array && Sim(r, w, t)
    ensures Finish2(u.(f := s.f.(seek := false, needComma := false)), s.i + 1) == Next(w)
  {
    SimLoaded(s, u, t);
    var f := s.f.(seek := false, needComma := false);
    FinishBack(s.(f := f), s.i + 1, t);
    assert Sized(u.slots[s.top], t[s.top]) && Alike(s.values[s.top], t[s.top]);
    var u' := u.(f := f);
    forall v | 0 <= v < |s.values|
      ensures Filled(u'.slots[v], s.values[v]) && Members(t, u'.slots[v], v, s.top, false, |s.values|)
    {
      assert Filled(u.slots[v], s.values[v]) && Members(t, u.slots[v], v, s.top, true, |s.values|);
      assert Sized(u.slots[v], t[v]);
    }
    w := SimFinish(s.(f := f), u', s.i + 1, r, t);
  }

  lemma SimLiteral(json: seq<Byte>, s: First, u: Second, kind: Kind, word: string, r: First, t: seq<Value>)
      returns (w: Second)
    requires Sound(json, s) && Sim(s, u, t) && s.f.seek && !s.f.done && !s.f.str
    requires Literal1(json, s, kind, word) == Next(r) && Future(r, t)
    ensures Loaded(u) && Sim(r, w, t)
    ensures var w1 := New2(u.(f := s.f.(seek := false)));
      (w1.Next? ==> Loaded(w1.next) && 0 <= w1.next.top) && Literal2(json, s.i, w1, word) == Next(w)
  {
    var n := New1(s.(f := s.f.(seek := false)), kind);
    FinishBack(n, s.i + |word|, t);
    var w1 := SimNew(s, u, kind, false, n, t);
    w := SimFinish(n, w1, s.i + |word|, r, t);
  }

  /** A string begins. */
  lemma SimText(json: seq<Byte>, s: First, u: Second, r: First, t: seq<Value>) returns (w: Second)
    requires Sound(json, s) && Sim(s, u, t) && s.f.seek && !s.f.done && !s.f.str && At(json, s.i) == Chr('"')
    requires Value1(json, s) == Next(r) && Future(r, t)
    ensures Loaded(u) && Value2(json, u) == Next(w) && Sim(r, w, t)
  {
    SimLoaded(s, u, t);
    var n := New1(s.(f := s.f.(seek := false)), Str);
    var w1 := SimNew(s, u, Str, false, n, t);
    SimMoved(n, w1, s.i + 1, n.f, t);
    SimOpened(n.(i := s.i + 1), w1.(i := s.i + 1), t);
    w := w1.(i := s.i + 1, f := n.f.(str := true), buf := []);
    assert Alike(r.values[r.top], t[r.top]);
  }

  /** An object or an array begins. */
  lemma SimBlock(json: seq<Byte>, s: First, u: Second, r: First, t: seq<Value>) returns (w: Second)
    requires Sound(json, s) && Sim(s, u, t) && s.f.seek && !s.f.done && !s.f.str
    requires At(json, s.i) in {Chr('{'), Chr('[')}
    requires Value1(json, s) == Next(r) && Future(r, t)
    ensures Loaded(u) && Value2(json, u) == Next(w) && Sim(r, w, t)
  {
    SimLoaded(s, u, t);
    var list := At(json, s.i) == Chr('[');
    var kind := if list then Array else Object;
    var n := New1(s.(f := s.f.(seek := list)), kind);
    var w1 := SimNew(s, u, kind, list, n, t);
    SimMoved(n, w1, s.i + 1, n.f, t);
    w := w1.(i := s.i + 1);
    NewAgain(u, s.f.(seek := list));
  }

  /** new_value does not look at the flags. */
  lemma NewAgain(u: Second, f: Flags)
    requires Loaded(u)
    ensures var a, b := New2(u.(f := f)), New2(u.(f := u.f.(seek := false)));
      (a.Next? <==> b.Next?) && (a.Next? ==> a.next == b.next.(f := f))
  {
  }

  lemma SimValue(json: seq<Byte>, s: First, u: Second, r: First, t: seq<Value>) returns (w: Second)
    requires Sound(json, s) && Sim(s, u, t) && s.f.seek && !s.f.done && !s.f.needComma && !s.f.needColon
    requires !(Digit(At(json, s.i)) || At(json, s.i) == Chr('-'))
    requires Value1(json, s) == Next(r) && Future(r, t)
    ensures Loaded(u) && Value2(json, u) == Next(w) && Sim(r, w, t)
  {
    var b := At(json, s.i);
    if b == Chr('t') {
      w := SimLiteral(json, s, u, Boolean, "true", r, t);
    } else if b == Chr('f') {
      w := SimLiteral(json, s, u, Boolean, "false", r, t);
    } else if b == Chr('n') {
      w := SimLiteral(json, s, u, Null, "null", r, t);
    } else if b == Chr('"') {
      w := SimText(json, s, u, r, t);
    } else {
      w := SimBlock(json, s, u, r, t);
    }
  }

  /** Spaces, commas and colons. */
  lemma SimMark(json: seq<Byte>, s: First, u: Second, r: First, t: seq<Value>) returns (w: Second)
    requires Sound(json, s) && Sim(s, u, t) && s.f.seek && At(json, s.i) != Chr(']')
    requires Space(At(json, s.i)) || s.f.needComma || s.f.needColon
    requires Seek1(json, s) == Next(r)
    ensures Loaded(u) && Seek2(json, u) == Next(w) && Sim(r, w, t)
  {
    SimLoaded(s, u, t);
    SimMoved(s, u, r.i, r.f, t);
    w := u.(i := r.i, f := r.f);
  }

  lemma SimSeek(json: seq<Byte>, s: First, u: Second, r: First, t: seq<Value>) returns (w: Second)
    requires Text(json) && Sound(json, s) && Sim(s, u, t) && Future(s, t) && s.f.seek && !s.f.done
    requires s.f.needComma || s.f.needColon || !(Digit(At(json, s.i)) || At(json, s.i) == Chr('-'))
    requires Seek1(json, s) == Next(r) && Future(r, t)
    ensures Loaded(u) && Seek2(json, u) == Next(w) && Sim(r, w, t)
  {
    var b := At(json, s.i);
    if b == Chr(']') {
      w := SimClose(s, u, r, t);
    } else if Space(b) || s.f.needComma || s.f.needColon {
      w := SimMark(json, s, u, r, t);
    } else {
      w := SimValue(json, s, u, r, t);
    }
  }

  lemma SimStep(json: seq<Byte>, s: First, u: Second, r: First, t: seq<Value>) returns (w: Second)
    requires Text(json) && Sound(json, s) && !InNumber(s) && Sim(s, u, t) && Future(s, t)
    requires !(s.f.seek && !s.f.needComma && !s.f.needColon && (Digit(At(json, s.i)) || At(json, s.i) == Chr('-')))
    requires Step1(json, s) == Next(r) && Future(r, t)
    ensures Loaded(u) && Step2(json, u) == Next(w) && Sim(r, w, t)
  {
    SimLoaded(s, u, t);
    if s.f.done {
      SimMoved(s, u, s.i + 1, s.f, t);
      w := u.(i := s.i + 1);
    } else if s.f.str {
      w := SimString(json, s, u, r, t);
    } else if s.f.seek {
      w := SimSeek(json, s, u, r, t);
    } else {
      assert Sized(u.slots[s.top], t[s.top]) && Alike(s.values[s.top], t[s.top]);
      w := SimObject(json, s, u, r, t);
    }
  }

  /** A step that does not meet a number does not lead into one. */
  lemma NoNumber(json: seq<Byte>, s: First)
    requires Text(json) && Sound(json, s) && !InNumber(s) && Step1(json, s).Next?
    requires !(s.f.seek && !s.f.needComma && !s.f.needColon && (Digit(At(json, s.i)) || At(json, s.i) == Chr('-')))
    ensures !InNumber(Step1(json, s).next)
  {
  }

  lemma RunOn(json: seq<Byte>, u: Second, w: Second)
    requires Text(json) && Loaded(u) && u.i <= |json| && Step2(json, u) == Next(w)
    ensures Loaded(w) && w.i <= |json| && Run2(json, u) == Run2(json, w)
  {
    Step2Onward(json, u);
  }

  /** From states that agree, the second pass ends as the first does. */
  lemma {:induction false} Passes(json: seq<Byte>, s: First, u: Second, t: seq<Value>) returns (e: Second)
    requires Text(json) && Sound(json, s) && !InNumber(s) && Sim(s, u, t)
    requires Run1(json, s).Done? && Run1(json, s).end.values == t
    ensures Loaded(u) && u.i <= |json| && Run2(json, u) == Done(e) && Sim(Run1(json, s).end, e, t)
    decreases Left(json, s)
  {
    SimLoaded(s, u, t);
    if s.f.done && At(json, s.i) == 0 {
      e := u;
    } else {
      var r, w := PassesStep(json, s, u, t);
      RunOn(json, u, w);
      e := Passes(json, r, w, t);
    }
  }

  lemma PassesStep(json: seq<Byte>, s: First, u: Second, t: seq<Value>) returns (r: First, w: Second)
    requires Text(json) && Sound(json, s) && !InNumber(s) && Sim(s, u, t) && !(s.f.done && At(json, s.i) == 0)
    requires Run1(json, s).Done? && Run1(json, s).end.values == t
    ensures Sound(json, r) && !InNumber(r) && Left(json, r) < Left(json, s) && Run1(json, r) == Run1(json, s)
    ensures Loaded(u) && Step2(json, u) == Next(w) && Sim(r, w, t)
  {
    var b := At(json, s.i);
    if s.f.seek && !s.f.needComma && !s.f.needColon && (Digit(b) || b == Chr('-')) {
      r, w := SimNumber(json, s, u, t);
      assert Step2(json, u) == Seek2(json, u) == Value2(json, u);
    } else {
      Step1Sound(json, s);
      r := Step1(json, s).next;
      FutureHolds(json, s);
      FutureHolds(json, r);
      NoNumber(json, s);
      w := SimStep(json, s, u, r, t);
    }
  }

  const BEGIN2: Flags := START.f

  function Start2(t: seq<Value>): Second {
    Second(0, BEGIN2, -1, 0, seq(|t|, v requires 0 <= v < |t| => Left1(t[v])), [])
  }

  /** A value is filled exactly: its string, its keys and its members, in order of creation, are as many
      as the first pass counted. */
  ghost predicate Complete(a: Slot, t: seq<Value>, v: nat)
    requires v < |t|
  {
    && Sized(a, t[v]) && a.used == a.nameCap == KeyBytes(a.keys)
    && (a.kind == Str ==> |a.text| == a.length == a.cap)
    && (if Container(a.kind) then a.items == Children(t, v, |t|) && |a.items| == a.length == a.cap else a.items == [])
    && (a.kind == Object ==> |a.keys| == a.cap)
  }

  /** If the first pass succeeds, so does the second, without a wild access: it goes as far in the text,
      uses every value in order of creation, and fills each exactly. */
  lemma TwoPasses(json: seq<Byte>)
    requires Text(json) && Run1(json, START).Done?
    ensures Loaded(Start2(Run1(json, START).end.values))
    ensures var t := Run1(json, START).end.values;
      var r := Run2(json, Start2(t));
      && r.Done? && r.end.i == Run1(json, START).end.i == |json| && r.end.alloc == |t| == |r.end.slots|
      && forall v :: 0 <= v < |t| ==> Complete(r.end.slots[v], t, v)
  {
    var t := Run1(json, START).end.values;
    FutureHolds(json, START);
    var e := Passes(json, START, Start2(t), t);
    var d := Run1(json, START).end;
    RunEnds(json, START);
    forall v | 0 <= v < |t| ensures Complete(e.slots[v], t, v) {
      assert Sized(e.slots[v], t[v]) && Filled(e.slots[v], t[v]);
      assert Members(t, e.slots[v], v, d.top, d.f.seek, |t|);
      assert Above(t, d.top) == {};
    }
  }

  /** A successful first pass ends at the end of the text, with the outermost value done. */
  lemma {:induction false} RunEnds(json: seq<Byte>, s: First)
    requires Text(json) && Sound(json, s) && Run1(json, s).Done?
    ensures var d := Run1(json, s).end;
      Sound(json, d) && d.f.done && d.i == |json|
    decreases Left(json, s)
  {
    var r := Step1(json, s);
    if r.Next? {
      Step1Sound(json, s);
      RunEnds(json, r.next);
    }
  }
}
