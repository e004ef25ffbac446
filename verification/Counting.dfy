/** Sizes of finite sets and sequences. */
module Counting {
  lemma {:induction false} Subset<T>(s: set<T>, t: set<T>)
    requires s <= t
    ensures |s| <= |t|
  {
    if s != {} {
      var x :| x in s;
      Subset(s - {x}, t - {x});
    }
  }

  lemma Member<T>(s: set<T>) returns (x: T)
    requires s != {}
    ensures x in s
  {
    x :| x in s;
  }

  lemma Outside<T>(s: set<T>, t: set<T>) returns (x: T)
    requires |s| > |t|
    ensures x in s && x !in t
  {
    if s <= t {
      Subset(s, t);
    }
    x :| x in s && x !in t;
  }

  /** `n` numbers from 1 on. */
  lemma {:induction false} NumbersBelow(s: set<int>, n: nat)
    requires forall x :: x in s ==> 1 <= x <= n
    ensures |s| <= n
  {
    if n > 0 {
      NumbersBelow(s - {n}, n - 1);
      Subset(s, s - {n} + {n});
    } else if s != {} {
      var x := Member(s);
      assert false;
    }
  }

  lemma {:induction false} ImageSize<T>(s: set<T>, f: T -> int)
    requires forall x, y :: x in s && y in s && x != y ==> f(x) != f(y)
    ensures |set x | x in s :: f(x)| == |s|
  {
    if s != {} {
      var x :| x in s;
      ImageSize(s - {x}, f);
      assert (set y | y in s :: f(y)) == (set y | y in s - {x} :: f(y)) + {f(x)};
    }
  }

  lemma {:induction false} SeqSize<T>(q: seq<T>)
    ensures |set x | x in q| <= |q|
  {
    if q != [] {
      var rest := q[..|q| - 1];
      SeqSize(rest);
      assert q == rest + [q[|q| - 1]];
      assert (set x | x in q) == (set x | x in rest) + {q[|q| - 1]};
    }
  }

  lemma InjectedBelow<T>(s: set<T>, f: T -> int, n: nat)
    requires forall x, y :: x in s && y in s && x != y ==> f(x) != f(y)
    requires forall x :: x in s ==> 1 <= f(x) <= n
    ensures |s| <= n
  {
    ImageSize(s, f);
    NumbersBelow(set x | x in s :: f(x), n);
  }
}
