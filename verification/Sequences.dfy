/** Sequences with one element less. */
module Sequences {
  /** `s` without the element at position `p`. */
  function Removed<T>(s: seq<T>, p: nat): seq<T>
    requires p < |s|
  {
    s[..p] + s[p + 1..]
  }

  /** Of distinct elements all the others are left. */
  lemma RemovedElements<T>(s: seq<T>, p: nat)
    requires p < |s| && forall a, b :: 0 <= a < b < |s| ==> s[a] != s[b]
    ensures forall x :: x in Removed(s, p) <==> x in s && x != s[p]
  {
    var t := Removed(s, p);
    forall x | x in t ensures x in s && x != s[p] {
      var j :| 0 <= j < |t| && t[j] == x;
      assert x == s[if j < p then j else j + 1];
    }
    forall x | x in s && x != s[p] ensures x in t {
      var j :| 0 <= j < |s| && s[j] == x;
      assert x == t[if j < p then j else j - 1];
    }
  }
}
