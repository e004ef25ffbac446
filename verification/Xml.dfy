/** The XML reader and writer (lib/common/xml.c). */
module Xml {
  import opened Bytes
  import opened Options

  datatype Attr = Attr(name: seq<Byte>, hasValue: bool, value: seq<Byte>)

  datatype Node =
    | Text(text: seq<Byte>)
    | Element(name: seq<Byte>, attrs: seq<Attr>, single: bool, children: seq<Node>)

  predicate Space(b: Byte) {
    9 <= b <= 13 || b == 32
  }

  predicate Alpha(b: Byte) {
    65 <= b <= 90 || 97 <= b <= 122
  }

  function Lower(b: Byte): Byte {
    if 65 <= b <= 90 then b + 32 else b
  }

  const LT: Byte := 60
  const GT: Byte := 62
  const SLASH: Byte := 47
  const EQUALS: Byte := 61
  const BLANK: Byte := 32

  // Writing

  function WriteAttr(a: Attr, q: Byte): seq<Byte> {
    [BLANK] + a.name + if a.hasValue then [EQUALS] + Quoted(a.value, q) else []
  }

  /** A quote of 0 is none. */
  function Quoted(value: seq<Byte>, q: Byte): seq<Byte> {
    if q == 0 then value else [q] + value + [q]
  }

  function WriteAttrs(attrs: seq<Attr>, q: Byte): seq<Byte> {
    if attrs == [] then [] else WriteAttr(attrs[0], q) + WriteAttrs(attrs[1..], q)
  }

  function WriteNode(n: Node, q: Byte): seq<Byte>
    decreases n
  {
    match n
    case Text(text) => text
    case Element(name, attrs, single, children) =>
      OpenTag(name, attrs, single, q) + WriteNodes(children, q)
      + if single then [] else [LT, SLASH] + name + [GT]
  }

  function WriteNodes(ns: seq<Node>, q: Byte): seq<Byte>
    decreases ns
  {
    if ns == [] then [] else WriteNode(ns[0], q) + WriteNodes(ns[1..], q)
  }

  function OpenTag(name: seq<Byte>, attrs: seq<Attr>, single: bool, q: Byte): seq<Byte> {
    [LT] + name + WriteAttrs(attrs, q)
    + (if single then [if name != [] && name[0] == Chr('?') then Chr('?') else SLASH] else []) + [GT]
  }

  // Reading attributes: xml_attribute_next scans the content of a tag, and one byte beyond it.

  predicate AttrChar(b: Byte) {
    Alpha(b) || b == Chr('-') || b == Chr(':') || b == Chr('_')
  }

  datatype Mode =
    | Start
    | Name(start: nat)
    | Named(name: seq<Byte>)
    | Equal(name: seq<Byte>)
    | Content(name: seq<Byte>, start: nat, quote: Byte)
    | Over(name: seq<Byte>, value: seq<Byte>)

  /** What was found when the scan stops. */
  function Found(m: Mode): Option<Attr> {
    match m
    case Start => None
    case Name(_) => None
    case Named(name) => Some(Attr(name, false, []))
    case Equal(name) => Some(Attr(name, false, []))
    case Content(name, _, _) => Some(Attr(name, true, []))
    case Over(name, value) => Some(Attr(name, true, value))
  }

  predicate Started(m: Mode, i: nat) {
    (m.Name? ==> m.start < i) && (m.Content? ==> m.start <= i)
  }

  /** xml_attribute_next from position `i`; `after` is the byte beyond the content. */
  function AttrNext(c: seq<Byte>, after: Byte, i: nat, m: Mode): (r: (Option<Attr>, nat))
    requires i <= |c| + 1 && Started(m, i)
    ensures r.1 <= |c| && (i <= |c| ==> i <= r.1) && (m.Start? && i < |c| ==> i < r.1)
    decreases |c| + 1 - i
  {
    if i > |c| then (Found(m), |c|)
    else
      var b := if i < |c| then c[i] else after;
      match m
      case Start => AttrNext(c, after, i + 1, if Alpha(b) then Name(i) else m)
      case Name(start) =>
        AttrNext(c, after, i + 1,
                 if AttrChar(b) then m else if b == EQUALS then Equal(c[start..i]) else Named(c[start..i]))
      case Named(name) =>
        if b == EQUALS then AttrNext(c, after, i + 1, Equal(name))
        else if Alpha(b) then (Found(m), i)
        else AttrNext(c, after, i + 1, m)
      case Equal(name) =>
        AttrNext(c, after, i + 1,
                 if Space(b) then m else if b == 39 || b == 34 then Content(name, i + 1, b) else Content(name, i, 0))
      case Content(name, start, quote) =>
        if quote != 0 then
          AttrNext(c, after, i + 1, if b == quote || i == |c| then Over(name, c[start..i]) else m)
        else if Space(b) || i == |c| then (Some(Attr(name, true, c[start..i])), i)
        else AttrNext(c, after, i + 1, m)
      case Over(_, _) => (Found(m), i)
  }

  /** xml_node_compile: each attribute found goes in front of the list. */
  function Compile(c: seq<Byte>, after: Byte, i: nat, attrs: seq<Attr>): seq<Attr>
    requires i <= |c|
    decreases |c| - i
  {
    if i == |c| then attrs
    else
      var (a, j) := AttrNext(c, after, i, Start);
      Compile(c, after, j, if a.Some? then [a.value] + attrs else attrs)
  }

  /** An attribute that survives being written with quote `q` and read. */
  predicate Plain(a: Attr, q: Byte) {
    && a.name != [] && Alpha(a.name[0]) && (forall i :: 0 <= i < |a.name| ==> AttrChar(a.name[i]))
    && q !in a.value && (!a.hasValue ==> a.value == [])
  }

  function Reverse(attrs: seq<Attr>): seq<Attr> {
    if attrs == [] then [] else Reverse(attrs[1..]) + [attrs[0]]
  }

  /** The byte at `i` of the content and what follows it. */
  function Byte1(c: seq<Byte>, after: Byte, i: nat): Byte
    requires i <= |c|
  {
    if i < |c| then c[i] else after
  }

  lemma {:induction false} ReadName(c: seq<Byte>, after: Byte, start: nat, i: nat, n: nat)
    requires start < i <= n <= |c| && (forall k :: i <= k < n ==> AttrChar(c[k])) && !AttrChar(Byte1(c, after, n))
    ensures AttrNext(c, after, i, Name(start)) == AttrNext(c, after, n + 1,
      if Byte1(c, after, n) == EQUALS then Equal(c[start..n]) else Named(c[start..n]))
    decreases n - i
  {
    if i < n {
      ReadName(c, after, start, i + 1, n);
    }
  }

  lemma {:induction false} ReadValue(c: seq<Byte>, after: Byte, name: seq<Byte>, start: nat, i: nat, n: nat, q: Byte)
    requires start <= i <= n < |c| && q != 0 && c[n] == q && forall k :: i <= k < n ==> c[k] != q
    ensures AttrNext(c, after, i, Content(name, start, q)) == (Some(Attr(name, true, c[start..n])), n + 1)
    decreases n - i
  {
    if i < n {
      ReadValue(c, after, name, start, i + 1, n, q);
    }
  }

  predicate Quote(q: Byte) {
    q == 34 || q == 39
  }

  /** Where the parts of a written attribute lie. */
  lemma AttrParts(pre: seq<Byte>, a: Attr, q: Byte, post: seq<Byte>)
    requires q != 0
    ensures var c := pre + WriteAttr(a, q) + post;
      var p, n := |pre|, |pre| + 1 + |a.name|;
      && n <= |c| && c[p] == BLANK && c[p + 1..n] == a.name
      && (forall k :: p + 1 <= k < n ==> c[k] == a.name[k - p - 1])
      && (a.hasValue ==>
            var e := n + 2 + |a.value|;
            && e < |c| && c[n] == EQUALS && c[n + 1] == q && c[n + 2..e] == a.value && c[e] == q
            && (forall k :: n + 2 <= k < e ==> c[k] == a.value[k - n - 2]) && e + 1 == p + |WriteAttr(a, q)|)
      && (!a.hasValue ==> n == p + |WriteAttr(a, q)|)
  {
    var c, p, n := pre + WriteAttr(a, q) + post, |pre|, |pre| + 1 + |a.name|;
    if a.hasValue {
      assert c == pre + [BLANK] + a.name + [EQUALS] + [q] + a.value + [q] + post;
    } else {
      assert c == pre + [BLANK] + a.name + post;
    }
  }

  /** One attribute is read from the blank before it, or from its name. */
  lemma ReadAttr(pre: seq<Byte>, a: Attr, q: Byte, post: seq<Byte>, after: Byte, i: nat)
    requires Plain(a, q) && Quote(q) && (i == |pre| || i == |pre| + 1)
    requires if post != [] then post[0] == BLANK && |post| > 1 && Alpha(post[1]) else after == GT || after == SLASH
    ensures var e := |pre| + |WriteAttr(a, q)|;
      AttrNext(pre + WriteAttr(a, q) + post, after, i, Start)
      == (Some(a), if !a.hasValue && post != [] then e + 1 else e)
  {
    var c, p, n := pre + WriteAttr(a, q) + post, |pre|, |pre| + 1 + |a.name|;
    AttrParts(pre, a, q, post);
    FromName(c, after, p, i, a, n);
    if a.hasValue {
      ReadValued(c, after, a, q, n);
    } else {
      assert post != [] ==> c[n] == post[0] && c[n + 1] == post[1];
      ReadBare(c, after, a.name, n);
    }
  }

  /** Up to the end of the name, from the blank before it or its first letter. */
  lemma FromName(c: seq<Byte>, after: Byte, p: nat, i: nat, a: Attr, n: nat)
    requires n == p + 1 + |a.name| <= |c| && (i == p || i == p + 1)
    requires c[p] == BLANK && c[p + 1..n] == a.name && a.name != []
    requires Alpha(c[p + 1]) && (forall k :: p + 1 <= k < n ==> AttrChar(c[k])) && !AttrChar(Byte1(c, after, n))
    ensures AttrNext(c, after, i, Start) ==
      AttrNext(c, after, n + 1, if Byte1(c, after, n) == EQUALS then Equal(a.name) else Named(a.name))
  {
    assert AttrNext(c, after, i, Start) == AttrNext(c, after, p + 2, Name(p + 1));
    ReadName(c, after, p + 1, p + 2, n);
  }

  lemma ReadBare(c: seq<Byte>, after: Byte, name: seq<Byte>, n: nat)
    requires n <= |c| && (n < |c| ==> n + 1 < |c| && Alpha(c[n + 1]))
    ensures AttrNext(c, after, n + 1, Named(name)) == (Some(Attr(name, false, [])), if n < |c| then n + 1 else n)
  {
  }

  lemma ReadValued(c: seq<Byte>, after: Byte, a: Attr, q: Byte, n: nat)
    requires Plain(a, q) && Quote(q) && a.hasValue
    requires var e := n + 2 + |a.value|;
      e < |c| && c[n] == EQUALS && c[n + 1] == q && c[n + 2..e] == a.value && c[e] == q
      && (forall k :: n + 2 <= k < e ==> c[k] == a.value[k - n - 2])
    ensures AttrNext(c, after, n + 1, Equal(a.name)) == (Some(a), n + 3 + |a.value|)
  {
    var e := n + 2 + |a.value|;
    forall k | n + 2 <= k < e ensures c[k] != q {
      assert a.value[k - n - 2] in a.value;
    }
    ReadValue(c, after, a.name, n + 2, n + 2, e, q);
  }

  lemma AttrsStart(attrs: seq<Attr>, q: Byte)
    requires forall k :: 0 <= k < |attrs| ==> Plain(attrs[k], q)
    ensures var w := WriteAttrs(attrs, q);
      if attrs == [] then w == [] else |w| > 1 && w[0] == BLANK && Alpha(w[1])
  {
    if attrs != [] {
      assert WriteAttrs(attrs, q)[1] == attrs[0].name[0];
    }
  }

  lemma CompileStep(c: seq<Byte>, after: Byte, i: nat, acc: seq<Attr>, a: Attr, j: nat)
    requires i < |c| && AttrNext(c, after, i, Start) == (Some(a), j)
    ensures Compile(c, after, i, acc) == Compile(c, after, j, [a] + acc)
  {
  }

  /** The attributes written are read back in reverse order. */
  lemma {:induction false} ReadAttrs(c: seq<Byte>, pre: seq<Byte>, attrs: seq<Attr>, q: Byte, after: Byte,
                                     i: nat, acc: seq<Attr>)
    requires (forall k :: 0 <= k < |attrs| ==> Plain(attrs[k], q)) && Quote(q) && (after == GT || after == SLASH)
    requires c == pre + WriteAttrs(attrs, q) && (i == |pre| || (i == |pre| + 1 && attrs != []))
    ensures i <= |c| && Compile(c, after, i, acc) == Reverse(attrs) + acc
    decreases |attrs|
  {
    AttrsStart(attrs, q);
    if attrs != [] {
      var a, rest := attrs[0], attrs[1..];
      var post, pre' := WriteAttrs(rest, q), pre + WriteAttr(a, q);
      forall k | 0 <= k < |rest| ensures Plain(rest[k], q) {
        assert rest[k] == attrs[k + 1];
      }
      AttrsStart(rest, q);
      ReadAttr(pre, a, q, post, after, i);
      assert c == pre' + post;
      var j := if !a.hasValue && post != [] then |pre'| + 1 else |pre'|;
      CompileStep(c, after, i, acc, a, j);
      ReadAttrs(c, pre', rest, q, after, j, [a] + acc);
      assert Reverse(rest) + ([a] + acc) == Reverse(rest) + [a] + acc;
    }
  }
}
