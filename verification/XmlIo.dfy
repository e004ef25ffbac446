/** The loops of the XML reader and writer (lib/common/xml.c): scanning, feeding, and writing into a
    bounded buffer. */
module XmlIo {
  import opened Bytes
  import opened Options
  import opened Xml
  import opened XmlFeed
  import opened XmlRoundTrip

  /** xml_attribute_next */
  method AttributeNext(c: seq<Byte>, after: Byte, offset: nat) returns (found: Option<Attr>, next: nat)
    requires offset < |c|
    ensures (found, next) == AttrNext(c, after, offset, Start)
  {
    var i, mode := offset, Start;
    while i <= |c|
      invariant offset <= i <= |c| + 1 && Started(mode, i)
      invariant AttrNext(c, after, i, mode) == AttrNext(c, after, offset, Start)
      decreases |c| + 1 - i
    {
      var b := if i < |c| then c[i] else after;
      match mode {
      case Start =>
        if Alpha(b) {
          mode := Name(i);
        }
      case Name(start) =>
        if !AttrChar(b) {
          mode := if b == EQUALS then Equal(c[start..i]) else Named(c[start..i]);
        }
      case Named(name) =>
        if b == EQUALS {
          mode := Equal(name);
        } else if Alpha(b) {
          return Found(mode), i;
        }
      case Equal(name) =>
        if !Space(b) {
          mode := if b == 39 || b == 34 then Content(name, i + 1, b) else Content(name, i, 0);
        }
      case Content(name, start, quote) =>
        if quote != 0 {
          if b == quote || i == |c| {
            mode := Over(name, c[start..i]);
          }
        } else if Space(b) || i == |c| {
          return Some(Attr(name, true, c[start..i])), i;
        }
      case Over(_, _) =>
        return Found(mode), i;
      }
      i := i + 1;
    }
    found, next := Found(mode), |c|;
  }

  /** xml_node_compile */
  method CompileTag(c: seq<Byte>, after: Byte) returns (attrs: seq<Attr>)
    ensures attrs == Compile(c, after, 0, [])
  {
    var offset := 0;
    attrs := [];
    while offset < |c|
      invariant offset <= |c| && Compile(c, after, offset, attrs) == Compile(c, after, 0, [])
      decreases |c| - offset
    {
      var found, next := AttributeNext(c, after, offset);
      if found.Some? {
        attrs := [found.value] + attrs;
      }
      offset := next;
    }
  }

  /** xml_feed */
  method Feed(s: seq<Byte>, find: seq<Byte> -> Tag) returns (r: Option<seq<Node>>)
    ensures r == Read(s, find)
  {
    var st := State(0, [DOCUMENT], None);
    while st.i < |s|
      invariant st.i <= |s| && st.frames != [] && Run(s, st, find) == Run(s, State(0, [DOCUMENT], None), find)
      decreases |s| - st.i
    {
      var next := Step(s, st, find);
      if next.None? {
        return None;
      }
      st := next.value;
    }
    r := Some(Whole(st.frames));
  }

  /** struct __node_seed: a buffer, how much of it may be used, and how much is. */
  class Seed {
    const buff: array<Byte>
    const max: nat
    const quote: Byte
    var len: nat

    ghost predicate Valid()
      reads this
    {
      len <= max <= buff.Length
    }

    constructor (buff: array<Byte>, max: nat, quote: Byte)
      requires max <= buff.Length
      ensures Valid() && len == 0 && this.buff == buff && this.max == max && this.quote == quote
    {
      this.buff, this.max, this.quote, len := buff, max, quote, 0;
    }

    /** What was written so far. */
    function Output(): seq<Byte>
      requires Valid()
      reads this, buff
    {
      buff[..len]
    }

    /** xml_seed_LENGTH and a copy */
    method Put(bytes: seq<Byte>) returns (ok: bool)
      requires Valid()
      modifies `len, buff
      ensures Valid() && (ok <==> old(len) + |bytes| <= max)
      ensures ok ==> Output() == old(Output()) + bytes
    {
      ok := len + |bytes| <= max;
      if ok {
        forall i | 0 <= i < |bytes| {
          buff[len + i] := bytes[i];
        }
        len := len + |bytes|;
      }
    }

    method PutAttr(a: Attr) returns (ok: bool)
      requires Valid()
      modifies `len, buff
      ensures Valid() && (ok <==> old(len) + |WriteAttr(a, quote)| <= max)
      ensures ok ==> Output() == old(Output()) + WriteAttr(a, quote)
    {
      ok := Put([BLANK]);
      if ok {
        ok := Put(a.name);
        if ok && a.hasValue {
          ok := PutValue(a.value);
        }
      }
    }

    /** The equals sign and the value, in quotes if there is a quote. */
    method PutValue(value: seq<Byte>) returns (ok: bool)
      requires Valid()
      modifies `len, buff
      ensures Valid() && (ok <==> old(len) + |[EQUALS] + Quoted(value, quote)| <= max)
      ensures ok ==> Output() == old(Output()) + ([EQUALS] + Quoted(value, quote))
    {
      ok := Put([EQUALS]);
      if ok {
        ok := PutQuoted(value);
      }
    }

    method PutQuoted(value: seq<Byte>) returns (ok: bool)
      requires Valid()
      modifies `len, buff
      ensures Valid() && (ok <==> old(len) + |Quoted(value, quote)| <= max)
      ensures ok ==> Output() == old(Output()) + Quoted(value, quote)
    {
      if quote == 0 {
        ok := Put(value);
        return;
      }
      ghost var o := Output();
      ok := Put([quote]);
      if ok {
        ok := Put(value);
        Associate(o, [quote], value);
        if ok {
          ok := Put([quote]);
          Associate(o, [quote] + value, [quote]);
        }
      }
    }

    method PutAttrs(attrs: seq<Attr>) returns (ok: bool)
      requires Valid()
      modifies `len, buff
      ensures Valid() && (ok <==> old(len) + |WriteAttrs(attrs, quote)| <= max)
      ensures ok ==> Output() == old(Output()) + WriteAttrs(attrs, quote)
      decreases |attrs|
    {
      if attrs == [] {
        return true;
      }
      ok := PutAttr(attrs[0]);
      if ok {
        ok := PutAttrs(attrs[1..]);
      }
    }

    /** The callback for the start of an element. */
    method PutOpen(name: seq<Byte>, attrs: seq<Attr>, single: bool) returns (ok: bool)
      requires Valid()
      modifies `len, buff
      ensures Valid() && (ok <==> old(len) + |OpenTag(name, attrs, single, quote)| <= max)
      ensures ok ==> Output() == old(Output()) + OpenTag(name, attrs, single, quote)
    {
      ok := Put([LT]);
      if ok {
        ok := Put(name);
        if ok {
          ok := PutAttrs(attrs);
          if ok {
            ok := PutOpenEnd(name, single);
          }
        }
      }
      OpenTagIs(name, attrs, single, quote);
    }

    method PutOpenEnd(name: seq<Byte>, single: bool) returns (ok: bool)
      requires Valid()
      modifies `len, buff
      ensures Valid() && (ok <==> old(len) + |OpenEnd(name, single)| <= max)
      ensures ok ==> Output() == old(Output()) + OpenEnd(name, single)
    {
      ok := true;
      if single {
        ok := Put([if name != [] && name[0] == Chr('?') then Chr('?') else SLASH]);
      }
      if ok {
        ok := Put([GT]);
      }
    }

    method PutEnd(name: seq<Byte>) returns (ok: bool)
      requires Valid()
      modifies `len, buff
      ensures Valid() && (ok <==> old(len) + |EndTag(name)| <= max)
      ensures ok ==> Output() == old(Output()) + EndTag(name)
    {
      ok := Put([LT]);
      if ok {
        ok := Put([SLASH]);
        if ok {
          ok := Put(name);
          if ok {
            ok := Put([GT]);
          }
        }
      }
    }

    /** xml_node_walk with __callback_node_seed, for one node. */
    method PutNode(n: Node) returns (ok: bool)
      requires Valid()
      modifies `len, buff
      ensures Valid() && (ok <==> old(len) + |WriteNode(n, quote)| <= max)
      ensures ok ==> Output() == old(Output()) + WriteNode(n, quote)
      decreases n
    {
      match n
      case Text(text) =>
        ok := Put(text);
      case Element(name, attrs, single, children) =>
        NodeIs(n, quote);
        ghost var o := Output();
        ok := PutOpen(name, attrs, single);
        if ok {
          ok := PutInner(name, single, children);
          Associate(o, OpenTag(name, attrs, single, quote), Inner(name, single, children, quote));
        }
    }

    /** The children of an element, and its end tag unless it is single. */
    method PutInner(name: seq<Byte>, single: bool, children: seq<Node>) returns (ok: bool)
      requires Valid()
      modifies `len, buff
      ensures Valid() && (ok <==> old(len) + |Inner(name, single, children, quote)| <= max)
      ensures ok ==> Output() == old(Output()) + Inner(name, single, children, quote)
      decreases children, 1
    {
      ok := PutNodes(children);
      if ok && !single {
        ok := PutEnd(name);
      }
    }

    method PutNodes(ns: seq<Node>) returns (ok: bool)
      requires Valid()
      modifies `len, buff
      ensures Valid() && (ok <==> old(len) + |WriteNodes(ns, quote)| <= max)
      ensures ok ==> Output() == old(Output()) + WriteNodes(ns, quote)
      decreases ns, 0
    {
      if ns == [] {
        return true;
      }
      ok := PutNode(ns[0]);
      if ok {
        ok := PutNodes(ns[1..]);
      }
    }
  }

  function Inner(name: seq<Byte>, single: bool, children: seq<Node>, q: Byte): seq<Byte> {
    WriteNodes(children, q) + if single then [] else EndTag(name)
  }

  lemma NodeIs(n: Node, q: Byte)
    requires n.Element?
    ensures WriteNode(n, q) == OpenTag(n.name, n.attrs, n.single, q) + Inner(n.name, n.single, n.children, q)
  {
  }

  function OpenEnd(name: seq<Byte>, single: bool): seq<Byte> {
    (if single then [if name != [] && name[0] == Chr('?') then Chr('?') else SLASH] else []) + [GT]
  }

  lemma OpenTagIs(name: seq<Byte>, attrs: seq<Attr>, single: bool, q: Byte)
    ensures OpenTag(name, attrs, single, q) == [LT] + name + WriteAttrs(attrs, q) + OpenEnd(name, single)
  {
  }

  /** xml_seed: the length of what was written, or -1 if it is more than `max` bytes. */
  method Write(ns: seq<Node>, buff: array<Byte>, max: nat, quote: Byte) returns (rv: int)
    requires max <= buff.Length
    modifies buff
    ensures rv == if |WriteNodes(ns, quote)| <= max then |WriteNodes(ns, quote)| else -1
    ensures rv >= 0 ==> buff[..rv] == WriteNodes(ns, quote)
  {
    var seed := new Seed(buff, max, quote);
    var ok := seed.PutNodes(ns);
    rv := if ok then seed.len else -1;
  }

  /** A normalised tree, written and fed back, comes back mirrored. */
  method WriteAndFeed(ns: seq<Node>, buff: array<Byte>, quote: Byte, find: seq<Byte> -> Tag)
    returns (r: Option<seq<Node>>)
    requires NormalAll(ns, quote, find) && Quote(quote) && Shallow(ns, 0) && |WriteNodes(ns, quote)| <= buff.Length
    modifies buff
    ensures r == Some(MirrorAll(ns))
  {
    var len := Write(ns, buff, buff.Length, quote);
    RoundTrip(ns, quote, find);
    r := Feed(buff[..len], find);
  }
}
