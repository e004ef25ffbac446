/** Reading back what was written (lib/common/xml.c): a normalised tree comes back with each list of
    attributes reversed. */
module XmlRoundTrip {
  import opened Bytes
  import opened Options
  import opened Xml
  import opened XmlFeed

  predicate NameChar(b: Byte) {
    Alpha(b) || Digit(b) || b == Chr('_') || b == Chr(':') || b == Chr('-')
  }

  /** No angle bracket. */
  predicate Flat(s: seq<Byte>) {
    LT !in s && GT !in s
  }

  predicate Writable(attrs: seq<Attr>, q: Byte) {
    forall k :: 0 <= k < |attrs| ==> Plain(attrs[k], q) && Flat(attrs[k].value)
  }

  /** A node that survives: names that the tag table does not hold, attributes that can be told apart,
      texts that are not blank and open no tag, no children in a single tag. */
  ghost predicate Normal(n: Node, q: Byte, find: seq<Byte> -> Tag)
    decreases n
  {
    match n
    case Text(text) => !Blank(text) && LT !in text
    case Element(name, attrs, single, children) =>
      && Name1(name) && find(name) == UNKNOWN
      && Writable(attrs, q) && (single ==> children == []) && NormalAll(children, q, find)
  }

  /** No two texts side by side. */
  ghost predicate NormalAll(ns: seq<Node>, q: Byte, find: seq<Byte> -> Tag)
    decreases ns
  {
    ns == [] || (Normal(ns[0], q, find) && NormalAll(ns[1..], q, find)
                 && (|ns| > 1 && ns[0].Text? ==> ns[1].Element?))
  }

  /** Nodes at this level are not nested too deep. */
  predicate Shallow(ns: seq<Node>, level: nat)
    decreases ns
  {
    ns == [] || (level <= MAX_DEEP && ShallowNode(ns[0], level) && Shallow(ns[1..], level))
  }

  predicate ShallowNode(n: Node, level: nat)
    decreases n
  {
    n.Text? || Shallow(n.children, level + 1)
  }

  function Mirror(n: Node): Node
    decreases n
  {
    match n
    case Text(_) => n
    case Element(name, attrs, single, children) => Element(name, Reverse(attrs), single, MirrorAll(children))
  }

  function MirrorAll(ns: seq<Node>): seq<Node>
    decreases ns
  {
    if ns == [] then [] else [Mirror(ns[0])] + MirrorAll(ns[1..])
  }

  // Tokens

  lemma {:induction false} NameEndIs(s: seq<Byte>, i: nat, n: nat)
    requires i <= n <= |s| && (forall k :: i <= k < n ==> TagChar(s[k])) && (n < |s| ==> !TagChar(s[n]))
    ensures NameEnd(s, i) == n
    decreases n - i
  {
    if i < n {
      NameEndIs(s, i + 1, n);
    }
  }

  lemma {:induction false} MarkEndIs(s: seq<Byte>, i: nat, m: nat)
    requires i <= m < |s| && (forall k :: i <= k < m ==> s[k] != LT && s[k] != GT) && (s[m] == LT || s[m] == GT)
    ensures MarkEnd(s, i) == m
    decreases m - i
  {
    if i < m {
      MarkEndIs(s, i + 1, m);
    }
  }

  lemma {:induction false} TextEndIs(s: seq<Byte>, i: nat, j: nat)
    requires i <= j <= |s| && (forall k :: i <= k < j ==> s[k] != LT) && (j < |s| ==> s[j] == LT)
    ensures TextEnd(s, i, None) == j
    decreases j - i
  {
    if i < j {
      TextEndIs(s, i + 1, j);
    }
  }

  /** Written attributes hold no angle bracket and do not end in a slash. */
  lemma {:induction false} AttrsFlat(attrs: seq<Attr>, q: Byte)
    requires Writable(attrs, q) && Quote(q)
    ensures var w := WriteAttrs(attrs, q);
      Flat(w) && (w != [] ==> w[0] == BLANK && w[|w| - 1] != SLASH)
  {
    if attrs != [] {
      var a, rest := attrs[0], attrs[1..];
      forall k | 0 <= k < |rest| ensures Plain(rest[k], q) && Flat(rest[k].value) {
        assert rest[k] == attrs[k + 1];
      }
      AttrsFlat(rest, q);
      AttrFlat(a, q);
      var w, v := WriteAttr(a, q), WriteAttrs(rest, q);
      assert v == [] ==> (w + v)[|w + v| - 1] == w[|w| - 1];
    }
  }

  lemma AttrFlat(a: Attr, q: Byte)
    requires Plain(a, q) && Flat(a.value) && Quote(q)
    ensures var w := WriteAttr(a, q);
      Flat(w) && w[|w| - 1] != SLASH
  {
    var w := WriteAttr(a, q);
    assert forall i :: 0 <= i < |a.name| ==> a.name[i] != LT && a.name[i] != GT;
    if a.hasValue {
      assert w == [BLANK] + a.name + [EQUALS] + [q] + a.value + [q];
    } else {
      assert w == [BLANK] + a.name;
      assert AttrChar(a.name[|a.name| - 1]);
    }
  }

  /** The text of a tag at `i`: `<`, a slash in an end tag, its name from `k` to `n`, its body up to `m`, `>`. */
  predicate TagAt(s: seq<Byte>, i: nat, close: bool, name: seq<Byte>, body: seq<Byte>, k: nat, n: nat, m: nat) {
    && k == i + (if close then 2 else 1) && n == k + |name| && m == n + |body| && m < |s|
    && s[i] == LT && (close ==> s[i + 1] == SLASH) && s[k..n] == name && s[n..m] == body && s[m] == GT
  }

  predicate Name1(name: seq<Byte>) {
    name != [] && forall k :: 0 <= k < |name| ==> NameChar(name[k])
  }

  lemma TagScan(s: seq<Byte>, i: nat, close: bool, name: seq<Byte>, body: seq<Byte>, k: nat, n: nat, m: nat)
    requires TagAt(s, i, close, name, body, k, n, m) && Name1(name) && Flat(body) && (body != [] ==> !TagChar(body[0]))
    ensures TextEnd(s, i, None) == i && NameEnd(s, k) == n && MarkEnd(s, n) == m
    ensures !close ==> NameChar(s[i + 1])
    ensures s[m - 1] == if body != [] then body[|body| - 1] else name[|name| - 1]
  {
    forall x | k <= x < n ensures s[x] == name[x - k] && TagChar(s[x]) {
      assert s[k..n][x - k] == s[x];
    }
    forall x | n <= x < m ensures s[x] == body[x - n] && s[x] != LT && s[x] != GT {
      assert s[n..m][x - n] == s[x];
    }
    assert s[k] == name[0];
    TextEndIs(s, i, i);
    NameEndIs(s, k, n);
    MarkEndIs(s, n, m);
  }

  lemma OpenIs(s: seq<Byte>, i: nat, name: seq<Byte>, body: seq<Byte>, k: nat, n: nat, m: nat)
    requires TagAt(s, i, false, name, body, k, n, m) && Name1(name) && Flat(body) && (body != [] ==> !TagChar(body[0]))
    requires body != [] ==> body[|body| - 1] != SLASH
    ensures NextToken(s, i, None) == (Mark(Open, name, body, GT), m + 1)
  {
    TagScan(s, i, false, name, body, k, n, m);
    assert NameChar(name[|name| - 1]);
  }

  lemma SingleIs(s: seq<Byte>, i: nat, name: seq<Byte>, content: seq<Byte>, k: nat, n: nat, m: nat)
    requires TagAt(s, i, false, name, content + [SLASH], k, n, m) && Name1(name) && Flat(content)
    requires content != [] ==> !TagChar(content[0])
    ensures NextToken(s, i, None) == (Mark(Single, name, content, SLASH), m + 1)
  {
    TagScan(s, i, false, name, content + [SLASH], k, n, m);
    assert s[n..m - 1] == s[n..m][..|content|] == content;
  }

  lemma TagPlaces(pre: seq<Byte>, close: bool, name: seq<Byte>, body: seq<Byte>, post: seq<Byte>)
    ensures var s := pre + ((if close then [LT, SLASH] else [LT]) + name + body + [GT]) + post;
      var k := |pre| + if close then 2 else 1;
      TagAt(s, |pre|, close, name, body, k, k + |name|, k + |name| + |body|)
  {
    var start := if close then [LT, SLASH] else [LT];
    assert pre + (start + name + body + [GT]) + post == pre + start + name + body + [GT] + post;
  }

  lemma StartToken(pre: seq<Byte>, name: seq<Byte>, attrs: seq<Attr>, q: Byte, post: seq<Byte>)
    requires Name1(name) && Writable(attrs, q) && Quote(q)
    ensures var w := [LT] + name + WriteAttrs(attrs, q) + [GT];
      NextToken(pre + w + post, |pre|, None) == (Mark(Open, name, WriteAttrs(attrs, q), GT), |pre| + |w|)
  {
    var a, n := WriteAttrs(attrs, q), |pre| + 1 + |name|;
    AttrsFlat(attrs, q);
    TagPlaces(pre, false, name, a, post);
    var c := pre + ([LT] + name + a + [GT]) + post;
    OpenIs(c, |pre|, name, a, |pre| + 1, n, n + |a|);
  }

  lemma SingleToken(pre: seq<Byte>, name: seq<Byte>, attrs: seq<Attr>, q: Byte, post: seq<Byte>)
    requires Name1(name) && Writable(attrs, q) && Quote(q)
    ensures var w := [LT] + name + (WriteAttrs(attrs, q) + [SLASH]) + [GT];
      NextToken(pre + w + post, |pre|, None) == (Mark(Single, name, WriteAttrs(attrs, q), SLASH), |pre| + |w|)
  {
    var a, n := WriteAttrs(attrs, q), |pre| + 1 + |name|;
    AttrsFlat(attrs, q);
    TagPlaces(pre, false, name, a + [SLASH], post);
    SingleIs(pre + ([LT] + name + (a + [SLASH]) + [GT]) + post, |pre|, name, a, |pre| + 1, n, n + |a| + 1);
  }

  lemma TagIs(name: seq<Byte>, attrs: seq<Attr>, q: Byte)
    requires Name1(name)
    ensures OpenTag(name, attrs, true, q) == [LT] + name + (WriteAttrs(attrs, q) + [SLASH]) + [GT]
    ensures OpenTag(name, attrs, false, q) == [LT] + name + WriteAttrs(attrs, q) + [GT]
  {
    assert NameChar(name[0]);
  }

  /** The start tag written is read as a start tag. */
  lemma OpenToken(pre: seq<Byte>, name: seq<Byte>, attrs: seq<Attr>, single: bool, q: Byte, post: seq<Byte>)
    requires Name1(name) && Writable(attrs, q) && Quote(q)
    ensures var w := OpenTag(name, attrs, single, q);
      NextToken(pre + w + post, |pre|, None)
      == (Mark(if single then Single else Open, name, WriteAttrs(attrs, q), if single then SLASH else GT), |pre| + |w|)
  {
    TagIs(name, attrs, q);
    if single {
      SingleToken(pre, name, attrs, q, post);
    } else {
      StartToken(pre, name, attrs, q, post);
    }
  }

  lemma CloseToken(pre: seq<Byte>, name: seq<Byte>, post: seq<Byte>)
    requires Name1(name)
    ensures NextToken(pre + EndTag(name) + post, |pre|, None) == (Mark(Close, name, [], GT), |pre| + |EndTag(name)|)
  {
    assert EndTag(name) == [LT, SLASH] + name + [] + [GT];
    TagPlaces(pre, true, name, [], post);
    var n := |pre| + 2 + |name|;
    TagScan(pre + EndTag(name) + post, |pre|, true, name, [], |pre| + 2, n, n);
  }

  function EndTag(name: seq<Byte>): seq<Byte> {
    [LT, SLASH] + name + [GT]
  }

  lemma WordsToken(pre: seq<Byte>, text: seq<Byte>, post: seq<Byte>)
    requires LT !in text && text != [] && (post == [] || post[0] == LT)
    ensures NextToken(pre + text + post, |pre|, None) == (Words(text), |pre| + |text|)
  {
    var s := pre + text + post;
    forall k | |pre| <= k < |pre| + |text| ensures s[k] != LT {
      assert s[k] == text[k - |pre|];
    }
    TextEndIs(s, |pre|, |pre| + |text|);
    assert s[|pre|..|pre| + |text|] == text;
  }

  // The state of the reader

  /** Children more of the innermost open element. */
  function Added(frames: seq<Frame>, ms: seq<Node>): (r: seq<Frame>)
    requires frames != []
    ensures |r| == |frames|
  {
    var top := frames[|frames| - 1];
    frames[..|frames| - 1] + [top.(done := top.done + ms)]
  }

  lemma AddedMore(frames: seq<Frame>, a: seq<Node>, b: seq<Node>)
    requires frames != []
    ensures Added(Added(frames, a), b) == Added(frames, a + b)
    ensures Added(frames, []) == frames
  {
    var top := frames[|frames| - 1];
    assert top.done + a + b == top.done + (a + b);
    assert top.(done := top.done + []) == top;
    assert Added(frames, a)[..|frames| - 1] == frames[..|frames| - 1];
  }

  /** `run` tells where the reader gets to: turns of its loop do not change that. */
  ghost predicate Follows(run: State -> Option<State>, s: seq<Byte>, find: seq<Byte> -> Tag) {
    forall st: State, next: State ::
      st.i < |s| && st.frames != [] && Step(s, st, find) == Some(next) ==> run(st) == run(next)
  }

  lemma Stepped(run: State -> Option<State>, s: seq<Byte>, st: State, find: seq<Byte> -> Tag, next: State)
    requires Follows(run, s, find) && st.i < |s| && st.frames != [] && Step(s, st, find) == Some(next)
    ensures run(st) == run(next)
  {
  }

  lemma Attributes(attrs: seq<Attr>, q: Byte, after: Byte)
    requires Writable(attrs, q) && Quote(q) && (after == GT || after == SLASH)
    ensures Compile(WriteAttrs(attrs, q), after, 0, []) == Reverse(attrs)
  {
    assert [] + WriteAttrs(attrs, q) == WriteAttrs(attrs, q);
    ReadAttrs(WriteAttrs(attrs, q), [], attrs, q, after, 0, []);
    assert Reverse(attrs) + [] == Reverse(attrs);
  }

  lemma AddOne(frames: seq<Frame>, n: Node)
    requires frames != []
    ensures Added(frames, [n]) == Grown(frames, n)
  {
  }

  /** A start tag that the table does not hold. */
  lemma MarkStep(s: seq<Byte>, i: nat, t: Token, j: nat, find: seq<Byte> -> Tag, frames: seq<Frame>)
    requires i < |s| && NextToken(s, i, None) == (t, j) && t.Mark? && t.shape != Close && find(t.name) == UNKNOWN
    requires 0 < |frames| <= MAX_DEEP + 1
    ensures var attrs := Compile(t.content, t.after, 0, []);
      Step(s, State(i, frames, None), find) == Some(State(j,
        if t.shape == Open then frames + [Frame(t.name, Some(UNKNOWN), attrs, [])]
        else Grown(frames, Element(t.name, attrs, true, [])), None))
  {
  }

  lemma EndStep(s: seq<Byte>, i: nat, t: Token, j: nat, find: seq<Byte> -> Tag, frames: seq<Frame>, f: Frame)
    requires i < |s| && NextToken(s, i, None) == (t, j) && t.Mark? && t.shape == Close
    requires f.name == t.name && frames != []
    ensures Step(s, State(i, frames + [f], None), find)
      == Some(State(j, Grown(frames, Element(f.name, f.attrs, false, f.done)), None))
  {
    var open := frames + [f];
    assert open[|open| - 1] == f && SameName(f.name, t.name) && open[..|open| - 1] == frames;
    assert Closed(open, t.name) == Popped(open);
  }

  lemma EnterStep(run: State -> Option<State>, s: seq<Byte>, pre: seq<Byte>, n: Node, q: Byte, post: seq<Byte>,
                  find: seq<Byte> -> Tag, frames: seq<Frame>, j: nat)
    requires Follows(run, s, find)
    requires n.Element? && Name1(n.name) && Writable(n.attrs, q) && find(n.name) == UNKNOWN && !n.single
    requires Quote(q) && 0 < |frames| <= MAX_DEEP + 1 && s == pre + OpenTag(n.name, n.attrs, false, q) + post
    requires j == |pre| + |OpenTag(n.name, n.attrs, false, q)|
    ensures run(State(|pre|, frames, None)) == run(State(j, frames + [Opened(n)], None))
  {
    OpenToken(pre, n.name, n.attrs, false, q, post);
    Attributes(n.attrs, q, GT);
    MarkStep(s, |pre|, Mark(Open, n.name, WriteAttrs(n.attrs, q), GT), j, find, frames);
    Stepped(run, s, State(|pre|, frames, None), find, State(j, frames + [Opened(n)], None));
  }

  /** The frame of an element whose start tag was read. */
  function Opened(n: Node): Frame
    requires n.Element?
  {
    Frame(n.name, Some(UNKNOWN), Reverse(n.attrs), [])
  }

  lemma SingleStep(run: State -> Option<State>, s: seq<Byte>, pre: seq<Byte>, n: Node, q: Byte, post: seq<Byte>,
                   find: seq<Byte> -> Tag, frames: seq<Frame>, j: nat, m: Node)
    requires Follows(run, s, find)
    requires n.Element? && Name1(n.name) && Writable(n.attrs, q) && find(n.name) == UNKNOWN
    requires Quote(q) && 0 < |frames| <= MAX_DEEP + 1 && s == pre + OpenTag(n.name, n.attrs, true, q) + post
    requires j == |pre| + |OpenTag(n.name, n.attrs, true, q)| && m == Element(n.name, Reverse(n.attrs), true, [])
    ensures run(State(|pre|, frames, None)) == run(State(j, Grown(frames, m), None))
  {
    OpenToken(pre, n.name, n.attrs, true, q, post);
    Attributes(n.attrs, q, SLASH);
    MarkStep(s, |pre|, Mark(Single, n.name, WriteAttrs(n.attrs, q), SLASH), j, find, frames);
    Stepped(run, s, State(|pre|, frames, None), find, State(j, Grown(frames, m), None));
  }

  lemma CloseStep(run: State -> Option<State>, s: seq<Byte>, pre: seq<Byte>, name: seq<Byte>, post: seq<Byte>,
                  find: seq<Byte> -> Tag, frames: seq<Frame>, f: Frame, j: nat)
    requires Follows(run, s, find) && j == |pre| + |EndTag(name)|
    requires Name1(name) && f.name == name && frames != [] && s == pre + EndTag(name) + post
    ensures run(State(|pre|, frames + [f], None))
      == run(State(j, Grown(frames, Element(name, f.attrs, false, f.done)), None))
  {
    CloseToken(pre, name, post);
    EndStep(s, |pre|, Mark(Close, name, [], GT), j, find, frames, f);
    Stepped(run, s, State(|pre|, frames + [f], None), find,
            State(j, Grown(frames, Element(name, f.attrs, false, f.done)), None));
  }

  lemma TextStep(run: State -> Option<State>, s: seq<Byte>, pre: seq<Byte>, text: seq<Byte>, post: seq<Byte>,
                 find: seq<Byte> -> Tag, frames: seq<Frame>, j: nat)
    requires Follows(run, s, find) && j == |pre| + |text|
    requires !Blank(text) && LT !in text && 0 < |frames| <= MAX_DEEP + 1 && (post == [] || post[0] == LT)
    requires s == pre + text + post
    ensures run(State(|pre|, frames, None)) == run(State(j, Grown(frames, Text(text)), None))
  {
    WordsToken(pre, text, post);
    Stepped(run, s, State(|pre|, frames, None), find, State(j, Grown(frames, Text(text)), None));
  }

  lemma Regroup(pre: seq<Byte>, a: seq<Byte>, b: seq<Byte>, c: seq<Byte>, post: seq<Byte>)
    ensures pre + (a + b + c) + post == pre + a + (b + c + post)
    ensures pre + (a + b + c) + post == (pre + a) + b + (c + post)
    ensures pre + (a + b + c) + post == (pre + a + b) + c + post
  {
  }

  lemma Regroup2(pre: seq<Byte>, a: seq<Byte>, b: seq<Byte>, post: seq<Byte>)
    ensures pre + (a + b) + post == pre + a + (b + post)
    ensures pre + (a + b) + post == (pre + a) + b + post
  {
  }

  // A node that was written from `i` to `j` is read, as one child more of the innermost open element.

  lemma {:induction false} ReadNode(run: State -> Option<State>, s: seq<Byte>, pre: seq<Byte>, n: Node, q: Byte,
                                    post: seq<Byte>, find: seq<Byte> -> Tag, frames: seq<Frame>, j: nat, m: Node)
    requires Follows(run, s, find) && j == |pre| + |WriteNode(n, q)| && m == Mirror(n)
    requires Normal(n, q, find) && Quote(q) && 0 < |frames| <= MAX_DEEP + 1 && ShallowNode(n, |frames| - 1)
    requires n.Text? ==> post == [] || post[0] == LT
    requires s == pre + WriteNode(n, q) + post
    ensures run(State(|pre|, frames, None)) == run(State(j, Grown(frames, m), None))
    decreases n, 1
  {
    match n
    case Text(text) =>
      TextStep(run, s, pre, text, post, find, frames, j);
    case Element(name, attrs, single, children) =>
      if single {
        assert WriteNodes([], q) == [] && MirrorAll([]) == [];
        assert WriteNode(n, q) == OpenTag(name, attrs, true, q);
        SingleStep(run, s, pre, n, q, post, find, frames, j, m);
      } else {
        ReadElement(run, s, pre, n, q, post, find, frames, j, m);
      }
  }

  lemma {:induction false} ReadElement(run: State -> Option<State>, s: seq<Byte>, pre: seq<Byte>, n: Node, q: Byte,
                                       post: seq<Byte>, find: seq<Byte> -> Tag, frames: seq<Frame>, j: nat, m: Node)
    requires Follows(run, s, find) && j == |pre| + |WriteNode(n, q)| && m == Mirror(n)
    requires Normal(n, q, find) && Quote(q) && 0 < |frames| <= MAX_DEEP + 1 && ShallowNode(n, |frames| - 1)
    requires n.Element? && !n.single && s == pre + WriteNode(n, q) + post
    ensures run(State(|pre|, frames, None)) == run(State(j, Grown(frames, m), None))
    decreases n, 0
  {
    var open, inner, end := OpenTag(n.name, n.attrs, false, q), WriteNodes(n.children, q), EndTag(n.name);
    assert WriteNode(n, q) == open + inner + end;
    Regroup(pre, open, inner, end, post);
    var i, k := |pre + open|, |pre + open + inner|;
    EnterStep(run, s, pre, n, q, inner + end + post, find, frames, i);
    var ms := MirrorAll(n.children);
    var f := Opened(n).(done := ms);
    InnerAdded(frames, Opened(n), ms);
    ReadNodes(run, s, pre + open, n.children, q, end + post, find, frames + [Opened(n)], k, frames + [f]);
    CloseStep(run, s, pre + open + inner, n.name, post, find, frames, f, j);
  }

  lemma InnerAdded(frames: seq<Frame>, f: Frame, ms: seq<Node>)
    requires f.done == []
    ensures Added(frames + [f], ms) == frames + [f.(done := ms)]
  {
    assert [] + ms == ms;
  }

  lemma {:induction false} ReadNodes(run: State -> Option<State>, s: seq<Byte>, pre: seq<Byte>, ns: seq<Node>, q: Byte,
                                     post: seq<Byte>, find: seq<Byte> -> Tag, frames: seq<Frame>, j: nat,
                                     next: seq<Frame>)
    requires Follows(run, s, find) && j == |pre| + |WriteNodes(ns, q)|
    requires NormalAll(ns, q, find) && Quote(q) && 0 < |frames| && Shallow(ns, |frames| - 1)
    requires next == Added(frames, MirrorAll(ns))
    requires post == [] || post[0] == LT
    requires s == pre + WriteNodes(ns, q) + post
    ensures run(State(|pre|, frames, None)) == run(State(j, next, None))
    decreases ns, 2
  {
    if ns == [] {
      AddedMore(frames, [], []);
    } else {
      var n, rest := ns[0], ns[1..];
      var w, v := WriteNode(n, q), WriteNodes(rest, q);
      Regroup2(pre, w, v, post);
      if n.Text? {
        StartsTag(ns, q, find, post);
      }
      var m, k := Mirror(n), |pre + w|;
      ReadNode(run, s, pre, n, q, v + post, find, frames, k, m);
      GrownAdded(frames, m, MirrorAll(rest));
      ReadNodes(run, s, pre + w, rest, q, post, find, Grown(frames, m), j, next);
    }
  }

  lemma GrownAdded(frames: seq<Frame>, m: Node, ms: seq<Node>)
    requires frames != []
    ensures |Grown(frames, m)| == |frames| && Added(Grown(frames, m), ms) == Added(frames, [m] + ms)
  {
    AddOne(frames, m);
    AddedMore(frames, [m], ms);
  }

  /** What follows a text is a tag, or the end. */
  lemma StartsTag(ns: seq<Node>, q: Byte, find: seq<Byte> -> Tag, post: seq<Byte>)
    requires ns != [] && NormalAll(ns, q, find) && (post == [] || post[0] == LT) && ns[0].Text?
    ensures var v := WriteNodes(ns[1..], q) + post;
      v == [] || v[0] == LT
  {
    if |ns| > 1 {
      var rest := ns[1..];
      assert rest[0] == ns[1];
      assert WriteNodes(rest, q) == WriteNode(rest[0], q) + WriteNodes(rest[1..], q);
    }
  }

  lemma RunFollows(s: seq<Byte>, find: seq<Byte> -> Tag, run: State -> Option<State>)
    requires forall st :: run(st) == if st.i <= |s| && st.frames != [] then Run(s, st, find) else None
    ensures Follows(run, s, find)
  {
    forall st: State, next: State | st.i < |s| && st.frames != [] && Step(s, st, find) == Some(next)
      ensures run(st) == run(next)
    {
      StepFine(s, st, find);
    }
  }

  lemma StepFine(s: seq<Byte>, st: State, find: seq<Byte> -> Tag)
    requires st.i < |s| && st.frames != []
    ensures var r := Step(s, st, find);
      r.Some? ==> r.value.i <= |s| && r.value.frames != [] && Run(s, st, find) == Run(s, r.value, find)
  {
  }

  /** Reading what was written gives the same elements, nesting, texts and attributes, each list of
      attributes reversed. */
  lemma RoundTrip(ns: seq<Node>, q: Byte, find: seq<Byte> -> Tag)
    requires NormalAll(ns, q, find) && Quote(q) && Shallow(ns, 0)
    ensures Read(WriteNodes(ns, q), find) == Some(MirrorAll(ns))
  {
    var s := WriteNodes(ns, q);
    assert s == [] + s + [];
    var run := (st: State) => if st.i <= |s| && st.frames != [] then Run(s, st, find) else None;
    RunFollows(s, find, run);
    ReadNodes(run, s, [], ns, q, [], find, [DOCUMENT], |s|, Added([DOCUMENT], MirrorAll(ns)));
    assert DOCUMENT.done + MirrorAll(ns) == MirrorAll(ns);
  }

  lemma {:induction false} ReverseEnd(attrs: seq<Attr>, a: Attr)
    ensures Reverse(attrs + [a]) == [a] + Reverse(attrs)
  {
    if attrs != [] {
      ReverseEnd(attrs[1..], a);
      assert (attrs + [a])[1..] == attrs[1..] + [a];
    }
  }

  lemma {:induction false} ReverseTwice(attrs: seq<Attr>)
    ensures Reverse(Reverse(attrs)) == attrs && |Reverse(attrs)| == |attrs|
    ensures forall a :: a in Reverse(attrs) <==> a in attrs
  {
    if attrs != [] {
      ReverseTwice(attrs[1..]);
      ReverseEnd(Reverse(attrs[1..]), attrs[0]);
      assert attrs == [attrs[0]] + attrs[1..];
    }
  }

  /** Mirroring keeps a node normal, at its depth, and undoes itself. */
  lemma {:induction false} MirrorKeeps(n: Node, q: Byte, find: seq<Byte> -> Tag, level: nat)
    requires Normal(n, q, find) && ShallowNode(n, level)
    ensures Normal(Mirror(n), q, find) && ShallowNode(Mirror(n), level) && Mirror(Mirror(n)) == n
    decreases n, 0
  {
    if n.Element? {
      MirrorAllKeeps(n.children, q, find, level + 1);
      ReverseTwice(n.attrs);
      forall k | 0 <= k < |n.attrs| ensures Plain(Reverse(n.attrs)[k], q) && Flat(Reverse(n.attrs)[k].value) {
        assert Reverse(n.attrs)[k] in n.attrs;
      }
    }
  }

  lemma {:induction false} MirrorAllKeeps(ns: seq<Node>, q: Byte, find: seq<Byte> -> Tag, level: nat)
    requires NormalAll(ns, q, find) && Shallow(ns, level)
    ensures NormalAll(MirrorAll(ns), q, find) && Shallow(MirrorAll(ns), level) && MirrorAll(MirrorAll(ns)) == ns
    decreases ns, 1
  {
    if ns != [] {
      var m, ms := Mirror(ns[0]), MirrorAll(ns[1..]);
      MirrorKeeps(ns[0], q, find, level);
      MirrorAllKeeps(ns[1..], q, find, level);
      assert MirrorAll(ns) == [m] + ms && ([m] + ms)[1..] == ms;
      if |ns| > 1 {
        assert ms[0] == Mirror(ns[1..][0]);
      }
    }
  }

  /** Writing and reading a second time restores the order of attributes. */
  lemma TwoRoundTrips(ns: seq<Node>, q: Byte, find: seq<Byte> -> Tag)
    requires NormalAll(ns, q, find) && Quote(q) && Shallow(ns, 0)
    ensures Read(WriteNodes(ns, q), find).Some?
    ensures Read(WriteNodes(Read(WriteNodes(ns, q), find).value, q), find) == Some(ns)
  {
    RoundTrip(ns, q, find);
    MirrorAllKeeps(ns, q, find, 0);
    RoundTrip(MirrorAll(ns), q, find);
  }
}
