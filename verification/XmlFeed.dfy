/** Feeding text to the XML reader (lib/common/xml.c): tags and texts, and the tree they build. */
module XmlFeed {
  import opened Bytes
  import opened Options
  import opened Xml

  const MAX_DEEP: nat := 512

  datatype Brace = Mandatory | Similar | NoBrace | AnyBrace

  /** An entry of the tag table. */
  datatype Tag = Tag(entry: int, brace: Brace, comment: bool)

  /** What the table says of a name that it does not hold. */
  const UNKNOWN: Tag := Tag(-1, AnyBrace, false)

  datatype Shape = Open | Single | Close

  datatype Token =
    | Nothing
    | Words(text: seq<Byte>)
    | Mark(shape: Shape, name: seq<Byte>, content: seq<Byte>, after: Byte)

  predicate TagChar(b: Byte) {
    b == Chr('!') || b == Chr('?') || Alpha(b) || Digit(b) || b == Chr('_') || b == Chr(':') || b == Chr('-')
  }

  /** xml_is_closing: within a comment element only its own end tag counts. */
  predicate Closing(s: seq<Byte>, i: nat, comment: Option<seq<Byte>>) {
    || comment.None?
    || (At(s, i + 1) == SLASH && forall k :: 0 <= k < |comment.value| ==> At(s, i + 2 + k) == comment.value[k])
  }

  /** Where a text that starts at `i` ends. */
  function TextEnd(s: seq<Byte>, i: nat, comment: Option<seq<Byte>>): (j: nat)
    requires i <= |s|
    ensures i <= j <= |s| && (j < |s| ==> s[j] == LT)
    decreases |s| - i
  {
    if i == |s| || (s[i] == LT && Closing(s, i, comment)) then i else TextEnd(s, i + 1, comment)
  }

  function NameEnd(s: seq<Byte>, i: nat): (j: nat)
    requires i <= |s|
    ensures i <= j <= |s|
    decreases |s| - i
  {
    if i < |s| && TagChar(s[i]) then NameEnd(s, i + 1) else i
  }

  /** The next `<` or `>`. */
  function MarkEnd(s: seq<Byte>, i: nat): (j: nat)
    requires i <= |s|
    ensures i <= j <= |s|
    decreases |s| - i
  {
    if i == |s| || s[i] == LT || s[i] == GT then i else MarkEnd(s, i + 1)
  }

  /** The next `>` after two dashes. */
  function CommentEnd(s: seq<Byte>, i: nat): (j: nat)
    requires 2 <= i <= |s|
    ensures i <= j <= |s|
    decreases |s| - i
  {
    if i == |s| || (s[i] == GT && s[i - 1] == Chr('-') && s[i - 2] == Chr('-')) then i else CommentEnd(s, i + 1)
  }

  /** xml_next: the token at `i`, and where it ends. */
  function NextToken(s: seq<Byte>, i: nat, comment: Option<seq<Byte>>): (r: (Token, nat))
    requires i < |s|
    ensures i < r.1 <= |s|
  {
    var j := TextEnd(s, i, comment);
    if j > i then (Words(s[i..j]), j)
    else if At(s, i + 1) == Chr('!') && At(s, i + 2) == Chr('-') && At(s, i + 3) == Chr('-') then
      var m := CommentEnd(s, i + 4);
      var e: nat := if m < |s| then m + 1 else m;
      (Nothing, e)
    else
      var close := At(s, i + 1) == SLASH;
      var k := if close then i + 2 else i + 1;
      var n := NameEnd(s, k);
      if n == k then (Nothing, k)
      else
        var m := MarkEnd(s, n);
        if m == |s| || s[m] == LT then (Nothing, m)
        else if close then (Mark(Close, s[k..n], s[n..m], GT), m + 1)
        else if m > n && s[m - 1] == SLASH then (Mark(Single, s[k..n], s[n..m - 1], SLASH), m + 1)
        else (Mark(Open, s[k..n], s[n..m], GT), m + 1)
  }

  /** An element that is still open, with the children it has by now; the first is the document. */
  datatype Frame = Frame(name: seq<Byte>, tag: Option<Tag>, attrs: seq<Attr>, done: seq<Node>)

  datatype State = State(i: nat, frames: seq<Frame>, comment: Option<seq<Byte>>)

  const DOCUMENT: Frame := Frame([], None, [], [])

  predicate Blank(text: seq<Byte>) {
    forall i :: 0 <= i < |text| ==> Space(text[i])
  }

  /** xml_text_cmp(a, b) == 0 */
  predicate SameName(a: seq<Byte>, b: seq<Byte>) {
    |a| == |b| && forall i :: 0 <= i < |a| ==> Lower(a[i]) == Lower(b[i])
  }

  /** A child more of the innermost open element. */
  function Grown(frames: seq<Frame>, n: Node): seq<Frame>
    requires frames != []
  {
    var top := frames[|frames| - 1];
    frames[..|frames| - 1] + [top.(done := top.done + [n])]
  }

  /** The innermost open element is complete. */
  function Popped(frames: seq<Frame>): (r: seq<Frame>)
    requires |frames| > 1
    ensures |r| == |frames| - 1
  {
    var top := frames[|frames| - 1];
    Grown(frames[..|frames| - 1], Element(top.name, top.attrs, false, top.done))
  }

  /** Close open elements up to the innermost of this name, if there is one. */
  function Closed(frames: seq<Frame>, name: seq<Byte>): (r: seq<Frame>)
    requires frames != []
    ensures r != [] && |r| <= |frames|
    decreases |frames|
  {
    if !exists k :: 0 < k < |frames| && SameName(frames[k].name, name) then frames
    else if SameName(frames[|frames| - 1].name, name) then Popped(frames)
    else Closed(Popped(frames), name)
  }

  /** An open or single tag: the level is limited, and only an open tag that takes an end tag is entered. */
  function Entered(t: Token, frames: seq<Frame>, tag: Tag): Option<(seq<Frame>, Option<seq<Byte>>)>
    requires frames != [] && t.Mark?
  {
    var closes := tag.brace == Similar && |frames| > 1 && frames[|frames| - 1].tag == Some(tag);
    var base := if closes then Popped(frames) else frames;
    if |base| - 1 > MAX_DEEP then None
    else
      var attrs := Compile(t.content, t.after, 0, []);
      if tag.brace != NoBrace && t.shape != Single then
        Some((base + [Frame(t.name, Some(tag), attrs, [])], if tag.comment then Some(t.name) else None))
      else
        Some((Grown(base, Element(t.name, attrs, t.shape == Single, [])), None))
  }

  /** One turn of the loop of xml_feed; None is the error return. */
  function Step(s: seq<Byte>, st: State, find: seq<Byte> -> Tag): Option<State>
    requires st.i < |s| && st.frames != []
  {
    var (t, j) := NextToken(s, st.i, st.comment);
    match t
    case Nothing => Some(State(j, st.frames, None))
    case Words(text) =>
      var frames := if Blank(text) || |st.frames| - 1 > MAX_DEEP then st.frames else Grown(st.frames, Text(text));
      Some(State(j, frames, None))
    case Mark(shape, name, _, _) =>
      if shape == Close then Some(State(j, Closed(st.frames, name), None))
      else
        match Entered(t, st.frames, find(name))
        case None => None
        case Some(r) => Some(State(j, r.0, r.1))
  }

  function Run(s: seq<Byte>, st: State, find: seq<Byte> -> Tag): (r: Option<State>)
    requires st.i <= |s| && st.frames != []
    ensures r.Some? ==> r.value.frames != []
    decreases |s| - st.i
  {
    if st.i == |s| then Some(st)
    else
      match Step(s, st, find)
      case None => None
      case Some(next) => Run(s, next, find)
  }

  /** What is open at the end counts as complete. */
  function Whole(frames: seq<Frame>): seq<Node>
    requires frames != []
    decreases |frames|
  {
    if |frames| == 1 then frames[0].done else Whole(Popped(frames))
  }

  /** xml_feed into an empty document: its children, unless there was an error. */
  function Read(s: seq<Byte>, find: seq<Byte> -> Tag): Option<seq<Node>> {
    match Run(s, State(0, [DOCUMENT], None), find)
    case None => None
    case Some(st) => Some(Whole(st.frames))
  }
}
