/** What the strings and keys of a JSON text stand for, apart from the passes of the parser
    (lib/common/json.c), and that every parsed value holds what the text has at its place. */
module JsonStrings {
  import opened Bytes
  import opened Options
  import opened Json
  import opened JsonSecond
  import opened JsonPasses

  /** What is between quotes: a byte as it is, a byte after a backslash, or four digits after `\u`. */
  datatype Letter = Plain(b: Byte) | Escaped(b: Byte) | Coded(digits: seq<Byte>)

  predicate HexDigit(b: Byte) {
    Digit(b) || Chr('a') <= b <= Chr('f') || Chr('A') <= b <= Chr('F')
  }

  function HexValue(b: Byte): (v: nat)
    requires HexDigit(b)
    ensures v < 16
  {
    if Digit(b) then (b - Chr('0')) as nat
    else if b >= Chr('a') then (b - Chr('a')) as nat + 10
    else (b - Chr('A')) as nat + 10
  }

  predicate Proper(l: Letter) {
    match l
    case Plain(b) => b != 0 && b != Chr('"') && b != Chr('\\')
    case Escaped(b) => b != 0 && b != Chr('u')
    case Coded(d) => |d| == 4 && forall k :: 0 <= k < 4 ==> HexDigit(d[k])
  }

  /** How many bytes of the text a letter takes. */
  function Width(l: Letter): nat {
    match l
    case Plain(_) => 1
    case Escaped(_) => 2
    case Coded(_) => 6
  }

  /** The number of a code unit's four digits. */
  function CodeUnit(d: seq<Byte>): (u: nat)
    requires Proper(Coded(d))
    ensures u < 65536
  {
    ((HexValue(d[0]) * 16 + HexValue(d[1])) * 16 + HexValue(d[2])) * 16 + HexValue(d[3])
  }

  /** The control characters have letters, any other escaped byte stands for itself. */
  function Meaning(l: Letter): seq<Byte>
    requires Proper(l)
  {
    match l
    case Plain(b) => [b]
    case Coded(d) => Utf8(CodeUnit(d))
    case Escaped(b) =>
      [if b == Chr('b') then 8 else if b == Chr('t') then 9 else if b == Chr('n') then 10
       else if b == Chr('f') then 12 else if b == Chr('r') then 13 else b]
  }

  predicate AllProper(ls: seq<Letter>) {
    forall k :: 0 <= k < |ls| ==> Proper(ls[k])
  }

  function Meant(ls: seq<Letter>): seq<Byte>
    requires AllProper(ls)
  {
    if ls == [] then [] else Meaning(ls[0]) + Meant(ls[1..])
  }

  predicate LetterAt(json: seq<Byte>, i: nat, l: Letter) {
    match l
    case Plain(b) => At(json, i) == b
    case Escaped(b) => At(json, i) == Chr('\\') && At(json, i + 1) == b
    case Coded(d) =>
      && At(json, i) == Chr('\\') && At(json, i + 1) == Chr('u')
      && forall k :: 0 <= k < |d| ==> At(json, i + 2 + k) == d[k]
  }

  /** The letters stand in the text from `i` up to `e`. */
  predicate Stand(json: seq<Byte>, i: nat, ls: seq<Letter>, e: nat)
    decreases ls
  {
    if ls == [] then i == e else LetterAt(json, i, ls[0]) && Stand(json, i + Width(ls[0]), ls[1..], e)
  }

  /** A quote at `i` begins a string that stands for `text`. */
  ghost predicate Quoted(json: seq<Byte>, i: nat, text: seq<Byte>) {
    At(json, i) == Chr('"') && exists ls, e :: Between(json, i, ls, e, text)
  }

  predicate Between(json: seq<Byte>, i: nat, ls: seq<Letter>, e: nat, text: seq<Byte>) {
    AllProper(ls) && Stand(json, i + 1, ls, e) && At(json, e) == Chr('"') && Meant(ls) == text
  }

  /** The text between quotes can be read in one way only. */
  lemma {:induction false} StandOnce(json: seq<Byte>, i: nat, ls: seq<Letter>, e: nat, ms: seq<Letter>, d: nat)
    requires AllProper(ls) && Stand(json, i, ls, e) && At(json, e) == Chr('"')
    requires AllProper(ms) && Stand(json, i, ms, d) && At(json, d) == Chr('"')
    ensures ls == ms && e == d
    decreases ls
  {
    SameHead(json, i, ls, e, ms, d);
    if ls != [] {
      var ls1, ms1 := ls[1..], ms[1..];
      StandOnce(json, i + Width(ls[0]), ls1, e, ms1, d);
      assert ls == [ls[0]] + ls1 && ms == [ms[0]] + ms1;
    }
  }

  lemma SameHead(json: seq<Byte>, i: nat, ls: seq<Letter>, e: nat, ms: seq<Letter>, d: nat)
    requires AllProper(ls) && Stand(json, i, ls, e) && At(json, e) == Chr('"')
    requires AllProper(ms) && Stand(json, i, ms, d) && At(json, d) == Chr('"')
    ensures (ls == [] <==> ms == []) && (ls != [] ==> ls[0] == ms[0])
  {
    if ls != [] && ms != [] {
      SameLetter(json, i, ls[0], ms[0]);
    }
  }

  lemma SameLetter(json: seq<Byte>, i: nat, l: Letter, m: Letter)
    requires Proper(l) && LetterAt(json, i, l) && Proper(m) && LetterAt(json, i, m)
    ensures l == m
  {
    if l.Coded? && m.Coded? {
      forall k | 0 <= k < 4 ensures l.digits[k] == m.digits[k] {
        assert At(json, i + 2 + k) == l.digits[k];
      }
    }
  }

  lemma QuotedOnce(json: seq<Byte>, i: nat, x: seq<Byte>, y: seq<Byte>)
    requires Quoted(json, i, x) && Quoted(json, i, y)
    ensures x == y
  {
    var ls, e :| Between(json, i, ls, e, x);
    var ms, d :| Between(json, i, ms, d, y);
    StandOnce(json, i + 1, ls, e, ms, d);
  }

  lemma StandCons(json: seq<Byte>, i: nat, l: Letter, ls: seq<Letter>, e: nat)
    requires LetterAt(json, i, l) && Stand(json, i + Width(l), ls, e)
    ensures Stand(json, i, [l] + ls, e)
  {
    assert ([l] + ls)[1..] == ls;
  }

  lemma {:induction false} StandAppend(json: seq<Byte>, i: nat, ls: seq<Letter>, e: nat, l: Letter)
    requires Stand(json, i, ls, e) && LetterAt(json, e, l)
    ensures Stand(json, i, ls + [l], e + Width(l))
    decreases ls
  {
    if ls == [] {
      StandCons(json, i, l, [], e + Width(l));
      assert ls + [l] == [l] + [];
    } else {
      var rest := ls[1..];
      StandAppend(json, i + Width(ls[0]), rest, e, l);
      StandCons(json, i, ls[0], rest + [l], e + Width(l));
      assert ls + [l] == [ls[0]] + (rest + [l]);
    }
  }

  lemma {:induction false} MeantAppend(ls: seq<Letter>, l: Letter)
    requires AllProper(ls) && Proper(l)
    ensures AllProper(ls + [l]) && Meant(ls + [l]) == Meant(ls) + Meaning(l)
  {
    if ls != [] {
      MeantAppend(ls[1..], l);
      assert (ls + [l])[1..] == ls[1..] + [l];
    }
  }

  // UTF-8 (RFC 3629)

  /** One character of at most 16 bits read from UTF-8: the shortest form, and no half of a pair. */
  function ReadUtf8(s: seq<Byte>): Option<nat> {
    if |s| == 1 && s[0] < 0x80 then Some(s[0] as nat)
    else if |s| == 2 && 0xC2 <= s[0] < 0xE0 && 0x80 <= s[1] < 0xC0 then
      Some((s[0] - 0xC0) as nat * 64 + (s[1] - 0x80) as nat)
    else if |s| == 3 && 0xE0 <= s[0] < 0xF0 && 0x80 <= s[1] < 0xC0 && 0x80 <= s[2] < 0xC0 then
      var u := (s[0] - 0xE0) as nat * 4096 + (s[1] - 0x80) as nat * 64 + (s[2] - 0x80) as nat;
      if u < 0x800 || 0xD800 <= u < 0xE000 then None else Some(u)
    else None
  }

  /** A code unit is written in UTF-8 unless it is half of a surrogate pair: each half is written by
      itself, which no UTF-8 reader accepts. */
  lemma Utf8Exactly(u: nat)
    requires u < 65536
    ensures ReadUtf8(Utf8(u)) == if 0xD800 <= u < 0xE000 then None else Some(u)
  {
    assert u == u / 4096 * 4096 + u / 64 % 64 * 64 + u % 64 by {
      assert u / 64 == u / 4096 * 64 + u / 64 % 64;
    }
  }

  /** The pair of the character U+1F600. */
  lemma PairExample()
    ensures Meant([Coded([Chr('d'), Chr('8'), Chr('3'), Chr('d')]), Coded([Chr('d'), Chr('e'), Chr('0'), Chr('0')])])
      == [0xED, 0xA0, 0xBD, 0xED, 0xB8, 0x80]
  {
    var h, l := Coded([Chr('d'), Chr('8'), Chr('3'), Chr('d')]), Coded([Chr('d'), Chr('e'), Chr('0'), Chr('0')]);
    assert [h, l][1..] == [l] && [l][1..] == [];
    assert CodeUnit(h.digits) == 0xD83D && CodeUnit(l.digits) == 0xDE00;
  }

  // Where the second pass has its values from

  /** The character that a value of the kind begins with. */
  predicate Begins(b: Byte, kind: Kind) {
    match kind
    case Object => b == Chr('{')
    case Array => b == Chr('[')
    case Str => b == Chr('"')
    case Boolean => b == Chr('t') || b == Chr('f')
    case Null => b == Chr('n')
    case _ => Digit(b) || b == Chr('-')
  }

  /** Where each value begins, where each of its keys begins, and for the string being read where it
      began and its letters so far. */
  datatype Trace = Trace(values: seq<nat>, keys: seq<seq<nat>>, open: nat, letters: seq<Letter>)

  /** An object's keys stand in the text in their order, after the object's beginning and before `i`. */
  ghost predicate KeysAt(json: seq<Byte>, keys: seq<seq<Byte>>, at: seq<nat>, start: nat, i: nat) {
    && |at| == |keys|
    && (forall k :: 0 <= k < |at| ==> start < at[k] < i && Quoted(json, at[k], keys[k]))
    && (forall j, k :: 0 <= j < k < |at| ==> at[j] < at[k])
  }

  /** Value `v` begins at a character of its kind, and its string and keys are what the text says. */
  ghost predicate Spelt(json: seq<Byte>, a: Slot, start: nat, keys: seq<nat>, i: nat, reading: bool) {
    && start < i && Begins(At(json, start), a.kind)
    && (a.kind == Str && !reading ==> Quoted(json, start, a.text))
    && KeysAt(json, a.keys, keys, start, i)
  }

  ghost predicate Placed(json: seq<Byte>, u: Second, o: Trace) {
    && |o.values| == |o.keys| == u.alloc <= |u.slots|
    && (forall v :: 0 <= v < u.alloc ==>
          Spelt(json, u.slots[v], o.values[v], o.keys[v], u.i, u.f.str && u.top == v))
    && (forall v, w :: 0 <= v < w < u.alloc ==> o.values[v] < o.values[w])
    && (forall v :: u.alloc <= v < |u.slots| ==> u.slots[v].keys == [])
    && if u.f.str then Reading(json, u, o) else !u.f.escaped
  }

  /** The string that is being read: a text from its value's beginning, a key after the ones before. */
  ghost predicate Reading(json: seq<Byte>, u: Second, o: Trace)
    requires |o.values| == |o.keys| == u.alloc <= |u.slots|
  {
    && 0 <= u.top < u.alloc && u.slots[u.top].kind in {Str, Object}
    && (u.slots[u.top].kind == Str ==> o.open == o.values[u.top])
    && (u.slots[u.top].kind == Object ==>
          o.values[u.top] < o.open && forall k :: 0 <= k < |o.keys[u.top]| ==> o.keys[u.top][k] < o.open)
    && Spoken(json, u, o)
  }

  ghost predicate Spoken(json: seq<Byte>, u: Second, o: Trace) {
    && At(json, o.open) == Chr('"') && AllProper(o.letters) && u.buf == Meant(o.letters)
    && o.open + (if u.f.escaped then 1 else 0) < u.i
    && Stand(json, o.open + 1, o.letters, if u.f.escaped then u.i - 1 else u.i)
    && (u.f.escaped ==> At(json, u.i - 1) == Chr('\\'))
  }

  /** The same strings, keys and kinds. */
  predicate SameText(a: Slot, b: Slot) {
    a.kind == b.kind && a.text == b.text && a.keys == b.keys
  }

  lemma PlacedKept(json: seq<Byte>, u: Second, w: Second, o: Trace)
    requires Placed(json, u, o) && !u.f.str && !w.f.str && !w.f.escaped && u.i <= w.i
    requires w.alloc == u.alloc && |w.slots| == |u.slots|
    requires forall v :: 0 <= v < |u.slots| ==> SameText(u.slots[v], w.slots[v])
    ensures Placed(json, w, o)
  {
    forall v | 0 <= v < w.alloc ensures Spelt(json, w.slots[v], o.values[v], o.keys[v], w.i, false) {
      assert Spelt(json, u.slots[v], o.values[v], o.keys[v], u.i, false) && SameText(u.slots[v], w.slots[v]);
    }
    forall v | w.alloc <= v < |w.slots| ensures w.slots[v].keys == [] {
      assert SameText(u.slots[v], w.slots[v]);
    }
  }

  /** A value more that begins at `u.i`; if it is a string, it is being read. */
  lemma PlacedNew(json: seq<Byte>, u: Second, w: Second, o: Trace) returns (o': Trace)
    requires Placed(json, u, o) && Loaded(u) && !u.f.str && u.i < w.i && !w.f.escaped
    requires u.alloc < |u.slots| && Begins(At(json, u.i), u.slots[u.alloc].kind)
    requires w.alloc == u.alloc + 1 && |w.slots| == |u.slots|
    requires forall v :: 0 <= v < |u.slots| ==> SameText(u.slots[v], w.slots[v])
    requires w.f.str <==> u.slots[u.alloc].kind == Str
    requires w.f.str ==> w.top == u.alloc && w.i == u.i + 1 && w.buf == []
    ensures Placed(json, w, o')
  {
    o' := Trace(o.values + [u.i], o.keys + [[]], u.i, []);
    forall v | 0 <= v < w.alloc
      ensures Spelt(json, w.slots[v], o'.values[v], o'.keys[v], w.i, w.f.str && w.top == v)
    {
      assert SameText(u.slots[v], w.slots[v]);
      assert v < u.alloc ==> Spelt(json, u.slots[v], o.values[v], o.keys[v], u.i, false);
    }
    forall v, x | 0 <= v < x < w.alloc ensures o'.values[v] < o'.values[x] {
      assert Spelt(json, u.slots[v], o.values[v], o.keys[v], u.i, false);
    }
    forall v | w.alloc <= v < |w.slots| ensures w.slots[v].keys == [] {
      assert SameText(u.slots[v], w.slots[v]);
    }
    assert SameText(u.slots[u.alloc], w.slots[u.alloc]);
  }

  /** The letter that the parser reads after a backslash at `i - 1`. */
  function LetterRead(json: seq<Byte>, i: nat): Letter {
    if At(json, i) == Chr('u') && i + 5 <= |json| then Coded(json[i + 1..i + 5]) else Escaped(At(json, i))
  }

  lemma EscapeRead(json: seq<Byte>, i: nat)
    requires Text(json) && 0 < i && At(json, i - 1) == Chr('\\') && At(json, i) != 0 && Unescape(json, i).Escape?
    ensures var l := LetterRead(json, i);
      && Proper(l) && LetterAt(json, i - 1, l) && Meaning(l) == Unescape(json, i).bytes
      && Unescape(json, i).last + 1 == i - 1 + Width(l)
  {
    UnescapeInside(json, i);
    if At(json, i) == Chr('u') {
      UnitRead(json, i);
    }
  }

  lemma HexRead(b: Byte)
    requires Hex(b) != 255
    ensures HexDigit(b) && HexValue(b) == Hex(b)
  {
  }

  lemma Four(json: seq<Byte>, i: nat)
    requires i + 4 <= |json|
    ensures var d := json[i..i + 4];
      d[0] == At(json, i) && d[1] == At(json, i + 1) && d[2] == At(json, i + 2) && d[3] == At(json, i + 3)
  {
  }

  lemma UnitAt(json: seq<Byte>, i: nat)
    requires 0 < i && i + 5 <= |json| && json[i - 1] == Chr('\\') && json[i] == Chr('u')
    ensures LetterAt(json, i - 1, Coded(json[i + 1..i + 5]))
  {
  }

  lemma UnitRead(json: seq<Byte>, i: nat)
    requires 0 < i && i + 5 <= |json| && json[i - 1] == Chr('\\') && json[i] == Chr('u') && Unescape(json, i).Escape?
    ensures var l := Coded(json[i + 1..i + 5]);
      Proper(l) && LetterAt(json, i - 1, l) && Meaning(l) == Unescape(json, i).bytes
  {
    var d := json[i + 1..i + 5];
    Four(json, i + 1);
    UnitAt(json, i);
    forall k | 0 <= k < 4 ensures HexDigit(d[k]) && HexValue(d[k]) == Hex(d[k]) {
      assert d[k] == At(json, i + 1) || d[k] == At(json, i + 2) || d[k] == At(json, i + 3) || d[k] == At(json, i + 4);
      HexRead(d[k]);
    }
    var h1, h2, h3, h4 := Hex(d[0]), Hex(d[1]), Hex(d[2]), Hex(d[3]);
    assert CodeUnit(d) == h1 * 4096 + h2 * 256 + h3 * 16 + h4;
  }

  /** Reading one letter more, from `e` up to `w.i`. */
  lemma SpokenNext(json: seq<Byte>, u: Second, w: Second, o: Trace, l: Letter, e: nat)
    requires Spoken(json, u, o) && Proper(l) && LetterAt(json, e, l) && e == if u.f.escaped then u.i - 1 else u.i
    requires w.i == e + Width(l) && !w.f.escaped && w.buf == u.buf + Meaning(l)
    ensures Spoken(json, w, o.(letters := o.letters + [l]))
  {
    StandAppend(json, o.open + 1, o.letters, e, l);
    MeantAppend(o.letters, l);
  }

  lemma PlacedLetter(json: seq<Byte>, u: Second, w: Second, o: Trace, l: Letter, e: nat)
    requires Placed(json, u, o) && u.f.str && w.f.str && u.i <= w.i
    requires w.slots == u.slots && w.alloc == u.alloc && w.top == u.top
    requires Proper(l) && LetterAt(json, e, l) && e == if u.f.escaped then u.i - 1 else u.i
    requires w.i == e + Width(l) && !w.f.escaped && w.buf == u.buf + Meaning(l)
    ensures Placed(json, w, o.(letters := o.letters + [l]))
  {
    SpokenNext(json, u, w, o, l, e);
    PlacedReading(json, u, w, o, o.letters + [l]);
  }

  /** Only the string that is being read goes on. */
  lemma PlacedReading(json: seq<Byte>, u: Second, w: Second, o: Trace, ls: seq<Letter>)
    requires Placed(json, u, o) && u.f.str && w.f.str && u.i <= w.i
    requires w.slots == u.slots && w.alloc == u.alloc && w.top == u.top && Spoken(json, w, o.(letters := ls))
    ensures Placed(json, w, o.(letters := ls))
  {
    var o' := o.(letters := ls);
    forall v | 0 <= v < w.alloc ensures Spelt(json, w.slots[v], o'.values[v], o'.keys[v], w.i, w.top == v) {
      assert Spelt(json, u.slots[v], o.values[v], o.keys[v], u.i, u.top == v);
    }
  }

  /** A text is read up to its quote. */
  lemma PlacedText(json: seq<Byte>, u: Second, w: Second, o: Trace)
    requires Placed(json, u, o) && u.f.str && !u.f.escaped && At(json, u.i) == Chr('"')
    requires u.slots[u.top].kind == Str && !w.f.str && !w.f.escaped && w.alloc == u.alloc && u.i < w.i
    requires |w.slots| == |u.slots| && SameText(u.slots[u.top].(text := u.buf), w.slots[u.top])
    requires forall v :: 0 <= v < |u.slots| && v != u.top ==> SameText(u.slots[v], w.slots[v])
    ensures Placed(json, w, o)
  {
    assert Between(json, o.open, o.letters, u.i, u.buf);
    forall v | 0 <= v < w.alloc ensures Spelt(json, w.slots[v], o.values[v], o.keys[v], w.i, false) {
      assert Spelt(json, u.slots[v], o.values[v], o.keys[v], u.i, u.top == v);
      assert v == u.top || SameText(u.slots[v], w.slots[v]);
    }
    forall v | w.alloc <= v < |w.slots| ensures w.slots[v].keys == [] {
      assert SameText(u.slots[v], w.slots[v]);
    }
  }

  /** A key is read up to its quote. */
  lemma PlacedKey(json: seq<Byte>, u: Second, w: Second, o: Trace) returns (o': Trace)
    requires Placed(json, u, o) && u.f.str && !u.f.escaped && At(json, u.i) == Chr('"')
    requires u.slots[u.top].kind == Object && !w.f.str && !w.f.escaped && w.alloc == u.alloc && u.i < w.i
    requires var a := u.slots[u.top];
      |w.slots| == |u.slots| && SameText(a.(keys := a.keys + [u.buf]), w.slots[u.top])
    requires forall v :: 0 <= v < |u.slots| && v != u.top ==> SameText(u.slots[v], w.slots[v])
    ensures Placed(json, w, o')
  {
    assert Between(json, o.open, o.letters, u.i, u.buf);
    var top := u.top;
    o' := o.(keys := o.keys[top := o.keys[top] + [o.open]]);
    forall v | 0 <= v < w.alloc ensures Spelt(json, w.slots[v], o'.values[v], o'.keys[v], w.i, false) {
      assert Spelt(json, u.slots[v], o.values[v], o.keys[v], u.i, u.top == v);
      assert v == u.top || SameText(u.slots[v], w.slots[v]);
    }
    forall v | w.alloc <= v < |w.slots| ensures w.slots[v].keys == [] {
      assert SameText(u.slots[v], w.slots[v]);
    }
  }

  lemma PlacedQuote(json: seq<Byte>, u: Second, o: Trace) returns (o': Trace)
    requires Placed(json, u, o) && Loaded(u) && u.f.str && !u.f.escaped && At(json, u.i) == Chr('"') && 0 <= u.top
    requires Quote2(u).Next?
    ensures Placed(json, Quote2(u).next, o')
  {
    o' := o;
    var w := Quote2(u).next;
    if u.slots[u.top].kind == Str {
      PlacedText(json, u, w, o);
    } else {
      o' := PlacedKey(json, u, w, o);
    }
  }

  lemma PlacedString(json: seq<Byte>, u: Second, o: Trace) returns (o': Trace)
    requires Text(json) && Placed(json, u, o) && Loaded(u) && u.f.str && 0 <= u.top && String2(json, u).Next?
    ensures Placed(json, String2(json, u).next, o')
  {
    var w := String2(json, u).next;
    AtInside(json, u.i);
    if u.f.escaped {
      var l := LetterRead(json, u.i);
      EscapeRead(json, u.i);
      PlacedLetter(json, u, w, o, l, u.i - 1);
      o' := o.(letters := o.letters + [l]);
    } else if At(json, u.i) == Chr('\\') {
      PlacedReading(json, u, w, o, o.letters);
      o' := o;
    } else if At(json, u.i) != Chr('"') {
      var l := Plain(At(json, u.i));
      PlacedLetter(json, u, w, o, l, u.i);
      o' := o.(letters := o.letters + [l]);
    } else {
      o' := PlacedQuote(json, u, o);
    }
  }

  /** A value begins at `u.i`. */
  predicate Opening(json: seq<Byte>, u: Second) {
    && !u.f.done && !u.f.str && u.f.seek && !u.f.needComma && !u.f.needColon
    && !Space(At(json, u.i)) && At(json, u.i) != Chr(']')
  }

  lemma OpenedValue(json: seq<Byte>, u: Second, w: Second)
    requires Loaded(u) && u.i <= |json| && Opening(json, u) && !u.f.escaped && Value2(json, u) == Next(w)
    requires u.alloc < |u.slots| && Begins(At(json, u.i), u.slots[u.alloc].kind)
    ensures w.alloc == u.alloc + 1 && |w.slots| == |u.slots| && !w.f.escaped
    ensures forall v :: 0 <= v < |u.slots| ==> SameText(u.slots[v], w.slots[v])
    ensures w.f.str <==> u.slots[u.alloc].kind == Str
    ensures w.f.str ==> w.top == u.alloc && w.i == u.i + 1 && w.buf == []
  {
  }

  lemma PlacedValue(json: seq<Byte>, u: Second, o: Trace) returns (o': Trace)
    requires Text(json) && Placed(json, u, o) && Loaded(u) && u.i <= |json| && Opening(json, u)
    requires u.alloc < |u.slots| && Begins(At(json, u.i), u.slots[u.alloc].kind)
    requires Value2(json, u).Next?
    ensures Placed(json, Value2(json, u).next, o')
  {
    Value2Onward(json, u);
    var w := Value2(json, u).next;
    OpenedValue(json, u, w);
    o' := PlacedNew(json, u, w, o);
  }

  /** A key begins. */
  lemma PlacedOpen(json: seq<Byte>, u: Second, o: Trace) returns (o': Trace)
    requires Placed(json, u, o) && Loaded(u) && !u.f.str && 0 <= u.top && u.slots[u.top].kind == Object
    requires At(json, u.i) == Chr('"') && Object2(json, u).Next?
    ensures Placed(json, Object2(json, u).next, o')
  {
    var w := Object2(json, u).next;
    o' := o.(open := u.i, letters := []);
    forall v | 0 <= v < w.alloc ensures Spelt(json, w.slots[v], o'.values[v], o'.keys[v], w.i, w.top == v) {
      assert Spelt(json, u.slots[v], o.values[v], o.keys[v], u.i, false);
    }
  }

  /** Every turn of the second pass keeps what it has read where it stands in the text. */
  lemma PlacedStep(json: seq<Byte>, u: Second, o: Trace) returns (o': Trace)
    requires Text(json) && Placed(json, u, o) && Loaded(u) && u.i <= |json| && Step2(json, u).Next?
    requires u.f.done ==> !u.f.str
    requires Opening(json, u) ==> u.alloc < |u.slots| && Begins(At(json, u.i), u.slots[u.alloc].kind)
    ensures Placed(json, Step2(json, u).next, o')
  {
    o' := o;
    var w := Step2(json, u).next;
    if u.f.str {
      o' := PlacedString(json, u, o);
    } else if Opening(json, u) {
      o' := PlacedValue(json, u, o);
    } else if !u.f.done && !u.f.seek && At(json, u.i) == Chr('"') {
      o' := PlacedOpen(json, u, o);
    } else {
      PlacedKept(json, u, w, o);
    }
  }

  /** The next value of the second pass is of the kind that the text says. */
  lemma KindNext(json: seq<Byte>, s: First, u: Second, t: seq<Value>)
    requires Text(json) && Sound(json, s) && Sim(s, u, t) && Opening(json, u)
    requires Step1(json, s).Next? && Future(Step1(json, s).next, t)
    ensures u.alloc < |u.slots| && Begins(At(json, u.i), u.slots[u.alloc].kind)
  {
    var r, n := Step1(json, s).next, |s.values|;
    assert r.values[n].kind == Integer || Begins(At(json, s.i), r.values[n].kind);
    assert Alike(r.values[n], t[n]) && Sized(u.slots[n], t[n]);
  }

  lemma KindKnown(json: seq<Byte>, s: First, u: Second, t: seq<Value>)
    requires Text(json) && Sound(json, s) && Sim(s, u, t) && Run1(json, s).Done? && Run1(json, s).end.values == t
    ensures Opening(json, u) ==> u.alloc < |u.slots| && Begins(At(json, u.i), u.slots[u.alloc].kind)
  {
    if Opening(json, u) {
      Step1Sound(json, s);
      FutureHolds(json, Step1(json, s).next);
      KindNext(json, s, u, t);
    }
  }

  lemma {:induction false} PassesPlaced(json: seq<Byte>, s: First, u: Second, t: seq<Value>, o: Trace)
      returns (e: Second, o': Trace)
    requires Text(json) && Sound(json, s) && !InNumber(s) && Sim(s, u, t) && Placed(json, u, o)
    requires Run1(json, s).Done? && Run1(json, s).end.values == t
    ensures Loaded(u) && u.i <= |json| && Run2(json, u) == Done(e) && Placed(json, e, o')
    ensures e.i == |json| && !e.f.str && e.alloc == |e.slots|
    decreases Left(json, s)
  {
    SimLoaded(s, u, t);
    if s.f.done && At(json, s.i) == 0 {
      e, o' := u, o;
    } else {
      var r, w := PassesStep(json, s, u, t);
      KindKnown(json, s, u, t);
      var o1 := PlacedStep(json, u, o);
      RunOn(json, u, w);
      e, o' := PassesPlaced(json, r, w, t, o1);
    }
  }

  lemma StartPlaced(json: seq<Byte>, t: seq<Value>)
    requires Parented(t)
    ensures Sim(START, Start2(t), t) && Placed(json, Start2(t), Trace([], [], 0, []))
  {
  }

  /** The values stand in the text in order of creation, each beginning at a character of its kind; every
      string and every key is what stands between the quotes at its place, an object's keys in order. */
  ghost predicate Faithful(json: seq<Byte>, slots: seq<Slot>, values: seq<nat>, keys: seq<seq<nat>>) {
    && |values| == |keys| == |slots|
    && (forall v :: 0 <= v < |slots| ==> Spelt(json, slots[v], values[v], keys[v], |json|, false))
    && (forall v, w :: 0 <= v < w < |slots| ==> values[v] < values[w])
  }

  /** If the first pass succeeds, the second leaves values that are what the text says. */
  lemma SecondFaithful(json: seq<Byte>) returns (values: seq<nat>, keys: seq<seq<nat>>)
    requires Text(json) && Run1(json, START).Done?
    ensures Loaded(Start2(Run1(json, START).end.values))
    ensures var r := Run2(json, Start2(Run1(json, START).end.values));
      r.Done? && Faithful(json, r.end.slots, values, keys)
  {
    var t := Run1(json, START).end.values;
    FutureHolds(json, START);
    StartPlaced(json, t);
    var e, o := PassesPlaced(json, START, Start2(t), t, Trace([], [], 0, []));
    values, keys := o.values, o.keys;
  }
}
