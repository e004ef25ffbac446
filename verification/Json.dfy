/** The two passes of the JSON parser (lib/common/json.c), with all settings zero: the first sizes every
    string, key block and member list, the second allocates exactly that and fills it. */
module Json {
  import opened Bytes

  /** The most that a 32-bit count may reach before the parser calls it an overflow. */
  const LIMIT: nat := 0xffff_fff7

  datatype Kind = Object | Array | Str | Integer | Double | Boolean | Null

  /** What the first pass knows of a value: its length, and for an object the bytes of its keys, each
      with a NUL. */
  datatype Value = Value(kind: Kind, parent: int, length: nat, names: nat)

  datatype Flags = Flags(needComma: bool, seek: bool, escaped: bool, str: bool, needColon: bool, done: bool)

  /** How far a number is: digits since the last sign, point or e; a leading 0; an e, and a sign or
      digit after it. */
  datatype Number = Number(digits: nat, zero: bool, e: bool, gotSign: bool)

  datatype First = First(i: nat, f: Flags, top: int, values: seq<Value>, len: nat, num: Number)

  /** A step of the loop: an error, a wild memory access, the end, or on. */
  datatype Step<S> = Fail | Crash | Done(end: S) | Next(next: S)

  predicate Text(json: seq<Byte>) {
    0 !in json
  }

  predicate Space(b: Byte) {
    b == 10 || b == 32 || b == 9 || b == 13
  }

  /** The characters that the second pass skips. */
  predicate Numeric(b: Byte) {
    Digit(b) || b == Chr('+') || b == Chr('-') || b == Chr('e') || b == Chr('E') || b == Chr('.')
  }

  function Hex(b: Byte): nat {
    if 65 <= b <= 70 then b as nat - 55
    else if 97 <= b <= 102 then b as nat - 87
    else if Digit(b) then b as nat - 48
    else 255
  }

  datatype Escape = Malformed | Escape(bytes: seq<Byte>, last: nat)

  /** UTF-8 of a 16-bit code unit. */
  function Utf8(u: nat): seq<Byte>
    requires u < 65536
  {
    if u <= 0x7F then [u as Byte]
    else if u <= 0x7FF then [(0xC0 + u / 64) as Byte, (0x80 + u % 64) as Byte]
    else [(0xE0 + u / 4096) as Byte, (0x80 + u / 64 % 64) as Byte, (0x80 + u % 64) as Byte]
  }

  /** What the character at `i`, after a backslash, stands for; `last` is the last one it uses. */
  function Unescape(json: seq<Byte>, i: nat): Escape {
    var b := At(json, i);
    if b == Chr('b') then Escape([8], i)
    else if b == Chr('f') then Escape([12], i)
    else if b == Chr('n') then Escape([10], i)
    else if b == Chr('r') then Escape([13], i)
    else if b == Chr('t') then Escape([9], i)
    else if b == Chr('u') then
      var h1, h2, h3, h4 := Hex(At(json, i + 1)), Hex(At(json, i + 2)), Hex(At(json, i + 3)), Hex(At(json, i + 4));
      if h1 == 255 || h2 == 255 || h3 == 255 || h4 == 255 then Malformed
      else Escape(Utf8(h1 * 4096 + h2 * 256 + h3 * 16 + h4), i + 4)
    else Escape([b], i)
  }

  predicate Word(json: seq<Byte>, i: nat, word: string) {
    forall k :: 0 <= k < |word| ==> At(json, i + k) == Chr(word[k])
  }

  const START: First :=
    First(0, Flags(false, true, false, false, false, false), -1, [], 0, Number(0, false, false, false))

  predicate Container(k: Kind) {
    k == Object || k == Array
  }

  /** Parents are arrays and objects, and older. */
  predicate Parented(values: seq<Value>) {
    forall v :: 0 <= v < |values| ==>
      -1 <= values[v].parent < v && (values[v].parent >= 0 ==> Container(values[values[v].parent].kind))
  }

  /** What holds in the first pass before every turn of the loop. */
  predicate Sound(json: seq<Byte>, s: First) {
    && s.i <= |json| && -1 <= s.top < |s.values|
    && (s.top < 0 ==> s.values == [] && s.f.seek && !s.f.needComma && !s.f.needColon)
    && Parented(s.values)
    && (s.f.done ==> !s.f.seek && !s.f.str && s.top >= 0 && s.values[s.top].parent < 0)
    && (s.f.seek ==> !s.f.str && (s.top >= 0 ==> Container(s.values[s.top].kind)))
    && (s.f.str ==> s.top >= 0 && s.values[s.top].kind in {Object, Str})
    && (s.f.str && s.values[s.top].kind == Str ==> s.values[s.top].length == 0)
    && (!s.f.seek && !s.f.str && !s.f.done ==> s.top >= 0 && s.values[s.top].kind in {Object, Integer, Double})
  }

  /** new_value in the first pass */
  function New1(s: First, kind: Kind): First {
    s.(values := s.values + [Value(kind, s.top, 0, 0)], top := |s.values|)
  }

  /** A value is complete; go on at `i`. */
  function Finish1(s: First, i: nat): Step<First>
    requires 0 <= s.top < |s.values| && -1 <= s.values[s.top].parent < s.top
  {
    var p := s.values[s.top].parent;
    var f := s.f.(needComma := true);
    if p < 0 then Next(s.(f := f.(done := true), i := i))
    else if s.values[p].length + 1 > LIMIT then Fail
    else
      var v := s.values[p].(length := s.values[p].length + 1);
      var g := if s.values[p].kind == Array then f.(seek := true) else f;
      Next(s.(f := g, values := s.values[p := v], top := p, i := i))
  }

  /** The quote that ends a string or a key. */
  function Quote1(s: First): Step<First>
    requires Parented(s.values) && 0 <= s.top < |s.values|
  {
    var v := s.values[s.top];
    if v.kind == Str then
      Finish1(s.(f := s.f.(str := false), values := s.values[s.top := v.(length := s.len)]), s.i + 1)
    else
      Next(s.(i := s.i + 1, f := s.f.(str := false, seek := true, needColon := true),
              values := s.values[s.top := v.(names := v.names + s.len + 1)]))
  }

  function String1(json: seq<Byte>, s: First): Step<First>
    requires Sound(json, s) && s.f.str
  {
    var b := At(json, s.i);
    if b == 0 || s.len > LIMIT then Fail
    else if s.f.escaped then
      match Unescape(json, s.i)
      case Malformed => Fail
      case Escape(bytes, last) => Next(s.(i := last + 1, f := s.f.(escaped := false), len := s.len + |bytes|))
    else if b == Chr('\\') then Next(s.(i := s.i + 1, f := s.f.(escaped := true)))
    else if b != Chr('"') then Next(s.(i := s.i + 1, len := s.len + 1))
    else Quote1(s)
  }

  /** true, false or null */
  function Literal1(json: seq<Byte>, s: First, kind: Kind, word: string): Step<First>
    requires Sound(json, s) && s.f.seek
  {
    if Word(json, s.i, word) then Finish1(New1(s.(f := s.f.(seek := false)), kind), s.i + |word|) else Fail
  }

  /** A value starts at `s.i`. */
  function Value1(json: seq<Byte>, s: First): Step<First>
    requires Sound(json, s) && s.f.seek
  {
    var i, b, f := s.i, At(json, s.i), s.f.(seek := false);
    var t := s.(f := f);
    if b == Chr('{') then Next(New1(t, Object).(i := i + 1))
    else if b == Chr('[') then Next(New1(s, Array).(i := i + 1))
    else if b == Chr('"') then Next(New1(t, Str).(i := i + 1, f := f.(str := true), len := 0))
    else if b == Chr('t') then Literal1(json, s, Boolean, "true")
    else if b == Chr('f') then Literal1(json, s, Boolean, "false")
    else if b == Chr('n') then Literal1(json, s, Null, "null")
    else if Digit(b) || b == Chr('-') then
      Next(New1(t, Integer).(i := if b == Chr('-') then i + 1 else i, num := Number(0, false, false, false)))
    else Fail
  }

  /** flag_seek_value */
  function Seek1(json: seq<Byte>, s: First): Step<First>
    requires Sound(json, s) && s.f.seek
  {
    var b := At(json, s.i);
    if Space(b) then Next(s.(i := s.i + 1))
    else if b == Chr(']') then
      if s.top < 0 then Crash
      else if s.values[s.top].kind != Array then Fail
      else Finish1(s.(f := s.f.(seek := false, needComma := false)), s.i + 1)
    else if s.f.needComma then
      if b == Chr(',') then Next(s.(i := s.i + 1, f := s.f.(needComma := false))) else Fail
    else if s.f.needColon then
      if b == Chr(':') then Next(s.(i := s.i + 1, f := s.f.(needColon := false))) else Fail
    else Value1(json, s)
  }

  /** Between the members of an object. */
  function Object1(json: seq<Byte>, s: First): Step<First>
    requires Sound(json, s) && 0 <= s.top
  {
    var b := At(json, s.i);
    if Space(b) then Next(s.(i := s.i + 1))
    else if b == Chr('"') then
      if s.f.needComma then Fail else Next(s.(i := s.i + 1, f := s.f.(str := true), len := 0))
    else if b == Chr('}') then Finish1(s.(f := s.f.(needComma := false)), s.i + 1)
    else if b == Chr(',') && s.f.needComma then Next(s.(i := s.i + 1, f := s.f.(needComma := false)))
    else Fail
  }

  function Widen(s: First): First
    requires 0 <= s.top < |s.values|
  {
    s.(values := s.values[s.top := s.values[s.top].(kind := Double)])
  }

  /** In a number. */
  function Number1(json: seq<Byte>, s: First): Step<First>
    requires Sound(json, s) && 0 <= s.top
  {
    var b, n, kind := At(json, s.i), s.num, s.values[s.top].kind;
    if Digit(b) then
      var m := n.(digits := n.digits + 1);
      if kind == Integer && !n.e then
        if n.zero then Fail
        else Next(s.(i := s.i + 1, num := m.(zero := m.digits == 1 && b == Chr('0'))))
      else if n.e then Next(s.(i := s.i + 1, num := m.(gotSign := true)))
      else Next(s.(i := s.i + 1, num := m))
    else if (b == Chr('+') || b == Chr('-')) && n.e && !n.gotSign then
      Next(s.(i := s.i + 1, num := n.(gotSign := true)))
    else if b == Chr('.') && kind == Integer then
      if n.digits == 0 then Fail else Next(Widen(s).(i := s.i + 1, num := n.(digits := 0)))
    else Ending1(json, s)
  }

  /** A character that does not go on with a number ends it, or starts its exponent. */
  function Ending1(json: seq<Byte>, s: First): Step<First>
    requires Sound(json, s) && 0 <= s.top
  {
    var b, n := At(json, s.i), s.num;
    if !n.e then
      if s.values[s.top].kind == Double && n.digits == 0 then Fail
      else if b == Chr('e') || b == Chr('E') then
        Next(Widen(s).(i := s.i + 1, num := n.(e := true, digits := 0, zero := false)))
      else Finish1(s, s.i)
    else if n.digits == 0 then Fail
    else Finish1(s, s.i)
  }

  /** One turn of the loop in the first pass. */
  function Step1(json: seq<Byte>, s: First): Step<First>
    requires Sound(json, s)
  {
    var b := At(json, s.i);
    if s.f.done then
      if b == 0 then Done(s) else if Space(b) then Next(s.(i := s.i + 1)) else Fail
    else if s.f.str then String1(json, s)
    else if s.f.seek then Seek1(json, s)
    else if s.values[s.top].kind == Object then Object1(json, s)
    else Number1(json, s)
  }

  /** Turns that use no character lead to ones that use one. */
  function Rank(s: First): nat
    requires -1 <= s.top < |s.values|
  {
    if s.f.done then 0
    else if s.f.seek then if s.f.needComma then 0 else 2
    else if s.top >= 0 && s.values[s.top].kind in {Integer, Double} then 1
    else 0
  }

  /** A value of the same place and much the same kind. */
  predicate Alike(x: Value, y: Value) {
    x.parent == y.parent && (x.kind == y.kind || (x.kind == Integer && y.kind == Double))
  }

  lemma StillParented(values: seq<Value>, v: nat, x: Value)
    requires Parented(values) && v < |values| && Alike(values[v], x)
    ensures Parented(values[v := x])
  {
  }

  lemma NewParented(s: First, kind: Kind)
    requires Parented(s.values) && -1 <= s.top < |s.values| && (s.top >= 0 ==> Container(s.values[s.top].kind))
    ensures Parented(New1(s, kind).values)
  {
  }

  lemma Finish1Sound(json: seq<Byte>, s: First, i: nat)
    requires 0 <= s.top < |s.values| && !s.f.seek && !s.f.str && !s.f.done && i <= |json|
    requires Parented(s.values)
    ensures var r := Finish1(s, i);
      r != Crash && (r.Next? ==> Sound(json, r.next) && r.next.i == i && Rank(r.next) == 0)
  {
    var p := s.values[s.top].parent;
    if p >= 0 {
      StillParented(s.values, p, s.values[p].(length := s.values[p].length + 1));
    }
  }

  lemma WordInside(json: seq<Byte>, i: nat, word: string)
    requires Text(json) && Word(json, i, word) && i <= |json| && |word| > 0
    requires forall k :: 0 <= k < |word| ==> 0 < word[k] as int < 128
    ensures i + |word| <= |json|
  {
    assert At(json, i + (|word| - 1)) == Chr(word[|word| - 1]);
  }

  function Left(json: seq<Byte>, s: First): int
    requires -1 <= s.top < |s.values|
  {
    3 * (|json| - s.i) + Rank(s)
  }

  lemma AtInside(json: seq<Byte>, i: nat)
    ensures At(json, i) != 0 ==> i < |json|
  {
  }

  lemma UnescapeInside(json: seq<Byte>, i: nat)
    requires Text(json) && At(json, i) != 0 && Unescape(json, i).Escape?
    ensures i <= Unescape(json, i).last < |json| && 1 <= |Unescape(json, i).bytes| <= 3
  {
    AtInside(json, i);
    AtInside(json, i + 4);
    assert Hex(0) == 255;
  }

  lemma String1Sound(json: seq<Byte>, s: First)
    requires Text(json) && Sound(json, s) && s.f.str
    ensures var r := String1(json, s);
      r != Crash && (r.Next? ==> Sound(json, r.next) && Left(json, r.next) < Left(json, s))
  {
    AtInside(json, s.i);
    if At(json, s.i) != 0 && s.f.escaped && Unescape(json, s.i).Escape? {
      UnescapeInside(json, s.i);
    }
    if At(json, s.i) == Chr('"') {
      Quote1Sound(json, s);
    }
  }

  lemma Quote1Sound(json: seq<Byte>, s: First)
    requires Sound(json, s) && s.f.str && s.i < |json|
    ensures var r := Quote1(s);
      r != Crash && (r.Next? ==> Sound(json, r.next) && Left(json, r.next) < Left(json, s))
  {
    var v := s.values[s.top];
    if v.kind == Str {
      StillParented(s.values, s.top, v.(length := s.len));
      Finish1Sound(json, s.(f := s.f.(str := false), values := s.values[s.top := v.(length := s.len)]), s.i + 1);
    } else {
      StillParented(s.values, s.top, v.(names := v.names + s.len + 1));
    }
  }

  lemma Value1Sound(json: seq<Byte>, s: First)
    requires Text(json) && Sound(json, s) && s.f.seek && !s.f.needComma && !s.f.needColon
    ensures var r := Value1(json, s);
      r != Crash && (r.Next? ==> Sound(json, r.next) && Left(json, r.next) < Left(json, s))
  {
    AtInside(json, s.i);
    var b := At(json, s.i);
    if b == Chr('t') {
      WordSound(json, s, Boolean, "true");
    } else if b == Chr('f') {
      WordSound(json, s, Boolean, "false");
    } else if b == Chr('n') {
      WordSound(json, s, Null, "null");
    } else {
      NewSound(json, s);
    }
  }

  lemma WordSound(json: seq<Byte>, s: First, kind: Kind, word: string)
    requires Text(json) && Sound(json, s) && s.f.seek && !s.f.needComma && !s.f.needColon && |word| > 0
    requires forall k :: 0 <= k < |word| ==> 0 < word[k] as int < 128
    ensures var r := Literal1(json, s, kind, word);
      r != Crash && (r.Next? ==> Sound(json, r.next) && Left(json, r.next) < Left(json, s))
  {
    var t := s.(f := s.f.(seek := false));
    if Word(json, s.i, word) {
      WordInside(json, s.i, word);
      NewParented(t, kind);
      Finish1Sound(json, New1(t, kind), s.i + |word|);
    }
  }

  lemma NewSound(json: seq<Byte>, s: First)
    requires Text(json) && Sound(json, s) && s.f.seek && !s.f.needComma && !s.f.needColon
    requires At(json, s.i) !in {Chr('t'), Chr('f'), Chr('n')}
    ensures var r := Value1(json, s);
      r != Crash && (r.Next? ==> Sound(json, r.next) && Left(json, r.next) < Left(json, s))
  {
    AtInside(json, s.i);
    NewParented(s, Object);
    NewParented(s, Array);
    NewParented(s, Str);
    NewParented(s, Integer);
  }

  lemma Seek1Sound(json: seq<Byte>, s: First)
    requires Text(json) && Sound(json, s) && s.f.seek
    ensures var r := Seek1(json, s);
      r.Next? ==> Sound(json, r.next) && Left(json, r.next) < Left(json, s)
  {
    AtInside(json, s.i);
    var b := At(json, s.i);
    if b == Chr(']') {
      if s.top >= 0 {
        Finish1Sound(json, s.(f := s.f.(seek := false, needComma := false)), s.i + 1);
      }
    } else if !s.f.needComma && !s.f.needColon {
      Value1Sound(json, s);
    }
  }

  lemma Object1Sound(json: seq<Byte>, s: First)
    requires Text(json) && Sound(json, s) && s.top >= 0 && !s.f.seek && !s.f.str && !s.f.done
    requires s.values[s.top].kind == Object
    ensures var r := Object1(json, s);
      r != Crash && (r.Next? ==> Sound(json, r.next) && Left(json, r.next) < Left(json, s))
  {
    AtInside(json, s.i);
    if At(json, s.i) == Chr('}') {
      Finish1Sound(json, s.(f := s.f.(needComma := false)), s.i + 1);
    }
  }

  lemma Number1Sound(json: seq<Byte>, s: First)
    requires Text(json) && Sound(json, s) && s.top >= 0 && !s.f.seek && !s.f.str && !s.f.done
    requires s.values[s.top].kind in {Integer, Double}
    ensures var r := Number1(json, s);
      r != Crash && (r.Next? ==> Sound(json, r.next) && Left(json, r.next) < Left(json, s))
  {
    AtInside(json, s.i);
    StillParented(s.values, s.top, s.values[s.top].(kind := Double));
    Ending1Sound(json, s);
  }

  lemma Ending1Sound(json: seq<Byte>, s: First)
    requires Text(json) && Sound(json, s) && s.top >= 0 && !s.f.seek && !s.f.str && !s.f.done
    requires s.values[s.top].kind in {Integer, Double}
    ensures var r := Ending1(json, s);
      r != Crash && (r.Next? ==> Sound(json, r.next) && Left(json, r.next) < Left(json, s))
  {
    AtInside(json, s.i);
    StillParented(s.values, s.top, s.values[s.top].(kind := Double));
    Finish1Sound(json, s, s.i);
  }

  /** Every turn keeps the first pass sound, and comes nearer to its end. */
  lemma Step1Sound(json: seq<Byte>, s: First)
    requires Text(json) && Sound(json, s)
    ensures var r := Step1(json, s);
      r.Next? ==> Sound(json, r.next) && Left(json, r.next) < Left(json, s)
  {
    AtInside(json, s.i);
    if s.f.done {
    } else if s.f.str {
      String1Sound(json, s);
    } else if s.f.seek {
      Seek1Sound(json, s);
    } else if s.values[s.top].kind == Object {
      Object1Sound(json, s);
    } else {
      Number1Sound(json, s);
    }
  }

  /** The first pass from `s` on. */
  function Run1(json: seq<Byte>, s: First): Step<First>
    requires Text(json) && Sound(json, s)
    decreases Left(json, s)
  {
    Step1Sound(json, s);
    var r := Step1(json, s);
    if r.Next? then Run1(json, r.next) else r
  }
}
