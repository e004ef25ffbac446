/** The second pass of the JSON parser (lib/common/json.c) does what the first pass sized. */
module JsonSecond {
  import opened Bytes
  import opened Json

  /** A value in the second pass: what the first pass found (`cap` and `nameCap`), what of it is there
      by now (`length` and `used`), and the contents. */
  datatype Slot = Slot(kind: Kind, parent: int, cap: nat, nameCap: nat, length: nat, used: nat,
                       text: seq<Byte>, keys: seq<seq<Byte>>, items: seq<nat>)

  /** `alloc` is the next value in order of creation, `buf` the string being written. */
  datatype Second = Second(i: nat, f: Flags, top: int, alloc: nat, slots: seq<Slot>, buf: seq<Byte>)

  /** As the first pass leaves a value. */
  function Left1(v: Value): Slot {
    Slot(v.kind, v.parent, v.length, v.names, v.length, 0, [], [], [])
  }

  predicate Loaded(s: Second) {
    && -1 <= s.top < s.alloc <= |s.slots|
    && forall v :: 0 <= v < |s.slots| ==> -1 <= s.slots[v].parent < v
  }

  /** new_value in the second pass: the next value gets its memory, and is empty. */
  function New2(s: Second): Step<Second>
    requires Loaded(s)
  {
    if s.alloc == |s.slots| then Crash
    else
      var v := s.slots[s.alloc];
      var w := if v.kind in {Array, Object, Str} then v.(length := 0) else v;
      Next(s.(top := s.alloc, alloc := s.alloc + 1, slots := s.slots[s.alloc := w]))
  }

  /** May `n` bytes be written to the string that starts at the top value's block? A string has room
      for its length and a NUL, an object for all of its keys with their NULs. */
  predicate Fits(v: Slot, n: nat) {
    match v.kind
    case Str => n <= v.cap + 1
    case Object => v.used + n <= v.nameCap
    case _ => false
  }

  function Put(s: Second, bytes: seq<Byte>, i: nat): Step<Second>
    requires Loaded(s) && 0 <= s.top
  {
    if Fits(s.slots[s.top], |s.buf| + |bytes|) then Next(s.(buf := s.buf + bytes, i := i)) else Crash
  }

  /** A value is complete: its parent points to it. */
  function Finish2(s: Second, i: nat): Step<Second>
    requires Loaded(s) && 0 <= s.top
  {
    var p := s.slots[s.top].parent;
    var f := s.f.(needComma := true);
    if p < 0 then Next(s.(f := f.(done := true), i := i))
    else
      var v := s.slots[p];
      if Container(v.kind) && v.length >= v.cap then Crash
      else if v.length + 1 > LIMIT then Fail
      else
        var w := v.(length := v.length + 1, items := v.items + [s.top]);
        Next(s.(f := if v.kind == Array then f.(seek := true) else f, slots := s.slots[p := w], top := p, i := i))
  }

  /** The quote that ends a string or a key: a NUL is written after it. */
  function Quote2(s: Second): Step<Second>
    requires Loaded(s) && 0 <= s.top
  {
    var v := s.slots[s.top];
    if !Fits(v, |s.buf| + 1) then Crash
    else if v.kind == Str then
      var w := v.(length := |s.buf|, text := s.buf);
      Finish2(s.(f := s.f.(str := false), slots := s.slots[s.top := w]), s.i + 1)
    else if v.length >= v.cap then Crash
    else
      var w := v.(used := v.used + |s.buf| + 1, keys := v.keys + [s.buf]);
      Next(s.(i := s.i + 1, f := s.f.(str := false, seek := true, needColon := true), slots := s.slots[s.top := w]))
  }

  function String2(json: seq<Byte>, s: Second): Step<Second>
    requires Loaded(s) && 0 <= s.top
  {
    var b := At(json, s.i);
    if b == 0 || |s.buf| > LIMIT then Fail
    else if s.f.escaped then
      match Unescape(json, s.i)
      case Malformed => Fail
      case Escape(bytes, last) => Put(s.(f := s.f.(escaped := false)), bytes, last + 1)
    else if b == Chr('\\') then Next(s.(i := s.i + 1, f := s.f.(escaped := true)))
    else if b != Chr('"') then Put(s, [b], s.i + 1)
    else Quote2(s)
  }

  /** Past the characters of a number. */
  function Skip(json: seq<Byte>, i: nat): (j: nat)
    requires i <= |json|
    ensures i <= j <= |json|
    decreases |json| - i
  {
    if i < |json| && Numeric(json[i]) then Skip(json, i + 1) else i
  }

  function Then(r: Step<Second>, i: nat): Step<Second>
    requires r.Next? ==> Loaded(r.next) && 0 <= r.next.top
  {
    if r.Next? then Finish2(r.next, i) else r
  }

  function Literal2(json: seq<Byte>, i: nat, r: Step<Second>, word: string): Step<Second>
    requires r.Next? ==> Loaded(r.next) && 0 <= r.next.top
  {
    if Word(json, i, word) then Then(r, i + |word|) else Fail
  }

  function Value2(json: seq<Byte>, s: Second): Step<Second>
    requires Loaded(s) && s.i <= |json|
  {
    var i, b, f := s.i, At(json, s.i), s.f.(seek := false);
    var r := New2(s.(f := f));
    if b == Chr('{') then if r.Next? then Next(r.next.(i := i + 1)) else r
    else if b == Chr('[') then if r.Next? then Next(r.next.(i := i + 1, f := f.(seek := true))) else r
    else if b == Chr('"') then
      if !r.Next? then r
      else if r.next.slots[r.next.top].kind != Str then Crash
      else Next(r.next.(i := i + 1, f := f.(str := true), buf := []))
    else if b == Chr('t') then Literal2(json, i, r, "true")
    else if b == Chr('f') then Literal2(json, i, r, "false")
    else if b == Chr('n') then Literal2(json, i, r, "null")
    else if Digit(b) || b == Chr('-') then Then(r, Skip(json, i))
    else Fail
  }

  function Seek2(json: seq<Byte>, s: Second): Step<Second>
    requires Loaded(s) && s.i <= |json|
  {
    var b := At(json, s.i);
    if Space(b) then Next(s.(i := s.i + 1))
    else if b == Chr(']') then
      if s.top < 0 then Crash
      else if s.slots[s.top].kind != Array then Fail
      else Finish2(s.(f := s.f.(seek := false, needComma := false)), s.i + 1)
    else if s.f.needComma then
      if b == Chr(',') then Next(s.(i := s.i + 1, f := s.f.(needComma := false))) else Fail
    else if s.f.needColon then
      if b == Chr(':') then Next(s.(i := s.i + 1, f := s.f.(needColon := false))) else Fail
    else Value2(json, s)
  }

  function Object2(json: seq<Byte>, s: Second): Step<Second>
    requires Loaded(s) && 0 <= s.top
  {
    var b := At(json, s.i);
    if Space(b) then Next(s.(i := s.i + 1))
    else if b == Chr('"') then
      if s.f.needComma then Fail else Next(s.(i := s.i + 1, f := s.f.(str := true), buf := []))
    else if b == Chr('}') then Finish2(s.(f := s.f.(needComma := false)), s.i + 1)
    else if b == Chr(',') && s.f.needComma then Next(s.(i := s.i + 1, f := s.f.(needComma := false)))
    else Fail
  }

  /** One turn of the loop in the second pass. A number is over in the turn that meets it, so the top
      value is never one. */
  function Step2(json: seq<Byte>, s: Second): Step<Second>
    requires Loaded(s) && s.i <= |json|
  {
    var b := At(json, s.i);
    if s.f.done then
      if b == 0 then Done(s) else if Space(b) then Next(s.(i := s.i + 1)) else Fail
    else if s.f.str then if s.top < 0 then Crash else String2(json, s)
    else if s.f.seek then Seek2(json, s)
    else if s.top < 0 || s.slots[s.top].kind != Object then Crash
    else Object2(json, s)
  }

  predicate Onward(json: seq<Byte>, i: nat, r: Step<Second>) {
    r.Next? ==> Loaded(r.next) && i < r.next.i <= |json|
  }

  lemma Finish2Onward(json: seq<Byte>, s: Second, i: nat, j: nat)
    requires Loaded(s) && 0 <= s.top && i < j <= |json|
    ensures Onward(json, i, Finish2(s, j))
  {
  }

  lemma String2Onward(json: seq<Byte>, s: Second)
    requires Text(json) && Loaded(s) && 0 <= s.top && s.i <= |json|
    ensures Onward(json, s.i, String2(json, s))
  {
    AtInside(json, s.i);
    if At(json, s.i) != 0 && s.f.escaped && Unescape(json, s.i).Escape? {
      UnescapeInside(json, s.i);
    }
  }

  lemma Literal2Onward(json: seq<Byte>, i: nat, r: Step<Second>, word: string)
    requires Text(json) && i <= |json| && |word| > 0 && forall k :: 0 <= k < |word| ==> 0 < word[k] as int < 128
    requires r.Next? ==> Loaded(r.next) && 0 <= r.next.top
    ensures Onward(json, i, Literal2(json, i, r, word))
  {
    if Word(json, i, word) && r.Next? {
      WordInside(json, i, word);
      Finish2Onward(json, r.next, i, i + |word|);
    }
  }

  lemma Value2Onward(json: seq<Byte>, s: Second)
    requires Text(json) && Loaded(s) && s.i <= |json|
    ensures Onward(json, s.i, Value2(json, s))
  {
    AtInside(json, s.i);
    var b, r := At(json, s.i), New2(s.(f := s.f.(seek := false)));
    Literal2Onward(json, s.i, r, "true");
    Literal2Onward(json, s.i, r, "false");
    Literal2Onward(json, s.i, r, "null");
    if (Digit(b) || b == Chr('-')) && r.Next? {
      assert Skip(json, s.i) > s.i;
      Finish2Onward(json, r.next, s.i, Skip(json, s.i));
    }
  }

  lemma Step2Onward(json: seq<Byte>, s: Second)
    requires Text(json) && Loaded(s) && s.i <= |json|
    ensures Onward(json, s.i, Step2(json, s))
  {
    AtInside(json, s.i);
    if s.f.done {
    } else if s.f.str {
      if s.top >= 0 {
        String2Onward(json, s);
      }
    } else if s.f.seek {
      Value2Onward(json, s);
    }
  }

  function Run2(json: seq<Byte>, s: Second): Step<Second>
    requires Text(json) && Loaded(s) && s.i <= |json|
    decreases |json| - s.i
  {
    Step2Onward(json, s);
    var r := Step2(json, s);
    if r.Next? then Run2(json, r.next) else r
  }
}
