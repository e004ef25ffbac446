/** The JSON parser (lib/common/json.c): both passes as loops, and how the result is freed. */
module JsonParse {
  import opened Bytes
  import opened Json
  import opened JsonSecond
  import opened JsonPasses
  import opened JsonStrings

  /** The first character that is no space, or NUL. */
  function FirstDark(json: seq<Byte>, i: nat): Byte
    requires i <= |json|
    decreases |json| - i
  {
    if i < |json| && Space(json[i]) then FirstDark(json, i + 1) else At(json, i)
  }

  /** Once there is a value, nothing goes wrong but errors. */
  lemma {:induction false} NoCrash(json: seq<Byte>, s: First)
    requires Text(json) && Sound(json, s) && s.top >= 0
    ensures Run1(json, s) != Crash
    decreases Left(json, s)
  {
    var r := Step1(json, s);
    if s.f.done {
    } else if s.f.str {
      String1Sound(json, s);
    } else if s.f.seek {
      SeekNoCrash(json, s);
    } else if s.values[s.top].kind == Object {
      Object1Sound(json, s);
    } else {
      Number1Sound(json, s);
    }
    if r.Next? {
      Step1Sound(json, s);
      NoCrash(json, r.next);
    }
  }

  lemma SeekNoCrash(json: seq<Byte>, s: First)
    requires Text(json) && Sound(json, s) && s.f.seek && s.top >= 0
    ensures Seek1(json, s) != Crash
  {
    if !s.f.needComma && !s.f.needColon {
      Value1Sound(json, s);
    }
  }

  /** The parser reads through a null value exactly if the first character that is no space is `]`. */
  lemma {:induction false} CrashExactly(json: seq<Byte>, s: First)
    requires Text(json) && Sound(json, s) && s == START.(i := s.i)
    ensures Run1(json, s) == Crash <==> FirstDark(json, s.i) == Chr(']')
    decreases |json| - s.i
  {
    var b, r := At(json, s.i), Step1(json, s);
    AtInside(json, s.i);
    if Space(b) {
      Step1Sound(json, s);
      CrashExactly(json, r.next);
    } else if b != Chr(']') {
      Value1Sound(json, s);
      if r.Next? {
        NoCrash(json, r.next);
      }
    }
  }

  /** The text `]` makes the parser read through null. */
  lemma CrashExample()
    ensures Text([Chr(']')]) && Run1([Chr(']')], START) == Crash
  {
    CrashExactly([Chr(']')], START);
  }

  /** The loop with first_pass set. */
  method FirstPass(json: seq<Byte>) returns (r: Step<First>)
    requires Text(json)
    ensures r == Run1(json, START)
  {
    r := Next(START);
    while r.Next?
      invariant r.Next? ==> Sound(json, r.next) && Run1(json, r.next) == Run1(json, START)
      invariant !r.Next? ==> r == Run1(json, START)
      decreases r.Next?, if r.Next? then Left(json, r.next) else 0
    {
      Step1Sound(json, r.next);
      r := Step1(json, r.next);
    }
  }

  /** The loop with first_pass clear, on the values that the first pass found. */
  method SecondPass(json: seq<Byte>, begin: Second) returns (r: Step<Second>)
    requires Text(json) && Loaded(begin) && begin.i <= |json|
    ensures r == Run2(json, begin)
  {
    r := Next(begin);
    while r.Next?
      invariant r.Next? ==> Loaded(r.next) && r.next.i <= |json| && Run2(json, r.next) == Run2(json, begin)
      invariant !r.Next? ==> r == Run2(json, begin)
      decreases r.Next?, if r.Next? then |json| - r.next.i else 0
    {
      Step2Onward(json, r.next);
      r := Step2(json, r.next);
    }
  }

  /** json_parse_ex with all settings zero, for texts that do not start with `]`; `starts` and `keys` are
      the places in the text of the values and of their keys. */
  method Parse(json: seq<Byte>)
      returns (ok: bool, values: seq<Slot>, ghost starts: seq<nat>, ghost keys: seq<seq<nat>>)
    requires Text(json) && FirstDark(json, 0) != Chr(']')
    ensures ok <==> Run1(json, START).Done?
    ensures ok ==> |values| == |Run1(json, START).end.values|
    ensures ok ==> forall v :: 0 <= v < |values| ==> Complete(values[v], Run1(json, START).end.values, v)
    ensures ok ==> Faithful(json, values, starts, keys)
  {
    CrashExactly(json, START);
    ok, values, starts, keys := false, [], [], [];
    var first := FirstPass(json);
    if first.Done? {
      TwoPasses(json);
      starts, keys := SecondFaithful(json);
      var second := SecondPass(json, Start2(first.end.values));
      ok, values := true, second.end.slots;
    }
  }
}
