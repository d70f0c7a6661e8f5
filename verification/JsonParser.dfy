/** The parser: a stack machine over open containers, one token at a time. Text is read up to its first NUL. */
module JsonParser {
  import opened Results
  import opened Json

  /** The character under the read pointer. */
  function Head(sp: string): char {
    if sp == "" then '\0' else sp[0]
  }

  predicate IsSpace(c: char) {
    c == ' ' || '\t' <= c <= '\r'
  }

  ghost function AfterSpace(sp: string): (r: string)
    ensures |r| <= |sp| && !IsSpace(Head(r))
  {
    if IsSpace(Head(sp)) then AfterSpace(sp[1..]) else sp
  }

  method EatSpace(sp0: string) returns (sp: string)
    ensures sp == AfterSpace(sp0)
  {
    sp := sp0;
    while IsSpace(Head(sp))
      invariant AfterSpace(sp) == AfterSpace(sp0)
      decreases |sp|
    {
      sp := sp[1..];
    }
  }

  // ---------------------------------------------------------------- numbers

  predicate IsDigit(c: char) {
    '0' <= c <= '9'
  }

  /** The digits at the front and the number they denote after `n`. */
  function ReadDigits(sp: string, n: nat): (r: (nat, string))
    ensures |r.1| <= |sp| && !IsDigit(Head(r.1))
    ensures IsDigit(Head(sp)) ==> |r.1| < |sp|
  {
    if IsDigit(Head(sp)) then ReadDigits(sp[1..], 10 * n + (sp[0] as int - '0' as int)) else (n, sp)
  }

  /** `strtoll` in base ten: with no digits the value is 0 and nothing is consumed. */
  function ReadInteger(sp: string): (r: (int, string)) {
    if Head(sp) == '-' then
      if IsDigit(Head(sp[1..])) then
        var (n, rest) := ReadDigits(sp[1..], 0);
        (0 - n, rest)
      else (0, sp)
    else ReadDigits(sp, 0)
  }

  const REAL_NUMBER := "real numbers are not part of this model"

  function ParseNumber(sp: string): (r: Result<(Value, string)>)
    requires Head(sp) == '-' || IsDigit(Head(sp))
    ensures r.Success? ==> |r.value.1| < |sp| || (r.value.1 == sp && Head(sp) == '-')
    ensures r.Success? ==> Valid(r.value.0)
  {
    var (n, rest) := ReadInteger(sp);
    if Fits(n) && Head(rest) != '.' && Head(rest) != 'e' && Head(rest) != 'E' then Success((Integer(n), rest))
    else Failure(REAL_NUMBER)
  }

  // ---------------------------------------------------------------- strings

  function HexVal(c: char): (r: Result<nat>)
    ensures r.Success? ==> r.value < 16 && c != '\0'
  {
    if '0' <= c <= '9' then Success(c as int - '0' as int)
    else if 'a' <= c <= 'f' then Success(c as int - 'a' as int + 10)
    else if 'A' <= c <= 'F' then Success(c as int - 'A' as int + 10)
    else Failure("invalid \\u value")
  }

  /** `k` more hexadecimal digits after the value `u`. */
  function ReadHex(sp: string, k: nat, u: nat): (r: Result<(nat, string)>)
    ensures r.Success? ==> |r.value.1| <= |sp|
    decreases k
  {
    if k == 0 then Success((u, sp))
    else
      var h :- HexVal(Head(sp));
      ReadHex(sp[1..], k - 1, u * 16 + h)
  }

  /** The character after a backslash, and the text after it. */
  function Unescape(sp: string): (r: Result<(nat, string)>)
    ensures r.Success? ==> |r.value.1| < |sp|
  {
    var c := Head(sp);
    if c == '\"' || c == '\\' || c == '/' then Success((c as int, sp[1..]))
    else if c == 'b' then Success((0x08, sp[1..]))
    else if c == 'f' then Success((0x0c, sp[1..]))
    else if c == 'n' then Success((0x0a, sp[1..]))
    else if c == 'r' then Success((0x0d, sp[1..]))
    else if c == 't' then Success((0x09, sp[1..]))
    else if c == 'u' then ReadHex(sp[1..], 4, 0)
    else Failure("invalid escape sequence")
  }

  function Utf8Byte(n: int): char
    requires 0 <= n < 256
  {
    n as char
  }

  function Utf8(u: nat): string
    requires u < 0x20_0000
  {
    if u < 0x80 then [Utf8Byte(u)]
    else if u < 0x800 then [Utf8Byte(0xc0 + u / 0x40), Utf8Byte(0x80 + u % 0x40)]
    else if u < 0x1_0000 then [Utf8Byte(0xe0 + u / 0x1000), Utf8Byte(0x80 + u / 0x40 % 0x40), Utf8Byte(0x80 + u % 0x40)]
    else [Utf8Byte(0xf0 + u / 0x4_0000), Utf8Byte(0x80 + u / 0x1000 % 0x40), Utf8Byte(0x80 + u / 0x40 % 0x40), Utf8Byte(0x80 + u % 0x40)]
  }

  /** 0x10000 | lead bits << 10 | trail bits; the bitwise or adds 0x10000 only if that bit is still clear. */
  function JoinSurrogates(lead: nat, trail: nat): (u: nat)
    ensures u < 0x11_0000
  {
    var bits := lead % 0x400 * 0x400 + trail % 0x400;
    if bits / 0x1_0000 % 2 == 1 then bits else bits + 0x1_0000
  }

  /** The code point of the pair by section 3.8 of the Unicode standard. */
  function CodePoint(lead: nat, trail: nat): nat {
    0x1_0000 + lead % 0x400 * 0x400 + trail % 0x400
  }

  lemma TopBit(a: nat, b: nat)
    requires b < 0x400
    ensures (a * 0x400 + b) / 0x1_0000 == a / 0x40
  {
    var d, e := a / 0x40, a % 0x40;
    assert a * 0x400 + b == 0x1_0000 * d + (0x400 * e + b);
  }

  lemma BitSix(lead: nat)
    ensures lead % 0x400 / 0x40 % 2 == lead / 0x40 % 2
  {
    var q, r := lead / 0x400, lead % 0x400;
    assert lead == 0x400 * q + r;
    assert lead / 0x40 == 16 * q + r / 0x40;
  }

  /** The pair is joined into its code point exactly when bit 6 of the lead surrogate is clear; else the result is 0x10000
  too small. */
  lemma JoinIsCodePoint(lead: nat, trail: nat)
    ensures JoinSurrogates(lead, trail) == CodePoint(lead, trail) <==> lead / 0x40 % 2 == 0
    ensures lead / 0x40 % 2 != 0 ==> JoinSurrogates(lead, trail) + 0x1_0000 == CodePoint(lead, trail)
  {
    TopBit(lead % 0x400, trail % 0x400);
    BitSix(lead);
  }

  /** The text up to the first backslash or quotation mark, if one comes before the end. */
  ghost function PlainRun(sp: string): (n: Option<nat>)
    ensures n.Some? ==> n.value < |sp| && (Head(sp) != '\\' && Head(sp) != '\"' ==> n.value > 0)
  {
    if Head(sp) == '\0' then None
    else if Head(sp) == '\\' || Head(sp) == '\"' then Some(0)
    else
      match PlainRun(sp[1..])
      case None => None
      case Some(n) => Some(n + 1)
  }

  method FindSpecial(sp: string) returns (n: Option<nat>)
    ensures n == PlainRun(sp)
  {
    var k := 0;
    assert sp[0..] == sp;
    while Head(sp[k..]) != '\0'
      invariant k <= |sp|
      invariant PlainRun(sp) == match PlainRun(sp[k..]) case None => None case Some(m) => Some(k + m)
      decreases |sp| - k
    {
      if Head(sp[k..]) == '\\' || Head(sp[k..]) == '\"' {
        return Some(k);
      }
      assert sp[k..][1..] == sp[k + 1..];
      k := k + 1;
    }
    n := None;
  }

  const LEAD_BEGIN := 0xd800
  const TRAIL_BEGIN := 0xdc00
  const TRAIL_END := 0xe000

  /** One round of the string loop: more text, or the end of the string. */
  datatype Chunk = More(s: string, lead: nat, sp: string) | Closed(sp: string)

  ghost function NextChunk(sp: string, lead: nat): (r: Result<Chunk>)
    ensures r.Success? ==> |r.value.sp| < |sp|
  {
    if lead != 0 then
      if Head(sp) != '\\' then Failure("missing trail surrogate")
      else
        var (trail, rest) :- Unescape(sp[1..]);
        if trail < TRAIL_BEGIN || trail >= TRAIL_END then Failure("invalid trail surrogate")
        else Success(More(Utf8(JoinSurrogates(lead, trail)), 0, rest))
    else if Head(sp) == '\0' then Failure("unexpected end of input")
    else if Head(sp) == '\"' then Success(Closed(sp[1..]))
    else if Head(sp) == '\\' then
      var (u, rest) :- Unescape(sp[1..]);
      if u < LEAD_BEGIN || u >= TRAIL_END then
        UnescapeRange(sp[1..]);
        Success(More(Utf8(u), 0, rest))
      else if u >= TRAIL_BEGIN then Failure("unexpected trail surrogate")
      else Success(More("", u, rest))
    else
      match PlainRun(sp)
      case None => Failure("unexpected end of input")
      case Some(n) => Success(More(sp[..n], 0, sp[n..]))
  }

  lemma {:induction false} ReadHexRange(sp: string, k: nat, u: nat)
    requires (k == 4 && u == 0) || (k == 3 && u < 0x10) || (k == 2 && u < 0x100) || (k == 1 && u < 0x1000) || (k == 0 && u < 0x1_0000)
    ensures ReadHex(sp, k, u).Success? ==> ReadHex(sp, k, u).value.0 < 0x1_0000
    decreases k
  {
    if k > 0 && HexVal(Head(sp)).Success? {
      ReadHexRange(sp[1..], k - 1, u * 16 + HexVal(Head(sp)).value);
    }
  }

  lemma UnescapeRange(sp: string)
    ensures Unescape(sp).Success? ==> Unescape(sp).value.0 < 0x1_0000
  {
    if Head(sp) == 'u' {
      ReadHexRange(sp[1..], 4, 0);
    }
  }

  /** The rest of a string whose first part is `done`, and the text after its closing quotation mark. */
  ghost function StringFrom(sp: string, lead: nat, done: string): (r: Result<(string, string)>)
    ensures r.Success? ==> |r.value.1| < |sp|
    decreases |sp|
  {
    match NextChunk(sp, lead)
    case Failure(e) => Failure(e)
    case Success(Closed(rest)) => Success((done, rest))
    case Success(More(s, l, rest)) => StringFrom(rest, l, done + s)
  }

  method ReadChunk(sp: string, leadSurrogate: nat) returns (r: Result<Chunk>)
    ensures r == NextChunk(sp, leadSurrogate)
  {
    if leadSurrogate != 0 {
      if Head(sp) != '\\' {
        return Failure("missing trail surrogate");
      }
      var trailSurrogate := Unescape(sp[1..]);
      if trailSurrogate.Failure? {
        return Failure(trailSurrogate.message);
      }
      var (u, rest) := trailSurrogate.value;
      if u < TRAIL_BEGIN || u >= TRAIL_END {
        return Failure("invalid trail surrogate");
      }
      r := Success(More(Utf8(JoinSurrogates(leadSurrogate, u)), 0, rest));
    } else if Head(sp) == '\0' {
      r := Failure("unexpected end of input");
    } else if Head(sp) == '\"' {
      r := Success(Closed(sp[1..]));
    } else if Head(sp) == '\\' {
      var escape := Unescape(sp[1..]);
      if escape.Failure? {
        return Failure(escape.message);
      }
      UnescapeRange(sp[1..]);
      var (u, rest) := escape.value;
      if u < LEAD_BEGIN || u >= TRAIL_END {
        r := Success(More(Utf8(u), 0, rest));
      } else if u >= TRAIL_BEGIN {
        r := Failure("unexpected trail surrogate");
      } else {
        r := Success(More("", u, rest));
      }
    } else {
      var n := FindSpecial(sp);
      if n.None? {
        return Failure("unexpected end of input");
      }
      r := Success(More(sp[..n.value], 0, sp[n.value..]));
    }
  }

  method ParseString(sp0: string) returns (r: Result<(string, string)>)
    ensures r == StringFrom(sp0, 0, "")
  {
    var leadSurrogate: nat := 0;
    var sp, s := sp0, "";
    while true
      invariant StringFrom(sp0, 0, "") == StringFrom(sp, leadSurrogate, s)
      decreases |sp|
    {
      var chunk := ReadChunk(sp, leadSurrogate);
      match chunk
      case Failure(e) => return Failure(e);
      case Success(Closed(rest)) => return Success((s, rest));
      case Success(More(t, lead, rest)) => s, leadSurrogate, sp := s + t, lead, rest;
    }
  }

  // ---------------------------------------------------------------- open containers

  datatype Frame =
    | Sentinel(result: Option<Value>)
    | OpenArray(items: seq<Value>, closeable: bool)
    | OpenObject(members: seq<Member>, key: string, expectKey: bool)
  {
    /** Takes a value followed by the character `next`; the flag says whether that character is consumed. */
    function AddValue(value: Value, next: char): (r: Result<(Frame, bool)>)
      ensures r.Success? ==> next in {'\0', ',', ':', ']', '}'} && (r.value.1 <==> next in {',', ':'})
      ensures r.Success? ==> (r.value.0.Sentinel? <==> Sentinel?)
    {
      match this
      case Sentinel(_) =>
        if next != '\0' then Failure("trailing garbage") else Success((Sentinel(Some(value)), false))
      case OpenArray(items, _) =>
        if next == ',' then Success((OpenArray(items + [value], false), true))
        else if next == ']' then Success((OpenArray(items + [value], true), false))
        else Failure("invalid array separator")
      case OpenObject(members, key, expectKey) =>
        if expectKey then
          if !value.Text? then Failure("invalid object key")
          else if next != ':' then Failure("invalid key/value separator")
          else Success((OpenObject(members, value.s, false), true))
        else if next == ',' then Success((OpenObject(Store(members, key, value), "", true), true))
        else if next == '}' then Success((OpenObject(Store(members, key, value), "", true), false))
        else Failure("invalid array separator")
    }

    function CloseArray(): Result<Value> {
      match this
      case OpenArray(items, closeable) => if closeable then Success(Array(items)) else Failure("dangling array separator")
      case _ => Failure("mismatched ']'")
    }

    function CloseObject(): Result<Value> {
      match this
      case OpenObject(members, _, expectKey) => if expectKey then Success(Object(members)) else Failure("dangling object separator")
      case _ => Failure("mismatched '}'")
    }

    function FinalResult(): Result<Value> {
      match this
      case Sentinel(Some(v)) => Success(v)
      case _ => Failure("unexpected end of input")
    }
  }

  /** The sentinel lies at the bottom and nowhere else. */
  predicate Stacked(stack: seq<Frame>) {
    |stack| > 0 && forall i | 0 <= i < |stack| :: stack[i].Sentinel? <==> i == 0
  }

  function Top(stack: seq<Frame>): Frame
    requires Stacked(stack)
  {
    stack[|stack| - 1]
  }

  function Push(stack: seq<Frame>, value: Value, next: char): (r: Result<(seq<Frame>, bool)>)
    requires Stacked(stack)
    ensures r.Success? ==> Stacked(r.value.0) && |r.value.0| == |stack|
    ensures r.Success? ==> next in {'\0', ',', ':', ']', '}'} && (r.value.1 <==> next in {',', ':'})
  {
    var (frame, eaten) :- Top(stack).AddValue(value, next);
    Success((stack[|stack| - 1 := frame], eaten))
  }

  class JsonStack {
    var containers: seq<Frame>

    constructor ()
      ensures containers == [Sentinel(None)]
    {
      containers := [Sentinel(None)];
    }

    method OpenAnArray()
      modifies this
      ensures containers == old(containers) + [OpenArray([], true)]
    {
      containers := containers + [OpenArray([], true)];
    }

    method OpenAnObject()
      modifies this
      ensures containers == old(containers) + [OpenObject([], "", true)]
    {
      containers := containers + [OpenObject([], "", true)];
    }

    method AddValue(value: Value, next: char) returns (eaten: Result<bool>)
      requires Stacked(containers)
      modifies this
      ensures eaten == match Push(old(containers), value, next) case Success(p) => Success(p.1) case Failure(e) => Failure(e)
      ensures match Push(old(containers), value, next) case Success(p) => containers == p.0 case Failure(_) => true
    {
      var l := |containers| - 1;
      var r := containers[l].AddValue(value, next);
      if r.Failure? {
        return Failure(r.message);
      }
      containers := containers[l := r.value.0];
      eaten := Success(r.value.1);
    }

    method CloseArray(next: char) returns (eaten: Result<bool>)
      requires Stacked(containers)
      modifies this
      ensures eaten == match Close(old(containers), Top(old(containers)).CloseArray(), next) case Success(p) => Success(p.1) case Failure(e) => Failure(e)
      ensures match Close(old(containers), Top(old(containers)).CloseArray(), next) case Success(p) => containers == p.0 case Failure(_) => true
    {
      var closed := containers[|containers| - 1].CloseArray();
      if closed.Failure? {
        return Failure(closed.message);
      }
      containers := containers[..|containers| - 1];
      eaten := AddValue(closed.value, next);
    }

    method CloseObject(next: char) returns (eaten: Result<bool>)
      requires Stacked(containers)
      modifies this
      ensures eaten == match Close(old(containers), Top(old(containers)).CloseObject(), next) case Success(p) => Success(p.1) case Failure(e) => Failure(e)
      ensures match Close(old(containers), Top(old(containers)).CloseObject(), next) case Success(p) => containers == p.0 case Failure(_) => true
    {
      var closed := containers[|containers| - 1].CloseObject();
      if closed.Failure? {
        return Failure(closed.message);
      }
      containers := containers[..|containers| - 1];
      eaten := AddValue(closed.value, next);
    }
  }

  /** The closed container becomes a value of the container below it. */
  ghost function Close(stack: seq<Frame>, closed: Result<Value>, next: char): (r: Result<(seq<Frame>, bool)>)
    requires Stacked(stack) && (closed.Success? ==> |stack| > 1)
    ensures r.Success? ==> Stacked(r.value.0)
    ensures r.Success? ==> next in {'\0', ',', ':', ']', '}'} && (r.value.1 <==> next in {',', ':'})
  {
    match closed
    case Failure(e) => Failure(e)
    case Success(v) => Push(stack[..|stack| - 1], v, next)
  }

  // ---------------------------------------------------------------- the machine

  /** `word` after its first character stands at the read pointer. */
  predicate Spells(sp: string, word: string) {
    word == "" || (Head(sp) == word[0] && Spells(if sp == "" then "" else sp[1..], word[1..]))
  }

  lemma {:induction false} SpellsPrefix(sp: string, word: string)
    requires '\0' !in word
    ensures Spells(sp, word) <==> word <= sp
  {
    if word != "" && sp != "" {
      SpellsPrefix(sp[1..], word[1..]);
      assert word <= sp <==> word[0] == sp[0] && word[1..] <= sp[1..] by {
        assert word == [word[0]] + word[1..] && sp == [sp[0]] + sp[1..];
      }
    }
  }

  /** A value that is complete in itself, and the text after it. */
  ghost function Token(sp: string): (r: Result<(Value, string)>)
    ensures r.Success? ==> |r.value.1| < |sp| || (r.value.1 == sp && Head(sp) == '-')
    ensures r.Success? ==> Valid(r.value.0)
  {
    if Head(sp) == 'n' then
      if "null" <= sp then Success((Null, sp[4..])) else Failure("invalid character")
    else if Head(sp) == 'f' then
      if "false" <= sp then Success((Bool(false), sp[5..])) else Failure("invalid character")
    else if Head(sp) == 't' then
      if "true" <= sp then Success((Bool(true), sp[4..])) else Failure("invalid character")
    else if IsDigit(Head(sp)) || Head(sp) == '-' then ParseNumber(sp)
    else if Head(sp) == '\"' then
      var (s, rest) :- StringFrom(sp[1..], 0, "");
      Success((Text(s), rest))
    else Failure("invalid character")
  }

  /** What the machine does from the read pointer `at` with `stack`. */
  ghost function Run(at: string, stack: seq<Frame>): Result<Value>
    requires Stacked(stack)
    decreases |at|, 0
  {
    var sp := AfterSpace(at);
    if Head(sp) == '\0' then Top(stack).FinalResult()
    else if Head(sp) == '[' then Run(sp[1..], stack + [OpenArray([], true)])
    else if Head(sp) == '{' then Run(sp[1..], stack + [OpenObject([], "", true)])
    else if Head(sp) == ']' then
      match Top(stack).CloseArray()
      case Failure(e) => Failure(e)
      case Success(v) => Deliver(stack[..|stack| - 1], v, sp[1..])
    else if Head(sp) == '}' then
      match Top(stack).CloseObject()
      case Failure(e) => Failure(e)
      case Success(v) => Deliver(stack[..|stack| - 1], v, sp[1..])
    else
      match Token(sp)
      case Failure(e) => Failure(e)
      case Success((v, rest)) => Deliver(stack, v, rest)
  }

  /** Gives a value to the open container and goes on after it. */
  ghost function Deliver(stack: seq<Frame>, v: Value, at: string): Result<Value>
    requires Stacked(stack)
    decreases if Head(AfterSpace(at)) == '-' then 0 else |at|, 1
  {
    var sp := AfterSpace(at);
    match Push(stack, v, Head(sp))
    case Failure(e) => Failure(e)
    case Success((next, eaten)) => Run(if eaten then sp[1..] else sp, next)
  }

  ghost function Parse(s: string): Result<Value> {
    Run(s, [Sentinel(None)])
  }

  /** The scalar or word at the read pointer. */
  method ReadToken(sp: string) returns (r: Result<(Value, string)>)
    requires sp != ""
    ensures r == Token(sp)
  {
    if sp[0] == 'n' {
      SpellsPrefix(sp, "null");
      if !Spells(sp, "null") {
        return Failure("invalid character");
      }
      r := Success((Null, sp[4..]));
    } else if sp[0] == 'f' {
      SpellsPrefix(sp, "false");
      if !Spells(sp, "false") {
        return Failure("invalid character");
      }
      r := Success((Bool(false), sp[5..]));
    } else if sp[0] == 't' {
      SpellsPrefix(sp, "true");
      if !Spells(sp, "true") {
        return Failure("invalid character");
      }
      r := Success((Bool(true), sp[4..]));
    } else if IsDigit(sp[0]) || sp[0] == '-' {
      r := ParseNumber(sp);
    } else if sp[0] == '\"' {
      var t := ParseString(sp[1..]);
      r := match t case Failure(e) => Failure(e) case Success((s, rest)) => Success((Text(s), rest));
    } else {
      r := Failure("invalid character");
    }
  }

  method StringToJson(s: string) returns (r: Result<Value>)
    ensures r == Parse(s)
  {
    var sp := s;
    var jsonStack := new JsonStack();
    while true
      invariant Stacked(jsonStack.containers)
      invariant Run(sp, jsonStack.containers) == Parse(s)
      decreases |sp|
    {
      ghost var at := sp;
      sp := EatSpace(sp);
      if Head(sp) == '\0' {
        return jsonStack.containers[|jsonStack.containers| - 1].FinalResult();
      } else if Head(sp) == '[' {
        sp := sp[1..];
        jsonStack.OpenAnArray();
      } else if Head(sp) == '{' {
        sp := sp[1..];
        jsonStack.OpenAnObject();
      } else {
        var rest := ReadValue(sp, jsonStack, at);
        if rest.Failure? {
          return Failure(rest.message);
        }
        sp := rest.value;
      }
    }
  }

  /** The rest of one round of the loop, for a text that completes a value: the value goes into the open container. */
  method ReadValue(sp0: string, jsonStack: JsonStack, ghost at: string) returns (r: Result<string>)
    requires Stacked(jsonStack.containers) && sp0 == AfterSpace(at) && Head(sp0) !in {'\0', '[', '{'}
    modifies jsonStack
    ensures r.Failure? ==> Run(at, old(jsonStack.containers)) == Failure(r.message)
    ensures r.Success? ==> Stacked(jsonStack.containers) && |r.value| < |sp0|
                           && Run(r.value, jsonStack.containers) == Run(at, old(jsonStack.containers))
  {
    var sp, eaten := sp0, Success(false);
    if Head(sp) == ']' {
      sp := EatSpace(sp[1..]);
      eaten := jsonStack.CloseArray(Head(sp));
    } else if Head(sp) == '}' {
      sp := EatSpace(sp[1..]);
      eaten := jsonStack.CloseObject(Head(sp));
    } else {
      var t := ReadToken(sp);
      if t.Failure? {
        return Failure(t.message);
      }
      sp := EatSpace(t.value.1);
      eaten := jsonStack.AddValue(t.value.0, Head(sp));
    }
    if eaten.Failure? {
      return Failure(eaten.message);
    }
    if eaten.value {
      sp := sp[1..];
    }
    r := Success(sp);
  }
}
