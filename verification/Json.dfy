/** JSON values and their text form. A byte string is a string whose characters are the bytes. */
module Json {
  import opened Results

  /** The members of an object are kept by ascending name, the iteration order of an ordered map. Real numbers are left out. */
  datatype Value =
    | Null
    | Bool(b: bool)
    | Integer(n: int)
    | Text(s: string)
    | Array(items: seq<Value>)
    | Object(members: seq<Member>)

  datatype Member = Member(name: string, value: Value)

  const INTEGER_MIN := -0x8000_0000_0000_0000
  const INTEGER_MAX := 0x7fff_ffff_ffff_ffff

  predicate Fits(n: int) {
    INTEGER_MIN <= n <= INTEGER_MAX
  }

  /** Byte-wise order of names. */
  predicate Before(a: string, b: string) {
    if b == "" then false
    else if a == "" then true
    else a[0] < b[0] || (a[0] == b[0] && Before(a[1..], b[1..]))
  }

  lemma {:induction false} BeforeTotal(a: string, b: string)
    ensures Before(a, b) || Before(b, a) || a == b
  {
    if a != "" && b != "" && a[0] == b[0] {
      BeforeTotal(a[1..], b[1..]);
      assert a[1..] == b[1..] ==> a == [a[0]] + a[1..] == [b[0]] + b[1..] == b;
    }
  }

  lemma {:induction false} BeforeTransitive(a: string, b: string, c: string)
    requires Before(a, b) && Before(b, c)
    ensures Before(a, c)
  {
    if a != "" && a[0] == b[0] == c[0] {
      BeforeTransitive(a[1..], b[1..], c[1..]);
    }
  }

  lemma {:induction false} BeforeIrreflexive(a: string)
    ensures !Before(a, a)
  {
    if a != "" {
      BeforeIrreflexive(a[1..]);
    }
  }

  ghost predicate Ascending(members: seq<Member>) {
    forall i, j | 0 <= i < j < |members| :: Before(members[i].name, members[j].name)
  }

  /** The values a C++ program can hold: 64-bit integers and objects ordered by name. */
  ghost predicate Valid(v: Value) {
    match v
    case Integer(n) => Fits(n)
    case Array(items) => forall i | 0 <= i < |items| :: Valid(items[i])
    case Object(members) => Ascending(members) && forall i | 0 <= i < |members| :: Valid(members[i].value)
    case _ => true
  }

  /** Assigns to a name of an ordered map. */
  function Store(members: seq<Member>, name: string, v: Value): (r: seq<Member>)
  {
    if members == [] then [Member(name, v)]
    else if members[0].name == name then [Member(name, v)] + members[1..]
    else if Before(name, members[0].name) then [Member(name, v)] + members
    else [members[0]] + Store(members[1..], name, v)
  }

  /** The value a name maps to. */
  ghost function Lookup(members: seq<Member>, name: string): Option<Value> {
    if members == [] then None
    else if members[0].name == name then Some(members[0].value)
    else Lookup(members[1..], name)
  }

  /** Storing changes what the one name maps to and nothing else. */
  lemma {:induction false} StoreIsUpdate(members: seq<Member>, name: string, v: Value, other: string)
    ensures Lookup(Store(members, name, v), other) ==
            if other == name then Some(v) else Lookup(members, other)
  {
    if members != [] {
      StoreIsUpdate(members[1..], name, v, other);
    }
  }

  lemma {:induction false} StoreNames(members: seq<Member>, name: string, v: Value)
    ensures forall i | 0 <= i < |Store(members, name, v)| ::
              var m := Store(members, name, v)[i]; (m.name == name && m.value == v) || m in members
  {
    if members != [] {
      StoreNames(members[1..], name, v);
    }
  }

  lemma {:induction false} StoreAscending(members: seq<Member>, name: string, v: Value)
    requires Ascending(members)
    ensures Ascending(Store(members, name, v))
  {
    if members != [] {
      var rest := members[1..];
      var r := Store(members, name, v);
      if members[0].name == name {
        assert forall i | 0 <= i < |r| :: r[i].name == members[i].name;
      } else if Before(name, members[0].name) {
        forall i | 0 < i < |r|
          ensures Before(name, r[i].name)
        {
          if i > 1 {
            BeforeTransitive(name, members[0].name, members[i - 1].name);
          }
        }
      } else {
        StoreAscending(rest, name, v);
        StoreNames(rest, name, v);
        BeforeTotal(name, members[0].name);
        forall i | 0 < i < |r|
          ensures Before(members[0].name, r[i].name)
        {
          assert r[i] == Store(rest, name, v)[i - 1];
        }
      }
    }
  }

  /** A name after all others goes to the end. */
  lemma {:induction false} StoreLast(members: seq<Member>, name: string, v: Value)
    requires forall i | 0 <= i < |members| :: Before(members[i].name, name)
    ensures Store(members, name, v) == members + [Member(name, v)]
  {
    if members != [] {
      BeforeIrreflexive(name);
      if Before(name, members[0].name) {
        BeforeTransitive(name, members[0].name, name);
      }
      StoreLast(members[1..], name, v);
    }
  }

  // ---------------------------------------------------------------- printing

  function HexDigit(n: nat): char
    requires n < 16
  {
    if n < 10 then ('0' as int + n) as char else ('a' as int + n - 10) as char
  }

  function EscapedChar(c: char): string {
    if c == '\U{0008}' then "\\b"
    else if c == '\U{000c}' then "\\f"
    else if c == '\n' then "\\n"
    else if c == '\r' then "\\r"
    else if c == '\t' then "\\t"
    else if c == '\"' then "\\\""
    else if c == '\\' then "\\\\"
    else if c >= ' ' then [c]
    else "\\u00" + [HexDigit(c as int / 16), HexDigit(c as int % 16)]
  }

  /** The texts one after the other. */
  ghost function Concat(texts: seq<string>): string {
    if texts == [] then "" else texts[0] + Concat(texts[1..])
  }

  /** The texts with commas between them. */
  ghost function Join(texts: seq<string>): string {
    if texts == [] then ""
    else if |texts| == 1 then texts[0]
    else texts[0] + "," + Join(texts[1..])
  }

  ghost function Escapes(s: string): (texts: seq<string>)
    ensures |texts| == |s| && forall i | 0 <= i < |s| :: texts[i] == EscapedChar(s[i])
  {
    seq(|s|, i requires 0 <= i < |s| => EscapedChar(s[i]))
  }

  ghost function Escaped(s: string): string {
    Concat(Escapes(s))
  }

  ghost function Quoted(s: string): string {
    "\"" + Escaped(s) + "\""
  }

  function Digit(n: nat): char
    requires n < 10
  {
    ('0' as int + n) as char
  }

  function Digits(n: nat): (s: string)
    ensures |s| > 0
  {
    if n < 10 then [Digit(n)] else Digits(n / 10) + [Digit(n % 10)]
  }

  function Decimal(n: int): string {
    if n < 0 then "-" + Digits(0 - n) else Digits(n)
  }

  ghost function Print(v: Value): string {
    match v
    case Null => "null"
    case Bool(b) => if b then "true" else "false"
    case Integer(n) => Decimal(n)
    case Text(s) => Quoted(s)
    case Array(items) => "[" + Join(ItemTexts(items)) + "]"
    case Object(members) => "{" + Join(MemberTexts(members)) + "}"
  }

  ghost function ItemTexts(items: seq<Value>): (texts: seq<string>)
    ensures |texts| == |items|
  {
    seq(|items|, i requires 0 <= i < |items| => Print(items[i]))
  }

  ghost function PrintMember(m: Member): string {
    Quoted(m.name) + ":" + Print(m.value)
  }

  ghost function MemberTexts(members: seq<Member>): (texts: seq<string>)
    ensures |texts| == |members|
  {
    seq(|members|, i requires 0 <= i < |members| => PrintMember(members[i]))
  }

  lemma ConcatStep(s: string, texts: seq<string>, i: nat)
    requires i < |texts|
    ensures s + Concat(texts[i..]) == s + texts[i] + Concat(texts[i + 1..])
  {
    assert texts[i..][0] == texts[i] && texts[i..][1..] == texts[i + 1..];
  }

  lemma JoinStep(s: string, texts: seq<string>, i: nat)
    requires i < |texts|
    ensures s + Join(texts[i..]) == if i + 1 == |texts| then s + texts[i] else s + texts[i] + "," + Join(texts[i + 1..])
  {
    assert texts[i..][0] == texts[i] && texts[i..][1..] == texts[i + 1..];
  }

  /** Appends the text of values to `s`. */
  class ToStringVisitor {
    var s: string

    constructor ()
      ensures s == ""
    {
      s := "";
    }

    method AppendString(t: string)
      modifies this
      ensures s == old(s) + Quoted(t)
    {
      s := s + "\"";
      ghost var target := s + Escaped(t);
      ghost var texts := Escapes(t);
      assert texts[0..] == texts;
      for i := 0 to |t|
        invariant s + Concat(texts[i..]) == target
      {
        ConcatStep(s, texts, i);
        s := s + EscapedChar(t[i]);
      }
      assert s == target;
      s := s + "\"";
      assert s == old(s) + Quoted(t);
    }

    method Visit(v: Value)
      modifies this
      ensures s == old(s) + Print(v)
      decreases v, 1
    {
      match v
      case Null => s := s + "null";
      case Bool(b) => s := s + if b then "true" else "false";
      case Integer(n) => s := s + Decimal(n);
      case Text(t) => AppendString(t);
      case Array(items) => VisitArray(items);
      case Object(members) => VisitObject(members);
    }

    method VisitArray(items: seq<Value>)
      modifies this
      ensures s == old(s) + ("[" + Join(ItemTexts(items)) + "]")
      decreases items, 0
    {
      s := s + "[";
      ghost var texts := ItemTexts(items);
      ghost var target := s + Join(texts);
      assert texts[0..] == texts;
      var itemsLeft := |items|;
      for i := 0 to |items|
        invariant itemsLeft == |items| - i
        invariant s + Join(texts[i..]) == target
      {
        JoinStep(s, texts, i);
        Visit(items[i]);
        itemsLeft := itemsLeft - 1;
        if itemsLeft > 0 {
          s := s + ",";
        }
      }
      assert s == target;
      s := s + "]";
      assert s == old(s) + ("[" + Join(ItemTexts(items)) + "]");
    }

    method VisitObject(members: seq<Member>)
      modifies this
      ensures s == old(s) + ("{" + Join(MemberTexts(members)) + "}")
      decreases members, 0
    {
      s := s + "{";
      ghost var texts := MemberTexts(members);
      ghost var target := s + Join(texts);
      assert texts[0..] == texts;
      var itemsLeft := |members|;
      for i := 0 to |members|
        invariant itemsLeft == |members| - i
        invariant s + Join(texts[i..]) == target
      {
        JoinStep(s, texts, i);
        VisitMember(members[i]);
        itemsLeft := itemsLeft - 1;
        if itemsLeft > 0 {
          s := s + ",";
        }
      }
      assert s == target;
      s := s + "}";
      assert s == old(s) + ("{" + Join(MemberTexts(members)) + "}");
    }

    method VisitMember(m: Member)
      modifies this
      ensures s == old(s) + PrintMember(m)
      decreases m, 0
    {
      AppendString(m.name);
      s := s + ":";
      Visit(m.value);
      assert s == old(s) + PrintMember(m);
    }
  }

  method JsonToString(v: Value) returns (s: string)
    ensures s == Print(v)
  {
    var visitor := new ToStringVisitor();
    visitor.Visit(v);
    s := visitor.s;
  }
}
