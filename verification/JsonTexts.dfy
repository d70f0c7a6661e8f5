/** The texts of JSON values: every way to write one, with white space and escapes, and what it means.

Characters are bytes. Texts follow the grammar of RFC 8259 without fractions and exponents, with what the parser accepts
beyond it: the white space of the C locale, leading zeros, raw control characters in strings, and a comma after the last
member of an object. */
module JsonTexts {
  import opened Json
  import opened JsonParser
  import opened Results

  // ---------------------------------------------------------------- UTF-8

  predicate IsContinuation(c: char) {
    '\U{0080}' <= c < '\U{00c0}'
  }

  /** The code point that a byte sequence stands for by the byte ranges of section 3 of RFC 3629; overlong forms mean nothing. */
  function DecodeUtf8(s: string): Option<nat> {
    if |s| == 1 && s[0] < '\U{0080}' then Some(s[0] as nat)
    else if |s| == 2 && '\U{00c2}' <= s[0] < '\U{00e0}' && IsContinuation(s[1]) then
      Some((s[0] as nat - 0xc0) * 0x40 + (s[1] as nat - 0x80))
    else if |s| == 3 && '\U{00e0}' <= s[0] < '\U{00f0}' && IsContinuation(s[1]) && IsContinuation(s[2])
            && (s[0] == '\U{00e0}' ==> s[1] >= '\U{00a0}') then
      Some((s[0] as nat - 0xe0) * 0x1000 + (s[1] as nat - 0x80) * 0x40 + (s[2] as nat - 0x80))
    else if |s| == 4 && '\U{00f0}' <= s[0] < '\U{00f8}' && IsContinuation(s[1]) && IsContinuation(s[2]) && IsContinuation(s[3])
            && (s[0] == '\U{00f0}' ==> s[1] >= '\U{0090}') then
      Some((s[0] as nat - 0xf0) * 0x4_0000 + (s[1] as nat - 0x80) * 0x1000 + (s[2] as nat - 0x80) * 0x40 + (s[3] as nat - 0x80))
    else None
  }

  /** Every code point is written as the byte sequence that stands for it. */
  lemma Utf8IsDecoded(u: nat)
    requires u < 0x20_0000
    ensures DecodeUtf8(Utf8(u)) == Some(u)
  {
    if u < 0x80 {
    } else if u < 0x800 {
      assert u == u / 0x40 * 0x40 + u % 0x40;
    } else if u < 0x1_0000 {
      Split(u, 0x40);
      Split(u / 0x40, 0x40);
      assert u / 0x40 / 0x40 == u / 0x1000;
    } else {
      Split(u, 0x40);
      Split(u / 0x40, 0x40);
      Split(u / 0x40 / 0x40, 0x40);
      assert u / 0x40 / 0x40 == u / 0x1000 && u / 0x1000 / 0x40 == u / 0x4_0000;
    }
  }

  lemma Split(n: nat, m: nat)
    requires m > 0
    ensures n == n / m * m + n % m && n % m < m
  {
  }

  /** No other byte sequence stands for it. */
  lemma DecodedIsUtf8(s: string)
    requires DecodeUtf8(s).Some?
    ensures DecodeUtf8(s).value < 0x20_0000 && Utf8(DecodeUtf8(s).value) == s
  {
    if |s| == 1 {
    } else if |s| == 2 {
      Digits64(s[0] as nat - 0xc0, s[1] as nat - 0x80);
    } else if |s| == 3 {
      var a, b, c := s[0] as nat - 0xe0, s[1] as nat - 0x80, s[2] as nat - 0x80;
      Digits64(a * 0x40 + b, c);
      Digits64(a, b);
    } else {
      FourBytes(s[0] as nat - 0xf0, s[1] as nat - 0x80, s[2] as nat - 0x80, s[3] as nat - 0x80);
    }
  }

  lemma FourBytes(a: nat, b: nat, c: nat, d: nat)
    requires b < 0x40 && c < 0x40 && d < 0x40
    ensures var u := a * 0x4_0000 + b * 0x1000 + c * 0x40 + d;
            u / 0x4_0000 == a && u / 0x1000 % 0x40 == b && u / 0x40 % 0x40 == c && u % 0x40 == d
  {
    Digits64((a * 0x40 + b) * 0x40 + c, d);
    Digits64(a * 0x40 + b, c);
    Digits64(a, b);
  }

  lemma Digits64(a: nat, b: nat)
    requires b < 0x40
    ensures (a * 0x40 + b) / 0x40 == a && (a * 0x40 + b) % 0x40 == b
  {
  }

  // ---------------------------------------------------------------- pieces of a string

  const LOWER := "0123456789abcdef"
  const UPPER := "0123456789ABCDEF"

  /** A hexadecimal digit of either case. */
  datatype Hex = Hex(n: nat, upper: bool)
  {
    predicate Valid() {
      n < 16
    }

    function Letter(): char
      requires Valid()
    {
      if upper then UPPER[n] else LOWER[n]
    }
  }

  /** Four digits of a `\u` escape. */
  datatype Quad = Quad(a: Hex, b: Hex, c: Hex, d: Hex)
  {
    predicate Valid() {
      a.Valid() && b.Valid() && c.Valid() && d.Valid()
    }

    function Number(): (n: nat)
      requires Valid()
      ensures n < 0x1_0000
    {
      a.n * 0x1000 + b.n * 0x100 + c.n * 0x10 + d.n
    }

    function Letters(): string
      requires Valid()
    {
      [a.Letter(), b.Letter(), c.Letter(), d.Letter()]
    }
  }

  /** One character of a string as it is written. */
  datatype Piece = Plain(c: char) | Short(e: char) | Code(quad: Quad) | Pair(lead: Quad, trail: Quad)

  const SHORT_NAMES := "\"\\/bfnrt"
  const SHORT_MEANINGS := "\"\\/\U{0008}\U{000c}\n\r\t"

  predicate GoodPiece(p: Piece) {
    match p
    case Plain(c) => c != '\0' && c != '\\' && c != '\"'
    case Short(e) => e in SHORT_NAMES
    case Code(quad) => quad.Valid() && (quad.Number() < 0xd800 || quad.Number() >= 0xe000)
    case Pair(lead, trail) => lead.Valid() && trail.Valid() && 0xd800 <= lead.Number() < 0xdc00 <= trail.Number() < 0xe000
  }

  function PieceText(p: Piece): (t: string)
    requires GoodPiece(p)
    ensures t != ""
  {
    match p
    case Plain(c) => [c]
    case Short(e) => ['\\', e]
    case Code(quad) => "\\u" + quad.Letters()
    case Pair(lead, trail) => "\\u" + lead.Letters() + "\\u" + trail.Letters()
  }

  function ShortMeaning(e: char, k: nat): char
    requires k <= |SHORT_NAMES| && e in SHORT_NAMES[k..]
    decreases |SHORT_NAMES| - k
  {
    if SHORT_NAMES[k] == e then SHORT_MEANINGS[k] else ShortMeaning(e, k + 1)
  }

  /** The bytes a piece stands for. */
  function PieceBytes(p: Piece): string
    requires GoodPiece(p)
  {
    match p
    case Plain(c) => [c]
    case Short(e) => [ShortMeaning(e, 0)]
    case Code(quad) => Utf8(quad.Number())
    case Pair(lead, trail) => Utf8(JoinSurrogates(lead.Number(), trail.Number()))
  }

  ghost predicate GoodPieces(ps: seq<Piece>) {
    forall i | 0 <= i < |ps| :: GoodPiece(ps[i])
  }

  ghost function PieceTexts(ps: seq<Piece>): (texts: seq<string>)
    requires GoodPieces(ps)
    ensures |texts| == |ps| && forall i | 0 <= i < |ps| :: texts[i] == PieceText(ps[i])
  {
    seq(|ps|, i requires 0 <= i < |ps| => PieceText(ps[i]))
  }

  ghost function PiecesBytes(ps: seq<Piece>): (parts: seq<string>)
    requires GoodPieces(ps)
    ensures |parts| == |ps| && forall i | 0 <= i < |ps| :: parts[i] == PieceBytes(ps[i])
  {
    seq(|ps|, i requires 0 <= i < |ps| => PieceBytes(ps[i]))
  }

  ghost function StringText(ps: seq<Piece>): string
    requires GoodPieces(ps)
  {
    "\"" + Concat(PieceTexts(ps)) + "\""
  }

  ghost function StringBytes(ps: seq<Piece>): string
    requires GoodPieces(ps)
  {
    Concat(PiecesBytes(ps))
  }

  // ---------------------------------------------------------------- documents

  predicate BlankChar(c: char) {
    c in {' ', '\t', '\n', '\r', '\U{000b}', '\U{000c}'}
  }

  predicate Blank(w: string) {
    forall c | c in w :: BlankChar(c)
  }

  /** One way to write a value. `inner` is the white space of an empty container; `comma` the one after a last comma. */
  datatype Doc =
    | Word(v: Value)
    | Whole(negative: bool, digits: seq<nat>)
    | Str(pieces: seq<Piece>)
    | Arr(items: seq<Item>, inner: string)
    | Obj(entries: seq<Entry>, inner: string, comma: Option<string>)

  datatype Item = Item(before: string, doc: Doc, after: string)
  datatype Entry = Entry(before: string, name: seq<Piece>, after: string, item: Item)

  const DIGITS := "0123456789"

  ghost predicate GoodDigits(digits: seq<nat>) {
    digits != [] && forall i | 0 <= i < |digits| :: digits[i] < 10
  }

  /** The number that the digits denote after `n`. */
  ghost function NumberOf(digits: seq<nat>, n: nat): nat {
    if digits == [] then n else NumberOf(digits[1..], 10 * n + digits[0])
  }

  ghost function DigitsText(digits: seq<nat>): (t: string)
    requires forall i | 0 <= i < |digits| :: digits[i] < 10
    ensures |t| == |digits| && forall i | 0 <= i < |t| :: t[i] == DIGITS[digits[i]]
  {
    seq(|digits|, i requires 0 <= i < |digits| => DIGITS[digits[i]])
  }

  ghost function WholeValue(negative: bool, digits: seq<nat>): int {
    if negative then 0 - NumberOf(digits, 0) else NumberOf(digits, 0)
  }

  ghost predicate Good(doc: Doc) {
    match doc
    case Word(v) => v.Null? || v.Bool?
    case Whole(negative, digits) => GoodDigits(digits) && Fits(WholeValue(negative, digits))
    case Str(ps) => GoodPieces(ps)
    case Arr(items, inner) => Blank(inner) && forall i | 0 <= i < |items| :: GoodItem(items[i])
    case Obj(entries, inner, comma) => Blank(inner) && (comma.Some? ==> Blank(comma.value) && entries != [])
                                       && forall i | 0 <= i < |entries| :: GoodEntry(entries[i])
  }

  ghost predicate GoodItem(item: Item) {
    Blank(item.before) && Blank(item.after) && Good(item.doc)
  }

  ghost predicate GoodEntry(entry: Entry) {
    Blank(entry.before) && GoodPieces(entry.name) && Blank(entry.after) && GoodItem(entry.item)
  }

  ghost function DocText(doc: Doc): string
    requires Good(doc)
  {
    match doc
    case Word(Null) => "null"
    case Word(Bool(b)) => if b then "true" else "false"
    case Whole(negative, digits) => (if negative then "-" else "") + DigitsText(digits)
    case Str(ps) => StringText(ps)
    case Arr(items, inner) => "[" + ItemsBody(items, inner) + "]"
    case Obj(entries, inner, comma) => "{" + EntriesBody(entries, inner, comma) + "}"
  }

  /** What stands between the brackets. */
  ghost function ItemsBody(items: seq<Item>, inner: string): string
    requires forall i | 0 <= i < |items| :: GoodItem(items[i])
    decreases items, 1
  {
    if items == [] then inner else Join(DocItemTexts(items))
  }

  /** What stands between the braces. */
  ghost function EntriesBody(entries: seq<Entry>, inner: string, comma: Option<string>): string
    requires forall i | 0 <= i < |entries| :: GoodEntry(entries[i])
    decreases entries, 1
  {
    if entries == [] then inner else Join(DocEntryTexts(entries)) + CommaText(comma)
  }

  ghost function CommaText(comma: Option<string>): string {
    if comma.Some? then "," + comma.value else ""
  }

  ghost function ItemText(item: Item): string
    requires GoodItem(item)
  {
    item.before + DocText(item.doc) + item.after
  }

  ghost function EntryText(entry: Entry): string
    requires GoodEntry(entry)
  {
    entry.before + StringText(entry.name) + entry.after + ":" + ItemText(entry.item)
  }

  ghost function DocItemTexts(items: seq<Item>): (texts: seq<string>)
    requires forall i | 0 <= i < |items| :: GoodItem(items[i])
    ensures |texts| == |items| && forall i | 0 <= i < |items| :: texts[i] == ItemText(items[i])
    decreases items, 0
  {
    seq(|items|, i requires 0 <= i < |items| => ItemText(items[i]))
  }

  ghost function DocEntryTexts(entries: seq<Entry>): (texts: seq<string>)
    requires forall i | 0 <= i < |entries| :: GoodEntry(entries[i])
    ensures |texts| == |entries| && forall i | 0 <= i < |entries| :: texts[i] == EntryText(entries[i])
    decreases entries, 0
  {
    seq(|entries|, i requires 0 <= i < |entries| => EntryText(entries[i]))
  }

  /** The value that is written. White space does not enter; of two members with one name the later counts. */
  ghost function DocValue(doc: Doc): Value
    requires Good(doc)
  {
    match doc
    case Word(v) => v
    case Whole(negative, digits) => Integer(WholeValue(negative, digits))
    case Str(ps) => Text(StringBytes(ps))
    case Arr(items, _) => Array(ItemValues(items))
    case Obj(entries, _, _) => Object(Stored(entries, |entries|))
  }

  ghost function ItemValue(item: Item): Value
    requires GoodItem(item)
  {
    DocValue(item.doc)
  }

  ghost function ItemValues(items: seq<Item>): (vs: seq<Value>)
    requires forall i | 0 <= i < |items| :: GoodItem(items[i])
    ensures |vs| == |items| && forall i | 0 <= i < |items| :: vs[i] == ItemValue(items[i])
  {
    seq(|items|, i requires 0 <= i < |items| => ItemValue(items[i]))
  }

  ghost function EntryName(entry: Entry): string
    requires GoodEntry(entry)
  {
    StringBytes(entry.name)
  }

  ghost function EntryValue(entry: Entry): Value
    requires GoodEntry(entry)
  {
    ItemValue(entry.item)
  }

  /** The members after the first `k` entries. */
  ghost function Stored(entries: seq<Entry>, k: nat): seq<Member>
    requires k <= |entries| && forall i | 0 <= i < |entries| :: GoodEntry(entries[i])
    decreases entries, k
  {
    if k == 0 then [] else Store(Stored(entries, k - 1), EntryName(entries[k - 1]), EntryValue(entries[k - 1]))
  }
}
