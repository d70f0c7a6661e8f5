/** The parser accepts nothing but texts of values: what it reads was written in one of the ways of the grammar. */
module JsonSoundness {
  import opened Json
  import opened JsonParser
  import opened JsonRoundTrip
  import opened JsonTexts
  import opened Results

  // ---------------------------------------------------------------- white space and numbers

  lemma {:induction false} SpaceBefore(at: string) returns (w: string)
    ensures Blank(w) && at == w + AfterSpace(at)
  {
    if IsSpace(Head(at)) {
      var rest := SpaceBefore(at[1..]);
      w := [at[0]] + rest;
    } else {
      w := "";
    }
  }

  lemma {:induction false} DigitsBefore(sp: string, n: nat) returns (digits: seq<nat>)
    ensures forall i | 0 <= i < |digits| :: digits[i] < 10
    ensures sp == DigitsText(digits) + ReadDigits(sp, n).1 && NumberOf(digits, n) == ReadDigits(sp, n).0
    ensures IsDigit(Head(sp)) ==> digits != []
  {
    if IsDigit(Head(sp)) {
      var d := sp[0] as int - '0' as int;
      var rest := DigitsBefore(sp[1..], 10 * n + d);
      digits := [d] + rest;
      assert digits[1..] == rest;
      FirstDigit(sp, d, rest, ReadDigits(sp, n).1);
    } else {
      digits := [];
    }
  }

  lemma {:induction false} FirstDigit(sp: string, d: nat, digits: seq<nat>, tail: string)
    requires sp != "" && IsDigit(sp[0]) && d == sp[0] as int - '0' as int && forall i | 0 <= i < |digits| :: digits[i] < 10
    requires sp[1..] == DigitsText(digits) + tail
    ensures sp == DigitsText([d] + digits) + tail
  {
    DigitLetter(d);
    assert DigitsText([d] + digits) == [sp[0]] + DigitsText(digits);
    assert sp == [sp[0]] + sp[1..];
  }

  lemma NumberSound(sp: string) returns (doc: Doc)
    requires (Head(sp) == '-' || IsDigit(Head(sp))) && ParseNumber(sp).Success? && ParseNumber(sp).value.1 != sp
    ensures Good(doc) && sp == DocText(doc) + ParseNumber(sp).value.1 && DocValue(doc) == ParseNumber(sp).value.0
  {
    if Head(sp) == '-' {
      var digits := DigitsBefore(sp[1..], 0);
      doc := Whole(true, digits);
      assert sp == "-" + sp[1..];
    } else {
      var digits := DigitsBefore(sp, 0);
      doc := Whole(false, digits);
      assert "" + DigitsText(digits) == DigitsText(digits);
    }
  }

  // ---------------------------------------------------------------- strings

  lemma HexOf(c: char) returns (h: Hex)
    requires HexVal(c).Success?
    ensures h.Valid() && h.Letter() == c && h.n == HexVal(c).value
  {
    var n := HexVal(c).value;
    h := Hex(n, 'A' <= c <= 'F');
  }

  lemma HexStep(sp: string, k: nat, u: nat) returns (h: Hex)
    requires k > 0 && ReadHex(sp, k, u).Success?
    ensures h.Valid() && sp != "" && sp == [h.Letter()] + sp[1..] && ReadHex(sp, k, u) == ReadHex(sp[1..], k - 1, u * 16 + h.n)
  {
    h := HexOf(Head(sp));
  }

  lemma TwoLetters(sp: string, k: nat, u: nat) returns (a: Hex, b: Hex, rest: string)
    requires k >= 2 && ReadHex(sp, k, u).Success?
    ensures a.Valid() && b.Valid() && sp == [a.Letter(), b.Letter()] + rest
    ensures ReadHex(sp, k, u) == ReadHex(rest, k - 2, (u * 16 + a.n) * 16 + b.n)
  {
    a := HexStep(sp, k, u);
    b := HexStep(sp[1..], k - 1, u * 16 + a.n);
    rest := sp[1..][1..];
  }

  lemma NoMoreHex(sp: string, u: nat)
    ensures ReadHex(sp, 0, u) == Success((u, sp))
  {
  }

  lemma QuadOf(sp: string, r: Result<(nat, string)>) returns (quad: Quad)
    requires r == ReadHex(sp, 4, 0) && r.Success?
    ensures quad.Valid() && sp == quad.Letters() + r.value.1 && quad.Number() == r.value.0
  {
    var a, b, rest := TwoLetters(sp, 4, 0);
    quad := SecondHalf(sp, a, b, rest, r);
  }

  lemma SecondHalf(sp: string, a: Hex, b: Hex, half: string, r: Result<(nat, string)>) returns (quad: Quad)
    requires a.Valid() && b.Valid() && sp == [a.Letter(), b.Letter()] + half && r.Success? && r == ReadHex(half, 2, a.n * 16 + b.n)
    ensures quad.Valid() && sp == quad.Letters() + r.value.1 && quad.Number() == r.value.0
  {
    var c, d, rest := TwoLetters(half, 2, a.n * 16 + b.n);
    quad := Quad(a, b, c, d);
    NoMoreHex(rest, quad.Number());
  }

  /** What a backslash and the text after it say. */
  datatype Escape = Name(e: char) | Number(quad: Quad)

  lemma EscapeOf(sp: string) returns (escape: Escape)
    requires Unescape(sp).Success?
    ensures var (u, rest) := Unescape(sp).value;
            match escape
            case Name(e) => e in SHORT_NAMES && sp == [e] + rest && ShortMeaning(e, 0) as int == u && u < 0x80
            case Number(quad) => quad.Valid() && sp == "u" + quad.Letters() + rest && quad.Number() == u
  {
    var c := Head(sp);
    if c == 'u' {
      var quad := QuadOf(sp[1..], ReadHex(sp[1..], 4, 0));
      escape := Number(quad);
      assert sp == "u" + sp[1..];
    } else {
      escape := Name(c);
      assert SHORT_NAMES[0..] == SHORT_NAMES && sp == [c] + sp[1..];
      ShortIsEscape(c, sp[1..]);
    }
  }

  lemma {:induction false} RunIsPlain(sp: string)
    requires PlainRun(sp).Some?
    ensures forall i | 0 <= i < PlainRun(sp).value :: PlainChar(sp[i])
  {
    if PlainChar(Head(sp)) {
      RunIsPlain(sp[1..]);
      forall i | 0 <= i < PlainRun(sp).value
        ensures PlainChar(sp[i])
      {
        assert i > 0 ==> sp[i] == sp[1..][i - 1];
      }
    }
  }

  ghost function Plains(s: string): (ps: seq<Piece>)
    requires forall i | 0 <= i < |s| :: PlainChar(s[i])
    ensures |ps| == |s| && forall i | 0 <= i < |s| :: ps[i] == Plain(s[i])
  {
    seq(|s|, i requires 0 <= i < |s| => Plain(s[i]))
  }

  lemma PlainsGood(s: string)
    requires forall i | 0 <= i < |s| :: PlainChar(s[i])
    ensures GoodPieces(Plains(s))
  {
    forall i | 0 <= i < |s|
      ensures GoodPiece(Plains(s)[i])
    {
      assert PlainChar(s[i]);
    }
  }

  lemma {:induction false} ConcatAppend(a: seq<string>, b: seq<string>)
    ensures Concat(a + b) == Concat(a) + Concat(b)
    decreases |a|
  {
    if a == [] {
      assert a + b == b;
    } else {
      assert (a + b)[1..] == a[1..] + b;
      ConcatAppend(a[1..], b);
    }
  }

  /** More pieces in front. */
  lemma PiecesAppend(a: seq<Piece>, b: seq<Piece>)
    requires GoodPieces(a) && GoodPieces(b)
    ensures GoodPieces(a + b)
    ensures Concat(PieceTexts(a + b)) == Concat(PieceTexts(a)) + Concat(PieceTexts(b)) && StringBytes(a + b) == StringBytes(a) + StringBytes(b)
  {
    assert PieceTexts(a + b) == PieceTexts(a) + PieceTexts(b);
    assert PiecesBytes(a + b) == PiecesBytes(a) + PiecesBytes(b);
    ConcatAppend(PieceTexts(a), PieceTexts(b));
    ConcatAppend(PiecesBytes(a), PiecesBytes(b));
  }

  lemma OnePiece(p: Piece)
    requires GoodPiece(p)
    ensures GoodPieces([p]) && Concat(PieceTexts([p])) == PieceText(p) && StringBytes([p]) == PieceBytes(p)
  {
    assert PieceTexts([p])[1..] == [] && PiecesBytes([p])[1..] == [];
  }

  /** `sp` is the text of the pieces, a quotation mark and `rest`, and the string is `done` with their bytes. */
  ghost predicate Spelled(sp: string, ps: seq<Piece>, done: string, r: (string, string)) {
    GoodPieces(ps) && sp == Concat(PieceTexts(ps)) + ("\"" + r.1) && r.0 == done + StringBytes(ps)
  }

  lemma SpelledAppend(text: string, front: seq<Piece>, sp: string, rest: string, ps: seq<Piece>, done: string, r: (string, string))
    requires GoodPieces(front) && text == Concat(PieceTexts(front)) && sp == text + rest
    requires Spelled(rest, ps, done + StringBytes(front), r)
    ensures Spelled(sp, front + ps, done, r)
  {
    PiecesAppend(front, ps);
    Associate(text, Concat(PieceTexts(ps)), "\"" + r.1);
    Associate(done, StringBytes(front), StringBytes(ps));
  }

  lemma Associate(a: string, b: string, c: string)
    ensures (a + b) + c == a + (b + c)
  {
  }

  lemma {:induction false} StringSound(sp: string, done: string) returns (ps: seq<Piece>)
    requires StringFrom(sp, 0, done).Success?
    ensures Spelled(sp, ps, done, StringFrom(sp, 0, done).value)
    decreases |sp|
  {
    var r := StringFrom(sp, 0, done).value;
    if Head(sp) == '\"' {
      ps := [];
      assert sp == "\"" + sp[1..] && Concat(PieceTexts(ps)) == "" && done + "" == done;
    } else {
      var front, text, rest := NextPieces(sp, done);
      var more := StringSound(rest, done + StringBytes(front));
      SpelledAppend(text, front, sp, rest, more, done, r);
      ps := front + more;
    }
  }

  /** The pieces of one round of the loop, or of two for a surrogate pair. */
  lemma NextPieces(sp: string, done: string) returns (front: seq<Piece>, text: string, rest: string)
    requires StringFrom(sp, 0, done).Success? && Head(sp) != '\"'
    ensures GoodPieces(front) && text == Concat(PieceTexts(front)) && sp == text + rest && |rest| < |sp|
    ensures StringFrom(rest, 0, done + StringBytes(front)) == StringFrom(sp, 0, done)
  {
    if Head(sp) == '\\' {
      var p;
      p, rest := EscapedPiece(sp, done);
      OnePiece(p);
      front, text := [p], PieceText(p);
    } else {
      front, text, rest := PlainPieces(sp, done);
    }
  }

  lemma PlainPieces(sp: string, done: string) returns (front: seq<Piece>, text: string, rest: string)
    requires StringFrom(sp, 0, done).Success? && Head(sp) != '\"' && Head(sp) != '\\'
    ensures GoodPieces(front) && text == Concat(PieceTexts(front)) && sp == text + rest && |rest| < |sp|
    ensures StringFrom(rest, 0, done + StringBytes(front)) == StringFrom(sp, 0, done)
  {
    var n := PlainRun(sp).value;
    RunIsPlain(sp);
    front, text, rest := Plains(sp[..n]), sp[..n], sp[n..];
    PlainsGood(text);
    ConcatChars(PieceTexts(front), text);
    ConcatChars(PiecesBytes(front), text);
    ChunkStep(sp, 0, done, text, 0, rest);
  }

  lemma EscapedPiece(sp: string, done: string) returns (p: Piece, rest: string)
    requires StringFrom(sp, 0, done).Success? && Head(sp) == '\\'
    ensures GoodPiece(p) && sp == PieceText(p) + rest && |rest| < |sp|
    ensures StringFrom(rest, 0, done + PieceBytes(p)) == StringFrom(sp, 0, done)
  {
    var (u, tail) := Unescape(sp[1..]).value;
    var escape := EscapeOf(sp[1..]);
    EscapeText(sp, escape, tail);
    UnescapeRange(sp[1..]);
    if u < LEAD_BEGIN || u >= TRAIL_END {
      p, rest := if escape.Name? then Short(escape.e) else Code(escape.quad), tail;
      assert escape.Name? ==> Utf8(u) == [ShortMeaning(escape.e, 0)];
      ChunkStep(sp, 0, done, Utf8(u), 0, tail);
    } else {
      ChunkStep(sp, 0, done, "", u, tail);
      assert done + "" == done;
      p, rest := TrailPiece(escape.quad, tail, done);
    }
  }

  lemma EscapeText(sp: string, escape: Escape, tail: string)
    requires sp != "" && sp[0] == '\\'
    requires match escape
             case Name(e) => sp[1..] == [e] + tail
             case Number(quad) => quad.Valid() && sp[1..] == "u" + quad.Letters() + tail
    ensures match escape
            case Name(e) => sp == ['\\', e] + tail
            case Number(quad) => sp == "\\u" + quad.Letters() + tail
  {
    assert sp == "\\" + sp[1..];
  }

  lemma TrailPiece(lead: Quad, tail: string, done: string) returns (p: Piece, rest: string)
    requires lead.Valid() && 0xd800 <= lead.Number() < 0xdc00 && StringFrom(tail, lead.Number(), done).Success?
    ensures GoodPiece(p) && "\\u" + lead.Letters() + tail == PieceText(p) + rest && |rest| < |tail|
    ensures StringFrom(rest, 0, done + PieceBytes(p)) == StringFrom(tail, lead.Number(), done)
  {
    var (t, after) := Unescape(tail[1..]).value;
    var escape := EscapeOf(tail[1..]);
    assert tail == "\\" + tail[1..];
    p, rest := Pair(lead, escape.quad), after;
    ChunkStep(tail, lead.Number(), done, Utf8(JoinSurrogates(lead.Number(), t)), 0, after);
  }

  // ---------------------------------------------------------------- tokens

  lemma TokenSound(sp: string) returns (doc: Doc)
    requires Token(sp).Success? && Token(sp).value.1 != sp
    ensures Good(doc) && sp == DocText(doc) + Token(sp).value.1 && DocValue(doc) == Token(sp).value.0
  {
    if Head(sp) == 'n' || Head(sp) == 't' || Head(sp) == 'f' {
      doc := Word(Token(sp).value.0);
    } else if Head(sp) == '\"' {
      var ps := StringSound(sp[1..], "");
      doc := Str(ps);
      StringTextSplit(sp, ps, Token(sp).value.1);
    } else {
      doc := NumberSound(sp);
    }
  }

  lemma StringTextSplit(sp: string, ps: seq<Piece>, rest: string)
    requires sp != "" && sp[0] == '\"' && GoodPieces(ps) && sp[1..] == Concat(PieceTexts(ps)) + ("\"" + rest)
    ensures sp == DocText(Str(ps)) + rest && "" + StringBytes(ps) == StringBytes(ps)
  {
    BracketSplit("\"", Concat(PieceTexts(ps)), "\"", sp, rest);
  }

  // ---------------------------------------------------------------- values and containers

  /** The machine accepts what is left. */
  ghost predicate Accepts(at: string, stack: seq<Frame>) {
    Stacked(stack) && Run(at, stack).Success?
  }

  /** The text at the read pointer begins with a text of a value, which is handed to the container on top. */
  ghost predicate ReadsValue(at: string, stack: seq<Frame>, before: string, doc: Doc, rest: string)
    requires Stacked(stack)
  {
    && Blank(before) && Good(doc) && at == before + (DocText(doc) + rest) && |rest| < |at|
    && Run(at, stack) == Deliver(stack, DocValue(doc), rest)
  }

  /** A number without a digit is not consumed, and then nothing accepts the sign that follows. */
  lemma NothingConsumed(sp: string, stack: seq<Frame>, v: Value)
    requires Stacked(stack) && Head(sp) == '-'
    ensures Deliver(stack, v, sp).Failure?
  {
    assert AfterSpace(sp) == sp;
  }

  lemma TokenValue(at: string, stack: seq<Frame>, sp: string, before: string) returns (doc: Doc, rest: string)
    requires Accepts(at, stack) && sp == AfterSpace(at) && Blank(before) && at == before + sp
    requires Head(sp) !in {'\0', '[', ']', '{', '}'}
    ensures ReadsValue(at, stack, before, doc, rest)
  {
    rest := Token(sp).value.1;
    if rest == sp {
      NothingConsumed(sp, stack, Token(sp).value.0);
    }
    doc := TokenSound(sp);
  }

  /** Unless the text is at its end or at a closing bracket, a value is read. */
  lemma {:induction false} ValueSound(at: string, stack: seq<Frame>) returns (before: string, doc: Doc, rest: string)
    requires Accepts(at, stack) && Head(AfterSpace(at)) !in {'\0', ']', '}'}
    ensures ReadsValue(at, stack, before, doc, rest)
    decreases |at|, 0
  {
    var sp := AfterSpace(at);
    before := SpaceBefore(at);
    if Head(sp) == '[' {
      var items, inner;
      OpenRun(at, stack, OpenArray([], true));
      items, inner, rest := ArraySound(sp[1..], stack, [], true);
      doc := Arr(items, inner);
      ArrayText(sp, items, inner, rest);
    } else if Head(sp) == '{' {
      var entries, inner, comma;
      OpenRun(at, stack, OpenObject([], "", true));
      entries, inner, comma, rest := ObjectSound(sp[1..], stack, []);
      doc := Obj(entries, inner, comma);
      ObjectText(sp, entries, inner, comma, rest);
    } else {
      doc, rest := TokenValue(at, stack, sp, before);
    }
  }

  lemma ArrayText(sp: string, items: seq<Item>, inner: string, rest: string)
    requires sp != "" && sp[0] == '[' && (forall i | 0 <= i < |items| :: GoodItem(items[i])) && Blank(inner)
    requires sp[1..] == ItemsBody(items, inner) + ("]" + rest)
    ensures Good(Arr(items, inner)) && sp == DocText(Arr(items, inner)) + rest
    ensures DocValue(Arr(items, inner)) == Array([] + ItemValues(items))
  {
    BracketSplit("[", ItemsBody(items, inner), "]", sp, rest);
    assert [] + ItemValues(items) == ItemValues(items);
  }

  lemma BracketSplit(open: string, body: string, close: string, sp: string, rest: string)
    requires |open| == 1 && sp != "" && sp[0] == open[0] && sp[1..] == body + (close + rest)
    ensures sp == open + body + close + rest
  {
    assert sp == [sp[0]] + sp[1..];
  }

  /** An opening bracket is read. */
  lemma OpenRun(at: string, stack: seq<Frame>, frame: Frame)
    requires Stacked(stack) && AfterSpace(at) != ""
    requires (Head(AfterSpace(at)) == '[' && frame == OpenArray([], true)) || (Head(AfterSpace(at)) == '{' && frame == OpenObject([], "", true))
    ensures Stacked(stack + [frame]) && Run(at, stack) == Run(AfterSpace(at)[1..], stack + [frame])
  {
  }

  lemma JoinFirst(first: string, more: seq<string>)
    ensures Join([first] + more) == if more == [] then first else first + "," + Join(more)
  {
    assert ([first] + more)[1..] == more;
  }

  /** The rest of an array: more items, the first without a comma in front, and the bracket. */
  ghost predicate ReadsItems(at: string, stack: seq<Frame>, done: seq<Value>, closeable: bool, items: seq<Item>, inner: string, rest: string)
    requires Stacked(stack)
  {
    && (forall i | 0 <= i < |items| :: GoodItem(items[i])) && Blank(inner) && (items == [] ==> closeable)
    && at == ItemsBody(items, inner) + ("]" + rest) && |rest| < |at|
    && Run(at, stack + [OpenArray(done, closeable)]) == Deliver(stack, Array(done + ItemValues(items)), rest)
  }

  /** A value with the white space around it is read. */
  lemma {:induction false} ItemSound(at: string, stack: seq<Frame>) returns (item: Item, next: string)
    requires Accepts(at, stack) && Head(AfterSpace(at)) !in {'\0', ']', '}'}
    ensures GoodItem(item) && at == ItemText(item) + next && |next| < |at| && AfterSpace(next) == next
    ensures Run(at, stack) == Deliver(stack, ItemValue(item), next)
    decreases |at|, 1
  {
    var before, doc, rest := ValueSound(at, stack);
    var after := SpaceBefore(rest);
    next := AfterSpace(rest);
    item := Item(before, doc, after);
    SpaceRun(after, next, stack, ItemValue(item));
    ItemSplit(item, next);
  }

  lemma ItemSplit(item: Item, next: string)
    requires GoodItem(item)
    ensures item.before + (DocText(item.doc) + (item.after + next)) == ItemText(item) + next
  {
  }

  lemma {:induction false} ArraySound(at: string, stack: seq<Frame>, done: seq<Value>, closeable: bool)
    returns (items: seq<Item>, inner: string, rest: string)
    requires Stacked(stack) && Accepts(at, stack + [OpenArray(done, closeable)])
    ensures ReadsItems(at, stack, done, closeable, items, inner, rest)
    decreases |at|, 2
  {
    TopOf(stack, OpenArray(done, closeable));
    if Head(AfterSpace(at)) == ']' {
      items, rest := [], AfterSpace(at)[1..];
      inner := SpaceBefore(at);
      ClosedArray(at, stack, done, closeable, inner, rest);
    } else {
      var item, next := ItemSound(at, stack + [OpenArray(done, closeable)]);
      inner := "";
      if Head(next) == ',' {
        CommaDelivery(stack, done, closeable, ItemValue(item), next);
        var more, moreInner;
        more, moreInner, rest := ArraySound(next[1..], stack, done + [ItemValue(item)], false);
        items := [item] + more;
        ItemThenMore(at, stack, done, closeable, item, next[1..], more, moreInner, rest);
      } else {
        ClosingDelivery(stack, done, closeable, ItemValue(item), next);
        items, rest := [item], next[1..];
        OneItem(item);
      }
    }
  }

  lemma TopOf(stack: seq<Frame>, top: Frame)
    requires Stacked(stack) && Stacked(stack + [top])
    ensures Top(stack + [top]) == top && (stack + [top])[..|stack|] == stack
  {
  }

  lemma ClosedArray(at: string, stack: seq<Frame>, done: seq<Value>, closeable: bool, inner: string, rest: string)
    requires Stacked(stack) && Accepts(at, stack + [OpenArray(done, closeable)])
    requires Blank(inner) && at == inner + AfterSpace(at) && AfterSpace(at) != "" && AfterSpace(at)[0] == ']' && rest == AfterSpace(at)[1..]
    ensures ReadsItems(at, stack, done, closeable, [], inner, rest)
  {
    TopOf(stack, OpenArray(done, closeable));
    assert done + ItemValues([]) == done;
    assert AfterSpace(at) == "]" + rest;
  }

  /** A comma asks for one more item. */
  lemma {:induction false} CommaDelivery(stack: seq<Frame>, done: seq<Value>, closeable: bool, v: Value, next: string)
    requires Stacked(stack) && Stacked(stack + [OpenArray(done, closeable)]) && next != "" && next[0] == ','
    ensures next == "," + next[1..] && Stacked(stack + [OpenArray(done + [v], false)])
    ensures Deliver(stack + [OpenArray(done, closeable)], v, next) == Run(next[1..], stack + [OpenArray(done + [v], false)])
  {
    assert next == "," + next[1..];
    DeliverEaten(stack, OpenArray(done, closeable), v, ',', next[1..], OpenArray(done + [v], false));
  }

  lemma ItemThenMore(at: string, stack: seq<Frame>, done: seq<Value>, closeable: bool, item: Item, next: string,
                     more: seq<Item>, inner: string, rest: string)
    requires Stacked(stack) && GoodItem(item) && at == ItemText(item) + ("," + next) && Stacked(stack + [OpenArray(done + [ItemValue(item)], false)])
    requires Run(at, stack + [OpenArray(done, closeable)]) == Run(next, stack + [OpenArray(done + [ItemValue(item)], false)])
    requires ReadsItems(next, stack, done + [ItemValue(item)], false, more, inner, rest)
    ensures ReadsItems(at, stack, done, closeable, [item] + more, "", rest)
  {
    MoreItems(item, more);
    JoinedSplit(ItemText(item), ItemsBody(more, inner), "]" + rest);
    assert done + ([ItemValue(item)] + ItemValues(more)) == done + [ItemValue(item)] + ItemValues(more);
  }

  lemma {:induction false} MoreItems(item: Item, more: seq<Item>)
    requires GoodItem(item) && more != [] && forall i | 0 <= i < |more| :: GoodItem(more[i])
    ensures (forall i | 0 <= i < |[item] + more| :: GoodItem(([item] + more)[i]))
    ensures Join(DocItemTexts([item] + more)) == ItemText(item) + "," + Join(DocItemTexts(more))
    ensures ItemValues([item] + more) == [ItemValue(item)] + ItemValues(more)
  {
    assert DocItemTexts([item] + more) == [ItemText(item)] + DocItemTexts(more);
    JoinFirst(ItemText(item), DocItemTexts(more));
  }

  lemma JoinedSplit(first: string, more: string, end: string)
    ensures first + "," + more + end == first + ("," + (more + end))
  {
  }

  /** Without a comma the bracket follows. */
  lemma {:induction false} ClosingDelivery(stack: seq<Frame>, done: seq<Value>, closeable: bool, v: Value, next: string)
    requires Stacked(stack) && Stacked(stack + [OpenArray(done, closeable)])
    requires Deliver(stack + [OpenArray(done, closeable)], v, next).Success? && AfterSpace(next) == next && Head(next) != ','
    ensures next != "" && next == "]" + next[1..]
    ensures Deliver(stack + [OpenArray(done, closeable)], v, next) == Deliver(stack, Array(done + [v]), next[1..])
  {
    TopOf(stack, OpenArray(done, closeable));
    assert Push(stack + [OpenArray(done, closeable)], v, Head(next)).Success?;
    assert Head(next) == ']' && next == "]" + next[1..];
    DeliverKept(stack, OpenArray(done, closeable), v, ']', next[1..], OpenArray(done + [v], true));
    CloseArrayRun(done + [v], true, next[1..], stack);
  }

  lemma OneItem(item: Item)
    requires GoodItem(item)
    ensures ItemsBody([item], "") == ItemText(item) && ItemValues([item]) == [ItemValue(item)]
  {
    assert DocItemTexts([item]) == [ItemText(item)];
  }

  // ---------------------------------------------------------------- objects

  /** The members after more entries. */
  ghost function After(members: seq<Member>, entries: seq<Entry>): seq<Member>
    requires forall i | 0 <= i < |entries| :: GoodEntry(entries[i])
    decreases entries
  {
    if entries == [] then members else After(Store(members, EntryName(entries[0]), EntryValue(entries[0])), entries[1..])
  }

  lemma {:induction false} AfterAppend(members: seq<Member>, entries: seq<Entry>, entry: Entry)
    requires (forall i | 0 <= i < |entries| :: GoodEntry(entries[i])) && GoodEntry(entry)
    ensures After(members, entries + [entry]) == Store(After(members, entries), EntryName(entry), EntryValue(entry))
    decreases entries
  {
    if entries == [] {
      assert ([] + [entry])[1..] == [];
    } else {
      assert (entries + [entry])[1..] == entries[1..] + [entry];
      AfterAppend(Store(members, EntryName(entries[0]), EntryValue(entries[0])), entries[1..], entry);
    }
  }

  lemma {:induction false} StoredIsAfter(entries: seq<Entry>, k: nat)
    requires k <= |entries| && forall i | 0 <= i < |entries| :: GoodEntry(entries[i])
    ensures Stored(entries, k) == After([], entries[..k])
  {
    if k > 0 {
      StoredIsAfter(entries, k - 1);
      assert entries[..k] == entries[..k - 1] + [entries[k - 1]];
      AfterAppend([], entries[..k - 1], entries[k - 1]);
    }
  }

  lemma ObjectText(sp: string, entries: seq<Entry>, inner: string, comma: Option<string>, rest: string)
    requires sp != "" && sp[0] == '{' && (forall i | 0 <= i < |entries| :: GoodEntry(entries[i])) && Blank(inner)
    requires comma.Some? ==> Blank(comma.value) && entries != []
    requires sp[1..] == EntriesBody(entries, inner, comma) + ("}" + rest)
    ensures Good(Obj(entries, inner, comma)) && sp == DocText(Obj(entries, inner, comma)) + rest
    ensures DocValue(Obj(entries, inner, comma)) == Object(After([], entries))
  {
    BracketSplit("{", EntriesBody(entries, inner, comma), "}", sp, rest);
    StoredIsAfter(entries, |entries|);
    assert entries[..|entries|] == entries;
  }

  /** The rest of an object: more members, the first without a comma in front, and the brace. */
  ghost predicate ReadsEntries(at: string, stack: seq<Frame>, done: seq<Member>, entries: seq<Entry>, inner: string, comma: Option<string>, rest: string)
    requires Stacked(stack)
  {
    && (forall i | 0 <= i < |entries| :: GoodEntry(entries[i])) && Blank(inner) && (comma.Some? ==> Blank(comma.value) && entries != [])
    && at == EntriesBody(entries, inner, comma) + ("}" + rest) && |rest| < |at|
    && Run(at, stack + [OpenObject(done, "", true)]) == Deliver(stack, Object(After(done, entries)), rest)
  }

  lemma {:induction false} ObjectSound(at: string, stack: seq<Frame>, done: seq<Member>)
    returns (entries: seq<Entry>, inner: string, comma: Option<string>, rest: string)
    requires Stacked(stack) && Accepts(at, stack + [OpenObject(done, "", true)])
    ensures ReadsEntries(at, stack, done, entries, inner, comma, rest)
    decreases |at|, 2
  {
    var sp := AfterSpace(at);
    TopOf(stack, OpenObject(done, "", true));
    comma := None;
    if Head(sp) == '}' {
      entries, rest := [], sp[1..];
      inner := SpaceBefore(at);
      ClosedObject(at, stack, done, inner, rest);
    } else {
      var before, name, after, tail := NameSound(at, stack, done);
      NoClosing(tail, stack, done, StringBytes(name));
      var item, next := ItemSound(tail, stack + [OpenObject(done, StringBytes(name), false)]);
      var entry := Entry(before, name, after, item);
      EntryRead(at, stack, done, entry, tail, next);
      inner := "";
      if Head(next) == ',' {
        NextEntry(stack, done, entry, next);
        var more, moreInner, moreComma;
        more, moreInner, moreComma, rest := ObjectSound(next[1..], stack, Store(done, EntryName(entry), EntryValue(entry)));
        entries, comma := [entry] + more, if more == [] then Some(moreInner) else moreComma;
        EntryThenMore(at, stack, done, entry, next[1..], more, moreInner, moreComma, rest);
      } else {
        LastEntry(at, stack, done, entry, next);
        entries, rest := [entry], next[1..];
      }
    }
  }

  lemma ClosedObject(at: string, stack: seq<Frame>, done: seq<Member>, inner: string, rest: string)
    requires Stacked(stack) && Accepts(at, stack + [OpenObject(done, "", true)])
    requires Blank(inner) && at == inner + AfterSpace(at) && AfterSpace(at) != "" && AfterSpace(at)[0] == '}' && rest == AfterSpace(at)[1..]
    ensures ReadsEntries(at, stack, done, [], inner, None, rest)
  {
    TopOf(stack, OpenObject(done, "", true));
    assert AfterSpace(at) == "}" + rest;
  }

  /** A name and a colon are read. */
  lemma {:induction false} NameSound(at: string, stack: seq<Frame>, done: seq<Member>)
    returns (before: string, name: seq<Piece>, after: string, tail: string)
    requires Stacked(stack) && Accepts(at, stack + [OpenObject(done, "", true)]) && Head(AfterSpace(at)) != '}'
    ensures Blank(before) && GoodPieces(name) && Blank(after) && |tail| < |at|
    ensures at == before + (StringText(name) + (after + (":" + tail)))
    ensures Stacked(stack + [OpenObject(done, StringBytes(name), false)])
    ensures Run(at, stack + [OpenObject(done, "", true)]) == Run(tail, stack + [OpenObject(done, StringBytes(name), false)])
    decreases |at|, 1
  {
    TopOf(stack, OpenObject(done, "", true));
    var doc, rest;
    before, doc, rest := ValueSound(at, stack + [OpenObject(done, "", true)]);
    after := SpaceBefore(rest);
    SpaceRun(after, AfterSpace(rest), stack + [OpenObject(done, "", true)], DocValue(doc));
    NameDelivery(stack, done, DocValue(doc), AfterSpace(rest));
    name, tail := doc.pieces, AfterSpace(rest)[1..];
  }

  /** Only a string followed by a colon can be the name of a member. */
  lemma NameDelivery(stack: seq<Frame>, done: seq<Member>, v: Value, next: string)
    requires Stacked(stack) && Stacked(stack + [OpenObject(done, "", true)])
    requires Deliver(stack + [OpenObject(done, "", true)], v, next).Success? && AfterSpace(next) == next
    ensures v.Text? && next != "" && next == ":" + next[1..] && Stacked(stack + [OpenObject(done, v.s, false)])
    ensures Deliver(stack + [OpenObject(done, "", true)], v, next) == Run(next[1..], stack + [OpenObject(done, v.s, false)])
  {
    TopOf(stack, OpenObject(done, "", true));
    assert Push(stack + [OpenObject(done, "", true)], v, Head(next)).Success?;
    assert v.Text? && Head(next) == ':' && next == ":" + next[1..];
    DeliverEaten(stack, OpenObject(done, "", true), v, ':', next[1..], OpenObject(done, v.s, false));
  }

  /** After a name a value must follow. */
  lemma NoClosing(at: string, stack: seq<Frame>, done: seq<Member>, key: string)
    requires Stacked(stack) && Accepts(at, stack + [OpenObject(done, key, false)])
    ensures Head(AfterSpace(at)) !in {'\0', ']', '}'}
  {
    TopOf(stack, OpenObject(done, key, false));
  }

  /** The whole entry is read. */
  lemma EntryRead(at: string, stack: seq<Frame>, done: seq<Member>, entry: Entry, tail: string, next: string)
    requires Stacked(stack) && GoodEntry(entry) && Stacked(stack + [OpenObject(done, EntryName(entry), false)])
    requires at == entry.before + (StringText(entry.name) + (entry.after + (":" + tail))) && tail == ItemText(entry.item) + next
    requires Accepts(at, stack + [OpenObject(done, "", true)])
    requires Run(at, stack + [OpenObject(done, "", true)]) == Run(tail, stack + [OpenObject(done, EntryName(entry), false)])
    requires Run(tail, stack + [OpenObject(done, EntryName(entry), false)])
          == Deliver(stack + [OpenObject(done, EntryName(entry), false)], EntryValue(entry), next)
    ensures at == EntryText(entry) + next
    ensures Run(at, stack + [OpenObject(done, "", true)]) == Deliver(stack + [OpenObject(done, EntryName(entry), false)], EntryValue(entry), next)
  {
    EntrySplit(entry, next);
  }

  lemma NextEntry(stack: seq<Frame>, done: seq<Member>, entry: Entry, next: string)
    requires Stacked(stack) && GoodEntry(entry) && Stacked(stack + [OpenObject(done, EntryName(entry), false)]) && next != "" && next[0] == ','
    ensures next == "," + next[1..]
    ensures var more := stack + [OpenObject(Store(done, EntryName(entry), EntryValue(entry)), "", true)];
            Stacked(more) && Deliver(stack + [OpenObject(done, EntryName(entry), false)], EntryValue(entry), next) == Run(next[1..], more)
  {
    assert next == "," + next[1..];
    DeliverEaten(stack, OpenObject(done, EntryName(entry), false), EntryValue(entry), ',', next[1..],
                 OpenObject(Store(done, EntryName(entry), EntryValue(entry)), "", true));
  }

  lemma EntryThenMore(at: string, stack: seq<Frame>, done: seq<Member>, entry: Entry, next: string,
                      more: seq<Entry>, inner: string, comma: Option<string>, rest: string)
    requires Stacked(stack) && GoodEntry(entry) && at == EntryText(entry) + ("," + next)
    requires Stacked(stack + [OpenObject(Store(done, EntryName(entry), EntryValue(entry)), "", true)])
    requires Stacked(stack + [OpenObject(done, "", true)])
    requires Run(at, stack + [OpenObject(done, "", true)])
          == Run(next, stack + [OpenObject(Store(done, EntryName(entry), EntryValue(entry)), "", true)])
    requires ReadsEntries(next, stack, Store(done, EntryName(entry), EntryValue(entry)), more, inner, comma, rest)
    ensures ReadsEntries(at, stack, done, [entry] + more, "", if more == [] then Some(inner) else comma, rest)
  {
    MoreEntries(entry, more, inner, comma);
    JoinedSplit(EntryText(entry), EntriesBody(more, inner, comma), "}" + rest);
    assert ([entry] + more)[1..] == more;
  }

  lemma MoreEntries(entry: Entry, more: seq<Entry>, inner: string, comma: Option<string>)
    requires GoodEntry(entry) && forall i | 0 <= i < |more| :: GoodEntry(more[i])
    ensures (forall i | 0 <= i < |[entry] + more| :: GoodEntry(([entry] + more)[i]))
    ensures EntriesBody([entry] + more, "", if more == [] then Some(inner) else comma) == EntryText(entry) + "," + EntriesBody(more, inner, comma)
  {
    JoinEntries(entry, more);
    if more == [] {
      FirstSplit(EntryText(entry), "", ",", inner);
    } else {
      FirstSplit(EntryText(entry), ",", Join(DocEntryTexts(more)), CommaText(comma));
    }
  }

  lemma JoinEntries(entry: Entry, more: seq<Entry>)
    requires GoodEntry(entry) && forall i | 0 <= i < |more| :: GoodEntry(more[i])
    ensures (forall i | 0 <= i < |[entry] + more| :: GoodEntry(([entry] + more)[i]))
    ensures Join(DocEntryTexts([entry] + more)) == if more == [] then EntryText(entry) else EntryText(entry) + "," + Join(DocEntryTexts(more))
  {
    assert DocEntryTexts([entry] + more) == [EntryText(entry)] + DocEntryTexts(more);
    JoinFirst(EntryText(entry), DocEntryTexts(more));
  }

  lemma FirstSplit(first: string, comma: string, more: string, last: string)
    ensures first + comma + more + last == first + comma + (more + last) && first + (more + last) == first + more + last
  {
  }

  /** Without a comma the brace follows. */
  lemma ClosingMember(stack: seq<Frame>, done: seq<Member>, key: string, v: Value, next: string)
    requires Stacked(stack) && Stacked(stack + [OpenObject(done, key, false)])
    requires Deliver(stack + [OpenObject(done, key, false)], v, next).Success? && AfterSpace(next) == next && Head(next) != ','
    ensures next != "" && next == "}" + next[1..]
    ensures Deliver(stack + [OpenObject(done, key, false)], v, next) == Deliver(stack, Object(Store(done, key, v)), next[1..])
  {
    TopOf(stack, OpenObject(done, key, false));
    assert Push(stack + [OpenObject(done, key, false)], v, Head(next)).Success?;
    assert Head(next) == '}' && next == "}" + next[1..];
    DeliverKept(stack, OpenObject(done, key, false), v, '}', next[1..], OpenObject(Store(done, key, v), "", true));
    CloseObjectRun(Store(done, key, v), next[1..], stack);
  }

  lemma {:induction false} LastEntry(at: string, stack: seq<Frame>, done: seq<Member>, entry: Entry, next: string)
    requires Stacked(stack) && GoodEntry(entry) && Accepts(at, stack + [OpenObject(done, "", true)])
    requires Stacked(stack + [OpenObject(done, EntryName(entry), false)]) && at == EntryText(entry) + next
    requires Run(at, stack + [OpenObject(done, "", true)]) == Deliver(stack + [OpenObject(done, EntryName(entry), false)], EntryValue(entry), next)
    requires AfterSpace(next) == next && Head(next) != ','
    ensures next != "" && ReadsEntries(at, stack, done, [entry], "", None, next[1..])
  {
    ClosingMember(stack, done, EntryName(entry), EntryValue(entry), next);
    OneEntry(entry, done);
  }

  lemma OneEntry(entry: Entry, done: seq<Member>)
    requires GoodEntry(entry)
    ensures EntriesBody([entry], "", None) == EntryText(entry)
    ensures After(done, [entry]) == Store(done, EntryName(entry), EntryValue(entry))
  {
    assert DocEntryTexts([entry]) == [EntryText(entry)] && [entry][1..] == [];
  }

  // ---------------------------------------------------------------- whole texts

  /** The text is one way to write the value, with white space around it. */
  ghost predicate IsText(s: string, v: Value, doc: Doc, before: string, after: string, junk: string) {
    && Good(doc) && Blank(before) && Blank(after) && Unread(junk)
    && s == before + DocText(doc) + after + junk && v == DocValue(doc)
  }

  lemma AcceptedIsText(s: string) returns (doc: Doc, before: string, after: string, junk: string)
    requires Parse(s).Success?
    ensures IsText(s, Parse(s).value, doc, before, after, junk)
  {
    FirstIsValue(s);
    var rest;
    before, doc, rest := ValueSound(s, [Sentinel(None)]);
    after := SpaceBefore(rest);
    junk := AfterSpace(rest);
    SpaceRun(after, junk, [Sentinel(None)], DocValue(doc));
    LastDelivery(DocValue(doc), junk);
    TextSplit(before, DocText(doc), after, junk);
  }

  /** An empty text or a closing bracket at the front is refused. */
  lemma FirstIsValue(s: string)
    requires Parse(s).Success?
    ensures Head(AfterSpace(s)) !in {'\0', ']', '}'}
  {
    assert Top([Sentinel(None)]) == Sentinel(None);
  }

  /** After the value of the whole text only white space may follow. */
  lemma LastDelivery(v: Value, next: string)
    requires AfterSpace(next) == next && Deliver([Sentinel(None)], v, next).Success?
    ensures Unread(next) && Deliver([Sentinel(None)], v, next) == Success(v)
  {
    assert Top([Sentinel(None)]) == Sentinel(None);
    assert Push([Sentinel(None)], v, Head(next)).Success?;
    assert [Sentinel(None)][0 := Sentinel(Some(v))] == [Sentinel(Some(v))];
  }

  lemma TextSplit(before: string, text: string, after: string, junk: string)
    ensures before + (text + (after + junk)) == before + text + after + junk
  {
  }

  /** The parser accepts exactly the texts of values, and reads each as the value it means. */
  lemma ParsesExactlyTexts(s: string, v: Value)
    ensures Parse(s) == Success(v) <==>
            exists doc: Doc, before: string, after: string, junk: string :: IsText(s, v, doc, before, after, junk)
  {
    if Parse(s) == Success(v) {
      var doc, before, after, junk := AcceptedIsText(s);
    }
    if doc: Doc, before: string, after: string, junk: string :| IsText(s, v, doc, before, after, junk) {
      TextIsRead(doc, before, after, junk);
    }
  }
}
