/** The parser reads every text of a value as that value, and so undoes the printer. */
module JsonRoundTrip {
  import opened Json
  import opened JsonParser
  import opened JsonTexts
  import opened Results

  // ---------------------------------------------------------------- numbers

  /** A number may not run into more digits or into a fraction or exponent. */
  predicate EndsNumber(rest: string) {
    var c := Head(rest);
    !IsDigit(c) && c != '.' && c != 'e' && c != 'E'
  }

  lemma DigitLetter(d: nat)
    requires d < 10
    ensures IsDigit(DIGITS[d]) && DIGITS[d] as int - '0' as int == d
  {
  }

  lemma {:induction false} DigitsRead(digits: seq<nat>, rest: string, n: nat)
    requires forall i | 0 <= i < |digits| :: digits[i] < 10
    ensures ReadDigits(DigitsText(digits) + rest, n) == ReadDigits(rest, NumberOf(digits, n))
    decreases digits
  {
    if digits == [] {
      assert DigitsText(digits) + rest == rest;
    } else {
      DigitLetter(digits[0]);
      var text := DigitsText(digits) + rest;
      assert text[1..] == DigitsText(digits[1..]) + rest;
      DigitsRead(digits[1..], rest, 10 * n + digits[0]);
    }
  }

  lemma WholeRead(negative: bool, digits: seq<nat>, rest: string)
    requires GoodDigits(digits) && Fits(WholeValue(negative, digits)) && EndsNumber(rest)
    ensures var text := (if negative then "-" else "") + DigitsText(digits) + rest;
            && (Head(text) == '-' || IsDigit(Head(text)))
            && ParseNumber(text) == Success((Integer(WholeValue(negative, digits)), rest))
  {
    var text := DigitsText(digits) + rest;
    DigitLetter(digits[0]);
    DigitsRead(digits, rest, 0);
    if negative {
      assert ("-" + DigitsText(digits) + rest)[1..] == text;
    } else {
      assert "" + DigitsText(digits) + rest == text;
    }
  }

  // ---------------------------------------------------------------- strings

  predicate PlainChar(c: char) {
    c != '\0' && c != '\\' && c != '\"'
  }

  /** One round of the string loop. */
  lemma ChunkStep(sp: string, lead: nat, done: string, s: string, l: nat, rest: string)
    requires NextChunk(sp, lead) == Success(More(s, l, rest))
    ensures StringFrom(sp, lead, done) == StringFrom(rest, l, done + s)
  {
  }

  lemma PlainNext(c: char, t: string)
    requires PlainChar(c)
    ensures PlainRun([c] + t) == match PlainRun(t) case None => None case Some(n) => Some(n + 1)
  {
    assert ([c] + t)[1..] == t;
  }

  lemma PlainChunk(c: char, t: string, n: nat)
    requires PlainChar(c) && PlainRun(t) == Some(n)
    ensures n < |t| && NextChunk([c] + t, 0) == Success(More([c] + t[..n], 0, t[n..]))
  {
    var sp := [c] + t;
    PlainNext(c, t);
    RunIsChunk(sp, n + 1);
    assert sp[..n + 1] == [c] + t[..n] && sp[n + 1..] == t[n..];
  }

  lemma RunIsChunk(sp: string, n: nat)
    requires sp != "" && PlainChar(sp[0]) && PlainRun(sp) == Some(n)
    ensures n < |sp| && NextChunk(sp, 0) == Success(More(sp[..n], 0, sp[n..]))
  {
  }

  lemma RunChunk(t: string, n: nat)
    requires PlainRun(t) == Some(n) && n > 0
    ensures n < |t| && NextChunk(t, 0) == Success(More(t[..n], 0, t[n..]))
  {
    RunIsChunk(t, n);
  }

  lemma NoChunk(c: char, t: string)
    requires PlainChar(c) && PlainRun(t) == None
    ensures NextChunk([c] + t, 0) == NextChunk(t, 0) == Failure("unexpected end of input")
  {
    assert ([c] + t)[1..] == t;
  }

  /** Plain characters may be read one at a time instead of a run at a time. */
  lemma PlainStep(c: char, t: string, done: string)
    requires PlainChar(c)
    ensures StringFrom([c] + t, 0, done) == StringFrom(t, 0, done + [c])
  {
    match PlainRun(t)
    case None =>
      NoChunk(c, t);
    case Some(n) =>
      PlainChunk(c, t, n);
      ChunkStep([c] + t, 0, done, [c] + t[..n], 0, t[n..]);
      assert done + ([c] + t[..n]) == done + [c] + t[..n];
      if n == 0 {
        assert t[0..] == t && done + [c] + t[..0] == done + [c];
      } else {
        RunChunk(t, n);
        ChunkStep(t, 0, done + [c], t[..n], 0, t[n..]);
      }
  }

  lemma ShortIsEscape(e: char, t: string)
    requires e in SHORT_NAMES
    ensures Unescape([e] + t) == Success((ShortMeaning(e, 0) as int, t)) && ShortMeaning(e, 0) as int < 0x80
  {
    assert ([e] + t)[1..] == t;
    assert SHORT_NAMES[0..] == SHORT_NAMES;
  }

  /** A one-character escape. */
  lemma ShortStep(e: char, t: string, done: string)
    requires e in SHORT_NAMES
    ensures StringFrom(['\\', e] + t, 0, done) == StringFrom(t, 0, done + [ShortMeaning(e, 0)])
  {
    ShortIsEscape(e, t);
    assert (['\\', e] + t)[1..] == [e] + t;
    assert Utf8(ShortMeaning(e, 0) as int) == [ShortMeaning(e, 0)];
  }

  lemma LetterRead(h: Hex)
    requires h.Valid()
    ensures HexVal(h.Letter()) == Success(h.n)
  {
  }

  lemma LetterStep(h: Hex, t: string, k: nat, u: nat)
    requires h.Valid()
    ensures ReadHex([h.Letter()] + t, k + 1, u) == ReadHex(t, k, u * 16 + h.n)
  {
    LetterRead(h);
    assert ([h.Letter()] + t)[1..] == t;
  }

  /** Four hexadecimal digits of either case are read as the number they denote. */
  lemma QuadRead(quad: Quad, t: string)
    requires quad.Valid()
    ensures Unescape("u" + quad.Letters() + t) == Success((quad.Number(), t))
  {
    var a, b, c, d := quad.a, quad.b, quad.c, quad.d;
    assert ("u" + quad.Letters() + t)[1..] == [a.Letter()] + ([b.Letter()] + ([c.Letter()] + ([d.Letter()] + t)));
    LetterStep(a, [b.Letter()] + ([c.Letter()] + ([d.Letter()] + t)), 3, 0);
    LetterStep(b, [c.Letter()] + ([d.Letter()] + t), 2, a.n);
    LetterStep(c, [d.Letter()] + t, 1, a.n * 16 + b.n);
    LetterStep(d, t, 0, (a.n * 16 + b.n) * 16 + c.n);
    assert ReadHex(t, 0, quad.Number()) == Success((quad.Number(), t));
  }

  lemma CodeStep(quad: Quad, t: string, done: string)
    requires GoodPiece(Code(quad))
    ensures StringFrom(PieceText(Code(quad)) + t, 0, done) == StringFrom(t, 0, done + Utf8(quad.Number()))
  {
    CodeChunk(quad, t);
    ChunkStep(PieceText(Code(quad)) + t, 0, done, Utf8(quad.Number()), 0, t);
  }

  lemma CodeChunk(quad: Quad, t: string)
    requires GoodPiece(Code(quad))
    ensures NextChunk(PieceText(Code(quad)) + t, 0) == Success(More(Utf8(quad.Number()), 0, t))
  {
    QuadRead(quad, t);
    EscapeChunk("u" + quad.Letters() + t, quad.Number(), t);
    assert PieceText(Code(quad)) + t == "\\" + ("u" + quad.Letters() + t);
  }

  lemma EscapeChunk(sp: string, u: nat, rest: string)
    requires Unescape(sp) == Success((u, rest)) && (u < LEAD_BEGIN || u >= TRAIL_END) && u < 0x1_0000
    ensures NextChunk("\\" + sp, 0) == Success(More(Utf8(u), 0, rest))
  {
    assert ("\\" + sp)[1..] == sp;
  }

  lemma TrailStep(lead: nat, trail: Quad, t: string, done: string)
    requires trail.Valid() && 0xd800 <= lead && 0xdc00 <= trail.Number() < 0xe000
    ensures StringFrom("\\u" + trail.Letters() + t, lead, done) == StringFrom(t, 0, done + Utf8(JoinSurrogates(lead, trail.Number())))
  {
    QuadRead(trail, t);
    assert ("\\u" + trail.Letters() + t)[1..] == "u" + trail.Letters() + t;
  }

  lemma LeadStep(lead: Quad, t: string, done: string)
    requires lead.Valid() && 0xd800 <= lead.Number() < 0xdc00
    ensures StringFrom("\\u" + lead.Letters() + t, 0, done) == StringFrom(t, lead.Number(), done)
  {
    QuadRead(lead, t);
    assert ("\\u" + lead.Letters() + t)[1..] == "u" + lead.Letters() + t;
    assert done + "" == done;
  }

  /** The text of a piece adds the bytes it stands for. */
  lemma PieceStep(p: Piece, t: string, done: string)
    requires GoodPiece(p)
    ensures StringFrom(PieceText(p) + t, 0, done) == StringFrom(t, 0, done + PieceBytes(p))
  {
    match p
    case Plain(c) => PlainStep(c, t, done);
    case Short(e) => ShortStep(e, t, done);
    case Code(quad) => CodeStep(quad, t, done);
    case Pair(lead, trail) =>
      assert PieceText(p) + t == "\\u" + lead.Letters() + ("\\u" + trail.Letters() + t);
      LeadStep(lead, "\\u" + trail.Letters() + t, done);
      TrailStep(lead.Number(), trail, t, done);
  }

  lemma ClosingQuote(rest: string, done: string)
    ensures StringFrom("\"" + rest, 0, done) == Success((done, rest))
  {
    assert ("\"" + rest)[1..] == rest;
  }

  /** A reader that takes the text of a piece at a time, whatever it does otherwise, takes the text of a string. */
  lemma {:induction false} ReadConcat<R>(read: (string, string) -> R, texts: seq<string>, parts: seq<string>, rest: string, done: string)
    requires |texts| == |parts| && forall i, t, d | 0 <= i < |parts| :: read(texts[i] + t, d) == read(t, d + parts[i])
    ensures read(Concat(texts) + rest, done) == read(rest, done + Concat(parts))
    decreases |parts|
  {
    if parts == [] {
      assert Concat(texts) + rest == rest && done + Concat(parts) == done;
    } else {
      assert Concat(texts) + rest == texts[0] + (Concat(texts[1..]) + rest);
      assert read(texts[0] + (Concat(texts[1..]) + rest), done) == read(Concat(texts[1..]) + rest, done + parts[0]);
      forall i, t, d | 0 <= i < |parts[1..]|
        ensures read(texts[1..][i] + t, d) == read(t, d + parts[1..][i])
      {
        assert texts[1..][i] == texts[i + 1] && parts[1..][i] == parts[i + 1];
      }
      ReadConcat(read, texts[1..], parts[1..], rest, done + parts[0]);
      assert done + parts[0] + Concat(parts[1..]) == done + Concat(parts);
    }
  }

  /** Every string is read as the bytes its pieces stand for. */
  lemma StringRead(ps: seq<Piece>, rest: string, done: string)
    requires GoodPieces(ps)
    ensures StringFrom(Concat(PieceTexts(ps)) + ("\"" + rest), 0, done) == Success((done + StringBytes(ps), rest))
  {
    var read := (t: string, d: string) => StringFrom(t, 0, d);
    forall i, t, d | 0 <= i < |ps|
      ensures read(PieceTexts(ps)[i] + t, d) == read(t, d + PiecesBytes(ps)[i])
    {
      PieceStep(ps[i], t, d);
    }
    ReadConcat(read, PieceTexts(ps), PiecesBytes(ps), "\"" + rest, done);
    ClosingQuote(rest, done + StringBytes(ps));
  }

  lemma StringToken(ps: seq<Piece>, rest: string)
    requires GoodPieces(ps)
    ensures Token(StringText(ps) + rest) == Success((Text(StringBytes(ps)), rest))
  {
    var sp := StringText(ps) + rest;
    assert sp[1..] == Concat(PieceTexts(ps)) + ("\"" + rest);
    StringRead(ps, rest, "");
    assert "" + StringBytes(ps) == StringBytes(ps);
  }

  lemma StringRun(ps: seq<Piece>, rest: string, stack: seq<Frame>)
    requires GoodPieces(ps) && Stacked(stack)
    ensures Run(StringText(ps) + rest, stack) == Deliver(stack, Text(StringBytes(ps)), rest)
  {
    StringToken(ps, rest);
    TokenStep(StringText(ps) + rest, stack);
  }

  lemma TokenStep(sp: string, stack: seq<Frame>)
    requires Stacked(stack) && Token(sp).Success?
    ensures Run(sp, stack) == Deliver(stack, Token(sp).value.0, Token(sp).value.1)
  {
    var c := Head(sp);
    assert c != '\0' && c != '[' && c != '{' && c != ']' && c != '}' && !IsSpace(c);
  }

  /** The container on top takes the value and the separator is consumed. */
  lemma DeliverEaten(stack: seq<Frame>, top: Frame, v: Value, next: char, rest: string, now: Frame)
    requires Stacked(stack + [top]) && (next == ',' || next == ':')
    requires top.AddValue(v, next) == Success((now, true))
    ensures Stacked(stack + [now]) && Deliver(stack + [top], v, [next] + rest) == Run(rest, stack + [now])
  {
    var sp := [next] + rest;
    assert (stack + [top])[|stack| := now] == stack + [now];
    assert sp[1..] == rest;
    assert AfterSpace(sp) == sp;
    assert Push(stack + [top], v, Head(sp)) == Success((stack + [now], true));
  }

  /** The container on top takes its last value; the bracket stays. */
  lemma DeliverKept(stack: seq<Frame>, top: Frame, v: Value, next: char, rest: string, now: Frame)
    requires Stacked(stack + [top]) && (next == ']' || next == '}')
    requires top.AddValue(v, next) == Success((now, false))
    ensures Stacked(stack + [now]) && Deliver(stack + [top], v, [next] + rest) == Run([next] + rest, stack + [now])
  {
    var sp := [next] + rest;
    assert (stack + [top])[|stack| := now] == stack + [now];
    assert AfterSpace(sp) == sp;
    assert Push(stack + [top], v, Head(sp)) == Success((stack + [now], false));
  }

  // ---------------------------------------------------------------- white space

  lemma {:induction false} BlankSkipped(w: string, t: string)
    requires Blank(w)
    ensures AfterSpace(w + t) == AfterSpace(t)
  {
    if w == "" {
      assert w + t == t;
    } else {
      assert w[0] in w && (w + t)[1..] == w[1..] + t;
      assert forall c | c in w[1..] :: c in w;
      BlankSkipped(w[1..], t);
    }
  }

  /** White space before a token or after a value changes nothing. */
  lemma SpaceRun(w: string, t: string, stack: seq<Frame>, v: Value)
    requires Blank(w) && Stacked(stack)
    ensures Run(w + t, stack) == Run(t, stack) && Deliver(stack, v, w + t) == Deliver(stack, v, t)
  {
    BlankSkipped(w, t);
  }

  // ---------------------------------------------------------------- documents

  /** What may follow a value. */
  predicate Follows(rest: string) {
    rest == "" || rest[0] in {',', ']', '}', ':', '\0'} || BlankChar(rest[0])
  }

  lemma BlankFollows(w: string, rest: string)
    requires Blank(w) && Follows(rest)
    ensures Follows(w + rest)
  {
    if w == "" {
      assert w + rest == rest;
    } else {
      assert w[0] in w && (w + rest)[0] == w[0];
    }
  }

  /** A machine that takes the text of item i to the i-th state, comma included, takes the joined texts to the last
  state, whatever it does otherwise. */
  lemma {:induction false} RunJoin<R, T>(run: (string, T) -> R, texts: seq<string>, states: seq<T>, k: nat, end: string, result: R)
    requires |states| == |texts| && k < |texts|
    requires forall i, t | 0 <= i < |texts| - 1 :: run(texts[i] + ("," + t), states[i]) == run(t, states[i + 1])
    requires run(texts[|texts| - 1] + end, states[|texts| - 1]) == result
    ensures run(Join(texts[k..]) + end, states[k]) == result
    decreases |texts| - k
  {
    var tail := texts[k..];
    assert tail[0] == texts[k] && tail[1..] == texts[k + 1..];
    if k + 1 < |texts| {
      assert Join(tail) + end == texts[k] + ("," + (Join(texts[k + 1..]) + end));
      RunJoin(run, texts, states, k + 1, end, result);
    }
  }

  /** The text of item i with a comma takes the machine from the i-th to the next state. */
  ghost predicate Chained(texts: seq<string>, states: seq<seq<Frame>>) {
    && |states| == |texts| && (forall i | 0 <= i < |states| :: Stacked(states[i]))
    && (forall i, t | 0 <= i < |texts| - 1 :: Run(texts[i] + ("," + t), states[i]) == Run(t, states[i + 1]))
  }

  lemma JoinRun(texts: seq<string>, states: seq<seq<Frame>>, end: string, result: Result<Value>)
    requires Chained(texts, states) && texts != [] && Run(texts[|texts| - 1] + end, states[|texts| - 1]) == result
    ensures Run(Join(texts) + end, states[0]) == result
  {
    var run := (t: string, st: seq<Frame>) => if Stacked(st) then Run(t, st) else Failure("");
    RunJoin(run, texts, states, 0, end, result);
    assert texts[0..] == texts;
  }

  lemma WordRun(v: Value, rest: string, stack: seq<Frame>)
    requires (v.Null? || v.Bool?) && Stacked(stack)
    ensures Run(DocText(Word(v)) + rest, stack) == Deliver(stack, v, rest)
  {
    assert ("null" + rest)[4..] == rest && ("true" + rest)[4..] == rest && ("false" + rest)[5..] == rest;
    TokenStep(DocText(Word(v)) + rest, stack);
  }

  lemma FollowsEnds(rest: string)
    requires Follows(rest)
    ensures EndsNumber(rest)
  {
  }

  lemma WholeToken(negative: bool, digits: seq<nat>, rest: string)
    requires GoodDigits(digits) && Fits(WholeValue(negative, digits)) && Follows(rest)
    ensures Token((if negative then "-" else "") + DigitsText(digits) + rest) == Success((Integer(WholeValue(negative, digits)), rest))
  {
    FollowsEnds(rest);
    WholeRead(negative, digits, rest);
  }

  lemma WholeRun(negative: bool, digits: seq<nat>, rest: string, stack: seq<Frame>)
    requires Good(Whole(negative, digits)) && Follows(rest) && Stacked(stack)
    ensures Run(DocText(Whole(negative, digits)) + rest, stack) == Deliver(stack, Integer(WholeValue(negative, digits)), rest)
  {
    var text := (if negative then "-" else "") + DigitsText(digits) + rest;
    assert DocText(Whole(negative, digits)) + rest == text;
    WholeToken(negative, digits, rest);
    TokenStep(text, stack);
  }

  /** Running the machine on a text of a value is handing it the value. */
  lemma {:induction false} DocRun(doc: Doc, rest: string, stack: seq<Frame>)
    requires Good(doc) && Follows(rest) && Stacked(stack)
    ensures Run(DocText(doc) + rest, stack) == Deliver(stack, DocValue(doc), rest)
    decreases doc, 1
  {
    match doc
    case Word(v) =>
      WordRun(v, rest, stack);
    case Whole(negative, digits) =>
      WholeRun(negative, digits, rest, stack);
    case Str(ps) =>
      StringRun(ps, rest, stack);
    case Arr(items, inner) =>
      ArrayRun(items, inner, rest, stack);
    case Obj(entries, inner, comma) =>
      ObjectRun(entries, inner, comma, rest, stack);
  }

  lemma {:induction false} ArrayRun(items: seq<Item>, inner: string, rest: string, stack: seq<Frame>)
    requires Good(Arr(items, inner)) && Follows(rest) && Stacked(stack)
    ensures Run(DocText(Arr(items, inner)) + rest, stack) == Deliver(stack, Array(ItemValues(items)), rest)
    decreases items, 3
  {
    var body := ItemsBody(items, inner);
    assert DocText(Arr(items, inner)) + rest == "[" + (body + ("]" + rest));
    OpenArrayRun(body + ("]" + rest), stack);
    if items == [] {
      SpaceRun(inner, "]" + rest, stack + [OpenArray([], true)], Null);
      CloseArrayRun([], true, rest, stack);
    } else {
      ItemsRun(items, rest, stack, Deliver(stack, Array(ItemValues(items)), rest));
    }
  }

  lemma OpenArrayRun(tail: string, stack: seq<Frame>)
    requires Stacked(stack)
    ensures Run("[" + tail, stack) == Run(tail, stack + [OpenArray([], true)])
  {
    assert ("[" + tail)[1..] == tail;
  }

  lemma CloseArrayRun(done: seq<Value>, closeable: bool, rest: string, stack: seq<Frame>)
    requires Stacked(stack) && closeable
    ensures Run("]" + rest, stack + [OpenArray(done, closeable)]) == Deliver(stack, Array(done), rest)
  {
    assert ("]" + rest)[1..] == rest;
    assert (stack + [OpenArray(done, true)])[..|stack|] == stack;
  }

  /** The stack when `i` items have been read. */
  ghost function ArrayState(stack: seq<Frame>, items: seq<Item>, i: nat): seq<Frame>
    requires i <= |items| && forall k | 0 <= k < |items| :: GoodItem(items[k])
  {
    stack + [OpenArray(ItemValues(items)[..i], i == 0)]
  }

  lemma {:induction false} ItemRun(item: Item, tail: string, stack: seq<Frame>)
    requires GoodItem(item) && Follows(tail) && Stacked(stack)
    ensures Run(ItemText(item) + tail, stack) == Deliver(stack, ItemValue(item), tail)
    decreases item, 0
  {
    assert ItemText(item) + tail == item.before + (DocText(item.doc) + (item.after + tail));
    SpaceRun(item.before, DocText(item.doc) + (item.after + tail), stack, Null);
    BlankFollows(item.after, tail);
    DocRun(item.doc, item.after + tail, stack);
    SpaceRun(item.after, tail, stack, ItemValue(item));
  }

  lemma {:induction false} NextItemRun(items: seq<Item>, i: nat, tail: string, stack: seq<Frame>)
    requires i < |items| && (forall k | 0 <= k < |items| :: GoodItem(items[k])) && Stacked(stack)
    ensures Run(DocItemTexts(items)[i] + ("," + tail), ArrayState(stack, items, i)) == Run(tail, ArrayState(stack, items, i + 1))
    decreases items, 0
  {
    var vs := ItemValues(items);
    ItemRun(items[i], "," + tail, ArrayState(stack, items, i));
    assert vs[..i] + [vs[i]] == vs[..i + 1];
    DeliverEaten(stack, OpenArray(vs[..i], i == 0), vs[i], ',', tail, OpenArray(vs[..i + 1], false));
  }

  lemma {:induction false} LastItemRun(items: seq<Item>, rest: string, stack: seq<Frame>)
    requires items != [] && (forall k | 0 <= k < |items| :: GoodItem(items[k])) && Stacked(stack)
    ensures Run(DocItemTexts(items)[|items| - 1] + ("]" + rest), ArrayState(stack, items, |items| - 1)) == Deliver(stack, Array(ItemValues(items)), rest)
    decreases items, 0
  {
    var l, vs := |items| - 1, ItemValues(items);
    ItemRun(items[l], "]" + rest, ArrayState(stack, items, l));
    assert vs[..l] + [vs[l]] == vs;
    DeliverKept(stack, OpenArray(vs[..l], l == 0), vs[l], ']', rest, OpenArray(vs, true));
    CloseArrayRun(vs, true, rest, stack);
  }

  ghost function ArrayStates(stack: seq<Frame>, items: seq<Item>): (states: seq<seq<Frame>>)
    requires forall k | 0 <= k < |items| :: GoodItem(items[k])
    ensures |states| == |items| && forall i | 0 <= i < |items| :: states[i] == ArrayState(stack, items, i)
  {
    seq(|items|, i requires 0 <= i < |items| => ArrayState(stack, items, i))
  }

  lemma {:induction false} AllItemsRun(items: seq<Item>, stack: seq<Frame>)
    requires (forall k | 0 <= k < |items| :: GoodItem(items[k])) && Stacked(stack)
    ensures Chained(DocItemTexts(items), ArrayStates(stack, items))
    decreases items, 1
  {
    forall i, t | 0 <= i < |items| - 1
      ensures Run(DocItemTexts(items)[i] + ("," + t), ArrayStates(stack, items)[i]) == Run(t, ArrayStates(stack, items)[i + 1])
    {
      NextItemRun(items, i, t, stack);
    }
  }

  lemma {:induction false} ItemsRun(items: seq<Item>, rest: string, stack: seq<Frame>, result: Result<Value>)
    requires items != [] && (forall k | 0 <= k < |items| :: GoodItem(items[k])) && Stacked(stack)
    requires result == Deliver(stack, Array(ItemValues(items)), rest)
    ensures Run(Join(DocItemTexts(items)) + ("]" + rest), ArrayStates(stack, items)[0]) == result
    decreases items, 2
  {
    AllItemsRun(items, stack);
    LastItemRun(items, rest, stack);
    JoinRun(DocItemTexts(items), ArrayStates(stack, items), "]" + rest, result);
  }

  lemma {:induction false} ObjectRun(entries: seq<Entry>, inner: string, comma: Option<string>, rest: string, stack: seq<Frame>)
    requires Good(Obj(entries, inner, comma)) && Follows(rest) && Stacked(stack)
    ensures Run(DocText(Obj(entries, inner, comma)) + rest, stack) == Deliver(stack, Object(Stored(entries, |entries|)), rest)
    decreases entries, 4
  {
    if entries == [] {
      EmptyObjectRun(inner, comma, rest, stack);
    } else {
      ObjectSplit(entries, inner, comma, rest);
      OpenObjectRun(Join(DocEntryTexts(entries)) + (CommaText(comma) + ("}" + rest)), stack);
      EntriesRun(entries, comma, rest, stack, Deliver(stack, Object(Stored(entries, |entries|)), rest));
    }
  }

  lemma ObjectSplit(entries: seq<Entry>, inner: string, comma: Option<string>, rest: string)
    requires Good(Obj(entries, inner, comma)) && entries != []
    ensures DocText(Obj(entries, inner, comma)) + rest == "{" + (Join(DocEntryTexts(entries)) + (CommaText(comma) + ("}" + rest)))
  {
    BracesSplit(Join(DocEntryTexts(entries)), CommaText(comma), rest);
  }

  lemma BracesSplit(members: string, comma: string, rest: string)
    ensures "{" + (members + comma) + "}" + rest == "{" + (members + (comma + ("}" + rest)))
  {
  }

  lemma EmptyObjectRun(inner: string, comma: Option<string>, rest: string, stack: seq<Frame>)
    requires Good(Obj([], inner, comma)) && Stacked(stack)
    ensures Run(DocText(Obj([], inner, comma)) + rest, stack) == Deliver(stack, Object([]), rest)
  {
    assert DocText(Obj([], inner, comma)) + rest == "{" + (inner + ("}" + rest));
    OpenObjectRun(inner + ("}" + rest), stack);
    SpaceRun(inner, "}" + rest, stack + [OpenObject([], "", true)], Null);
    CloseObjectRun([], rest, stack);
  }

  lemma OpenObjectRun(tail: string, stack: seq<Frame>)
    requires Stacked(stack)
    ensures Run("{" + tail, stack) == Run(tail, stack + [OpenObject([], "", true)])
  {
    assert ("{" + tail)[1..] == tail;
  }

  lemma CloseObjectRun(done: seq<Member>, rest: string, stack: seq<Frame>)
    requires Stacked(stack)
    ensures Run("}" + rest, stack + [OpenObject(done, "", true)]) == Deliver(stack, Object(done), rest)
  {
    assert ("}" + rest)[1..] == rest;
    assert (stack + [OpenObject(done, "", true)])[..|stack|] == stack;
  }

  /** The stack when `i` members have been read. */
  ghost function ObjectState(stack: seq<Frame>, entries: seq<Entry>, i: nat): seq<Frame>
    requires i <= |entries| && forall k | 0 <= k < |entries| :: GoodEntry(entries[k])
  {
    stack + [OpenObject(Stored(entries, i), "", true)]
  }

  lemma EntrySplit(entry: Entry, rest: string)
    requires GoodEntry(entry)
    ensures EntryText(entry) + rest == entry.before + (StringText(entry.name) + (entry.after + (":" + (ItemText(entry.item) + rest))))
  {
  }

  /** The name of a member and the colon. */
  lemma NameRun(entry: Entry, tail: string, done: seq<Member>, stack: seq<Frame>)
    requires GoodEntry(entry) && Stacked(stack)
    ensures Run(entry.before + (StringText(entry.name) + (entry.after + (":" + tail))), stack + [OpenObject(done, "", true)])
         == Run(tail, stack + [OpenObject(done, EntryName(entry), false)])
  {
    var open := stack + [OpenObject(done, "", true)];
    SpaceRun(entry.before, StringText(entry.name) + (entry.after + (":" + tail)), open, Null);
    StringRun(entry.name, entry.after + (":" + tail), open);
    SpaceRun(entry.after, ":" + tail, open, Text(EntryName(entry)));
    DeliverEaten(stack, OpenObject(done, "", true), Text(EntryName(entry)), ':', tail, OpenObject(done, EntryName(entry), false));
  }

  /** One member: its name, the colon, its value. */
  lemma {:induction false} EntryRun(entry: Entry, done: seq<Member>, rest: string, stack: seq<Frame>)
    requires GoodEntry(entry) && Follows(rest) && Stacked(stack)
    ensures Run(EntryText(entry) + rest, stack + [OpenObject(done, "", true)])
         == Deliver(stack + [OpenObject(done, EntryName(entry), false)], EntryValue(entry), rest)
    decreases entry, 0
  {
    EntrySplit(entry, rest);
    NameRun(entry, ItemText(entry.item) + rest, done, stack);
    ItemRun(entry.item, rest, stack + [OpenObject(done, EntryName(entry), false)]);
  }

  lemma {:induction false} NextEntryRun(entries: seq<Entry>, i: nat, tail: string, stack: seq<Frame>)
    requires i < |entries| && (forall k | 0 <= k < |entries| :: GoodEntry(entries[k])) && Stacked(stack)
    ensures Run(DocEntryTexts(entries)[i] + ("," + tail), ObjectState(stack, entries, i)) == Run(tail, ObjectState(stack, entries, i + 1))
    decreases entries, 0
  {
    var done := Stored(entries, i);
    EntryRun(entries[i], done, "," + tail, stack);
    DeliverEaten(stack, OpenObject(done, EntryName(entries[i]), false), EntryValue(entries[i]), ',', tail,
                 OpenObject(Stored(entries, i + 1), "", true));
  }

  /** A nonempty list of entries, and the white space after a last comma. */
  ghost predicate GoodEntries(entries: seq<Entry>, comma: Option<string>) {
    entries != [] && (forall k | 0 <= k < |entries| :: GoodEntry(entries[k])) && (comma.Some? ==> Blank(comma.value))
  }

  lemma {:induction false} LastEntryRun(entries: seq<Entry>, comma: Option<string>, rest: string, stack: seq<Frame>, result: Result<Value>)
    requires GoodEntries(entries, comma) && Stacked(stack) && result == Deliver(stack, Object(Stored(entries, |entries|)), rest)
    ensures Run(DocEntryTexts(entries)[|entries| - 1] + (CommaText(comma) + ("}" + rest)), ObjectState(stack, entries, |entries| - 1)) == result
    decreases entries, 2
  {
    CloseObjectRun(Stored(entries, |entries|), rest, stack);
    if comma.Some? {
      LastCommaRun(entries, comma.value, rest, stack);
    } else {
      NoCommaRun(entries, rest, stack);
    }
  }

  lemma CommaSplit(comma: string, rest: string)
    ensures CommaText(Some(comma)) + ("}" + rest) == "," + (comma + ("}" + rest))
  {
  }

  lemma {:induction false} LastCommaRun(entries: seq<Entry>, comma: string, rest: string, stack: seq<Frame>)
    requires GoodEntries(entries, Some(comma)) && Stacked(stack)
    ensures Run(DocEntryTexts(entries)[|entries| - 1] + (CommaText(Some(comma)) + ("}" + rest)), ObjectState(stack, entries, |entries| - 1))
         == Run("}" + rest, ObjectState(stack, entries, |entries|))
    decreases entries, 1
  {
    CommaSplit(comma, rest);
    NextEntryRun(entries, |entries| - 1, comma + ("}" + rest), stack);
    SpaceRun(comma, "}" + rest, ObjectState(stack, entries, |entries|), Null);
  }

  lemma {:induction false} NoCommaRun(entries: seq<Entry>, rest: string, stack: seq<Frame>)
    requires GoodEntries(entries, None) && Stacked(stack)
    ensures Run(DocEntryTexts(entries)[|entries| - 1] + (CommaText(None) + ("}" + rest)), ObjectState(stack, entries, |entries| - 1))
         == Run("}" + rest, ObjectState(stack, entries, |entries|))
    decreases entries, 1
  {
    var l := |entries| - 1;
    assert CommaText(None) + ("}" + rest) == "}" + rest;
    EntryRun(entries[l], Stored(entries, l), "}" + rest, stack);
    DeliverKept(stack, OpenObject(Stored(entries, l), EntryName(entries[l]), false), EntryValue(entries[l]), '}', rest,
                OpenObject(Stored(entries, |entries|), "", true));
  }

  ghost function ObjectStates(stack: seq<Frame>, entries: seq<Entry>): (states: seq<seq<Frame>>)
    requires forall k | 0 <= k < |entries| :: GoodEntry(entries[k])
    ensures |states| == |entries| && forall i | 0 <= i < |entries| :: states[i] == ObjectState(stack, entries, i)
  {
    seq(|entries|, i requires 0 <= i < |entries| => ObjectState(stack, entries, i))
  }

  lemma {:induction false} AllEntriesRun(entries: seq<Entry>, stack: seq<Frame>)
    requires (forall k | 0 <= k < |entries| :: GoodEntry(entries[k])) && Stacked(stack)
    ensures Chained(DocEntryTexts(entries), ObjectStates(stack, entries))
    decreases entries, 1
  {
    forall i, t | 0 <= i < |entries| - 1
      ensures Run(DocEntryTexts(entries)[i] + ("," + t), ObjectStates(stack, entries)[i]) == Run(t, ObjectStates(stack, entries)[i + 1])
    {
      NextEntryRun(entries, i, t, stack);
    }
  }

  lemma {:induction false} EntriesRun(entries: seq<Entry>, comma: Option<string>, rest: string, stack: seq<Frame>, result: Result<Value>)
    requires GoodEntries(entries, comma) && Stacked(stack) && result == Deliver(stack, Object(Stored(entries, |entries|)), rest)
    ensures Run(Join(DocEntryTexts(entries)) + (CommaText(comma) + ("}" + rest)), ObjectStates(stack, entries)[0]) == result
    decreases entries, 3
  {
    AllEntriesRun(entries, stack);
    LastEntryRun(entries, comma, rest, stack, result);
    JoinRun(DocEntryTexts(entries), ObjectStates(stack, entries), CommaText(comma) + ("}" + rest), result);
  }

  // ---------------------------------------------------------------- whole texts

  /** What the parser does not look at: everything from the first NUL on. */
  predicate Unread(junk: string) {
    junk == "" || junk[0] == '\0'
  }

  /** Every text of a value is read as that value, whatever its white space, its escapes and the case of its digits. */
  lemma TextIsRead(doc: Doc, before: string, after: string, junk: string)
    requires Good(doc) && Blank(before) && Blank(after) && Unread(junk)
    ensures Parse(before + DocText(doc) + after + junk) == Success(DocValue(doc))
  {
    var stack := [Sentinel(None)];
    assert before + DocText(doc) + after + junk == before + (DocText(doc) + (after + junk));
    SpaceRun(before, DocText(doc) + (after + junk), stack, Null);
    BlankFollows(after, junk);
    DocRun(doc, after + junk, stack);
    SpaceRun(after, junk, stack, DocValue(doc));
    assert AfterSpace(junk) == junk && Head(junk) == '\0';
    assert [Sentinel(None)][0 := Sentinel(Some(DocValue(doc)))] == [Sentinel(Some(DocValue(doc)))];
  }

  // ---------------------------------------------------------------- the printer

  ghost function DigitsOf(n: nat): (digits: seq<nat>)
    ensures GoodDigits(digits)
  {
    if n < 10 then [n] else DigitsOf(n / 10) + [n % 10]
  }

  lemma {:induction false} NumberAppend(digits: seq<nat>, d: nat, n: nat)
    ensures NumberOf(digits + [d], n) == 10 * NumberOf(digits, n) + d
    decreases digits
  {
    if digits == [] {
      assert ([] + [d])[1..] == [];
    } else {
      assert (digits + [d])[1..] == digits[1..] + [d];
      NumberAppend(digits[1..], d, 10 * n + digits[0]);
    }
  }

  lemma DigitAppended(digits: seq<nat>, d: nat)
    requires d < 10 && forall i | 0 <= i < |digits| :: digits[i] < 10
    ensures DigitsText(digits + [d]) == DigitsText(digits) + [Digit(d)]
  {
    DigitLetter(d);
    assert DIGITS[d] == Digit(d);
  }

  lemma {:induction false} DigitsAre(n: nat)
    ensures DigitsText(DigitsOf(n)) == Digits(n) && NumberOf(DigitsOf(n), 0) == n
  {
    if n < 10 {
      assert [] + [n] == [n] && DigitsText([]) == "" && [n][1..] == [];
      DigitAppended([], n);
    } else {
      DigitsAre(n / 10);
      DigitAppended(DigitsOf(n / 10), n % 10);
      NumberAppend(DigitsOf(n / 10), n % 10, 0);
    }
  }

  /** How the printer writes a character. */
  ghost function PieceOf(c: char): (p: Piece)
    ensures GoodPiece(p)
  {
    if c == '\U{0008}' then Short('b')
    else if c == '\U{000c}' then Short('f')
    else if c == '\n' then Short('n')
    else if c == '\r' then Short('r')
    else if c == '\t' then Short('t')
    else if c == '\"' || c == '\\' then Short(c)
    else if c >= ' ' then Plain(c)
    else Code(Quad(Hex(0, false), Hex(0, false), Hex(c as int / 16, false), Hex(c as int % 16, false)))
  }

  lemma PieceOfChar(c: char)
    ensures PieceText(PieceOf(c)) == EscapedChar(c) && PieceBytes(PieceOf(c)) == [c]
  {
    var p := PieceOf(c);
    if p.Short? {
      assert SHORT_NAMES[0..] == SHORT_NAMES;
    } else if p.Code? {
      HexLetters(c as int / 16);
      HexLetters(c as int % 16);
      assert p.quad.Number() == c as int;
    }
  }

  lemma HexLetters(n: nat)
    requires n < 16
    ensures Hex(n, false).Letter() == HexDigit(n) && Hex(0, false).Letter() == '0'
  {
  }

  ghost function PiecesOf(s: string): (ps: seq<Piece>)
    ensures |ps| == |s| && GoodPieces(ps) && forall i | 0 <= i < |s| :: ps[i] == PieceOf(s[i])
  {
    seq(|s|, i requires 0 <= i < |s| => PieceOf(s[i]))
  }

  lemma {:induction false} ConcatChars(parts: seq<string>, s: string)
    requires |parts| == |s| && forall i | 0 <= i < |s| :: parts[i] == [s[i]]
    ensures Concat(parts) == s
    decreases |s|
  {
    if s != "" {
      ConcatChars(parts[1..], s[1..]);
      assert s == [s[0]] + s[1..];
    }
  }

  lemma PrintedString(s: string)
    ensures StringText(PiecesOf(s)) == Quoted(s) && StringBytes(PiecesOf(s)) == s
  {
    forall i | 0 <= i < |s|
      ensures PieceText(PiecesOf(s)[i]) == EscapedChar(s[i]) && PieceBytes(PiecesOf(s)[i]) == [s[i]]
    {
      PieceOfChar(s[i]);
    }
    assert PieceTexts(PiecesOf(s)) == Escapes(s);
    ConcatChars(PiecesBytes(PiecesOf(s)), s);
  }

  /** How the printer writes a value. */
  ghost function DocOf(v: Value): Doc
    decreases v, 1
  {
    match v
    case Integer(n) => Whole(n < 0, DigitsOf(if n < 0 then 0 - n else n))
    case Text(s) => Str(PiecesOf(s))
    case Array(items) => Arr(seq(|items|, i requires 0 <= i < |items| => ItemOf(items[i])), "")
    case Object(members) => Obj(seq(|members|, i requires 0 <= i < |members| => EntryOf(members[i])), "", None)
    case _ => Word(v)
  }

  ghost function ItemOf(v: Value): Item
    decreases v, 2
  {
    Item("", DocOf(v), "")
  }

  ghost function EntryOf(m: Member): Entry
    decreases m, 0
  {
    Entry("", PiecesOf(m.name), "", ItemOf(m.value))
  }

  /** What is printed is a text of the value. */
  lemma {:induction false} PrintedIsText(v: Value)
    requires Valid(v)
    ensures Good(DocOf(v)) && DocText(DocOf(v)) == Print(v) && DocValue(DocOf(v)) == v
    decreases v, 1
  {
    match v
    case Integer(n) =>
      DigitsAre(if n < 0 then 0 - n else n);
      assert n >= 0 ==> "" + Digits(n) == Digits(n);
    case Text(s) =>
      PrintedString(s);
    case Array(items) =>
      PrintedItems(items);
    case Object(members) =>
      PrintedMembers(members);
    case _ =>
  }

  lemma {:induction false} PrintedItem(v: Value)
    requires Valid(v)
    ensures GoodItem(ItemOf(v)) && ItemText(ItemOf(v)) == Print(v) && ItemValue(ItemOf(v)) == v
    decreases v, 2
  {
    PrintedIsText(v);
    assert "" + Print(v) + "" == Print(v);
  }

  lemma {:induction false} PrintedItems(items: seq<Value>)
    requires Valid(Array(items))
    ensures var doc := DocOf(Array(items)); Good(doc) && DocText(doc) == Print(Array(items)) && DocValue(doc) == Array(items)
    decreases items, 3
  {
    var written := DocOf(Array(items)).items;
    forall i | 0 <= i < |items|
      ensures GoodItem(written[i]) && ItemText(written[i]) == Print(items[i]) && ItemValue(written[i]) == items[i]
    {
      PrintedItem(items[i]);
    }
    assert DocItemTexts(written) == ItemTexts(items);
    assert ItemValues(written) == items;
    assert items == [] ==> Join(ItemTexts(items)) == "";
  }

  lemma {:induction false} PrintedEntry(m: Member)
    requires Valid(m.value)
    ensures GoodEntry(EntryOf(m)) && EntryText(EntryOf(m)) == PrintMember(m) && EntryName(EntryOf(m)) == m.name && EntryValue(EntryOf(m)) == m.value
    decreases m, 0
  {
    PrintedItem(m.value);
    PrintedString(m.name);
    assert "" + Quoted(m.name) + "" == Quoted(m.name);
  }

  lemma {:induction false} PrintedMembers(members: seq<Member>)
    requires Valid(Object(members))
    ensures var doc := DocOf(Object(members)); Good(doc) && DocText(doc) == Print(Object(members)) && DocValue(doc) == Object(members)
    decreases members, 3
  {
    var written := DocOf(Object(members)).entries;
    forall i | 0 <= i < |members|
      ensures GoodEntry(written[i]) && EntryText(written[i]) == PrintMember(members[i])
      ensures EntryName(written[i]) == members[i].name && EntryValue(written[i]) == members[i].value
    {
      PrintedEntry(members[i]);
    }
    assert DocEntryTexts(written) == MemberTexts(members);
    assert Join(MemberTexts(members)) + "" == Join(MemberTexts(members));
    StoredInOrder(written, members, |members|);
    assert members[..|members|] == members;
  }

  lemma StoreNext(members: seq<Member>, i: nat)
    requires i < |members| && Ascending(members)
    ensures Store(members[..i], members[i].name, members[i].value) == members[..i + 1]
  {
    StoreLast(members[..i], members[i].name, members[i].value);
    assert members[..i] + [members[i]] == members[..i + 1];
  }

  lemma {:induction false} StoredInOrder(entries: seq<Entry>, members: seq<Member>, k: nat)
    requires |entries| == |members| && k <= |members| && Ascending(members) && forall i | 0 <= i < |entries| :: GoodEntry(entries[i])
    requires forall i | 0 <= i < |entries| :: EntryName(entries[i]) == members[i].name && EntryValue(entries[i]) == members[i].value
    ensures Stored(entries, k) == members[..k]
  {
    if k > 0 {
      StoredInOrder(entries, members, k - 1);
      StoreNext(members, k - 1);
    }
  }

  /** Whatever is printed is read back as the same value. */
  lemma ParserUndoesPrinter(v: Value)
    requires Valid(v)
    ensures Parse(Print(v)) == Success(v)
  {
    PrintedIsText(v);
    TextIsRead(DocOf(v), "", "", "");
    assert "" + Print(v) + "" + "" == Print(v);
  }

  /** Different values have different texts. */
  lemma PrinterInjective(v: Value, w: Value)
    requires Valid(v) && Valid(w) && Print(v) == Print(w)
    ensures v == w
  {
    ParserUndoesPrinter(v);
    ParserUndoesPrinter(w);
  }

  // ---------------------------------------------------------------- everything that is parsed is a valid value

  ghost predicate ValidFrame(f: Frame) {
    match f
    case Sentinel(None) => true
    case Sentinel(Some(v)) => Valid(v)
    case OpenArray(items, _) => forall i | 0 <= i < |items| :: Valid(items[i])
    case OpenObject(members, _, _) => Valid(Object(members))
  }

  ghost predicate ValidStack(stack: seq<Frame>) {
    forall i | 0 <= i < |stack| :: ValidFrame(stack[i])
  }

  lemma PushKeepsValid(stack: seq<Frame>, v: Value, next: char)
    requires Stacked(stack) && ValidStack(stack) && Valid(v)
    ensures Push(stack, v, next).Success? ==> ValidStack(Push(stack, v, next).value.0)
  {
    var top := Top(stack);
    if top.OpenObject? && !top.expectKey {
      StoreAscending(top.members, top.key, v);
      StoreNames(top.members, top.key, v);
    }
    if top.AddValue(v, next).Success? {
      assert ValidFrame(top.AddValue(v, next).value.0);
    }
  }

  lemma {:induction false} RunValid(at: string, stack: seq<Frame>)
    requires Stacked(stack) && ValidStack(stack)
    ensures Run(at, stack).Success? ==> Valid(Run(at, stack).value)
    decreases |at|, 0
  {
    var sp := AfterSpace(at);
    if Head(sp) == '[' {
      RunValid(sp[1..], stack + [OpenArray([], true)]);
    } else if Head(sp) == '{' {
      RunValid(sp[1..], stack + [OpenObject([], "", true)]);
    } else if Head(sp) == ']' {
      if Top(stack).CloseArray().Success? {
        DeliverValid(stack[..|stack| - 1], Top(stack).CloseArray().value, sp[1..]);
      }
    } else if Head(sp) == '}' {
      if Top(stack).CloseObject().Success? {
        DeliverValid(stack[..|stack| - 1], Top(stack).CloseObject().value, sp[1..]);
      }
    } else if Head(sp) != '\0' && Token(sp).Success? {
      DeliverValid(stack, Token(sp).value.0, Token(sp).value.1);
    }
  }

  lemma {:induction false} DeliverValid(stack: seq<Frame>, v: Value, at: string)
    requires Stacked(stack) && ValidStack(stack) && Valid(v)
    ensures Deliver(stack, v, at).Success? ==> Valid(Deliver(stack, v, at).value)
    decreases if Head(AfterSpace(at)) == '-' then 0 else |at|, 1
  {
    var sp := AfterSpace(at);
    PushKeepsValid(stack, v, Head(sp));
    match Push(stack, v, Head(sp))
    case Failure(_) =>
    case Success((next, eaten)) => RunValid(if eaten then sp[1..] else sp, next);
  }

  /** Every text that parses denotes a valid value, whose own text parses to it again. */
  lemma ParsedIsValid(s: string)
    requires Parse(s).Success?
    ensures Valid(Parse(s).value) && Parse(Print(Parse(s).value)) == Parse(s)
  {
    RunValid(s, [Sentinel(None)]);
    ParserUndoesPrinter(Parse(s).value);
  }
}
