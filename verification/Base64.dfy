/** Base64 text (section 4 of RFC 4648): the block encoder and the character-at-a-time decoder. */
module Base64 {
  import opened Results

  type Byte = b: int | 0 <= b < 256 witness 0

  datatype Symbol = Ignored | Bad | Padding | Sextet(v: int)

  /** The decoding table; characters past the table are bad too. */
  function Decode(c: char): (s: Symbol)
    ensures s.Sextet? ==> 0 <= s.v < 64
  {
    if c == '\n' || c == '\r' then Ignored
    else if c == '=' then Padding
    else if 'A' <= c <= 'Z' then Sextet(c as int - 'A' as int)
    else if 'a' <= c <= 'z' then Sextet(c as int - 'a' as int + 26)
    else if '0' <= c <= '9' then Sextet(c as int - '0' as int + 52)
    else if c == '+' then Sextet(62)
    else if c == '/' then Sextet(63)
    else Bad
  }

  /** The encoding alphabet, which the decoding table inverts. */
  function Encode(v: int): (c: char)
    requires 0 <= v < 64
    ensures Decode(c) == Sextet(v)
  {
    if v < 26 then ('A' as int + v) as char
    else if v < 52 then ('a' as int + v - 26) as char
    else if v < 62 then ('0' as int + v - 52) as char
    else if v == 62 then '+'
    else '/'
  }

  /** Table 1 of RFC 4648. */
  const CAPITALS := "ABCDEFGHIJKLMNOPQRSTUVWXYZ"
  const SMALL_LETTERS := "abcdefghijklmnopqrstuvwxyz"
  const ALPHABET := CAPITALS + SMALL_LETTERS + "0123456789+/"

  lemma CapitalAt(v: nat)
    requires v < 26
    ensures CAPITALS[v] == ('A' as int + v) as char
  {
  }

  lemma SmallLetterAt(v: nat)
    requires v < 26
    ensures SMALL_LETTERS[v] == ('a' as int + v) as char
  {
  }

  lemma DecodeInverts(v: nat, c: char)
    requires v < 64
    ensures Decode(c) == Sextet(v) <==> c == Encode(v)
  {
  }

  /** The encoder writes, and the decoder takes, exactly the characters of the standard's alphabet, each for its place. */
  lemma AlphabetIsStandard(v: nat, c: char)
    requires v < 64
    ensures Encode(v) == ALPHABET[v] && (Decode(c) == Sextet(v) <==> c == ALPHABET[v])
  {
    DecodeInverts(v, c);
    if v < 26 {
      CapitalAt(v);
    } else if v < 52 {
      SmallLetterAt(v - 26);
    } else {
      assert ALPHABET[v] == "0123456789+/"[v - 52];
    }
  }

  // ---------------------------------------------------------------- what the text means

  /** The characters that count, decoded. */
  ghost function Symbols(s: string): (r: seq<Symbol>)
    ensures forall k | 0 <= k < |r| :: !r[k].Ignored? && (r[k].Sextet? ==> 0 <= r[k].v < 64)
  {
    if s == "" then [] else (if Decode(s[0]).Ignored? then [] else [Decode(s[0])]) + Symbols(s[1..])
  }

  ghost predicate Clean(s: seq<Symbol>) {
    forall k | 0 <= k < |s| :: !s[k].Ignored? && (s[k].Sextet? ==> 0 <= s[k].v < 64)
  }

  /** One group of four symbols as one to three bytes. */
  ghost function Ungroup(s: seq<Symbol>): (r: Result<seq<Byte>>)
    requires |s| == 4 && Clean(s)
    ensures r.Success? ==> 1 <= |r.value| <= 3
  {
    if s[0].Sextet? && s[1].Sextet? && s[2].Sextet? && s[3].Sextet? then
      Success([s[0].v * 4 + s[1].v / 16, s[1].v % 16 * 16 + s[2].v / 4, s[2].v % 4 * 64 + s[3].v])
    else if s[0].Sextet? && s[1].Sextet? && s[2].Sextet? && s[3].Padding? then
      Success([s[0].v * 4 + s[1].v / 16, s[1].v % 16 * 16 + s[2].v / 4])
    else if s[0].Sextet? && s[1].Sextet? && s[2].Padding? && s[3].Padding? then
      Success([s[0].v * 4 + s[1].v / 16])
    else Failure("invalid base64 data")
  }

  /** Groups of four; a padded group may only be the last. */
  ghost function Parse(s: seq<Symbol>): (r: Result<seq<Byte>>)
    requires Clean(s)
  {
    if s == [] then Success([])
    else if |s| < 4 then Failure("invalid base64 data")
    else
      var bytes :- Ungroup(s[..4]);
      if |bytes| < 3 && s[4..] != [] then Failure("invalid base64 data")
      else
        var rest :- Parse(s[4..]);
        Success(bytes + rest)
  }

  /** The symbols of one to three bytes. */
  ghost function GroupSymbols(a: Byte, b: Byte, c: Byte, n: nat): (s: seq<Symbol>)
    requires 1 <= n <= 3
    ensures |s| == 4 && Clean(s)
  {
    [Sextet(a / 4), Sextet(a % 4 * 16 + b / 16),
     if n > 1 then Sextet(b % 16 * 4 + c / 64) else Padding,
     if n > 2 then Sextet(c % 64) else Padding]
  }

  ghost function ByteOr0(data: seq<Byte>, k: nat): Byte {
    if k < |data| then data[k] else 0
  }

  ghost function DataSymbols(data: seq<Byte>): (s: seq<Symbol>)
    ensures Clean(s)
  {
    if data == [] then [] else
      var n := if |data| < 3 then |data| else 3;
      GroupSymbols(data[0], ByteOr0(data, 1), ByteOr0(data, 2), n) + DataSymbols(data[n..])
  }

  lemma UngroupSymbols(a: Byte, b: Byte, c: Byte, n: nat)
    requires 1 <= n <= 3 && (n < 3 ==> c == 0) && (n < 2 ==> b == 0)
    ensures Ungroup(GroupSymbols(a, b, c, n)) == Success([a, b, c][..n])
  {
    var s1: int, s2: int := a % 4 * 16 + b / 16, b % 16 * 4 + c / 64;
    assert s1 / 16 == a % 4 && s1 % 16 == b / 16;
    assert s2 / 4 == b % 16 && s2 % 4 == c / 64;
    assert a / 4 * 4 + s1 / 16 == a;
    assert s1 % 16 * 16 + s2 / 4 == b;
    assert s2 % 4 * 64 + c % 64 == c;
    var bytes: seq<Byte> := [a, b, c];
    assert bytes[..n] == if n == 1 then [a] else if n == 2 then [a, b] else [a, b, c];
  }

  /** The decoder's meaning undoes the encoder's. */
  lemma {:induction false} ParseData(data: seq<Byte>)
    ensures Parse(DataSymbols(data)) == Success(data)
    decreases |data|
  {
    if data != [] {
      var n := if |data| < 3 then |data| else 3;
      var group := GroupSymbols(data[0], ByteOr0(data, 1), ByteOr0(data, 2), n);
      UngroupSymbols(data[0], ByteOr0(data, 1), ByteOr0(data, 2), n);
      ParseData(data[n..]);
      var all := DataSymbols(data);
      assert all[..4] == group && all[4..] == DataSymbols(data[n..]);
      assert [data[0], ByteOr0(data, 1), ByteOr0(data, 2)][..n] + data[n..] == data;
    }
  }

  lemma {:induction false} SymbolsConcat(s: string, t: string)
    ensures Symbols(s + t) == Symbols(s) + Symbols(t)
  {
    if s == "" {
      assert s + t == t;
    } else {
      assert (s + t)[1..] == s[1..] + t;
      SymbolsConcat(s[1..], t);
    }
  }

  lemma SymbolsOfFour(a: char, b: char, c: char, d: char)
    requires !Decode(a).Ignored? && !Decode(b).Ignored? && !Decode(c).Ignored? && !Decode(d).Ignored?
    ensures Symbols([a, b, c, d]) == [Decode(a), Decode(b), Decode(c), Decode(d)]
  {
    assert [a, b, c, d] == [a] + ([b] + ([c] + [d]));
    SymbolsConcat([a], [b] + ([c] + [d]));
    SymbolsConcat([b], [c] + [d]);
    SymbolsConcat([c], [d]);
  }

  // ---------------------------------------------------------------- encoding

  lemma Div64(n: int, q: int, r: int)
    requires n == 64 * q + r && 0 <= r < 64
    ensures n / 64 == q && n % 64 == r
  {
  }

  lemma Div4096(n: int, q: int, r: int)
    requires n == 4096 * q + r && 0 <= r < 4096
    ensures n / 4096 == q
  {
  }

  lemma Div262144(n: int, q: int, r: int)
    requires n == 262144 * q + r && 0 <= r < 262144
    ensures n / 262144 == q
  {
  }

  lemma Div256(n: int, q: int, r: int)
    requires n == 256 * q + r && 0 <= r < 256
    ensures n / 256 == q && n % 256 == r
  {
  }

  lemma Div65536(n: int, q: int, r: int)
    requires n == 65536 * q + r && 0 <= r < 65536
    ensures n / 65536 == q
  {
  }

  /** The sextets of a 24-bit block. */
  lemma BlockSextets(a: Byte, b: Byte, c: Byte, block: int)
    requires block == a * 65536 + b * 256 + c
    ensures block / 262144 == a / 4 && block / 4096 % 64 == a % 4 * 16 + b / 16
    ensures block / 64 % 64 == b % 16 * 4 + c / 64 && block % 64 == c % 64
  {
    var s0: int, s1: int, s2: int, s3: int := a / 4, a % 4 * 16 + b / 16, b % 16 * 4 + c / 64, c % 64;
    assert block == 262144 * s0 + 4096 * s1 + 64 * s2 + s3;
    Div262144(block, s0, s1 * 4096 + s2 * 64 + s3);
    Div4096(block, s0 * 64 + s1, s2 * 64 + s3);
    Div64(s0 * 64 + s1, s0, s1);
    Div64(block, (s0 * 64 + s1) * 64 + s2, s3);
    Div64((s0 * 64 + s1) * 64 + s2, s0 * 64 + s1, s2);
  }

  /** The bytes of a block of four sextets. */
  lemma BlockBytes(s0: int, s1: int, s2: int, s3: int, block: int)
    requires 0 <= s0 < 64 && 0 <= s1 < 64 && 0 <= s2 < 64 && 0 <= s3 < 64
    requires block == ((s0 * 64 + s1) * 64 + s2) * 64 + s3
    ensures block / 65536 == s0 * 4 + s1 / 16 && block / 256 % 256 == s1 % 16 * 16 + s2 / 4 && block % 256 == s2 % 4 * 64 + s3
    ensures 0 <= block < 0x100_0000
  {
    var b0, b1, b2 := s0 * 4 + s1 / 16, s1 % 16 * 16 + s2 / 4, s2 % 4 * 64 + s3;
    assert block == 65536 * b0 + 256 * b1 + b2;
    Div65536(block, b0, b1 * 256 + b2);
    Div256(block, b0 * 256 + b1, b2);
    Div256(b0 * 256 + b1, b0, b1);
  }

  /** One group of the output. */
  method EncodeGroup(a: Byte, b: Byte, c: Byte, n: nat) returns (s: string)
    requires 1 <= n <= 3 && (n < 3 ==> c == 0) && (n < 2 ==> b == 0)
    ensures |s| == 4 && Symbols(s) == GroupSymbols(a, b, c, n)
  {
    var block: int := a as int * 65536 + b as int * 256 + c as int;
    BlockSextets(a, b, c, block);
    s := [Encode(block / 262144), Encode(block / 4096 % 64),
          if n > 1 then Encode(block / 64 % 64) else '=', if n > 2 then Encode(block % 64) else '='];
    SymbolsOfFour(s[0], s[1], s[2], s[3]);
  }

  lemma FullGroup(data: seq<Byte>, i: nat)
    requires i + 3 <= |data|
    ensures DataSymbols(data[i..]) == GroupSymbols(data[i], data[i + 1], data[i + 2], 3) + DataSymbols(data[i + 3..])
  {
    assert data[i..][3..] == data[i + 3..];
  }

  lemma LastGroup(data: seq<Byte>, i: nat)
    requires i < |data| < i + 3
    ensures DataSymbols(data[i..]) == GroupSymbols(data[i], if i + 1 < |data| then data[i + 1] else 0, 0, |data| - i)
  {
    var rest := data[i..];
    assert rest[|data| - i..] == [];
  }

  /** Appends the group for the `n` bytes from position `i`. */
  method AppendGroup(b64: string, data: seq<Byte>, i: nat, n: nat) returns (r: string)
    requires i < |data| && n == if |data| - i < 3 then |data| - i else 3
    ensures |r| == |b64| + 4
    ensures Symbols(r) + DataSymbols(data[i + n..]) == Symbols(b64) + DataSymbols(data[i..])
  {
    var group := EncodeGroup(data[i], if n > 1 then data[i + 1] else 0, if n > 2 then data[i + 2] else 0, n);
    if n == 3 {
      FullGroup(data, i);
    } else {
      LastGroup(data, i);
      assert data[i + n..] == [];
    }
    SymbolsConcat(b64, group);
    r := b64 + group;
    Regroup(Symbols(b64), Symbols(group), DataSymbols(data[i + n..]));
  }

  lemma Regroup(a: seq<Symbol>, b: seq<Symbol>, c: seq<Symbol>)
    ensures a + b + c == a + (b + c)
  {
  }

  lemma NothingLeft(s: seq<Symbol>, data: seq<Byte>)
    requires data == []
    ensures s + DataSymbols(data) == s
  {
  }

  lemma NothingYet(data: seq<Byte>)
    ensures Symbols("") + DataSymbols(data[0..]) == DataSymbols(data)
  {
    assert data[0..] == data;
    assert [] + DataSymbols(data) == DataSymbols(data);
  }

  /** The full groups. */
  method EncodeFull(data: seq<Byte>) returns (b64: string, i: nat)
    ensures i <= |data| < i + 3 && i % 3 == 0 && |b64| == i / 3 * 4
    ensures Symbols(b64) + DataSymbols(data[i..]) == DataSymbols(data)
  {
    b64, i := "", 0;
    ghost var all := DataSymbols(data);
    NothingYet(data);
    while i + 3 <= |data|
      invariant 0 <= i <= |data| && i % 3 == 0 && |b64| == i / 3 * 4
      invariant Symbols(b64) + DataSymbols(data[i..]) == all
    {
      b64 := AppendGroup(b64, data, i, 3);
      i := i + 3;
    }
  }

  lemma GroupCount(n: nat, i: nat)
    requires i <= n < i + 3 && i % 3 == 0
    ensures (n + 2) / 3 * 4 == i / 3 * 4 + if i < n then 4 else 0
  {
    var k := i / 3;
    assert i == 3 * k;
  }

  method EncodeBase64(data: seq<Byte>) returns (b64: string)
    ensures Symbols(b64) == DataSymbols(data) && |b64| == (|data| + 2) / 3 * 4
  {
    var i;
    b64, i := EncodeFull(data);
    GroupCount(|data|, i);
    if i < |data| {
      b64 := AppendGroup(b64, data, i, |data| - i);
      i := |data|;
    }
    NothingLeft(Symbols(b64), data[i..]);
  }

  // ---------------------------------------------------------------- decoding

  ghost function Part(s: Symbol): int {
    if s.Sextet? then s.v else 0
  }

  /** The block after the symbols of an unfinished group; padding shifts in zeros. */
  ghost function BlockOf(pending: seq<Symbol>): int {
    if pending == [] then 0 else
      var l := |pending| - 1;
      BlockOf(pending[..l]) * 64 + Part(pending[l])
  }

  /** Sextets, then only padding, which does not start before the third place. */
  ghost predicate Partial(pending: seq<Symbol>, padding: nat) {
    && Clean(pending) && padding <= |pending| <= 4
    && (forall k | 0 <= k < |pending| :: if k < |pending| - padding then pending[k].Sextet? else pending[k].Padding?)
    && (padding > 0 ==> |pending| - padding >= 2)
  }

  /** A group that already breaks the rules never parses. */
  lemma Doomed(s: seq<Symbol>, k: nat)
    requires Clean(s) && k < |s| && k < 4
    requires s[k].Bad? || (s[k].Padding? && k < 2) || (s[k].Sextet? && k > 0 && s[k - 1].Padding?)
    ensures Parse(s).Failure?
  {
    if |s| >= 4 {
      var group := s[..4];
      assert group[k] == s[k] && (k > 0 ==> group[k - 1] == s[k - 1]);
      GroupFails(group, k);
    }
  }

  lemma GroupFails(group: seq<Symbol>, k: nat)
    requires Clean(group) && |group| == 4 && k < 4
    requires group[k].Bad? || (group[k].Padding? && k < 2) || (group[k].Sextet? && k > 0 && group[k - 1].Padding?)
    ensures Ungroup(group).Failure?
  {
  }

  lemma BlockOfFour(pending: seq<Symbol>)
    requires |pending| == 4
    ensures BlockOf(pending) == ((Part(pending[0]) * 64 + Part(pending[1])) * 64 + Part(pending[2])) * 64 + Part(pending[3])
  {
    var p3, p2, p1 := pending[..3], pending[..2], pending[..1];
    assert p3[..2] == p2 && p2[..1] == p1 && p1[..0] == [];
    assert BlockOf(p1) == Part(pending[0]);
    assert BlockOf(p2) == BlockOf(p1) * 64 + Part(pending[1]);
    assert BlockOf(p3) == BlockOf(p2) * 64 + Part(pending[2]);
  }

  /** The four symbols of a group hold its three bytes as one number, the first byte on top; padding stands for zero bits. */
  lemma GroupIsNumber(a: Byte, b: Byte, c: Byte, n: nat)
    requires 1 <= n <= 3 && (n < 3 ==> c == 0) && (n < 2 ==> b == 0)
    ensures BlockOf(GroupSymbols(a, b, c, n)) == a * 65536 + b as int * 256 + c
  {
    BlockOfFour(GroupSymbols(a, b, c, n));
  }

  /** A full group becomes its bytes. */
  lemma GroupDone(pending: seq<Symbol>, padding: nat)
    requires |pending| == 4 && Partial(pending, padding)
    ensures padding <= 2 && 0 <= BlockOf(pending) < 0x100_0000
    ensures Ungroup(pending) == Success(BlockData(BlockOf(pending), padding))
  {
    BlockOfFour(pending);
    BlockBytes(Part(pending[0]), Part(pending[1]), Part(pending[2]), Part(pending[3]), BlockOf(pending));
    assert pending[0].Sextet? && pending[1].Sextet?;
    assert if padding == 2 then pending[2].Padding? else pending[2].Sextet?;
    assert if padding == 0 then pending[3].Sextet? else pending[3].Padding?;
  }

  /** The bytes of a block, as many as the padding leaves. */
  function BlockData(block: int, padding: nat): (data: seq<Byte>)
    requires 0 <= block < 0x100_0000
  {
    if padding == 0 then [block / 65536, block / 256 % 256, block % 256]
    else if padding == 1 then [block / 65536, block / 256 % 256]
    else [block / 65536]
  }

  /** What the decoder still has to do: the unfinished group and the remaining symbols, or nothing at all once
  a padded group has been read. */
  ghost function Outlook(data: seq<Byte>, finished: bool, todo: seq<Symbol>): Result<seq<Byte>>
    requires Clean(todo)
  {
    if finished then (if todo == [] then Success(data) else Failure("invalid base64 data"))
    else match Parse(todo) case Success(more) => Success(data + more) case Failure(e) => Failure(e)
  }

  /** Both fail, or both give the same bytes. */
  ghost predicate Agree(a: Result<seq<Byte>>, b: Result<seq<Byte>>) {
    a.Failure? == b.Failure? && (a.Success? ==> a.value == b.value)
  }

  lemma SymbolsHead(s: string, i: nat)
    requires i < |s|
    ensures Symbols(s[i..]) == (if Decode(s[i]).Ignored? then [] else [Decode(s[i])]) + Symbols(s[i + 1..])
  {
    assert s[i..][0] == s[i] && s[i..][1..] == s[i + 1..];
  }

  /** Takes one symbol into the unfinished group. */
  lemma TakeSymbol(pending: seq<Symbol>, s: Symbol, padding: nat, after: seq<Symbol>)
    requires Partial(pending, padding) && |pending| < 4 && after == pending + [s]
    requires (s.Sextet? && 0 <= s.v < 64 && padding == 0) || (s.Padding? && (padding > 0 || |pending| >= 2))
    ensures Partial(after, if s.Padding? then padding + 1 else padding)
  {
    forall k | 0 <= k < |after|
      ensures !after[k].Ignored? && (after[k].Sextet? ==> 0 <= after[k].v < 64)
    {
      assert k < |pending| ==> after[k] == pending[k];
    }
  }

  lemma BlockNext(pending: seq<Symbol>, s: Symbol)
    ensures BlockOf(pending + [s]) == BlockOf(pending) * 64 + Part(s)
  {
    assert (pending + [s])[..|pending|] == pending;
  }

  lemma EmitOutlook(data: seq<Byte>, pending: seq<Symbol>, padding: nat, todo: seq<Symbol>)
    requires |pending| == 4 && Partial(pending, padding) && Clean(todo)
    ensures Ungroup(pending).Success? && |Ungroup(pending).value| == 3 - padding
    ensures Agree(Outlook(data + Ungroup(pending).value, padding > 0, todo), Outlook(data, false, pending + todo))
  {
    GroupDone(pending, padding);
    var all, bytes := pending + todo, Ungroup(pending).value;
    assert all[..4] == pending && all[4..] == todo;
    if Parse(todo).Success? {
      assert data + bytes + Parse(todo).value == data + (bytes + Parse(todo).value);
    }
    assert todo == [] ==> data + bytes == data + (bytes + []);
  }

  /** Emits the bytes of a full group. */
  method Emit(block: int, padding: nat, data0: seq<Byte>, ghost pending: seq<Symbol>, ghost todo: seq<Symbol>) returns (data: seq<Byte>)
    requires |pending| == 4 && Partial(pending, padding) && block == BlockOf(pending) && Clean(todo)
    ensures Agree(Outlook(data, padding > 0, todo), Outlook(data0, false, pending + todo))
  {
    GroupDone(pending, padding);
    data := data0 + [block / 65536];
    if padding < 2 {
      data := data + [block / 256 % 256];
    }
    if padding < 1 {
      data := data + [block % 256];
    }
    assert data == data0 + BlockData(block, padding);
    assert data == data0 + Ungroup(pending).value;
    EmitOutlook(data0, pending, padding, todo);
  }

  /** Between two characters: the unfinished group and what it and the rest amount to. */
  ghost predicate Decoding(data: seq<Byte>, byteIndex: nat, padding: nat, finished: bool, block: int, pending: seq<Symbol>, todo: seq<Symbol>, result: Result<seq<Byte>>)
    requires Clean(todo)
  {
    && byteIndex == |pending| < 4 && block == BlockOf(pending) && Clean(pending)
    && (if finished then pending == [] else Partial(pending, padding))
    && Agree(Outlook(data, finished, pending + todo), result)
  }

  /** Takes one symbol that counts. */
  method Accept(d: Symbol, data0: seq<Byte>, byteIndex0: nat, padding0: nat, finished0: bool, block0: int, ghost pending0: seq<Symbol>, ghost todo: seq<Symbol>,
                ghost result: Result<seq<Byte>>)
    returns (ok: bool, data: seq<Byte>, byteIndex: nat, padding: nat, finished: bool, block: int, ghost pending: seq<Symbol>)
    requires !d.Ignored? && (d.Sextet? ==> 0 <= d.v < 64) && Clean(todo) && Clean([d] + todo)
    requires Decoding(data0, byteIndex0, padding0, finished0, block0, pending0, [d] + todo, result)
    ensures ok ==> Decoding(data, byteIndex, padding, finished, block, pending, todo, result)
    ensures !ok ==> result.Failure?
  {
    ok, data, byteIndex, padding, finished, block, pending := true, data0, byteIndex0, padding0, finished0, block0, pending0;
    ghost var all := pending + ([d] + todo);
    assert all == pending + [d] + todo;
    if finished {
      assert all != [];
      ok := false;
      return;
    }
    if d.Bad? || (d.Padding? && padding == 0 && byteIndex < 2) || (d.Sextet? && padding > 0) {
      assert all[|pending|] == d && (|pending| > 0 ==> all[|pending| - 1] == pending[|pending| - 1]);
      Doomed(all, |pending|);
      ok := false;
      return;
    }
    TakeSymbol(pending, d, padding, pending + [d]);
    BlockNext(pending, d);
    block := block * 64 + if d.Sextet? then d.v else 0;
    padding := if d.Padding? then padding + 1 else padding;
    byteIndex := byteIndex + 1;
    pending := pending + [d];
    if byteIndex == 4 {
      data := Emit(block, padding, data, pending, todo);
      finished := padding > 0;
      byteIndex, block, pending := 0, 0, [];
      assert [] + todo == todo;
    }
  }

  /** The loop decodes what the text means, or rejects it exactly when it means nothing. */
  method DecodeBase64(b64data: string) returns (r: Result<seq<Byte>>)
    ensures Agree(r, Parse(Symbols(b64data)))
  {
    var data: seq<Byte>, byteIndex: nat, padding: nat, finished, block: int := [], 0, 0, false, 0;
    ghost var pending: seq<Symbol>, result := [], Parse(Symbols(b64data));
    assert b64data[0..] == b64data && [] + Symbols(b64data) == Symbols(b64data);
    OutlookStart(Symbols(b64data));
    for i := 0 to |b64data|
      invariant Decoding(data, byteIndex, padding, finished, block, pending, Symbols(b64data[i..]), result)
    {
      var d := Decode(b64data[i]);
      SymbolsHead(b64data, i);
      if d.Ignored? {
        assert Symbols(b64data[i..]) == Symbols(b64data[i + 1..]);
        continue;
      }
      var ok;
      ok, data, byteIndex, padding, finished, block, pending :=
        Accept(d, data, byteIndex, padding, finished, block, pending, Symbols(b64data[i + 1..]), result);
      if !ok {
        return Failure("invalid base64 data");
      }
    }
    assert b64data[|b64data|..] == "" && pending + [] == pending;
    if byteIndex != 0 {
      return Failure("invalid base64 data");
    }
    r := Success(data);
  }

  lemma OutlookStart(todo: seq<Symbol>)
    requires Clean(todo)
    ensures Agree(Outlook([], false, todo), Parse(todo))
  {
    if Parse(todo).Success? {
      assert [] + Parse(todo).value == Parse(todo).value;
    }
  }

  /** Decoding the text of any bytes gives them back. */
  lemma DecodeUndoesEncode(data: seq<Byte>, b64: string, r: Result<seq<Byte>>)
    requires Symbols(b64) == DataSymbols(data) && Agree(r, Parse(Symbols(b64)))
    ensures r == Success(data)
  {
    ParseData(data);
  }
}
