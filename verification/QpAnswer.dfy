/** The "qp" answer format: solution bits packed by the server and unpacked by the client. */
module QpAnswers {
  import opened Results
  import opened Base64

  /** A variable that takes no part in the problem. */
  const UNUSED := 3

  // ---------------------------------------------------------------- bits and bytes

  function Shift(n: nat): (w: int)
    requires n < 8
    ensures w > 0
  {
    if n == 0 then 1 else if n == 1 then 2 else if n == 2 then 4 else if n == 3 then 8
    else if n == 4 then 16 else if n == 5 then 32 else if n == 6 then 64 else 128
  }

  ghost function At(bits: seq<bool>, k: nat): (v: int)
    ensures v == 0 || v == 1
  {
    if k < |bits| && bits[k] then 1 else 0
  }

  /** Up to eight bits as one byte, the first bit on top. */
  ghost function ByteOf(bits: seq<bool>): (b: Byte)
  {
    At(bits, 0) * 128 + At(bits, 1) * 64 + At(bits, 2) * 32 + At(bits, 3) * 16 + At(bits, 4) * 8 + At(bits, 5) * 4 + At(bits, 6) * 2 + At(bits, 7)
  }

  /** The number that the bits denote, the first bit on top. */
  ghost function Binary(bits: seq<bool>): nat {
    if bits == [] then 0 else
      var l := |bits| - 1;
      2 * Binary(bits[..l]) + if bits[l] then 1 else 0
  }

  lemma BinaryStep(bits: seq<bool>, k: nat)
    requires 0 < k <= |bits|
    ensures Binary(bits[..k]) == 2 * Binary(bits[..k - 1]) + At(bits, k - 1)
  {
    assert bits[..k][..k - 1] == bits[..k - 1];
  }

  lemma FourBits(bits: seq<bool>, k: nat)
    requires k + 4 <= |bits|
    ensures Binary(bits[..k + 4]) == 16 * Binary(bits[..k]) + 8 * At(bits, k) + 4 * At(bits, k + 1) + 2 * At(bits, k + 2) + At(bits, k + 3)
  {
    BinaryStep(bits, k + 1);
    BinaryStep(bits, k + 2);
    BinaryStep(bits, k + 3);
    BinaryStep(bits, k + 4);
  }

  /** A full byte holds its bits as a binary number. */
  lemma ByteIsBinary(bits: seq<bool>)
    requires |bits| == 8
    ensures ByteOf(bits) == Binary(bits)
  {
    FourBits(bits, 0);
    FourBits(bits, 4);
    assert bits[..8] == bits && bits[..0] == [];
  }

  lemma OneMoreZero(bits: seq<bool>, k: nat)
    ensures At(bits + [false], k) == At(bits, k)
  {
  }

  /** In a last group zeros stand for the missing bits. */
  lemma MissingBitsAreZero(bits: seq<bool>)
    ensures ByteOf(bits) == ByteOf(bits + [false])
  {
    forall k: nat
      ensures At(bits + [false], k) == At(bits, k)
    {
      OneMoreZero(bits, k);
    }
  }

  predicate BitSet(b: Byte, n: nat)
    requires n < 8
  {
    b / Shift(n) % 2 == 1
  }

  lemma Half(n: int, d: int, q: int, r: int, v: int)
    requires d > 0 && n == d * (2 * q + v) + r && 0 <= r < d && 0 <= v <= 1
    requires d == 1 || d == 2 || d == 4 || d == 8 || d == 16 || d == 32 || d == 64 || d == 128
    ensures n / d % 2 == v
  {
    assert n / d == 2 * q + v;
  }

  lemma ByteBits(bits: seq<bool>, k: nat)
    requires k < 8
    ensures BitSet(ByteOf(bits), 7 - k) <==> At(bits, k) == 1
  {
    var a0, a1, a2, a3, a4, a5, a6, a7 := At(bits, 0), At(bits, 1), At(bits, 2), At(bits, 3), At(bits, 4), At(bits, 5), At(bits, 6), At(bits, 7);
    var n: int := ByteOf(bits);
    if k == 0 { Half(n, 128, 0, a1 * 64 + a2 * 32 + a3 * 16 + a4 * 8 + a5 * 4 + a6 * 2 + a7, a0); }
    else if k == 1 { Half(n, 64, a0, a2 * 32 + a3 * 16 + a4 * 8 + a5 * 4 + a6 * 2 + a7, a1); }
    else if k == 2 { Half(n, 32, a0 * 2 + a1, a3 * 16 + a4 * 8 + a5 * 4 + a6 * 2 + a7, a2); }
    else if k == 3 { Half(n, 16, a0 * 4 + a1 * 2 + a2, a4 * 8 + a5 * 4 + a6 * 2 + a7, a3); }
    else if k == 4 { Half(n, 8, a0 * 8 + a1 * 4 + a2 * 2 + a3, a5 * 4 + a6 * 2 + a7, a4); }
    else if k == 5 { Half(n, 4, a0 * 16 + a1 * 8 + a2 * 4 + a3 * 2 + a4, a6 * 2 + a7, a5); }
    else if k == 6 { Half(n, 2, a0 * 32 + a1 * 16 + a2 * 8 + a3 * 4 + a4 * 2 + a5, a7, a6); }
    else { Half(n, 1, a0 * 64 + a1 * 32 + a2 * 16 + a3 * 8 + a4 * 4 + a5 * 2 + a6, 0, a7); }
  }

  /** One value for each group of eight bits, the last group possibly shorter. */
  ghost function Pack<T>(f: seq<bool> -> T, bits: seq<bool>): (r: seq<T>)
    ensures |r| == (|bits| + 7) / 8
    decreases |bits|
  {
    if bits == [] then [] else
      var n := if |bits| < 8 then |bits| else 8;
      [f(bits[..n])] + Pack(f, bits[n..])
  }

  ghost function PackBits(bits: seq<bool>): (bytes: seq<Byte>)
    ensures |bytes| == (|bits| + 7) / 8
  {
    Pack(ByteOf, bits)
  }

  lemma {:induction false} PackAt<T>(f: seq<bool> -> T, bits: seq<bool>, k: nat) returns (group: seq<bool>)
    requires k < |bits|
    ensures k / 8 < |Pack(f, bits)| && Pack(f, bits)[k / 8] == f(group)
    ensures k % 8 < |group| <= 8 && group[k % 8] == bits[k]
    decreases k
  {
    var n := if |bits| < 8 then |bits| else 8;
    if k < 8 {
      group := bits[..n];
    } else {
      group := PackAt(f, bits[8..], k - 8);
      assert Pack(f, bits) == [f(bits[..8])] + Pack(f, bits[8..]);
    }
  }

  /** Bit number `k` of a byte string. */
  ghost predicate BitAt(bytes: seq<Byte>, k: nat)
    requires k / 8 < |bytes|
  {
    BitSet(bytes[k / 8], 7 - k % 8)
  }

  lemma PackedBit(bits: seq<bool>, k: nat)
    requires k < |bits|
    ensures BitAt(PackBits(bits), k) <==> bits[k]
  {
    var group := PackAt(ByteOf, bits, k);
    ByteBits(group, k % 8);
  }

  // ---------------------------------------------------------------- the server's encoder

  /** The bits of the variables in use. */
  ghost function ActiveBits(sol: seq<int>): (bits: seq<bool>) {
    if sol == [] then [] else
      var l := |sol| - 1;
      ActiveBits(sol[..l]) + if sol[l] == UNUSED then [] else [sol[l] == 1]
  }

  ghost function PackedRows(sols: seq<seq<int>>): (bytes: seq<Byte>) {
    if sols == [] then [] else PackBits(ActiveBits(sols[0])) + PackedRows(sols[1..])
  }

  /** The byte under construction holds the bits since the last full byte. */
  ghost predicate Filling(byte: int, bit: int, pending: seq<bool>) {
    |pending| < 8 && byte == ByteOf(pending) && bit == Shift(7 - |pending|)
  }

  lemma NextBit(byte: int, bit: int, pending: seq<bool>, b: bool)
    requires Filling(byte, bit, pending)
    ensures (if b then byte + bit else byte) == ByteOf(pending + [b])
    ensures bit / 2 == if |pending| == 7 then 0 else Shift(7 - |pending| - 1)
  {
    var more := pending + [b];
    assert forall k: nat :: At(more, k) == if k == |pending| then (if b then 1 else 0) else At(pending, k);
  }

  lemma PackFirst<T>(f: seq<bool> -> T, first: seq<bool>, rest: seq<bool>)
    requires |first| == 8
    ensures Pack(f, first + rest) == [f(first)] + Pack(f, rest)
  {
    assert (first + rest)[..8] == first && (first + rest)[8..] == rest;
  }

  lemma EightOff(full: seq<bool>, pending: seq<bool>)
    requires |full| >= 8
    ensures full == full[..8] + full[8..] && full + pending == full[..8] + (full[8..] + pending)
  {
  }

  lemma Prepend<T>(first: T, a: seq<T>, b: seq<T>)
    ensures [first] + (a + b) == [first] + a + b
  {
  }

  lemma {:induction false} PackSplit<T>(f: seq<bool> -> T, full: seq<bool>, pending: seq<bool>)
    requires |full| % 8 == 0
    ensures Pack(f, full + pending) == Pack(f, full) + Pack(f, pending)
    decreases |full|
  {
    if full == [] {
      assert full + pending == pending;
    } else {
      var first, rest := full[..8], full[8..];
      PackSplit(f, rest, pending);
      PackFirst(f, first, rest);
      PackFirst(f, first, rest + pending);
      EightOff(full, pending);
      Prepend(f(first), Pack(f, rest), Pack(f, pending));
    }
  }

  lemma PackBitsSplit(full: seq<bool>, pending: seq<bool>)
    requires |full| % 8 == 0
    ensures PackBits(full + pending) == PackBits(full) + PackBits(pending)
  {
    PackSplit(ByteOf, full, pending);
  }

  lemma PackOne(pending: seq<bool>)
    requires 0 < |pending| <= 8
    ensures PackBits(pending) == [ByteOf(pending)]
  {
    assert pending[..|pending|] == pending && pending[|pending|..] == [];
  }

  /** The bits so far are full bytes in `encoded`, then the byte under construction. */
  ghost predicate Encoding(bits: seq<bool>, before: seq<Byte>, encoded: seq<Byte>, byte: int, bit: int, full: seq<bool>, pending: seq<bool>) {
    bits == full + pending && |full| % 8 == 0 && encoded == before + PackBits(full) && Filling(byte, bit, pending)
  }

  /** Adds one bit. */
  method PushBit(b: bool, ghost bits: seq<bool>, ghost before: seq<Byte>, encoded0: seq<Byte>, byte0: int, bit0: int, ghost full0: seq<bool>, ghost pending0: seq<bool>)
    returns (encoded: seq<Byte>, byte: int, bit: int, ghost full: seq<bool>, ghost pending: seq<bool>)
    requires Encoding(bits, before, encoded0, byte0, bit0, full0, pending0)
    ensures Encoding(bits + [b], before, encoded, byte, bit, full, pending)
  {
    encoded, byte, bit, full, pending := encoded0, byte0, bit0, full0, pending0;
    NextBit(byte, bit, pending, b);
    if b {
      byte := byte + bit;
    }
    bit := bit / 2;
    pending := pending + [b];
    assert bits + [b] == full + pending;
    if bit == 0 {
      PackBitsSplit(full, pending);
      PackOne(pending);
      encoded := encoded + [byte];
      full := full + pending;
      byte, bit, pending := 0, 128, [];
      assert full + pending == full;
    }
  }

  method EncodeSolution(sol: seq<int>, encoded0: seq<Byte>) returns (encoded: seq<Byte>)
    ensures encoded == encoded0 + PackBits(ActiveBits(sol))
  {
    encoded := encoded0;
    var byte, bit := 0, 128;
    ghost var full: seq<bool>, pending: seq<bool> := [], [];
    for k := 0 to |sol|
      invariant Encoding(ActiveBits(sol[..k]), encoded0, encoded, byte, bit, full, pending)
    {
      assert sol[..k + 1][..k] == sol[..k];
      if sol[k] != UNUSED {
        encoded, byte, bit, full, pending := PushBit(sol[k] == 1, ActiveBits(sol[..k]), encoded0, encoded, byte, bit, full, pending);
      }
    }
    assert sol[..|sol|] == sol;
    PackBitsSplit(full, pending);
    if bit != 128 {
      PackOne(pending);
      encoded := encoded + [byte];
    }
  }

  method EncodeSols(sols: seq<seq<int>>) returns (encoded: seq<Byte>)
    ensures encoded == PackedRows(sols)
  {
    encoded := [];
    ghost var all := PackedRows(sols);
    assert sols[0..] == sols && [] + all == all;
    for i := 0 to |sols|
      invariant encoded + PackedRows(sols[i..]) == all
    {
      PackedStep(encoded, sols, i);
      encoded := EncodeSolution(sols[i], encoded);
    }
    assert sols[|sols|..] == [] && encoded + [] == encoded;
  }

  lemma PackedStep(encoded: seq<Byte>, sols: seq<seq<int>>, i: nat)
    requires i < |sols|
    ensures encoded + PackedRows(sols[i..]) == encoded + PackBits(ActiveBits(sols[i])) + PackedRows(sols[i + 1..])
  {
    var rest, row, more := sols[i..], PackBits(ActiveBits(sols[i])), PackedRows(sols[i + 1..]);
    assert rest[0] == sols[i] && rest[1..] == sols[i + 1..];
    assert PackedRows(rest) == row + more;
    RegroupBytes(encoded, row, more);
  }

  lemma RegroupBytes(a: seq<Byte>, b: seq<Byte>, c: seq<Byte>)
    ensures a + b + c == a + (b + c)
  {
  }

  // ---------------------------------------------------------------- the client's decoder

  /** Ascending, not negative, and below the number of variables. */
  ghost predicate GoodActive(active: seq<int>, numVars: int) {
    && (forall k | 0 <= k < |active| :: 0 <= active[k] < numVars)
    && (forall j, k | 0 <= j < k < |active| :: active[j] < active[k])
  }

  method CheckActive(active: seq<int>, numVars: nat) returns (ok: bool)
    ensures ok <==> GoodActive(active, numVars)
  {
    var last := -1;
    for k := 0 to |active|
      invariant -1 <= last && (k == 0 <==> last == -1) && (k > 0 ==> last == active[k - 1])
      invariant forall j | 0 <= j < k :: 0 <= active[j] <= last
      invariant forall i, j | 0 <= i < j < k :: active[i] < active[j]
    {
      if active[k] <= last {
        assert k > 0 ==> active[k] <= active[k - 1];
        return false;
      }
      last := active[k];
    }
    ok := last < numVars;
  }

  /** The row after the first `k` active variables have been read from their bits. */
  ghost function RowTo(bytes: seq<Byte>, active: seq<int>, numVars: nat, zero: int, k: nat): (row: seq<int>)
    requires k <= |active| && GoodActive(active, numVars) && (|active| + 7) / 8 <= |bytes|
    ensures |row| == numVars
  {
    if k == 0 then seq(numVars, _ => UNUSED)
    else RowTo(bytes, active, numVars, zero, k - 1)[active[k - 1] := if BitAt(bytes, k - 1) then 1 else zero]
  }

  /** `k` rows of `n` entries. */
  ghost function Size(k: nat, n: nat): nat {
    if k == 0 then 0 else n + Size(k - 1, n)
  }

  lemma {:induction false} SizeIsProduct(k: nat, n: nat)
    ensures Size(k, n) == k * n
  {
    if k > 0 {
      SizeIsProduct(k - 1, n);
      assert k * n == (k - 1) * n + n;
    }
  }

  ghost function Rows(bytes: seq<Byte>, active: seq<int>, numVars: nat, zero: int, numSols: nat): (flat: seq<int>)
    requires GoodActive(active, numVars) && |bytes| == Size(numSols, (|active| + 7) / 8)
    ensures |flat| == Size(numSols, numVars)
    decreases numSols
  {
    if numSols == 0 then [] else
      var w := (|active| + 7) / 8;
      RowTo(bytes[..w], active, numVars, zero, |active|) + Rows(bytes[w..], active, numVars, zero, numSols - 1)
  }

  const SIZE_MAX := 0xffff_ffff_ffff_ffff

  ghost predicate TooLarge(numVars: nat, numSols: nat) {
    numVars > 0 && SIZE_MAX / numVars < numSols
  }

  ghost predicate SameOutside(now: seq<int>, before: seq<int>, from: nat, n: nat) {
    |now| == |before| && forall k | 0 <= k < |now| && !(from <= k < from + n) :: now[k] == before[k]
  }

  lemma CursorBit(bytes: seq<Byte>, k: nat, offset: nat, bitIndex: nat)
    requires k == 8 * offset + 7 - bitIndex && bitIndex < 8 && k < 8 * |bytes|
    ensures offset == k / 8 < |bytes| && (BitAt(bytes, k) <==> BitSet(bytes[offset], bitIndex))
  {
    assert k % 8 == 7 - bitIndex;
  }

  /** Reads one solution with a byte cursor and a bit cursor. */
  method DecodeRow(solBits: seq<Byte>, start: nat, active: seq<int>, numVars: nat, zero: int, out: array<int>, from: nat) returns (next: nat)
    requires GoodActive(active, numVars) && active != [] && start + (|active| + 7) / 8 <= |solBits|
    requires from + numVars <= out.Length && forall v | from <= v < from + numVars :: out[v] == UNUSED
    modifies out
    ensures next == start + (|active| + 7) / 8 && SameOutside(out[..], old(out[..]), from, numVars)
    ensures out[from..from + numVars] == RowTo(solBits[start..next], active, numVars, zero, |active|)
  {
    ghost var w := (|active| + 7) / 8;
    ghost var bytes := solBits[start..start + w];
    var p, bitIndex := start, 7;
    assert out[from..from + numVars] == RowTo(bytes, active, numVars, zero, 0);
    for k := 0 to |active|
      invariant start <= p && -1 <= bitIndex <= 7 && k == 8 * (p - start) + 7 - bitIndex
      invariant k > 0 ==> bitIndex < 7
      invariant SameOutside(out[..], old(out[..]), from, numVars)
      invariant out[from..from + numVars] == RowTo(bytes, active, numVars, zero, k)
    {
      if bitIndex < 0 {
        p, bitIndex := p + 1, 7;
      }
      CursorBit(bytes, k, p - start, bitIndex);
      assert bytes[p - start] == solBits[p];
      ghost var row := out[from..from + numVars];
      out[from + active[k]] := if BitSet(solBits[p], bitIndex) then 1 else zero;
      assert out[from..from + numVars] == row[active[k] := if BitAt(bytes, k) then 1 else zero];
      bitIndex := bitIndex - 1;
    }
    next := p + 1;
    assert next == start + w;
  }

  method DecodeSolutions(solBits: seq<Byte>, active: seq<int>, numVars: nat, numSols: nat, zero: int) returns (r: Result<seq<int>>)
    ensures r.Failure? <==> !GoodActive(active, numVars) || |solBits| != Size(numSols, (|active| + 7) / 8) || TooLarge(numVars, numSols)
    ensures r.Success? ==> r.value == Rows(solBits, active, numVars, zero, numSols)
  {
    var ok := CheckActive(active, numVars);
    if !ok {
      return Failure("bad value: active_variables");
    }
    SizeIsProduct(numSols, (|active| + 7) / 8);
    if numSols * ((|active| + 7) / 8) != |solBits| {
      return Failure("bad value: solutions");
    }
    if numVars > 0 && SIZE_MAX / numVars < numSols {
      return Failure("solution data too large");
    }
    SizeIsProduct(numSols, numVars);
    assert 0 <= numSols * numVars;
    var solutions := new int[numSols * numVars];
    for k := 0 to solutions.Length
      invariant forall l | 0 <= l < k :: solutions[l] == UNUSED
    {
      solutions[k] := UNUSED;
    }
    FillSolutions(solBits, active, numVars, numSols, zero, solutions);
    r := Success(solutions[..]);
  }

  lemma {:induction false} NothingActive(solBits: seq<Byte>, active: seq<int>, numVars: nat, numSols: nat, zero: int)
    requires GoodActive(active, numVars) && solBits == [] && |solBits| == Size(numSols, (|active| + 7) / 8)
    ensures forall k | 0 <= k < |Rows(solBits, active, numVars, zero, numSols)| :: Rows(solBits, active, numVars, zero, numSols)[k] == UNUSED
    decreases numSols
  {
    if numSols > 0 {
      NothingActive(solBits[0..], active, numVars, numSols - 1, zero);
    }
  }

  lemma {:induction false} NoBits(numSols: nat)
    ensures Size(numSols, 0) == 0
  {
    if numSols > 0 {
      NoBits(numSols - 1);
    }
  }

  /** Writes the next row; `left` rows are still to be written. */
  method FillRow(solBits: seq<Byte>, p0: nat, active: seq<int>, numVars: nat, ghost left: nat, zero: int, solutions: array<int>, sol0: nat, ghost all: seq<int>)
    returns (p: nat, sol: nat)
    requires GoodActive(active, numVars) && active != [] && left > 0
    requires p0 <= |solBits| && |solBits| - p0 == Size(left, (|active| + 7) / 8)
    requires sol0 <= solutions.Length && solutions.Length - sol0 == Size(left, numVars)
    requires forall k | sol0 <= k < solutions.Length :: solutions[k] == UNUSED
    requires solutions[..sol0] + Rows(solBits[p0..], active, numVars, zero, left) == all
    modifies solutions
    ensures p <= |solBits| && |solBits| - p == Size(left - 1, (|active| + 7) / 8)
    ensures sol <= solutions.Length && solutions.Length - sol == Size(left - 1, numVars)
    ensures forall k | sol <= k < solutions.Length :: solutions[k] == UNUSED
    ensures solutions[..sol] + Rows(solBits[p..], active, numVars, zero, left - 1) == all
  {
    ghost var before := solutions[..];
    p := DecodeRow(solBits, p0, active, numVars, zero, solutions, sol0);
    sol := sol0 + numVars;
    assert solBits[p0..] == solBits[p0..p] + solBits[p..];
    RowWritten(solBits[p0..p], solBits[p..], active, numVars, left, zero, before, solutions[..], sol0, sol);
  }

  lemma RowWritten(first: seq<Byte>, more: seq<Byte>, active: seq<int>, numVars: nat, left: nat, zero: int, before: seq<int>, after: seq<int>, sol0: nat, sol: nat)
    requires GoodActive(active, numVars) && left > 0
    requires |first| == (|active| + 7) / 8 && |more| == Size(left - 1, (|active| + 7) / 8)
    requires sol == sol0 + numVars <= |before| && SameOutside(after, before, sol0, numVars)
    requires after[sol0..sol] == RowTo(first, active, numVars, zero, |active|)
    ensures |first + more| == Size(left, (|active| + 7) / 8)
    ensures after[..sol] + Rows(more, active, numVars, zero, left - 1) == before[..sol0] + Rows(first + more, active, numVars, zero, left)
  {
    RowsStep(first, more, active, numVars, zero, left);
    assert after[..sol] == before[..sol0] + after[sol0..sol];
    Regroup(before[..sol0], after[sol0..sol], Rows(more, active, numVars, zero, left - 1));
  }

  lemma Regroup(a: seq<int>, b: seq<int>, c: seq<int>)
    ensures a + b + c == a + (b + c)
  {
  }

  /** Writes the rows one after the other into the prepared buffer. */
  method FillSolutions(solBits: seq<Byte>, active: seq<int>, numVars: nat, numSols: nat, zero: int, solutions: array<int>)
    requires GoodActive(active, numVars) && |solBits| == Size(numSols, (|active| + 7) / 8) && solutions.Length == Size(numSols, numVars)
    requires forall k | 0 <= k < solutions.Length :: solutions[k] == UNUSED
    modifies solutions
    ensures solutions[..] == Rows(solBits, active, numVars, zero, numSols)
  {
    if solBits == [] {
      NothingActive(solBits, active, numVars, numSols, zero);
      return;
    }
    if active == [] {
      NoBits(numSols);
    }
    var p: nat, sol: nat := 0, 0;
    ghost var all := Rows(solBits, active, numVars, zero, numSols);
    assert solBits[0..] == solBits && solutions[..0] + all == all;
    for i := 0 to numSols
      invariant p <= |solBits| && |solBits| - p == Size(numSols - i, (|active| + 7) / 8)
      invariant sol <= solutions.Length && solutions.Length - sol == Size(numSols - i, numVars)
      invariant forall k | sol <= k < solutions.Length :: solutions[k] == UNUSED
      invariant solutions[..sol] + Rows(solBits[p..], active, numVars, zero, numSols - i) == all
    {
      p, sol := FillRow(solBits, p, active, numVars, numSols - i, zero, solutions, sol, all);
    }
    assert solutions[..sol] == solutions[..];
    assert solutions[..sol] + [] == solutions[..sol];
  }

  // ---------------------------------------------------------------- the client undoes the server

  /** The variables in use, ascending. */
  ghost function ActiveList(sol: seq<int>): (active: seq<int>)
    ensures GoodActive(active, |sol|) && |active| == |ActiveBits(sol)|
  {
    if sol == [] then [] else
      var l := |sol| - 1;
      ActiveList(sol[..l]) + if sol[l] == UNUSED then [] else [l]
  }

  lemma {:induction false} ActiveListBits(sol: seq<int>, k: nat)
    requires k < |ActiveList(sol)|
    ensures sol[ActiveList(sol)[k]] != UNUSED && (ActiveBits(sol)[k] <==> sol[ActiveList(sol)[k]] == 1)
  {
    var l := |sol| - 1;
    if k < |ActiveList(sol[..l])| {
      ActiveListBits(sol[..l], k);
    }
  }

  lemma {:induction false} ActiveListComplete(sol: seq<int>, v: int)
    requires 0 <= v < |sol| && sol[v] != UNUSED
    ensures v in ActiveList(sol)
  {
    var l := |sol| - 1;
    if v < l {
      ActiveListComplete(sol[..l], v);
    }
  }

  lemma {:induction false} RowToAt(bytes: seq<Byte>, active: seq<int>, numVars: nat, zero: int, k: nat, v: nat)
    requires k <= |active| && GoodActive(active, numVars) && (|active| + 7) / 8 <= |bytes| && v < numVars
    ensures forall j: nat | j < k && active[j] == v :: RowTo(bytes, active, numVars, zero, k)[v] == if BitAt(bytes, j) then 1 else zero
    ensures (forall j | 0 <= j < k :: active[j] != v) ==> RowTo(bytes, active, numVars, zero, k)[v] == 3
  {
    if k > 0 {
      RowToAt(bytes, active, numVars, zero, k - 1, v);
    }
  }

  /** Only 1, the value for false, and the marker for unused variables occur. */
  ghost predicate Encodable(sol: seq<int>, zero: int) {
    forall v | 0 <= v < |sol| :: sol[v] == 1 || sol[v] == zero || sol[v] == UNUSED
  }

  lemma RowRoundTrip(sol: seq<int>, zero: int)
    requires Encodable(sol, zero) && zero != UNUSED && zero != 1
    ensures RowTo(PackBits(ActiveBits(sol)), ActiveList(sol), |sol|, zero, |ActiveList(sol)|) == sol
  {
    var active, bits := ActiveList(sol), ActiveBits(sol);
    var row := RowTo(PackBits(bits), active, |sol|, zero, |active|);
    forall v: nat | v < |sol|
      ensures row[v] == sol[v]
    {
      RowToAt(PackBits(bits), active, |sol|, zero, |active|, v);
      if sol[v] != UNUSED {
        ActiveListComplete(sol, v);
        var k: nat :| k < |active| && active[k] == v;
        PackedBit(bits, k);
        ActiveListBits(sol, k);
      } else {
        forall j: nat | j < |active|
          ensures active[j] != v
        {
          ActiveListBits(sol, j);
        }
      }
    }
  }

  ghost function Flat(sols: seq<seq<int>>): seq<int> {
    if sols == [] then [] else sols[0] + Flat(sols[1..])
  }

  /** All solutions are encodable and use the same variables. */
  ghost predicate Shares(sols: seq<seq<int>>, active: seq<int>, numVars: nat, zero: int) {
    forall i | 0 <= i < |sols| :: |sols[i]| == numVars && Encodable(sols[i], zero) && ActiveList(sols[i]) == active
  }

  lemma SharesTail(sols: seq<seq<int>>, active: seq<int>, numVars: nat, zero: int)
    requires Shares(sols, active, numVars, zero) && sols != []
    ensures Shares(sols[1..], active, numVars, zero) && |ActiveBits(sols[0])| == |active|
  {
    assert |ActiveList(sols[0])| == |ActiveBits(sols[0])|;
  }

  lemma RowsStep(first: seq<Byte>, more: seq<Byte>, active: seq<int>, numVars: nat, zero: int, left: nat)
    requires GoodActive(active, numVars) && left > 0 && |first| == (|active| + 7) / 8 && |more| == Size(left - 1, (|active| + 7) / 8)
    ensures |first + more| == Size(left, (|active| + 7) / 8)
    ensures Rows(first + more, active, numVars, zero, left) == RowTo(first, active, numVars, zero, |active|) + Rows(more, active, numVars, zero, left - 1)
  {
    assert (first + more)[..|first|] == first && (first + more)[|first|..] == more;
  }

  /** Decoding the packed solutions gives them back, for any number of solutions that share one active set. */
  lemma {:induction false} SolutionsRoundTrip(sols: seq<seq<int>>, active: seq<int>, numVars: nat, zero: int)
    requires zero != UNUSED && zero != 1 && GoodActive(active, numVars) && Shares(sols, active, numVars, zero)
    ensures |PackedRows(sols)| == Size(|sols|, (|active| + 7) / 8)
    ensures Rows(PackedRows(sols), active, numVars, zero, |sols|) == Flat(sols)
    decreases |sols|
  {
    if sols != [] {
      SharesTail(sols, active, numVars, zero);
      SolutionsRoundTrip(sols[1..], active, numVars, zero);
      RowRoundTrip(sols[0], zero);
      RowsStep(PackBits(ActiveBits(sols[0])), PackedRows(sols[1..]), active, numVars, zero, |sols|);
    }
  }

  // ---------------------------------------------------------------- lists of 32-bit integers

  predicate IsInt32(v: int) {
    -0x8000_0000 <= v < 0x8000_0000
  }

  /** Little-endian two's complement. */
  ghost function PackInt(v: int): (b: seq<Byte>)
    requires IsInt32(v)
    ensures |b| == 4
  {
    var u := if v < 0 then v + 0x1_0000_0000 else v;
    [u % 256, u / 256 % 256, u / 65536 % 256, u / 16777216]
  }

  ghost function PackInts(vs: seq<int>): (b: seq<Byte>)
    requires forall k | 0 <= k < |vs| :: IsInt32(vs[k])
    ensures |b| == 4 * |vs|
  {
    if vs == [] then [] else PackInt(vs[0]) + PackInts(vs[1..])
  }

  function UnpackInt(a: Byte, b: Byte, c: Byte, d: Byte): (v: int)
    ensures IsInt32(v)
  {
    var u := a + 256 * b as int + 65536 * c as int + 16777216 * d as int;
    if u >= 0x8000_0000 then u - 0x1_0000_0000 else u
  }

  ghost function Ints(bytes: seq<Byte>): (v: seq<int>)
    requires |bytes| % 4 == 0
    ensures |v| == |bytes| / 4
    ensures forall k | 0 <= k < |v| :: v[k] == UnpackInt(bytes[4 * k], bytes[4 * k + 1], bytes[4 * k + 2], bytes[4 * k + 3])
  {
    seq(|bytes| / 4, k requires 0 <= k < |bytes| / 4 => UnpackInt(bytes[4 * k], bytes[4 * k + 1], bytes[4 * k + 2], bytes[4 * k + 3]))
  }

  method DecodeInts(bytes: seq<Byte>) returns (r: Result<seq<int>>)
    ensures r.Failure? <==> |bytes| % 4 != 0
    ensures r.Success? ==> r.value == Ints(bytes)
  {
    if |bytes| % 4 != 0 {
      return Failure("bad value");
    }
    var v: seq<int> := [];
    for k := 0 to |bytes| / 4
      invariant v == Ints(bytes)[..k]
    {
      v := v + [UnpackInt(bytes[4 * k], bytes[4 * k + 1], bytes[4 * k + 2], bytes[4 * k + 3])];
    }
    r := Success(v);
  }

  lemma Digits256(u: int, q1: int, q2: int, q3: int)
    requires 0 <= u < 0x1_0000_0000 && q1 == u / 256 && q2 == q1 / 256 && q3 == q2 / 256
    ensures u / 65536 == q2 && u / 16777216 == q3 && q3 < 256
    ensures u == u % 256 + 256 * (q1 % 256) + 65536 * (q2 % 256) + 16777216 * q3
  {
    assert u == 256 * q1 + u % 256 && q1 == 256 * q2 + q1 % 256 && q2 == 256 * q3 + q2 % 256;
    Div65536(u, q2, q1 % 256 * 256 + u % 256);
  }

  lemma IntRoundTrip(v: int)
    requires IsInt32(v)
    ensures var b := PackInt(v); UnpackInt(b[0], b[1], b[2], b[3]) == v
  {
    var u := if v < 0 then v + 0x1_0000_0000 else v;
    Digits256(u, u / 256, u / 256 / 256, u / 256 / 256 / 256);
  }

  /** The four bytes hold the two's complement of the number, the lowest byte first. */
  lemma LowByteFirst(v: int)
    requires IsInt32(v)
    ensures var b := PackInt(v); b[0] + 256 * b[1] as int + 65536 * b[2] as int + 16777216 * b[3] as int == if v < 0 then v + 0x1_0000_0000 else v
  {
    var u := if v < 0 then v + 0x1_0000_0000 else v;
    Digits256(u, u / 256, u / 256 / 256, u / 256 / 256 / 256);
  }

  lemma {:induction false} IntsRoundTrip(vs: seq<int>, k: nat)
    requires (forall l | 0 <= l < |vs| :: IsInt32(vs[l])) && k < |vs|
    ensures var b := PackInts(vs); UnpackInt(b[4 * k], b[4 * k + 1], b[4 * k + 2], b[4 * k + 3]) == vs[k]
    decreases k
  {
    var b, rest := PackInts(vs), PackInts(vs[1..]);
    if k == 0 {
      IntRoundTrip(vs[0]);
    } else {
      IntsRoundTrip(vs[1..], k - 1);
      assert b[4..] == rest;
      assert forall i | 0 <= i < |rest| :: b[i + 4] == rest[i];
    }
  }

  // ---------------------------------------------------------------- the answer as text

  /** What the server sends: the solutions and their active variables as base64 text. */
  datatype Answer = Answer(activeVariables: string, numVariables: nat, solutions: string)

  method EncodeAnswer(sols: seq<seq<int>>, numVars: nat) returns (answer: Answer)
    requires forall i | 0 <= i < |sols| :: |sols[i]| == numVars
    requires numVars < 0x8000_0000
    ensures answer.numVariables == numVars
    ensures Symbols(answer.solutions) == DataSymbols(PackedRows(sols))
    ensures var active := if sols == [] then [] else ActiveList(sols[0]);
            Symbols(answer.activeVariables) == DataSymbols(PackInts(active))
  {
    var active: seq<int> := [];
    if sols != [] {
      active := ListActive(sols[0]);
    }
    var bytes := EncodeInts(active);
    var activeText := EncodeBase64(bytes);
    var packed := EncodeSols(sols);
    var solText := EncodeBase64(packed);
    answer := Answer(activeText, numVars, solText);
  }

  method ListActive(sol: seq<int>) returns (active: seq<int>)
    ensures active == ActiveList(sol)
  {
    active := [];
    for v := 0 to |sol|
      invariant active == ActiveList(sol[..v])
    {
      assert sol[..v + 1][..v] == sol[..v];
      if sol[v] != UNUSED {
        active := active + [v];
      }
    }
    assert sol[..|sol|] == sol;
  }

  method EncodeInts(vs: seq<int>) returns (bytes: seq<Byte>)
    requires forall k | 0 <= k < |vs| :: IsInt32(vs[k])
    ensures bytes == PackInts(vs)
  {
    bytes := [];
    var k := |vs|;
    assert vs[|vs|..] == [];
    while k > 0
      invariant 0 <= k <= |vs| && bytes == PackInts(vs[k..])
    {
      k := k - 1;
      var v := vs[k];
      assert vs[k..][0] == v && vs[k..][1..] == vs[k + 1..];
      var u := if v < 0 then v + 0x1_0000_0000 else v;
      bytes := [u % 256, u / 256 % 256, u / 65536 % 256, u / 16777216] + bytes;
    }
    assert vs[0..] == vs;
  }

  /** What an answer says, or that it is malformed. */
  ghost function Meaning(answer: Answer, numSols: nat, zero: int): Result<seq<int>> {
    var solBits :- Parse(Symbols(answer.solutions));
    var activeBytes :- Parse(Symbols(answer.activeVariables));
    if |activeBytes| % 4 != 0 then Failure("bad value") else
      var active := Ints(activeBytes);
      if !GoodActive(active, answer.numVariables) || |solBits| != Size(numSols, (|active| + 7) / 8) || TooLarge(answer.numVariables, numSols)
      then Failure("bad value")
      else Success(Rows(solBits, active, answer.numVariables, zero, numSols))
  }

  /** Both fail, or both give the same values. */
  ghost predicate SameOutcome(a: Result<seq<int>>, b: Result<seq<int>>) {
    a.Failure? == b.Failure? && (a.Success? ==> a.value == b.value)
  }

  method DecodeAnswer(answer: Answer, numSols: nat, zero: int) returns (r: Result<seq<int>>)
    ensures SameOutcome(r, Meaning(answer, numSols, zero))
  {
    var solBits :- DecodeBase64(answer.solutions);
    var activeBytes :- DecodeBase64(answer.activeVariables);
    var active :- DecodeInts(activeBytes);
    r := DecodeSolutions(solBits, active, answer.numVariables, numSols, zero);
  }

  lemma SameInts(b: seq<Byte>, vs: seq<int>)
    requires |b| == 4 * |vs|
    requires forall k | 0 <= k < |vs| :: UnpackInt(b[4 * k], b[4 * k + 1], b[4 * k + 2], b[4 * k + 3]) == vs[k]
    ensures |b| % 4 == 0 && Ints(b) == vs
  {
  }

  lemma IntListRoundTrip(vs: seq<int>)
    requires forall l | 0 <= l < |vs| :: IsInt32(vs[l])
    ensures Ints(PackInts(vs)) == vs
  {
    var b := PackInts(vs);
    forall k | 0 <= k < |vs|
      ensures UnpackInt(b[4 * k], b[4 * k + 1], b[4 * k + 2], b[4 * k + 3]) == vs[k]
    {
      IntsRoundTrip(vs, k);
    }
    SameInts(b, vs);
  }

  /** The client reads from the server's text, for each solution, the values the server had. */
  lemma AnswerRoundTrip(sols: seq<seq<int>>, numVars: nat, zero: int, active: seq<int>, answer: Answer)
    requires numVars < 0x8000_0000 && !TooLarge(numVars, |sols|) && (zero == -1 || zero == 0)
    requires active == if sols == [] then [] else ActiveList(sols[0])
    requires Shares(sols, active, numVars, zero)
    requires answer.numVariables == numVars
    requires Symbols(answer.solutions) == DataSymbols(PackedRows(sols))
    requires (forall k | 0 <= k < |active| :: IsInt32(active[k])) && Symbols(answer.activeVariables) == DataSymbols(PackInts(active))
    ensures Meaning(answer, |sols|, zero) == Success(Flat(sols))
  {
    ParseData(PackedRows(sols));
    ParseData(PackInts(active));
    IntListRoundTrip(active);
    SolutionsRoundTrip(sols, active, numVars, zero);
    MeaningIs(answer, PackedRows(sols), PackInts(active), active, |sols|, zero);
  }

  lemma MeaningIs(answer: Answer, solBits: seq<Byte>, activeBytes: seq<Byte>, active: seq<int>, numSols: nat, zero: int)
    requires Parse(Symbols(answer.solutions)) == Success(solBits) && Parse(Symbols(answer.activeVariables)) == Success(activeBytes)
    requires |activeBytes| % 4 == 0 && Ints(activeBytes) == active && GoodActive(active, answer.numVariables)
    requires |solBits| == Size(numSols, (|active| + 7) / 8) && !TooLarge(answer.numVariables, numSols)
    ensures Meaning(answer, numSols, zero) == Success(Rows(solBits, active, answer.numVariables, zero, numSols))
  {
  }
}
