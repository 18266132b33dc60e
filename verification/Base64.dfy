/**
  The Base64 codec of xmlrpc_base64.c, against the groups of section 6.8 of RFC 2045.  An unsigned int
  has 32 bits and wraps.
*/
module Base64 {
  import opened Arith
  import opened Bytes
  import opened Outcomes
  import opened Sequences

  const CR: byte := 13
  const LF: byte := 10
  const PAD: byte := 61
  const CRLF: seq<byte> := [CR, LF]
  const MAX_BIN := 57
  const LINE_SIZE := 128
  const UINT := 0x1_0000_0000

  datatype Fault = IncorrectPadding | MalformedData

  // ----- the tables -----

  function Symbol(v: nat): byte
    requires v < 64
  {
    if v < 26 then 65 + v else if v < 52 then 71 + v else if v < 62 then v - 4 else if v == 62 then 43 else 47
  }

  /** `table_a2b_base64`, with -1 for characters outside the alphabet and 0 for the pad. */
  function Value(c: nat): (v: int)
    requires c < 128
    ensures -1 <= v < 64
  {
    if 65 <= c <= 90 then c - 65
    else if 97 <= c <= 122 then c - 71
    else if 48 <= c <= 57 then c + 4
    else if c == 43 then 62
    else if c == 47 then 63
    else if c == 61 then 0
    else -1
  }

  // ----- reference: groups of three bytes -----

  // The four sextets of a group, where `left` is what the byte before left over.

  function First(b: nat): nat { b / 4 }
  function Second(left: nat, b: nat): nat { left * 16 + b / 16 }
  function Third(left: nat, b: nat): nat { left * 4 + b / 64 }
  function Fourth(b: nat): nat { b % 64 }
  function LowTwo(b: nat): nat { b % 4 }
  function LowFour(b: nat): nat { b % 16 }

  function Group(a: byte, b: byte, c: byte): seq<nat> {
    [First(a), Second(LowTwo(a), b), Third(LowFour(b), c), Fourth(c)]
  }

  function Sextets(p: seq<byte>): (s: seq<nat>)
    ensures forall i :: 0 <= i < |s| ==> s[i] < 64
    ensures |s| == (4 * |p| + 2) / 3
  {
    if |p| == 0 then []
    else if |p| == 1 then [First(p[0]), LowTwo(p[0]) * 16]
    else if |p| == 2 then [First(p[0]), Second(LowTwo(p[0]), p[1]), LowFour(p[1]) * 4]
    else Group(p[0], p[1], p[2]) + Sextets(p[3..])
  }

  function Symbols(s: seq<nat>): (r: seq<byte>)
    requires forall i :: 0 <= i < |s| ==> s[i] < 64
    ensures |r| == |s|
  {
    seq(|s|, i requires 0 <= i < |s| => Symbol(s[i]))
  }

  function Padding(n: nat): seq<byte> {
    if n % 3 == 1 then [PAD, PAD] else if n % 3 == 2 then [PAD] else []
  }

  function Line(p: seq<byte>): seq<byte> {
    Symbols(Sextets(p)) + Padding(|p|)
  }

  function Encoded(data: seq<byte>, newlines: bool): seq<byte>
    decreases |data|
  {
    var ending := if newlines then CRLF else [];
    if data == [] then ending
    else if |data| <= MAX_BIN then Line(data) + ending
    else Line(data[..MAX_BIN]) + ending + Encoded(data[MAX_BIN..], newlines)
  }

  // ----- the encoder's bit buffer -----

  function Power(n: nat): (p: nat)
    requires n <= 12
    ensures p > 0
  {
    if n == 2 then 4 else if n == 4 then 16 else if n == 6 then 64
    else if n == 8 then 256 else if n == 10 then 1024 else if n == 12 then 4096 else 1
  }

  /** After `phase` bytes of a group, `left` holds the bits that no complete sextet covers yet. */
  predicate Pending(phase: nat, left: nat) {
    (phase == 0 && left == 0) || (phase == 1 && left < 4) || (phase == 2 && left < 16)
  }

  /** The sextets that byte `b` completes. */
  function Completed(phase: nat, left: nat, b: byte): (s: seq<nat>)
    requires Pending(phase, left)
    ensures forall i :: 0 <= i < |s| ==> s[i] < 64
  {
    if phase == 0 then [First(b)] else if phase == 1 then [Second(left, b)] else [Third(left, b), Fourth(b)]
  }

  function NextLeft(phase: nat, b: byte): nat {
    if phase == 0 then LowTwo(b) else if phase == 1 then LowFour(b) else 0
  }

  function NextPhase(phase: nat): nat {
    if phase == 2 then 0 else phase + 1
  }

  /** The padded last sextet of a line. */
  function Flushed(phase: nat, left: nat): (s: seq<nat>)
    requires Pending(phase, left)
    ensures forall i :: 0 <= i < |s| ==> s[i] < 64
  {
    if phase == 1 then [left * 16] else if phase == 2 then [left * 4] else []
  }

  /** The sextets of `p`, byte by byte off the bit buffer. */
  function Feed(phase: nat, left: nat, p: seq<byte>): (s: seq<nat>)
    requires Pending(phase, left)
    ensures forall i :: 0 <= i < |s| ==> s[i] < 64
    decreases |p|
  {
    if p == [] then Flushed(phase, left)
    else Completed(phase, left, p[0]) + Feed(NextPhase(phase), NextLeft(phase, p[0]), p[1..])
  }

  lemma FeedStep(phase: nat, left: nat, p: seq<byte>, i: nat)
    requires Pending(phase, left) && i < |p|
    ensures Pending(NextPhase(phase), NextLeft(phase, p[i]))
    ensures Feed(phase, left, p[i..])
         == Completed(phase, left, p[i]) + Feed(NextPhase(phase), NextLeft(phase, p[i]), p[i + 1..])
  {
    assert p[i..][1..] == p[i + 1..];
  }

  lemma FeedDone(phase: nat, left: nat, p: seq<byte>)
    requires Pending(phase, left) && p == []
    ensures Feed(phase, left, p) == Flushed(phase, left)
  {}

  lemma FeedGroup(p: seq<byte>)
    requires |p| >= 3
    ensures Feed(0, 0, p) == Group(p[0], p[1], p[2]) + Feed(0, 0, p[3..])
  {
    assert Pending(1, LowTwo(p[0])) && Pending(2, LowFour(p[1]));
    hide Feed, First, Second, Third, Fourth, LowTwo, LowFour;
    var rest := Feed(0, 0, p[3..]);
    assert p[0..] == p;
    FeedStep(0, 0, p, 0);
    FeedStep(1, LowTwo(p[0]), p, 1);
    FeedStep(2, LowFour(p[1]), p, 2);
    Chain4(First(p[0]), Second(LowTwo(p[0]), p[1]), Third(LowFour(p[1]), p[2]), Fourth(p[2]), rest);
  }

  lemma Chain4(a: nat, b: nat, c: nat, d: nat, rest: seq<nat>)
    ensures [a] + ([b] + ([c, d] + rest)) == [a, b, c, d] + rest
  {}

  lemma LowParts(b: byte)
    ensures Pending(1, LowTwo(b)) && Pending(2, LowFour(b)) && Pending(0, 0)
  {}

  lemma FeedOne(p: seq<byte>)
    requires |p| == 1
    ensures Feed(0, 0, p) == [First(p[0]), LowTwo(p[0]) * 16]
  {
    LowParts(p[0]);
    hide Feed, First, Second, Third, Fourth, LowTwo, LowFour, Pending;
    assert p[0..] == p;
    FeedStep(0, 0, p, 0);
    FeedDone(1, LowTwo(p[0]), p[1..]);
  }

  lemma FeedTwo(p: seq<byte>)
    requires |p| == 2
    ensures Feed(0, 0, p) == [First(p[0]), Second(LowTwo(p[0]), p[1]), LowFour(p[1]) * 4]
  {
    LowParts(p[0]);
    LowParts(p[1]);
    hide Feed, First, Second, Third, Fourth, LowTwo, LowFour, Pending;
    assert p[0..] == p;
    FeedStep(0, 0, p, 0);
    FeedStep(1, LowTwo(p[0]), p, 1);
    FeedDone(2, LowFour(p[1]), p[2..]);
  }

  lemma FeedShort(p: seq<byte>)
    requires |p| < 3
    ensures Feed(0, 0, p) == Sextets(p)
  {
    LowParts(0);
    hide Feed, First, Second, Third, Fourth, LowTwo, LowFour;
    if |p| == 0 {
      FeedDone(0, 0, p);
    } else if |p| == 1 {
      FeedOne(p);
    } else {
      FeedTwo(p);
    }
  }

  /** The bit buffer yields the groups of three. */
  lemma {:induction false} FeedIsSextets(p: seq<byte>)
    ensures Feed(0, 0, p) == Sextets(p)
  {
    hide Feed, Group;
    if |p| < 3 {
      FeedShort(p);
    } else {
      FeedGroup(p);
      FeedIsSextets(p[3..]);
    }
  }

  /** Shifting a byte in keeps the pending bits, in spite of the wrap-around. */
  lemma ShiftIn(leftchar: nat, left: nat, phase: nat, b: byte)
    requires Pending(phase, left) && leftchar % Power(2 * phase) == left
    ensures (leftchar * 256 + b) % UINT % Power(2 * phase + 8) == left * 256 + b
  {
    var x, low := leftchar * 256 + b, left * 256 + b;
    if phase == 0 {
      WrapKeepsLow(x, leftchar, low, 256, 0x100_0000, UINT);
    } else if phase == 1 {
      assert leftchar == leftchar / 4 * 4 + left;
      WrapKeepsLow(x, leftchar / 4, low, 1024, 0x40_0000, UINT);
    } else {
      assert leftchar == leftchar / 16 * 16 + left;
      WrapKeepsLow(x, leftchar / 16, low, 4096, 0x10_0000, UINT);
    }
  }

  /** The sextets on top of the buffer, most significant first. */
  function Drained(leftchar: nat, bits: nat): (s: seq<nat>)
    requires bits <= 12
    ensures forall i :: 0 <= i < |s| ==> s[i] < 64
    decreases bits
  {
    if bits < 6 then [] else [leftchar / Power(bits - 6) % 64] + Drained(leftchar, bits - 6)
  }

  /** After a byte is shifted in, draining yields the sextets it completes and keeps the right bits. */
  lemma DrainStep(leftchar: nat, left: nat, phase: nat, b: byte)
    requires Pending(phase, left) && leftchar % Power(2 * phase + 8) == left * 256 + b
    ensures Drained(leftchar, 2 * phase + 8) == Completed(phase, left, b)
    ensures leftchar % Power(2 * NextPhase(phase)) == NextLeft(phase, b)
  {
    var low := left * 256 + b;
    CompletedFromLow(phase, left, b);
    if phase == 0 {
      DrainArith(leftchar, low, 4, 64);
      DrainedOnce(leftchar, 8);
    } else if phase == 1 {
      DrainArith(leftchar, low, 16, 64);
      DrainedOnce(leftchar, 10);
    } else {
      DrainArith(leftchar, low, 64, 64);
      DrainedOnce(leftchar, 12);
      DrainedOnce(leftchar, 6);
      assert leftchar / Power(0) % 64 == low % 64;
    }
  }

  lemma CompletedFromLow(phase: nat, left: nat, b: byte)
    requires Pending(phase, left)
    ensures var low := left * 256 + b;
            if phase == 0 then Completed(phase, left, b) == [low / 4] && NextLeft(phase, b) == low % 4
            else if phase == 1 then Completed(phase, left, b) == [low / 16] && NextLeft(phase, b) == low % 16
            else Completed(phase, left, b) == [low / 64, low % 64] && NextLeft(phase, b) == 0
  {
    var low := left * 256 + b;
    if phase == 1 {
      QuotientOf(low, left * 16 + b / 16, b % 16, 16);
    } else if phase == 2 {
      QuotientOf(low, left * 4 + b / 64, b % 64, 64);
    }
  }

  lemma DrainedOnce(leftchar: nat, bits: nat)
    requires 6 <= bits <= 12
    ensures Drained(leftchar, bits) == [leftchar / Power(bits - 6) % 64] + Drained(leftchar, bits - 6)
    ensures bits < 12 ==> Drained(leftchar, bits - 6) == []
  {}

  lemma DrainArith(v: nat, low: nat, p: nat, m: nat)
    requires p > 0 && m > 0 && m * p > 0 && v % (m * p) == low
    ensures v / p % m == low / p && v % p == low % p
  {
    ModSplit(v, m, p, m * p);
  }

  lemma SymbolsConcat(a: seq<nat>, b: seq<nat>)
    requires forall i :: 0 <= i < |a| ==> a[i] < 64
    requires forall i :: 0 <= i < |b| ==> b[i] < 64
    ensures forall i :: 0 <= i < |a + b| ==> (a + b)[i] < 64
    ensures Symbols(a + b) == Symbols(a) + Symbols(b)
  {}

  // ----- the encoder -----

  /** The oldest six of the bits in the buffer. */
  function TopSextet(leftchar: nat, bits: nat): (v: nat)
    requires 6 <= bits <= 12
    ensures v < 64
  {
    leftchar / Power(bits - 6) % 64
  }

  /** The loop that takes complete sextets off the bit buffer. */
  method Drain(buffer: array<byte>, n0: nat, leftchar: nat, bits0: nat) returns (n: nat, bits: nat)
    requires bits0 <= 12 && n0 + bits0 / 6 <= buffer.Length
    modifies buffer
    ensures n == n0 + bits0 / 6 && bits == bits0 % 6
    ensures buffer[..n] == old(buffer[..n0]) + Symbols(Drained(leftchar, bits0))
  {
    hide Symbol, Symbols, Drained, TopSextet;
    n, bits := n0, bits0;
    ghost var total := old(buffer[..n0]) + Symbols(Drained(leftchar, bits0));
    while bits >= 6
      invariant bits <= 12 && bits % 6 == bits0 % 6 && n + bits / 6 == n0 + bits0 / 6
      invariant buffer[..n] + Symbols(Drained(leftchar, bits)) == total
    {
      DrainOne(leftchar, bits);
      ghost var before, rest := buffer[..n], Symbols(Drained(leftchar, bits - 6));
      var this_ch := TopSextet(leftchar, bits);
      bits := bits - 6;
      buffer[n] := Symbol(this_ch);
      n := n + 1;
      assert buffer[..n] == before + [Symbol(this_ch)];
      ConcatAssociative(before, [Symbol(this_ch)], rest);
    }
    DrainNone(leftchar, bits);
    ConcatEmpty(buffer[..n]);
  }

  lemma DrainOne(leftchar: nat, bits: nat)
    requires 6 <= bits <= 12
    ensures Symbols(Drained(leftchar, bits))
         == [Symbol(TopSextet(leftchar, bits))] + Symbols(Drained(leftchar, bits - 6))
  {
    hide Power;
  }

  lemma DrainNone(leftchar: nat, bits: nat)
    requires bits < 6
    ensures Symbols(Drained(leftchar, bits)) == []
  {}

  /** One byte of a line, as a step from the symbols written so far to the symbols still to come. */
  method FeedByte(buffer: array<byte>, n0: nat, leftchar0: nat, leftbits0: nat, chunk: seq<byte>, i: nat)
    returns (n: nat, leftchar: nat, leftbits: nat)
    requires i < |chunk| && leftbits0 in {0, 2, 4} && n0 + 2 <= buffer.Length
    modifies buffer
    ensures n0 <= n <= n0 + 2 && leftbits == 2 * NextPhase(leftbits0 / 2)
    ensures buffer[..n] + Symbols(FeedFrom(leftchar, leftbits, chunk[i + 1..]))
         == old(buffer[..n0]) + Symbols(FeedFrom(leftchar0, leftbits0, chunk[i..]))
  {
    hide Feed, Completed, Drained, Power, Symbol, Symbols, NextLeft;
    var b := chunk[i];
    ghost var phase, left := leftbits0 / 2, leftchar0 % Power(leftbits0);
    assert Pending(phase, left) by { PendingBits(leftchar0, leftbits0); }
    ShiftIn(leftchar0, left, phase, b);
    leftchar := (leftchar0 * 256 + b) % UINT;
    DrainStep(leftchar, left, phase, b);
    FeedStep(phase, left, chunk, i);
    ghost var rest := Feed(NextPhase(phase), NextLeft(phase, b), chunk[i + 1..]);
    SymbolsConcat(Completed(phase, left, b), rest);
    ghost var head := buffer[..n0];
    n, leftbits := Drain(buffer, n0, leftchar, leftbits0 + 8);
    assert head + (Symbols(Completed(phase, left, b)) + Symbols(rest))
        == (head + Symbols(Completed(phase, left, b))) + Symbols(rest);
  }

  lemma PendingBits(leftchar: nat, leftbits: nat)
    requires leftbits in {0, 2, 4}
    ensures Pending(leftbits / 2, leftchar % Power(leftbits))
  {}

  /** What the bit buffer still yields when `p` follows. */
  function FeedFrom(leftchar: nat, leftbits: nat, p: seq<byte>): (s: seq<nat>)
    requires leftbits in {0, 2, 4}
    ensures forall i :: 0 <= i < |s| ==> s[i] < 64
  {
    Feed(leftbits / 2, leftchar % Power(leftbits), p)
  }

  lemma FeedNothing(leftchar: nat, leftbits: nat, rest: seq<byte>)
    requires leftbits in {0, 2, 4} && rest == []
    ensures FeedFrom(leftchar, leftbits, rest) == Flushed(leftbits / 2, leftchar % Power(leftbits))
  {
    hide Flushed;
  }

  lemma FeedAll(chunk: seq<byte>)
    ensures FeedFrom(0, 0, chunk) == Sextets(chunk)
  {
    FeedIsSextets(chunk);
    hide Feed, Sextets;
  }

  lemma FeedEnds(chunk: seq<byte>, leftchar: nat, leftbits: nat)
    requires leftbits in {0, 2, 4}
    ensures FeedFrom(leftchar, leftbits, chunk[|chunk|..]) == Flushed(leftbits / 2, leftchar % Power(leftbits))
    ensures FeedFrom(0, 0, chunk[0..]) == Sextets(chunk)
  {
    hide FeedFrom, Flushed, Sextets, Power;
    assert chunk[0..] == chunk;
    FeedNothing(leftchar, leftbits, chunk[|chunk|..]);
    FeedAll(chunk);
  }

  /** The flushed bits and the pads that end a line. */
  method Flush(buffer: array<byte>, n0: nat, leftchar: nat, leftbits: nat) returns (n: nat)
    requires n0 + 3 <= buffer.Length && leftbits in {0, 2, 4}
    modifies buffer
    ensures n0 <= n <= n0 + 3
    ensures buffer[..n] == old(buffer[..n0])
                         + Symbols(Flushed(leftbits / 2, leftchar % Power(leftbits))) + Padding(leftbits / 2)
  {
    ghost var head := buffer[..n0];
    n := n0;
    if leftbits == 2 {
      buffer[n] := Symbol(leftchar % 4 * 16);
      buffer[n + 1] := PAD;
      buffer[n + 2] := PAD;
      n := n + 3;
      assert buffer[..n] == head + [Symbol(leftchar % 4 * 16)] + [PAD, PAD];
    } else if leftbits == 4 {
      buffer[n] := Symbol(leftchar % 16 * 4);
      buffer[n + 1] := PAD;
      n := n + 2;
      assert buffer[..n] == head + [Symbol(leftchar % 16 * 4)] + [PAD];
    }
  }

  /** The loop over the bytes of one line. */
  method FeedLine(buffer: array<byte>, chunk: seq<byte>) returns (n: nat, leftchar: nat, leftbits: nat)
    requires |chunk| <= MAX_BIN && buffer.Length == LINE_SIZE
    modifies buffer
    ensures n <= 2 * MAX_BIN && leftbits == 2 * (|chunk| % 3)
    ensures buffer[..n] + Symbols(Flushed(leftbits / 2, leftchar % Power(leftbits))) == Symbols(Sextets(chunk))
  {
    hide FeedFrom, Symbols, Power, Flushed, Sextets;
    n, leftchar, leftbits := 0, 0, 0;
    FeedEnds(chunk, 0, 0);
    for i := 0 to |chunk|
      invariant leftbits == 2 * (i % 3) && n <= 2 * i
      invariant buffer[..n] + Symbols(FeedFrom(leftchar, leftbits, chunk[i..])) == Symbols(Sextets(chunk))
    {
      n, leftchar, leftbits := FeedByte(buffer, n, leftchar, leftbits, chunk, i);
    }
    FeedEnds(chunk, leftchar, leftbits);
  }

  method EncodeLine(chunk: seq<byte>, newlines: bool) returns (line: seq<byte>)
    requires |chunk| <= MAX_BIN
    ensures line == Line(chunk) + (if newlines then CRLF else [])
  {
    hide Symbols, Power, Flushed, Sextets;
    var buffer := new byte[LINE_SIZE];
    var n, leftchar, leftbits := FeedLine(buffer, chunk);
    n := Flush(buffer, n, leftchar, leftbits);
    if newlines {
      ghost var head := buffer[..n];
      buffer[n] := CR;
      buffer[n + 1] := LF;
      n := n + 2;
      assert buffer[..n] == head + CRLF;
    }
    line := buffer[..n];
  }

  method Encode(data: seq<byte>, newlines: bool) returns (output: seq<byte>)
    ensures output == Encoded(data, newlines)
  {
    if data == [] {
      return if newlines then CRLF else [];
    }
    output := EncodeLines(data, newlines);
  }

  method EncodeLines(data: seq<byte>, newlines: bool) returns (output: seq<byte>)
    requires data != []
    ensures output == Encoded(data, newlines)
  {
    hide Line, Encoded, EncodedFrom;
    output := [];
    var start: nat := 0;
    ghost var total := Encoded(data, newlines);
    EncodedEnds(data, start, newlines);
    ConcatEmpty(total);
    while start < |data|
      invariant output + EncodedFrom(data, start, newlines) == total
    {
      var left := if |data| - start > MAX_BIN then MAX_BIN else |data| - start;
      EncodedStep(data, start, newlines);
      var line := EncodeLine(data[start..start + left], newlines);
      ConcatAssociative(output, line, EncodedFrom(data, start + MAX_BIN, newlines));
      output := output + line;
      start := start + MAX_BIN;
    }
    EncodedEnds(data, start, newlines);
    ConcatEmpty(output);
  }

  lemma EncodedEnds(data: seq<byte>, start: nat, newlines: bool)
    ensures data != [] && start == 0 ==> EncodedFrom(data, start, newlines) == Encoded(data, newlines)
    ensures start >= |data| ==> EncodedFrom(data, start, newlines) == []
  {
    assert data[0..] == data;
  }

  /** The lines that begin at `start`. */
  function EncodedFrom(data: seq<byte>, start: nat, newlines: bool): seq<byte> {
    if start < |data| then Encoded(data[start..], newlines) else []
  }

  lemma EncodedStep(data: seq<byte>, start: nat, newlines: bool)
    requires start < |data|
    ensures var left := if |data| - start > MAX_BIN then MAX_BIN else |data| - start;
            EncodedFrom(data, start, newlines) == Line(data[start..start + left]) +
              (if newlines then CRLF else []) + EncodedFrom(data, start + MAX_BIN, newlines)
  {
    hide Line;
    var rest := data[start..];
    if |rest| <= MAX_BIN {
      assert data[start..start + (|data| - start)] == rest;
    } else {
      assert rest[..MAX_BIN] == data[start..start + MAX_BIN] && rest[MAX_BIN..] == data[start + MAX_BIN..];
    }
  }

  // ----- the decoder -----

  /** A character of the alphabet, or a pad. */
  predicate Significant(c: nat) {
    c < 128 && Value(c) >= 0
  }

  predicate AllSignificant(k: seq<nat>) {
    forall i :: 0 <= i < |k| ==> Significant(k[i])
  }

  /** The significant characters, without their high bits. */
  function Kept(ascii: seq<byte>): (k: seq<nat>)
    ensures AllSignificant(k) && |k| <= |ascii|
  {
    if ascii == [] then []
    else (if Significant(ascii[0] % 128) then [ascii[0] % 128] else []) + Kept(ascii[1..])
  }

  function Pads(k: seq<nat>): (n: nat)
    ensures n <= |k|
  {
    if k == [] then 0 else (if k[0] == PAD then 1 else 0) + Pads(k[1..])
  }

  function Values(k: seq<nat>): (v: seq<nat>)
    requires AllSignificant(k)
    ensures |v| == |k| && forall i :: 0 <= i < |v| ==> v[i] < 64
  {
    seq(|k|, i requires 0 <= i < |k| => Value(k[i]) as nat)
  }

  // The three bytes of four sextets.

  function Octet1(a: nat, b: nat): byte
    requires a < 64 && b < 64
  {
    a * 4 + b / 16
  }

  function Octet2(b: nat, c: nat): byte
    requires b < 64 && c < 64
  {
    b % 16 * 16 + c / 4
  }

  function Octet3(c: nat, d: nat): byte
    requires c < 64 && d < 64
  {
    c % 4 * 64 + d
  }

  /** Four sextets make three bytes. */
  function Octets(v: seq<nat>): (b: seq<byte>)
    requires |v| % 4 == 0 && forall i :: 0 <= i < |v| ==> v[i] < 64
    ensures |b| == |v| / 4 * 3
  {
    if v == [] then []
    else [Octet1(v[0], v[1]), Octet2(v[1], v[2]), Octet3(v[2], v[3])] + Octets(v[4..])
  }

  function DecodedKept(k: seq<nat>): Result<seq<byte>, Fault>
    requires AllSignificant(k)
  {
    if |k| % 4 != 0 then Err(IncorrectPadding)
    else
      var bytes := Octets(Values(k));
      if Pads(k) > |bytes| || Pads(k) > 2 then Err(MalformedData)
      else Ok(bytes[..|bytes| - Pads(k)])
  }

  /** What `xmlrpc_base64_decode` returns: characters outside the alphabet do not matter. */
  function Decoded(ascii: seq<byte>): Result<seq<byte>, Fault> {
    DecodedKept(Kept(ascii))
  }

  /** The bits and the number of bits that wait for the next sextet. */
  predicate Waiting(bits: nat, left: nat) {
    (bits == 0 && left == 0) || (bits == 2 && left < 4) || (bits == 4 && left < 16) || (bits == 6 && left < 64)
  }

  function Absorbed(bits: nat, left: nat, v: nat): (b: seq<byte>)
    requires Waiting(bits, left) && v < 64
    ensures |b| == if bits == 0 then 0 else 1
  {
    if bits == 0 then [] else [(left * 64 + v) / Power(bits - 2)]
  }

  function NextBits(bits: nat): nat {
    if bits < 2 then 6 else bits - 2
  }

  function NextWaiting(bits: nat, left: nat, v: nat): (n: nat)
    requires Waiting(bits, left) && v < 64
    ensures Waiting(NextBits(bits), n)
  {
    if bits == 0 then v else (left * 64 + v) % Power(bits - 2)
  }

  /** The bytes that the waiting bits and the sextets `v` complete. */
  function Collect(bits: nat, left: nat, v: seq<nat>): seq<byte>
    requires Waiting(bits, left) && forall i :: 0 <= i < |v| ==> v[i] < 64
    decreases |v|
  {
    if v == [] then []
    else Absorbed(bits, left, v[0]) + Collect(NextBits(bits), NextWaiting(bits, left, v[0]), v[1..])
  }

  lemma CollectStep(bits: nat, left: nat, v: seq<nat>, i: nat)
    requires Waiting(bits, left) && i < |v| && forall i :: 0 <= i < |v| ==> v[i] < 64
    ensures Collect(bits, left, v[i..])
         == Absorbed(bits, left, v[i]) + Collect(NextBits(bits), NextWaiting(bits, left, v[i]), v[i + 1..])
  {
    assert v[i..][1..] == v[i + 1..];
  }

  lemma AbsorbTable(a: nat, b: nat)
    requires a < 64 && b < 64
    ensures Waiting(6, a) && Waiting(4, LowFour(a)) && Waiting(2, LowTwo(a))
    ensures Absorbed(0, 0, a) == [] && NextWaiting(0, 0, a) == a
    ensures Absorbed(6, a, b) == [Octet1(a, b)] && NextWaiting(6, a, b) == LowFour(b)
    ensures Absorbed(4, LowFour(a), b) == [Octet2(a, b)] && NextWaiting(4, LowFour(a), b) == LowTwo(b)
    ensures Absorbed(2, LowTwo(a), b) == [Octet3(a, b)] && NextWaiting(2, LowTwo(a), b) == 0
  {
    QuotientOf(a * 64 + b, a * 4 + b / 16, b % 16, 16);
    QuotientOf(a % 16 * 64 + b, a % 16 * 16 + b / 4, b % 4, 4);
  }

  lemma CollectFour(v: seq<nat>)
    requires |v| >= 4 && forall i :: 0 <= i < |v| ==> v[i] < 64
    ensures Collect(0, 0, v)
         == [Octet1(v[0], v[1]), Octet2(v[1], v[2]), Octet3(v[2], v[3])] + Collect(0, 0, v[4..])
  {
    hide Collect, Absorbed, NextWaiting, Octet1, Octet2, Octet3, LowTwo, LowFour;
    assert v[0..] == v;
    AbsorbTable(v[0], v[1]);
    AbsorbTable(v[1], v[2]);
    AbsorbTable(v[2], v[3]);
    CollectStep(0, 0, v, 0);
    CollectStep(6, v[0], v, 1);
    CollectStep(4, LowFour(v[1]), v, 2);
    CollectStep(2, LowTwo(v[2]), v, 3);
    Chain(Octet1(v[0], v[1]), Octet2(v[1], v[2]), Octet3(v[2], v[3]), Collect(0, 0, v[4..]));
  }

  lemma Chain(a: byte, b: byte, c: byte, rest: seq<byte>)
    ensures [] + ([a] + ([b] + ([c] + rest))) == [a, b, c] + rest
  {}

  /** The bit buffer of the decoder yields the bytes of the groups of four. */
  lemma {:induction false} CollectIsOctets(v: seq<nat>)
    requires |v| % 4 == 0 && forall i :: 0 <= i < |v| ==> v[i] < 64
    ensures Collect(0, 0, v) == Octets(v)
  {
    hide Octet1, Octet2, Octet3;
    if v != [] {
      hide Collect;
      CollectFour(v);
      CollectIsOctets(v[4..]);
    }
  }

  /** What one significant character does to the bit buffer and the output. */
  method AbsorbOne(buffer: array<byte>, n0: nat, leftchar0: nat, bits0: nat, v: nat)
    returns (n: nat, leftchar: nat, bits: nat)
    requires Waiting(bits0, leftchar0) && v < 64
    requires bits0 > 0 ==> n0 < buffer.Length
    requires n0 <= buffer.Length
    modifies buffer
    ensures bits == NextBits(bits0) && leftchar == NextWaiting(bits0, leftchar0, v)
    ensures n == n0 + (if bits0 == 0 then 0 else 1) <= buffer.Length
    ensures buffer[..n] == old(buffer[..n0]) + Absorbed(bits0, leftchar0, v)
  {
    hide Power, Absorbed, NextWaiting;
    n := n0;
    leftchar := (leftchar0 * 64 + v) % UINT;
    bits := bits0 + 6;
    AbsorbShift(bits0, leftchar0, v);
    if bits >= 8 {
      bits := bits - 8;
      buffer[n] := leftchar / Power(bits) % 256;
      leftchar := leftchar % Power(bits);
      n := n + 1;
    }
  }

  /** Between characters at most six bits wait, so the decoder's buffer never wraps. */
  lemma AbsorbShift(bits: nat, left: nat, v: nat)
    requires Waiting(bits, left) && v < 64
    ensures var x := (left * 64 + v) % UINT;
            if bits == 0 then x == NextWaiting(bits, left, v) && Absorbed(bits, left, v) == []
            else x / Power(bits - 2) < 256 && Absorbed(bits, left, v) == [x / Power(bits - 2)] &&
                 x % Power(bits - 2) == NextWaiting(bits, left, v)
  {
    assert left * 64 + v < 4096;
  }

  /** The bytes that the characters from `i` on still complete. */
  function CollectFrom(bits: nat, left: nat, ascii: seq<byte>, i: nat): seq<byte>
    requires Waiting(bits, left) && i <= |ascii|
  {
    Collect(bits, left, Values(Kept(ascii[i..])))
  }

  lemma KeptAt(ascii: seq<byte>, i: nat)
    requires i < |ascii|
    ensures var c, rest := ascii[i] % 128, Kept(ascii[i + 1..]);
            Kept(ascii[i..]) == if Significant(c) then [c] + rest else rest
  {
    assert ascii[i..][1..] == ascii[i + 1..];
    assert [] + Kept(ascii[i + 1..]) == Kept(ascii[i + 1..]);
  }

  lemma CollectMore(bits: nat, left: nat, c: nat, rest: seq<nat>)
    requires Waiting(bits, left) && c < 128 && Significant(c) && AllSignificant(rest)
    ensures AllSignificant([c] + rest)
    ensures Collect(bits, left, Values([c] + rest))
         == Absorbed(bits, left, Value(c)) + Collect(NextBits(bits), NextWaiting(bits, left, Value(c)), Values(rest))
  {
    hide Absorbed, NextWaiting, Value, NextBits, Collect;
    var v := Values([c] + rest);
    assert v[0..] == v && v[1..] == Values(rest);
    CollectStep(bits, left, v, 0);
  }

  lemma PadsMore(c: nat, rest: seq<nat>)
    ensures Pads([c] + rest) == Pads(rest) + (if c == PAD then 1 else 0)
  {
    assert ([c] + rest)[1..] == rest;
  }

  lemma CollectCharacter(bits: nat, left: nat, ascii: seq<byte>, i: nat)
    requires Waiting(bits, left) && i < |ascii|
    ensures var c := ascii[i] % 128;
            if Significant(c) then
              CollectFrom(bits, left, ascii, i) == Absorbed(bits, left, Value(c)) +
                CollectFrom(NextBits(bits), NextWaiting(bits, left, Value(c)), ascii, i + 1)
            else CollectFrom(bits, left, ascii, i) == CollectFrom(bits, left, ascii, i + 1)
    ensures var c, k, rest := ascii[i] % 128, Kept(ascii[i..]), Kept(ascii[i + 1..]);
            && |k| == |rest| + (if Significant(c) then 1 else 0)
            && Pads(k) == Pads(rest) + (if c == PAD then 1 else 0)
  {
    hide Absorbed, NextWaiting, NextBits, Value, Collect, Kept, Pads, Values;
    var c, rest := ascii[i] % 128, Kept(ascii[i + 1..]);
    KeptAt(ascii, i);
    PadIsSignificant();
    if Significant(c) {
      hide Significant;
      CollectMore(bits, left, c, rest);
      PadsMore(c, rest);
    }
  }

  lemma PadIsSignificant()
    ensures Significant(PAD)
  {}

  /** The decoder's estimate of its output: three bytes for every four characters. */
  function Room(size: nat): nat {
    (size + 3) / 4 * 3
  }

  lemma RoomLeft(n: nat, bits: nat, count: nat, i: nat, size: nat)
    requires n * 8 + bits == count * 6 && count <= i < size
    ensures n <= Room(size) && (bits > 0 ==> n < Room(size))
  {}

  lemma RoomEnough(n: nat, bits: nat, count: nat, size: nat)
    requires n * 8 + bits == count * 6 && count <= size
    ensures n <= Room(size)
  {}

  lemma WholeGroups(n: nat, bits: nat, count: nat)
    requires n * 8 + bits == count * 6 && bits in {0, 2, 4, 6}
    ensures bits == 0 <==> count % 4 == 0
  {}

  /** The loop over the characters, without the checks that follow it. */
  method DecodeCharacters(ascii: seq<byte>, buffer: array<byte>) returns (n: nat, bits: nat, npad: nat)
    requires buffer.Length == Room(|ascii|)
    modifies buffer
    ensures npad == Pads(Kept(ascii)) && n <= buffer.Length
    ensures bits == 0 <==> |Kept(ascii)| % 4 == 0
    ensures bits == 0 ==> buffer[..n] == Octets(Values(Kept(ascii)))
  {
    hide Kept, Pads, Absorbed, NextWaiting, CollectFrom, Value, Room;
    ghost var count := 0;
    ghost var total := CollectFrom(0, 0, ascii, 0);
    var left: nat := 0;
    n, bits, npad := 0, 0, 0;
    assert ascii[0..] == ascii;
    ConcatEmpty(total);
    for i := 0 to |ascii|
      invariant Waiting(bits, left)
      invariant n * 8 + bits == count * 6 && count <= i && n <= buffer.Length
      invariant count + |Kept(ascii[i..])| == |Kept(ascii)|
      invariant npad + Pads(Kept(ascii[i..])) == Pads(Kept(ascii))
      invariant buffer[..n] + CollectFrom(bits, left, ascii, i) == total
    {
      var c := ascii[i] % 128;
      CollectCharacter(bits, left, ascii, i);
      if c == PAD {
        npad := npad + 1;
      }
      if Significant(c) {
        RoomLeft(n, bits, count, i, |ascii|);
        ghost var head, piece := buffer[..n], Absorbed(bits, left, Value(c));
        n, left, bits := AbsorbOne(buffer, n, left, bits, Value(c));
        count := count + 1;
        ConcatAssociative(head, piece, CollectFrom(bits, left, ascii, i + 1));
      }
    }
    NothingLeftToCollect(ascii, bits, left);
    WholeGroups(n, bits, count);
    RoomEnough(n, bits, count, |ascii|);
    ConcatEmpty(buffer[..n]);
    if bits == 0 {
      CollectAll(ascii);
    }
  }

  lemma NothingLeftToCollect(ascii: seq<byte>, bits: nat, left: nat)
    requires Waiting(bits, left)
    ensures Kept(ascii[|ascii|..]) == [] && Pads([]) == 0
    ensures CollectFrom(bits, left, ascii, |ascii|) == []
  {}

  lemma CollectAll(ascii: seq<byte>)
    requires |Kept(ascii)| % 4 == 0
    ensures CollectFrom(0, 0, ascii, 0) == Octets(Values(Kept(ascii)))
  {
    assert ascii[0..] == ascii;
    CollectIsOctets(Values(Kept(ascii)));
  }

  method Decode(ascii: seq<byte>) returns (r: Result<seq<byte>, Fault>)
    ensures r == Decoded(ascii)
  {
    hide Kept, Pads, Octets, Values, AllSignificant;
    var buffer := new byte[Room(|ascii|)];
    var n, leftbits, npad := DecodeCharacters(ascii, buffer);
    if leftbits != 0 {
      return Err(IncorrectPadding);
    }
    if npad > n || npad > 2 {
      return Err(MalformedData);
    }
    return Ok(buffer[..n][..n - npad]);
  }

  // ----- round trip -----

  lemma {:induction false} KeptConcat(a: seq<byte>, b: seq<byte>)
    ensures Kept(a + b) == Kept(a) + Kept(b)
    decreases |a|
  {
    if a == [] {
      assert a + b == b;
    } else {
      var first := if Significant(a[0] % 128) then [a[0] % 128] else [];
      assert (a + b)[1..] == a[1..] + b;
      KeptConcat(a[1..], b);
      hide Significant;
      ConcatAssociative(first, Kept(a[1..]), Kept(b));
    }
  }

  lemma {:induction false} KeptWhole(k: seq<byte>)
    requires AllSignificant(k)
    ensures Kept(k) == k
  {
    if k == [] {
    } else {
      KeptWhole(k[1..]);
    }
  }

  lemma {:induction false} PadsConcat(a: seq<nat>, b: seq<nat>)
    ensures Pads(a + b) == Pads(a) + Pads(b)
    decreases |a|
  {
    if a == [] {
      assert a + b == b;
    } else {
      assert (a + b)[1..] == a[1..] + b;
      PadsConcat(a[1..], b);
    }
  }

  lemma {:induction false} NoPads(k: seq<nat>)
    requires forall i :: 0 <= i < |k| ==> k[i] != PAD
    ensures Pads(k) == 0
  {
    if k == [] {
    } else {
      NoPads(k[1..]);
    }
  }

  lemma SymbolValue(v: nat)
    requires v < 64
    ensures Symbol(v) < 128 && Value(Symbol(v)) == v && Symbol(v) != PAD && Symbol(v) != CR && Symbol(v) != LF
  {}

  lemma SymbolsSignificant(s: seq<nat>)
    requires forall i :: 0 <= i < |s| ==> s[i] < 64
    ensures AllSignificant(Symbols(s)) && Values(Symbols(s)) == s
    ensures Pads(Symbols(s)) == 0
  {
    forall i | 0 <= i < |s|
      ensures Significant(Symbols(s)[i]) && Value(Symbols(s)[i]) == s[i] && Symbols(s)[i] != PAD
    {
      SymbolValue(s[i]);
    }
    NoPads(Symbols(s));
  }

  lemma {:induction false} SextetsConcat(a: seq<byte>, b: seq<byte>)
    requires |a| % 3 == 0
    ensures Sextets(a + b) == Sextets(a) + Sextets(b)
    decreases |a|
  {
    hide Group;
    if a == [] {
      ConcatEmpty(b);
      ConcatEmpty(Sextets(b));
    } else {
      SextetsConcat(a[3..], b);
      assert (a + b)[3..] == a[3..] + b;
      ConcatAssociative(Group(a[0], a[1], a[2]), Sextets(a[3..]), Sextets(b));
    }
  }

  lemma PaddingOfSum(m: nat, n: nat)
    requires m % 3 == 0
    ensures Padding(m) == [] && Padding(m + n) == Padding(n)
  {}

  lemma LineConcat(a: seq<byte>, b: seq<byte>)
    requires |a| % 3 == 0
    ensures Line(a + b) == Line(a) + Line(b)
  {
    hide Sextets, Symbols, Padding;
    PaddingOfSum(|a|, |b|);
    SextetsConcat(a, b);
    SymbolsConcat(Sextets(a), Sextets(b));
    ConcatEmpty(Symbols(Sextets(a)));
    ConcatAssociative(Symbols(Sextets(a)), Symbols(Sextets(b)), Padding(|b|));
  }

  lemma KeptLineEnding(p: seq<byte>, ending: seq<byte>)
    requires ending == CRLF || ending == []
    ensures Kept(Line(p) + ending) == Line(p)
  {
    hide Line;
    KeptConcat(Line(p), ending);
    KeptLine(p);
    KeptEnding();
    ConcatEmpty(Line(p));
  }

  /** Lines of 57 bytes carry no padding, so dropping the line ends leaves one unbroken line. */
  lemma {:induction false} KeptEncoding(data: seq<byte>, newlines: bool)
    ensures Kept(Encoded(data, newlines)) == Line(data)
    decreases |data|
  {
    hide Kept, Line;
    var ending := if newlines then CRLF else [];
    if data == [] {
      KeptEnding();
      EmptyLine();
    } else if |data| <= MAX_BIN {
      KeptLineEnding(data, ending);
    } else {
      var a, b := data[..MAX_BIN], data[MAX_BIN..];
      assert data == a + b;
      KeptEncoding(b, newlines);
      KeptConcat(Line(a) + ending, Encoded(b, newlines));
      KeptLineEnding(a, ending);
      LineConcat(a, b);
    }
  }

  lemma EmptyLine()
    ensures Line([]) == []
  {}

  lemma KeptEnding()
    ensures Kept(CRLF) == [] && Kept([]) == []
  {
    assert CRLF[1..] == [LF];
  }

  lemma KeptLine(p: seq<byte>)
    ensures Kept(Line(p)) == Line(p)
    ensures AllSignificant(Line(p))
  {
    SymbolsSignificant(Sextets(p));
    KeptWhole(Line(p));
  }

  function Zeros(n: nat): (z: seq<byte>) {
    if n == 0 then [] else [0] + Zeros(n - 1)
  }

  function PadCount(n: nat): nat {
    |Padding(n)|
  }

  lemma GroupBack(a: byte, b: byte, c: byte)
    ensures var g := Group(a, b, c);
            && |g| == 4
            && (forall i :: 0 <= i < 4 ==> g[i] < 64)
            && Octet1(g[0], g[1]) == a && Octet2(g[1], g[2]) == b && Octet3(g[2], g[3]) == c
  {
    assert Second(LowTwo(a), b) / 16 == a % 4 && Second(LowTwo(a), b) % 16 == b / 16;
    assert Third(LowFour(b), c) / 4 == b % 16 && Third(LowFour(b), c) % 4 == c / 64;
  }

  lemma {:induction false} OctetsBack(data: seq<byte>)
    requires |data| % 3 == 0
    ensures |Sextets(data)| % 4 == 0 && Octets(Sextets(data)) == data
  {
    if data == [] {
    } else {
      var a, b, c := data[0], data[1], data[2];
      OctetsBack(data[3..]);
      GroupBack(a, b, c);
      OctetsOfGroup(Group(a, b, c), Sextets(data[3..]));
      hide Group, Octet1, Octet2, Octet3, Octets, Sextets;
      assert data == [a, b, c] + data[3..];
    }
  }

  lemma OctetsOfGroup(g: seq<nat>, rest: seq<nat>)
    requires |g| == 4 && |rest| % 4 == 0
    requires (forall i :: 0 <= i < 4 ==> g[i] < 64) && forall i :: 0 <= i < |rest| ==> rest[i] < 64
    ensures Octets(g + rest) == [Octet1(g[0], g[1]), Octet2(g[1], g[2]), Octet3(g[2], g[3])] + Octets(rest)
  {
    hide Octet1, Octet2, Octet3;
    assert (g + rest)[4..] == rest;
  }

  lemma GroupWithZeros(a: byte, b: byte)
    ensures Group(a, 0, 0) == [First(a), LowTwo(a) * 16] + [0, 0]
    ensures Group(a, b, 0) == [First(a), Second(LowTwo(a), b), LowFour(b) * 4] + [0]
  {}

  lemma SextetsShort(a: byte, b: byte)
    ensures Sextets([a]) == [First(a), LowTwo(a) * 16]
    ensures Sextets([a, b]) == [First(a), Second(LowTwo(a), b), LowFour(b) * 4]
  {}

  lemma SextetsGroup(p: seq<byte>)
    requires |p| == 3
    ensures Sextets(p) == Group(p[0], p[1], p[2])
  {
    hide Group;
    assert p[3..] == [];
    ConcatEmpty(Group(p[0], p[1], p[2]));
  }

  lemma ZeroLists()
    ensures Zeros(0) == [] && Zeros(1) == [0] && Zeros(2) == [0, 0]
  {
    assert Zeros(1) == [0] + Zeros(0);
    assert Zeros(2) == [0] + Zeros(1);
  }

  /** The sextets of a line, with a zero for every pad, are those of the bytes with as many zeros. */
  lemma {:induction false} PaddedSextets(data: seq<byte>, n: nat)
    requires n == PadCount(|data|)
    ensures Sextets(data) + Zeros(n) == Sextets(data + Zeros(n))
  {
    hide Sextets, Group, First, Second, LowTwo, LowFour;
    ZeroLists();
    if |data| == 0 {
      assert data + Zeros(n) == data && Sextets(data) + Zeros(n) == Sextets(data);
    } else if |data| == 1 {
      PadOne(data[0]);
      assert data == [data[0]];
    } else if |data| == 2 {
      PadTwo(data[0], data[1]);
      assert data == [data[0], data[1]];
    } else {
      assert Padding(|data|) == Padding(|data| - 3) by { PaddingOfSum(3, |data| - 3); }
      var head, tail := data[..3], data[3..];
      PaddedSextets(tail, n);
      assert data == head + tail;
      SextetsConcat(head, tail);
      SextetsConcat(head, tail + Zeros(n));
      ConcatAssociative(Sextets(head), Sextets(tail), Zeros(n));
      ConcatAssociative(head, tail, Zeros(n));
    }
  }

  lemma PadOne(a: byte)
    ensures Sextets([a]) + [0, 0] == Sextets([a] + [0, 0])
  {
    hide Sextets, Group;
    SextetsShort(a, a);
    GroupWithZeros(a, a);
    SextetsGroup([a, 0, 0]);
    assert [a] + [0, 0] == [a, 0, 0];
  }

  lemma PadTwo(a: byte, b: byte)
    ensures Sextets([a, b]) + [0] == Sextets([a, b] + [0])
  {
    hide Sextets, Group;
    SextetsShort(a, b);
    GroupWithZeros(a, b);
    SextetsGroup([a, b, 0]);
    assert [a, b] + [0] == [a, b, 0];
  }

  lemma ValuesConcat(a: seq<nat>, b: seq<nat>)
    requires AllSignificant(a) && AllSignificant(b)
    ensures AllSignificant(a + b) && Values(a + b) == Values(a) + Values(b)
  {
    hide Significant;
    forall i | 0 <= i < |a + b|
      ensures Significant((a + b)[i])
    {
      assert (a + b)[i] == if i < |a| then a[i] else b[i - |a|];
    }
  }

  lemma PaddingValues(n: nat)
    ensures AllSignificant(Padding(n))
    ensures Values(Padding(n)) == Zeros(PadCount(n))
    ensures Pads(Padding(n)) == PadCount(n)
  {
    assert [PAD, PAD][1..] == [PAD];
    ZeroLists();
  }

  lemma LineValues(data: seq<byte>)
    ensures AllSignificant(Line(data))
    ensures Values(Line(data)) == Sextets(data) + Zeros(PadCount(|data|))
    ensures Pads(Line(data)) == PadCount(|data|)
  {
    hide Sextets, Symbols, Padding, Values, Pads;
    var symbols := Symbols(Sextets(data));
    SymbolsSignificant(Sextets(data));
    PaddingValues(|data|);
    ValuesConcat(symbols, Padding(|data|));
    PadsConcat(symbols, Padding(|data|));
  }

  lemma PaddedLength(data: seq<byte>)
    ensures (|data| + PadCount(|data|)) % 3 == 0 && PadCount(|data|) <= 2
    ensures |Zeros(PadCount(|data|))| == PadCount(|data|)
  {
    ZeroLists();
  }

  lemma DecodedLine(k: seq<nat>, data: seq<byte>, zeros: seq<byte>)
    requires AllSignificant(k) && |k| % 4 == 0 && Octets(Values(k)) == data + zeros
    requires Pads(k) == |zeros| <= 2
    ensures DecodedKept(k) == Ok(data)
  {
    hide Octets, Values, Pads;
    assert (data + zeros)[..|data + zeros| - |zeros|] == data;
  }

  /**
    Decoding undoes encoding, with line breaks or without, whatever characters outside the alphabet
    stand between the others.
  */
  lemma RoundTrip(data: seq<byte>, newlines: bool, ascii: seq<byte>)
    requires Kept(ascii) == Kept(Encoded(data, newlines))
    ensures Decoded(ascii) == Ok(data)
  {
    hide Kept, Encoded, Sextets, Values, Octets, Line, Pads, Zeros, PadCount, DecodedKept;
    var zeros := Zeros(PadCount(|data|));
    KeptEncoding(data, newlines);
    LineValues(data);
    PaddedSextets(data, PadCount(|data|));
    PaddedLength(data);
    OctetsBack(data + zeros);
    DecodedLine(Line(data), data, zeros);
  }

  /** A line has at most 76 characters, a full one exactly 76, and pads stand only at its end. */
  lemma LineShape(p: seq<byte>)
    requires |p| <= MAX_BIN
    ensures |Line(p)| <= 76 && (|p| == MAX_BIN ==> |Line(p)| == 76)
    ensures forall i :: 0 <= i < |Line(p)| ==> (Line(p)[i] == PAD <==> |Line(p)| - PadCount(|p|) <= i)
    ensures |p| == MAX_BIN ==> PadCount(|p|) == 0
    ensures PadCount(|p|) <= |Line(p)|
  {
    hide Sextets, Symbol;
    var s := Sextets(p);
    forall i | 0 <= i < |s|
      ensures Line(p)[i] != PAD
    {
      SymbolValue(s[i]);
    }
    assert forall i :: |s| <= i < |Line(p)| ==> Line(p)[i] == Padding(|p|)[i - |s|];
  }

  function Ending(newlines: bool): seq<byte> {
    if newlines then CRLF else []
  }

  lemma FirstLine(data: seq<byte>, newlines: bool)
    ensures data == [] ==> Encoded(data, newlines) == Ending(newlines)
    ensures 0 < |data| <= MAX_BIN ==> Encoded(data, newlines) == Line(data) + Ending(newlines)
    ensures |data| > MAX_BIN ==>
              && Encoded(data, newlines)
                == (Line(data[..MAX_BIN]) + Ending(newlines)) + Encoded(data[MAX_BIN..], newlines)
              && PadCount(|data|) == PadCount(|data[MAX_BIN..]|)
  {
    if |data| > MAX_BIN {
      PaddingOfSum(MAX_BIN, |data| - MAX_BIN);
    }
    hide Line, Padding;
  }

  predicate PadFree(r: seq<byte>) {
    forall i :: 0 <= i < |r| ==> r[i] != PAD
  }

  predicate PadsBetween(r: seq<byte>, low: int, high: int) {
    0 <= low && forall i :: 0 <= i < |r| ==> (r[i] == PAD <==> low <= i < high)
  }

  lemma PadsAfter(a: seq<byte>, b: seq<byte>, low: int, high: int)
    requires PadFree(a) && PadsBetween(b, low, high)
    ensures PadsBetween(a + b, |a| + low, |a| + high)
  {}

  lemma PadsBefore(a: seq<byte>, ending: seq<byte>, low: int)
    requires PadsBetween(a, low, |a|) && (ending == CRLF || ending == [])
    ensures PadsBetween(a + ending, low, |a|)
  {}

  lemma PadsOfLine(p: seq<byte>, newlines: bool)
    requires |p| <= MAX_BIN
    ensures PadsBetween(Line(p) + Ending(newlines), |Line(p)| - PadCount(|p|), |Line(p)|)
    ensures |p| == MAX_BIN ==> PadFree(Line(p) + Ending(newlines))
  {
    LineShape(p);
    hide Line, PadCount;
    PadsBefore(Line(p), Ending(newlines), |Line(p)| - PadCount(|p|));
  }

  lemma PadsOfNothing(newlines: bool)
    ensures PadCount(0) == 0 && PadsBetween(Ending(newlines), 0, 0)
  {}

  /** In the whole output pads stand only at the end of the last line. */
  lemma {:induction false} PadsAtEnd(data: seq<byte>, newlines: bool)
    ensures var r := Encoded(data, newlines);
            var end := |r| - |Ending(newlines)|;
            PadsBetween(r, end - PadCount(|data|), end)
    decreases |data|
  {
    hide Line, Encoded, Ending, PadCount, PadsBetween, PadFree;
    FirstLine(data, newlines);
    if data == [] {
      PadsOfNothing(newlines);
    } else if |data| <= MAX_BIN {
      PadsOfLine(data, newlines);
    } else {
      var a, b := data[..MAX_BIN], data[MAX_BIN..];
      PadsOfLine(a, newlines);
      PadsAtEnd(b, newlines);
      var rest := Encoded(b, newlines);
      var end := |rest| - |Ending(newlines)|;
      PadsAfter(Line(a) + Ending(newlines), rest, end - PadCount(|b|), end);
    }
  }
}
