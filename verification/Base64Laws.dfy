/** The Base64 alphabet and the groups of section 6.8 of RFC 2045, written out. */
module Base64Laws {
  import opened Bytes
  import opened Outcomes
  import opened Base64

  /** The alphabet: capital letters, small letters, figures, plus and slash. */
  lemma SymbolIs(v: nat)
    requires v < 64
    ensures Symbol(v) ==
              if v < 26 then 'A' as int + v else if v < 52 then 'a' as int + (v - 26)
              else if v < 62 then '0' as int + (v - 52) else if v == 62 then '+' as int else '/' as int
  {}

  /** The 64 letters and the pad. */
  predicate IsLetter(c: nat) {
    || 'A' as int <= c <= 'Z' as int || 'a' as int <= c <= 'z' as int || '0' as int <= c <= '9' as int
    || c == '+' as int || c == '/' as int || c == '=' as int
  }

  lemma SignificantIs(c: nat)
    requires c < 128
    ensures Significant(c) <==> IsLetter(c)
    ensures IsLetter(c) ==>
              Value(c) == if 'A' as int <= c <= 'Z' as int then c - 'A' as int
              else if 'a' as int <= c <= 'z' as int then c - 'a' as int + 26
              else if '0' as int <= c <= '9' as int then c - '0' as int + 52
              else if c == '+' as int then 62 else if c == '/' as int then 63 else 0
  {}

  /** The letters of a text; the top bit of a character does not count. */
  function Letters(ascii: seq<byte>): seq<nat> {
    if ascii == [] then []
    else (if IsLetter(ascii[0] % 128) then [ascii[0] % 128] else []) + Letters(ascii[1..])
  }

  lemma {:induction false} KeptIs(ascii: seq<byte>)
    ensures Kept(ascii) == Letters(ascii)
  {
    if ascii != [] {
      SignificantIs(ascii[0] % 128);
      KeptIs(ascii[1..]);
    }
  }

  /** Any text with the letters of an encoding decodes to what was encoded, whatever else is in between. */
  lemma LettersDecode(data: seq<byte>, newlines: bool, ascii: seq<byte>)
    requires Letters(ascii) == Letters(Encoded(data, newlines))
    ensures Decoded(ascii) == Ok(data)
  {
    KeptIs(ascii);
    KeptIs(Encoded(data, newlines));
    RoundTrip(data, newlines, ascii);
  }

  // ----- groups -----

  /** Four sextets and three bytes are the same 24 bits. */
  predicate SameBits(s0: nat, s1: nat, s2: nat, s3: nat, a: nat, b: nat, c: nat) {
    && s0 < 64 && s1 < 64 && s2 < 64 && s3 < 64
    && s0 * 262144 + s1 * 4096 + s2 * 64 + s3 == a * 65536 + b * 256 + c
  }

  /** The bytes are taken three at a time; what is missing of the last three counts as zero and gives no sextets. */
  lemma SextetsAre(p: seq<byte>)
    ensures var s := Sextets(p);
            if p == [] then s == []
            else if |p| == 1 then |s| == 2 && SameBits(s[0], s[1], 0, 0, p[0], 0, 0)
            else if |p| == 2 then |s| == 3 && SameBits(s[0], s[1], s[2], 0, p[0], p[1], 0)
            else |s| >= 4 && SameBits(s[0], s[1], s[2], s[3], p[0], p[1], p[2]) && s[4..] == Sextets(p[3..])
  {
    if |p| >= 3 {
      GroupBits(p[0], p[1], p[2]);
    } else if |p| == 2 {
      GroupBits(p[0], p[1], 0);
    } else if |p| == 1 {
      GroupBits(p[0], 0, 0);
    }
  }

  lemma GroupBits(a: byte, b: byte, c: byte)
    ensures SameBits(First(a), Second(LowTwo(a), b), Third(LowFour(b), c), Fourth(c), a, b, c)
    ensures b == 0 ==> Second(LowTwo(a), b) == LowTwo(a) * 16
    ensures c == 0 ==> Third(LowFour(b), c) == LowFour(b) * 4 && Fourth(c) == 0
  {}

  lemma OctetsAre(v: seq<nat>)
    requires |v| % 4 == 0 && forall i :: 0 <= i < |v| ==> v[i] < 64
    ensures var b := Octets(v);
            if v == [] then b == []
            else |b| >= 3 && SameBits(v[0], v[1], v[2], v[3], b[0], b[1], b[2]) && b[3..] == Octets(v[4..])
  {}

  /** One pad for a missing byte. */
  lemma PaddingIs(n: nat)
    ensures Padding(n) == if n % 3 == 0 then [] else if n % 3 == 2 then ['=' as int] else ['=' as int, '=' as int]
  {}

  /** Lines of 57 bytes, each with a line ending if these are wanted; a lone line ending for nothing at all. */
  lemma LinesAre(data: seq<byte>, newlines: bool)
    ensures var ending := if newlines then [13, 10] else [];
            Encoded(data, newlines) ==
              if data == [] then ending
              else if |data| <= 57 then Symbols(Sextets(data)) + Padding(|data|) + ending
              else Symbols(Sextets(data[..57])) + ending + Encoded(data[57..], newlines)
  {
    if |data| > 57 {
      hide Symbols, Sextets;
      assert Line(data[..57]) == Symbols(Sextets(data[..57])) + [];
    }
  }

  // ----- what is accepted -----

  function PadsIn(k: seq<nat>): nat {
    if k == [] then 0 else PadsIn(k[1..]) + if k[0] == '=' as int then 1 else 0
  }

  lemma {:induction false} PadsAre(k: seq<nat>)
    ensures Pads(k) == PadsIn(k)
  {
    if k != [] {
      PadsAre(k[1..]);
    }
  }

  /**
    A text is accepted exactly when its letters come in fours and at most two of them are pads, and no
    more than there are bytes; pads count as zero bits, and a byte is taken off for each.
  */
  lemma AcceptsExactly(ascii: seq<byte>, data: seq<byte>)
    ensures var k := Letters(ascii);
            && (Decoded(ascii).Ok? <==> |k| % 4 == 0 && PadsIn(k) <= 2 && PadsIn(k) <= |k| / 4 * 3)
            && (Decoded(ascii) == Err(IncorrectPadding) <==> |k| % 4 != 0)
            && (Decoded(ascii) == Ok(data) ==>
                  AllSignificant(k) && |k| % 4 == 0 && |data| == |k| / 4 * 3 - PadsIn(k) && data <= Octets(Values(k)))
  {
    KeptIs(ascii);
    PadsAre(Kept(ascii));
    hide Octets;
  }
}
