/** Which bytes the two UTF-8 codecs take, written out (RFC 3629, section 3, without the four-byte forms). */
module Utf8Laws {
  import opened Bytes
  import opened Outcomes
  import opened Utf8Codec
  import Ucs4

  /** A code point of the Basic Multilingual Plane that is no surrogate and neither U+FFFE nor U+FFFF. */
  predicate IsPoint(c: nat) {
    c <= 0xD7FF || 0xE000 <= c <= 0xFFFD
  }

  /** The bytes of one character of up to sixteen bits, in the shortest form. */
  predicate IsGroup(g: seq<nat>, c: nat) {
    || (|g| == 1 && c == g[0] < 0x80)
    || (|g| == 2 && 0xC2 <= g[0] <= 0xDF && 0x80 <= g[1] <= 0xBF && c == (g[0] - 0xC0) * 64 + (g[1] - 0x80))
    || (|g| == 3 && 0xE0 <= g[0] <= 0xEF && 0x80 <= g[1] <= 0xBF && 0x80 <= g[2] <= 0xBF && c >= 0x800
        && c == (g[0] - 0xE0) * 4096 + (g[1] - 0x80) * 64 + (g[2] - 0x80))
  }

  function Joined(groups: seq<seq<byte>>): seq<byte> {
    if groups == [] then [] else groups[0] + Joined(groups[1..])
  }

  ghost predicate AreGroups(groups: seq<seq<byte>>, wcs: seq<nat>) {
    |groups| == |wcs| && forall i :: 0 <= i < |wcs| ==> IsGroup(groups[i], wcs[i])
  }

  lemma GroupIs(g: seq<byte>, c: nat)
    ensures EncodeOne(c) == Some(g) <==> IsGroup(g, c)
  {
    if IsGroup(g, c) {
      IsGroupOf(g, c);
    }
    if EncodeOne(c) == Some(g) {
      assert c / 64 == c / 4096 * 64 + c / 64 % 64;
    }
  }

  lemma IsGroupOf(g: seq<byte>, c: nat)
    requires IsGroup(g, c)
    ensures EncodeOne(c) == Some(g)
  {
    var b: seq<nat> := g;
    if |g| == 1 {
      assert g == [g[0]];
    } else if |g| == 2 {
      assert c / 64 == b[0] - 0xC0 && c % 64 == b[1] - 0x80;
      assert g == [g[0], g[1]];
    } else {
      assert c / 64 == (b[0] - 0xE0) * 64 + (b[1] - 0x80) && c % 64 == b[2] - 0x80;
      assert c / 4096 == b[0] - 0xE0 && c / 64 % 64 == b[1] - 0x80;
      assert g == [g[0], g[1], g[2]];
    }
  }

  lemma {:induction false} GroupsEncode(groups: seq<seq<byte>>, wcs: seq<nat>)
    requires AreGroups(groups, wcs)
    ensures Encode(wcs) == Ok(Joined(groups))
  {
    hide EncodeOne, IsGroup;
    if wcs != [] {
      GroupIs(groups[0], wcs[0]);
      GroupsEncode(groups[1..], wcs[1..]);
    }
  }

  lemma {:induction false} EncodeGroups(wcs: seq<nat>) returns (groups: seq<seq<byte>>)
    requires Encode(wcs).Ok?
    ensures AreGroups(groups, wcs) && Encode(wcs) == Ok(Joined(groups))
  {
    hide EncodeOne, IsGroup;
    if wcs == [] {
      groups := [];
    } else {
      var rest := EncodeGroups(wcs[1..]);
      var g := EncodeOne(wcs[0]).value;
      GroupIs(g, wcs[0]);
      groups := [g] + rest;
      assert groups[1..] == rest;
    }
  }

  /** Text is encoded exactly when every character has sixteen bits at most, group by group. */
  lemma EncodesExactly(wcs: seq<nat>, s: seq<byte>)
    ensures Encode(wcs) == Ok(s) <==> exists groups :: AreGroups(groups, wcs) && Joined(groups) == s
    ensures Encode(wcs).Ok? <==> forall i :: 0 <= i < |wcs| ==> wcs[i] <= 0xFFFF
  {
    if Encode(wcs).Ok? {
      var groups := EncodeGroups(wcs);
    }
    if groups :| AreGroups(groups, wcs) && Joined(groups) == s {
      GroupsEncode(groups, wcs);
    }
    EncodesSmall(wcs);
  }

  lemma {:induction false} EncodesSmall(wcs: seq<nat>)
    ensures Encode(wcs).Ok? <==> forall i :: 0 <= i < |wcs| ==> wcs[i] <= 0xFFFF
  {
    if wcs != [] {
      EncodesSmall(wcs[1..]);
      assert wcs == [wcs[0]] + wcs[1..];
    }
  }

  /**
    A byte string is taken exactly when it consists of shortest forms of code points, none of them a
    surrogate or beyond U+FFFD; and these are what it is decoded to.
  */
  lemma AcceptsExactly(s: seq<byte>, wcs: seq<nat>)
    ensures Decode(s) == Ok(wcs)
       <==> (forall i :: 0 <= i < |wcs| ==> IsPoint(wcs[i]))
            && exists groups :: AreGroups(groups, wcs) && Joined(groups) == s
  {
    DecodesExactly(s, wcs);
    EncodesExactly(wcs, s);
  }

  // ----- the scanner of idna_convert.class.php -----

  /** Where a character may start: ASCII stands for itself, and a start byte tells how many bytes follow. */
  lemma StartIs(st: Ucs4.Scan, v: nat, at: nat)
    requires !st.adding
    ensures var r := Ucs4.Step(st, v, at);
            if v < 0x80 then r == Ok(st.(out := st.out + [v]))
            else if v < 0xC0 || v > 0xFD then r == Err(Ucs4.NotUnderstood(at))
            else
              var (bits, more) :=
                if v < 0xE0 then ((v - 0xC0) * 64, 0) else if v < 0xF0 then ((v - 0xE0) * 4096, 1)
                else if v < 0xF8 then ((v - 0xF0) * 0x4_0000, 2) else if v < 0xFC then ((v - 0xF8) * 0x100_0000, 3)
                else ((v - 0xFC) * 0x4000_0000, 4);
              r == Ok(Ucs4.Scan(st.out + [bits], true, true, v, more))
  {}

  /** Inside a character: only 0x80 to 0xBF may follow, and after three start bytes fewer than that. */
  lemma FollowIs(st: Ucs4.Scan, v: nat, at: nat)
    requires Ucs4.Consistent(st) && st.adding
    ensures var r, e := Ucs4.Step(st, v, at), st.out[|st.out| - 1];
            if v < 0x80 then r == Err(Ucs4.Malformed(at))
            else if st.ranged && st.start == 0xE0 && v < 0xA0 then r == Err(Ucs4.OutOfRange(at))
            else if st.ranged && st.start == 0xF0 && v < 0x90 then r == Err(Ucs4.OutOfRange(at))
            else if st.ranged && st.start == 0xF4 && v > 0x8F then r == Err(Ucs4.OutOfRange(at))
            else if v > 0xBF then r == Err(Ucs4.Malformed(at))
            else
              var place := if st.shifts == 0 then 1 else if st.shifts == 1 then 64 else if st.shifts == 2 then 4096
                           else if st.shifts == 3 then 0x4_0000 else 0x100_0000;
              && r.Ok? && !r.value.ranged && r.value.out == st.out[..|st.out| - 1] + [e + (v - 0x80) * place]
              && r.value.start == st.start && r.value.shifts == st.shifts - 1 && r.value.adding == (st.shifts > 0)
  {}
}
