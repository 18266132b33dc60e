/** The conversions between code point arrays and UTF-8 strings of idna_convert.class.php. */
module Ucs4 {
  import opened Arith
  import opened Outcomes

  // ----- _ucs4_to_utf8 -----

  function Tail6(v: nat): nat { 128 + v % 64 }

  /** The bytes of one code point; None from 2^31 on. */
  function EncodePoint(v: nat): Option<seq<nat>> {
    if v < 128 then Some([v])
    else if v < 0x800 then Some([192 + v / 64, Tail6(v)])
    else if v < 0x1_0000 then Some([224 + v / 4096, Tail6(v / 64), Tail6(v)])
    else if v < 0x20_0000 then Some([240 + v / 0x4_0000, Tail6(v / 4096), Tail6(v / 64), Tail6(v)])
    else if v < 0x400_0000 then
      Some([248 + v / 0x100_0000, Tail6(v / 0x4_0000), Tail6(v / 4096), Tail6(v / 64), Tail6(v)])
    else if v < 0x8000_0000 then
      Some([252 + v / 0x4000_0000, Tail6(v / 0x100_0000), Tail6(v / 0x4_0000), Tail6(v / 4096),
            Tail6(v / 64), Tail6(v)])
    else None
  }

  function ToUtf8(xs: seq<nat>): (r: Option<seq<nat>>)
    ensures r.Some? <==> forall i :: 0 <= i < |xs| ==> xs[i] < 0x8000_0000
  {
    if xs == [] then Some([])
    else
      match (EncodePoint(xs[0]), ToUtf8(xs[1..]))
      case (Some(head), Some(tail)) => Some(head + tail)
      case _ => None
  }

  method Ucs4ToUtf8(input: seq<nat>) returns (r: Option<seq<nat>>)
    ensures r == ToUtf8(input)
  {
    var output := [];
    assert input[0..] == input;
    for i := 0 to |input|
      invariant ToUtf8(input).Some? <==> ToUtf8(input[i..]).Some?
      invariant ToUtf8(input).Some? ==> ToUtf8(input).value == output + ToUtf8(input[i..]).value
    {
      assert input[i..][1..] == input[i + 1..];
      assert EncodePoint(input[i]).None? ==> ToUtf8(input[i..]).None?;
      match EncodePoint(input[i])
      case Some(bytes) => output := output + bytes;
      case None => return None;
    }
    assert output + [] == output;
    return Some(output);
  }

  // ----- _utf8_to_ucs4 -----

  datatype ScanError = Malformed(at: nat) | NotUnderstood(at: nat) | OutOfRange(at: nat)

  /**
    The loop's variables: the output, whether `$mode` is 'add', whether `$test` is 'range', the start
    byte and the number of six-bit shifts the next continuation byte needs.
  */
  datatype Scan = Scan(out: seq<nat>, adding: bool, ranged: bool, start: nat, shifts: int)

  // Shifts by `6 * n` bits; the source shifts by at most 30.

  function Left(v: nat, n: nat): nat
    requires n <= 5
  {
    if n == 0 then v else if n == 1 then v * 64 else if n == 2 then v * 4096
    else if n == 3 then v * 0x4_0000 else if n == 4 then v * 0x100_0000 else v * 0x4000_0000
  }

  function Right(v: nat, n: nat): nat
    requires n <= 5
  {
    if n == 0 then v else if n == 1 then v / 64 else if n == 2 then v / 4096
    else if n == 3 then v / 0x4_0000 else if n == 4 then v / 0x100_0000 else v / 0x4000_0000
  }

  /** The bits that a right shift drops. */
  function Low(v: nat, n: nat): nat
    requires n <= 5
  {
    if n == 0 then 0 else if n == 1 then v % 64 else if n == 2 then v % 4096
    else if n == 3 then v % 0x4_0000 else if n == 4 then v % 0x100_0000 else v % 0x4000_0000
  }

  /** A start byte's payload, shifted into place, and the shifts its first continuation needs. */
  function StartByte(v: nat): (r: Option<(nat, nat)>)
    ensures r.Some? ==> r.value.1 <= 4
  {
    if v / 32 == 6 then Some(((v - 192) * 64, 0))
    else if v / 16 == 14 then Some(((v - 224) * 4096, 1))
    else if v / 8 == 30 then Some(((v - 240) * 0x4_0000, 2))
    else if v / 4 == 62 then Some(((v - 248) * 0x100_0000, 3))
    else if v / 2 == 126 then Some(((v - 252) * 0x4000_0000, 4))
    else None
  }

  ghost predicate Consistent(st: Scan) {
    st.adding ==> st.out != [] && 0 <= st.shifts <= 4
  }

  /** One byte of `_utf8_to_ucs4`, at position `at`. */
  function Step(st: Scan, v: nat, at: nat): (r: Result<Scan, ScanError>)
    requires Consistent(st)
    ensures r.Ok? ==> Consistent(r.value)
  {
    if v < 128 then
      if st.adding then Err(Malformed(at)) else Ok(st.(out := st.out + [v]))
    else if !st.adding then
      match StartByte(v)
      case None => Err(NotUnderstood(at))
      case Some((bits, shifts)) => Ok(Scan(st.out + [bits], true, true, v, shifts))
    else if st.ranged && ((v < 0xA0 && st.start == 0xE0) || (v < 0x90 && st.start == 0xF0) ||
                          (v > 0x8F && st.start == 0xF4)) then Err(OutOfRange(at))
    else if v / 64 != 2 then Err(Malformed(at))
    else
      var last := |st.out| - 1;
      var out := st.out[last := st.out[last] + Left(v - 128, st.shifts)];
      Ok(Scan(out, st.shifts > 0, false, st.start, st.shifts - 1))
  }

  function Run(st: Scan, s: seq<nat>, at: nat): (r: Result<Scan, ScanError>)
    requires Consistent(st)
    decreases |s|
  {
    if s == [] then Ok(st)
    else
      match Step(st, s[0], at)
      case Ok(next) => Run(next, s[1..], at + 1)
      case Err(e) => Err(e)
  }

  const IDLE := Scan([], false, false, 0, -1)

  /** What `_utf8_to_ucs4` returns; an unfinished last character is returned as far as it went. */
  function FromUtf8(s: seq<nat>): Result<seq<nat>, ScanError> {
    match Run(IDLE, s, 0)
    case Ok(st) => Ok(st.out)
    case Err(e) => Err(e)
  }

  method Utf8ToUcs4(input: seq<nat>) returns (r: Result<seq<nat>, ScanError>)
    ensures r == FromUtf8(input)
  {
    var output: seq<nat> := [];
    var adding, ranged := false, false;
    var start, shifts: int := 0, -1;
    assert input[0..] == input;
    for k := 0 to |input|
      invariant Consistent(Scan(output, adding, ranged, start, shifts))
      invariant Run(Scan(output, adding, ranged, start, shifts), input[k..], k) == Run(IDLE, input, 0)
    {
      assert input[k..][1..] == input[k + 1..];
      var v := input[k];
      if v < 128 {
        output := output + [v];
        if adding {
          return Err(Malformed(k));
        }
      } else if !adding {
        match StartByte(v)
        case None => return Err(NotUnderstood(k));
        case Some((bits, n)) =>
          start, adding, ranged, shifts := v, true, true, n;
          output := output + [bits];
      } else {
        if ranged {
          ranged := false;
          if (v < 0xA0 && start == 0xE0) || (v < 0x90 && start == 0xF0) || (v > 0x8F && start == 0xF4) {
            return Err(OutOfRange(k));
          }
        }
        if v / 64 == 2 {
          var last := |output| - 1;
          output := output[last := output[last] + Left(v - 128, shifts)];
          shifts := shifts - 1;
        } else {
          return Err(Malformed(k));
        }
        if shifts < 0 {
          adding := false;
        }
      }
    }
    return Ok(output);
  }

  // ----- round trip -----

  /** Above U+10FFFF the decoder refuses what the encoder writes with start byte 0xF4. */
  predicate Restorable(v: nat) {
    v < 0x8000_0000 && !(0x11_0000 <= v < 0x14_0000)
  }

  lemma {:induction false} RunConcat(st: Scan, a: seq<nat>, b: seq<nat>, at: nat)
    requires Consistent(st)
    ensures match Run(st, a, at)
            case Ok(mid) => Consistent(mid) && Run(st, a + b, at) == Run(mid, b, at + |a|)
            case Err(e) => Run(st, a + b, at) == Err(e)
    decreases |a|
  {
    if a == [] {
      assert a + b == b;
    } else {
      assert (a + b)[1..] == a[1..] + b;
      match Step(st, a[0], at)
      case Ok(next) => RunConcat(next, a[1..], b, at + 1);
      case Err(_) =>
    }
  }

  /** A continuation byte that passes the range test adds its six bits to the last code point. */
  lemma Continue(out: seq<nat>, acc: nat, ranged: bool, start: nat, shifts: nat, six: nat, at: nat)
    requires six < 64 && shifts <= 4
    ensures var st := Scan(out + [acc], true, ranged, start, shifts);
            Step(st, 128 + six, at) ==
              if ranged && ((six < 32 && start == 0xE0) || (six < 16 && start == 0xF0) ||
                            (six > 15 && start == 0xF4)) then Err(OutOfRange(at))
              else Ok(Scan(out + [acc + Left(six, shifts)], shifts > 0, false, start, shifts - 1))
  {
    var st := Scan(out + [acc], true, ranged, start, shifts);
    var last := |st.out| - 1;
    assert st.out[last := acc + Left(six, shifts)] == out + [acc + Left(six, shifts)];
  }

  lemma SplitAt(v: nat, n: nat)
    requires n <= 5
    ensures v == Left(Right(v, n), n) + Low(v, n)
  {}

  lemma NextGroup(v: nat, n: nat)
    requires n <= 4
    ensures Right(Low(v, n + 1), n) == Right(v, n) % 64
    ensures Low(Low(v, n + 1), n) == Low(v, n)
  {
    if n == 0 {
    } else if n == 1 {
      ModSplit(v, 64, 64, 4096);
    } else if n == 2 {
      ModSplit(v, 64, 4096, 0x4_0000);
    } else if n == 3 {
      ModSplit(v, 64, 0x4_0000, 0x100_0000);
    } else {
      ModSplit(v, 64, 0x100_0000, 0x4000_0000);
    }
  }

  /** The continuation bytes: the six-bit groups of `v`, from group `shifts` down. */
  function Groups(v: nat, shifts: nat): seq<nat>
    requires shifts <= 4
    decreases shifts
  {
    [Tail6(Right(v, shifts))] + if shifts == 0 then [] else Groups(v, shifts - 1)
  }

  lemma RunFirst(st: Scan, v: nat, shifts: nat, at: nat)
    requires shifts <= 4 && Consistent(st)
    ensures Run(st, Groups(v, shifts), at) ==
              match Step(st, 128 + Right(v, shifts) % 64, at)
              case Err(e) => Err(e)
              case Ok(next) => if shifts == 0 then Ok(next) else Run(next, Groups(v, shifts - 1), at + 1)
  {
    hide Step, Right;
    assert Groups(v, shifts)[1..] == if shifts == 0 then [] else Groups(v, shifts - 1);
  }

  /** Continuation bytes add their bits, unless the first one fails the range test. */
  lemma {:induction false} RunGroups(out: seq<nat>, acc: nat, v: nat, ranged: bool, start: nat, shifts: nat, at: nat)
    requires shifts <= 4
    ensures var st, six := Scan(out + [acc], true, ranged, start, shifts), Right(v, shifts) % 64;
            Run(st, Groups(v, shifts), at) ==
              if ranged && ((six < 32 && start == 0xE0) || (six < 16 && start == 0xF0) ||
                            (six > 15 && start == 0xF4)) then Err(OutOfRange(at))
              else Ok(Scan(out + [acc + Low(v, shifts + 1)], false, false, start, -1))
    decreases shifts
  {
    var six := Right(v, shifts) % 64;
    Continue(out, acc, ranged, start, shifts, six, at);
    NextGroup(v, shifts);
    SplitAt(Low(v, shifts + 1), shifts);
    assert Low(v, 0) == 0;
    RunFirst(Scan(out + [acc], true, ranged, start, shifts), v, shifts, at);
    hide Step, Left, Right, Low, Run, Groups, Tail6;
    if shifts > 0 {
      RunGroups(out, acc + Left(six, shifts), v, false, start, shifts - 1, at + 1);
    }
  }

  function Lead(v: nat, shifts: nat): nat
    requires shifts <= 4
  {
    var base := if shifts == 0 then 192 else if shifts == 1 then 224 else if shifts == 2 then 240
                else if shifts == 3 then 248 else 252;
    base + Right(v, shifts + 1)
  }

  predicate Takes(v: nat, shifts: nat) {
    if shifts == 0 then 0x80 <= v < 0x800
    else if shifts == 1 then 0x800 <= v < 0x1_0000
    else if shifts == 2 then 0x1_0000 <= v < 0x20_0000
    else if shifts == 3 then 0x20_0000 <= v < 0x400_0000
    else 0x400_0000 <= v < 0x8000_0000
  }

  lemma GroupList(v: nat)
    ensures Groups(v, 0) == [Tail6(Right(v, 0))]
    ensures Groups(v, 1) == [Tail6(Right(v, 1)), Tail6(Right(v, 0))]
    ensures Groups(v, 2) == [Tail6(Right(v, 2)), Tail6(Right(v, 1)), Tail6(Right(v, 0))]
    ensures Groups(v, 3)
         == [Tail6(Right(v, 3)), Tail6(Right(v, 2)), Tail6(Right(v, 1)), Tail6(Right(v, 0))]
    ensures Groups(v, 4)
         == [Tail6(Right(v, 4)), Tail6(Right(v, 3)), Tail6(Right(v, 2)), Tail6(Right(v, 1)), Tail6(Right(v, 0))]
  {
    hide Right, Tail6;
    assert Groups(v, 1) == [Tail6(Right(v, 1))] + Groups(v, 0);
    assert Groups(v, 2) == [Tail6(Right(v, 2))] + Groups(v, 1);
    assert Groups(v, 3) == [Tail6(Right(v, 3))] + Groups(v, 2);
    assert Groups(v, 4) == [Tail6(Right(v, 4))] + Groups(v, 3);
  }

  lemma EncodeShape(v: nat, shifts: nat)
    requires shifts <= 4 && Takes(v, shifts)
    ensures EncodePoint(v) == Some([Lead(v, shifts)] + Groups(v, shifts))
  {
    hide Groups, Tail6;
    GroupList(v);
    assert EncodePoint(v).value == [Lead(v, shifts)] + Groups(v, shifts);
  }

  /** The start byte leaves the high bits in place and announces the right number of shifts. */
  lemma LeadByte(v: nat, shifts: nat)
    requires shifts <= 4 && Takes(v, shifts)
    ensures Lead(v, shifts) >= 128
    ensures StartByte(Lead(v, shifts)) == Some((Left(Right(v, shifts + 1), shifts + 1), shifts))
  {}

  lemma RangeTest(v: nat, shifts: nat)
    requires shifts <= 4 && Takes(v, shifts)
    ensures var six, start := Right(v, shifts) % 64, Lead(v, shifts);
            ((six < 32 && start == 0xE0) || (six < 16 && start == 0xF0) || (six > 15 && start == 0xF4))
            <==> !Restorable(v)
  {}

  lemma RunMultibyte(st: Scan, v: nat, shifts: nat, at: nat)
    requires !st.adding && shifts <= 4 && Takes(v, shifts)
    ensures var start := Lead(v, shifts);
            Run(st, [start] + Groups(v, shifts), at) ==
              if Restorable(v) then Ok(Scan(st.out + [v], false, false, start, -1)) else Err(OutOfRange(at + 1))
  {
    hide Groups;
    var start, high := Lead(v, shifts), Left(Right(v, shifts + 1), shifts + 1);
    LeadByte(v, shifts);
    RangeTest(v, shifts);
    SplitAt(v, shifts + 1);
    assert ([start] + Groups(v, shifts))[1..] == Groups(v, shifts);
    RunGroups(st.out, high, v, true, start, shifts, at + 1);
  }

  /** Reading back one encoded code point. */
  lemma RunPoint(st: Scan, v: nat, at: nat)
    requires !st.adding && EncodePoint(v).Some?
    ensures var r := Run(st, EncodePoint(v).value, at);
            if Restorable(v) then r.Ok? && !r.value.adding && r.value.out == st.out + [v] else r.Err?
  {
    if v < 128 {
      assert EncodePoint(v).value[1..] == [];
    } else {
      var n := if v < 0x800 then 0 else if v < 0x1_0000 then 1 else if v < 0x20_0000 then 2
               else if v < 0x400_0000 then 3 else 4;
      EncodeShape(v, n);
      RunMultibyte(st, v, n, at);
    }
  }

  lemma {:induction false} RunPoints(st: Scan, xs: seq<nat>, at: nat)
    requires !st.adding && ToUtf8(xs).Some?
    ensures var r := Run(st, ToUtf8(xs).value, at);
            if forall i :: 0 <= i < |xs| ==> Restorable(xs[i])
            then r.Ok? && !r.value.adding && r.value.out == st.out + xs else r.Err?
    decreases |xs|
  {
    hide EncodePoint, Step, Restorable;
    if xs == [] {
    } else {
      var head := EncodePoint(xs[0]).value;
      var tail := ToUtf8(xs[1..]).value;
      RunPoint(st, xs[0], at);
      RunConcat(st, head, tail, at);
      var mid := Run(st, head, at);
      if mid.Ok? {
        RunPoints(mid.value, xs[1..], at + |head|);
        assert st.out + [xs[0]] + xs[1..] == st.out + xs;
        assert forall i :: 0 <= i < |xs| ==> xs[i] == if i == 0 then xs[0] else xs[1..][i - 1];
      }
    }
  }

  /**
    Decoding undoes encoding exactly on the sequences of code points below 2^31 outside
    0x110000..0x13FFFF.
  */
  lemma RoundTrip(xs: seq<nat>)
    ensures (ToUtf8(xs).Some? && FromUtf8(ToUtf8(xs).value) == Ok(xs))
        <==> forall i :: 0 <= i < |xs| ==> Restorable(xs[i])
  {
    if ToUtf8(xs).Some? {
      RunPoints(IDLE, xs, 0);
      assert [] + xs == xs;
    }
  }
}
