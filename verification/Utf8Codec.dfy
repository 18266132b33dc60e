/**
  The UTF-8 codec of xmlrpc_utf8.c: strict, and limited to the Basic Multilingual Plane.  A wchar_t
  is a natural number.
*/
module Utf8Codec {
  import opened Bytes
  import opened Outcomes

  const MAX_LEGAL := 0xFFFD
  const FIRST_SURROGATE := 0xD800
  const LAST_SURROGATE := 0xDFFF
  const MAX_ENCODED_BYTES := 3

  datatype Fault =
    | Truncated
    | InvalidInitialByte
    | SequenceTooShort
    | Ucs4NotSupported
    | BeyondUcs2
    | SurrogateFound
    | Overlong
    | CannotEncodeUcs4

  /** The table `utf8_seq_length`. */
  function SequenceLength(b: byte): nat {
    if b < 0x80 then 1
    else if b < 0xC0 then 0
    else if b < 0xE0 then 2
    else if b < 0xF0 then 3
    else if b < 0xF8 then 4
    else if b < 0xFC then 5
    else if b < 0xFE then 6
    else 0
  }

  predicate IsContinuation(b: byte) {
    b / 64 == 2
  }

  function Wide2(b0: nat, b1: nat): nat {
    b0 % 32 * 64 + b1 % 64
  }

  function Wide3(b0: nat, b1: nat, b2: nat): nat {
    b0 % 16 * 4096 + b1 % 64 * 64 + b2 % 64
  }

  /** The character at the front of `s` and its length in bytes. */
  function DecodeOne(s: seq<byte>): (r: Result<(nat, nat), Fault>)
    requires s != []
    ensures r.Ok? ==> 0 < r.value.1 <= |s|
  {
    if s[0] < 0x80 then Ok((s[0], 1))
    else
      var length := SequenceLength(s[0]);
      if length > |s| then Err(Truncated)
      else if length == 0 then Err(InvalidInitialByte)
      else if length == 2 then
        if !IsContinuation(s[1]) then Err(SequenceTooShort)
        else CheckWide(Wide2(s[0], s[1]), 2)
      else if length == 3 then
        if !IsContinuation(s[1]) || !IsContinuation(s[2]) then Err(SequenceTooShort)
        else CheckWide(Wide3(s[0], s[1], s[2]), 3)
      else Err(Ucs4NotSupported)
  }

  /** The three checks on a character decoded from a sequence of two or three bytes. */
  function CheckWide(wc: nat, length: nat): (r: Result<(nat, nat), Fault>)
    requires length == 2 || length == 3
    ensures r.Ok? ==> r.value == (wc, length)
  {
    if wc > MAX_LEGAL then Err(BeyondUcs2)
    else if FIRST_SURROGATE <= wc <= LAST_SURROGATE then Err(SurrogateFound)
    else if wc < (if length == 2 then 0x80 else 0x800) then Err(Overlong)
    else Ok((wc, length))
  }

  function Decode(s: seq<byte>): (r: Result<seq<nat>, Fault>)
    ensures r.Ok? ==> |r.value| <= |s|
    decreases |s|
  {
    if s == [] then Ok([])
    else
      match DecodeOne(s)
      case Err(f) => Err(f)
      case Ok((wc, n)) =>
        match Decode(s[n..])
        case Err(f) => Err(f)
        case Ok(rest) => Ok([wc] + rest)
  }

  predicate Valid(s: seq<byte>) {
    Decode(s).Ok?
  }

  function EncodeOne(wc: nat): Option<seq<byte>> {
    if wc <= 0x7F then Some([wc])
    else if wc <= 0x7FF then Some([192 + wc / 64, 128 + wc % 64])
    else if wc <= 0xFFFF then Some([224 + wc / 4096, 128 + wc / 64 % 64, 128 + wc % 64])
    else None
  }

  function Encode(wcs: seq<nat>): (r: Result<seq<byte>, Fault>)
    ensures r.Ok? ==> |wcs| <= |r.value| <= |wcs| * MAX_ENCODED_BYTES
  {
    if wcs == [] then Ok([])
    else
      match (EncodeOne(wcs[0]), Encode(wcs[1..]))
      case (Some(head), Ok(tail)) => Ok(head + tail)
      case _ => Err(CannotEncodeUcs4)
  }

  // ----- the source's loops -----

  /**
    `decode_utf8`: validates when `buffer` is null, and otherwise stores the characters, which never
    outnumber the bytes.
  */
  method DecodeUtf8(data: seq<byte>, buffer: array?<nat>) returns (fault: Option<Fault>, length: nat)
    requires buffer != null ==> buffer.Length >= |data|
    modifies buffer
    ensures match Decode(data)
            case Err(f) => fault == Some(f) && length == 0
            case Ok(wcs) => fault == None && length == (if buffer != null then |wcs| else 0) &&
                            (buffer != null ==> buffer[..length] == wcs)
  {
    hide Decode, DecodeOne;
    var i := 0;
    length := 0;
    ghost var done: seq<nat> := [];
    DecodeFrom(data, [], data);
    while i < |data|
      invariant i <= |data| && |done| <= i
      invariant length == if buffer != null then |done| else 0
      invariant buffer != null ==> buffer[..length] == done
      invariant DecodesAs(data, done, data[i..])
    {
      DecodeStep(data, done, data[i..]);
      match DecodeOne(data[i..])
      case Err(f) =>
        return Some(f), 0;
      case Ok((wc, n)) =>
        assert data[i..][n..] == data[i + n..];
        if buffer != null {
          buffer[length] := wc;
          length := length + 1;
        }
        done := done + [wc];
        i := i + n;
    }
    DecodeDone(data, done, data[i..]);
    fault := None;
  }

  /** `done` has been decoded and `rest` is left. */
  ghost predicate DecodesAs(data: seq<byte>, done: seq<nat>, rest: seq<byte>) {
    match Decode(rest)
    case Err(f) => Decode(data) == Err(f)
    case Ok(tail) => Decode(data) == Ok(done + tail)
  }

  lemma DecodeFrom(data: seq<byte>, done: seq<nat>, rest: seq<byte>)
    requires done == [] && rest == data
    ensures DecodesAs(data, done, rest) && data[0..] == data
  {
    match Decode(data)
    case Err(_) =>
    case Ok(tail) => assert done + tail == tail;
  }

  lemma DecodeStep(data: seq<byte>, done: seq<nat>, rest: seq<byte>)
    requires rest != [] && DecodesAs(data, done, rest)
    ensures DecodeOne(rest).Err? ==> Decode(data) == Err(DecodeOne(rest).error)
    ensures DecodeOne(rest).Ok? ==>
              DecodesAs(data, done + [DecodeOne(rest).value.0], rest[DecodeOne(rest).value.1..])
  {
    hide DecodeOne;
    if DecodeOne(rest).Ok? {
      var (wc, n) := DecodeOne(rest).value;
      if Decode(rest[n..]).Ok? {
        assert done + ([wc] + Decode(rest[n..]).value) == done + [wc] + Decode(rest[n..]).value;
      }
    }
  }

  lemma DecodeDone(data: seq<byte>, done: seq<nat>, rest: seq<byte>)
    requires rest == [] && DecodesAs(data, done, rest)
    ensures Decode(data) == Ok(done)
  {
    assert done + [] == done;
  }

  method ValidateUtf8(data: seq<byte>) returns (fault: Option<Fault>)
    ensures fault == match Decode(data) case Err(f) => Some(f) case Ok(_) => None
  {
    var length;
    fault, length := DecodeUtf8(data, null);
  }

  /** `xmlrpc_utf8_to_wcs`: one wide character per input byte is room enough. */
  method Utf8ToWcs(data: seq<byte>) returns (r: Result<seq<nat>, Fault>)
    ensures r == Decode(data)
  {
    var output := new nat[|data|];
    var fault, length := DecodeUtf8(data, output);
    match fault
    case Some(f) => return Err(f);
    case None => return Ok(output[..length]);
  }

  /** Storing one character at position `used`. */
  method WriteOne(buffer: array<byte>, used0: nat, wc: nat) returns (used: nat)
    requires wc <= 0xFFFF && used0 + MAX_ENCODED_BYTES <= buffer.Length
    modifies buffer
    ensures EncodeOne(wc).Some? && used == used0 + |EncodeOne(wc).value| <= buffer.Length
    ensures buffer[..used] == old(buffer[..used0]) + EncodeOne(wc).value
  {
    if wc <= 0x7F {
      buffer[used0] := wc;
      used := used0 + 1;
    } else if wc <= 0x7FF {
      buffer[used0] := 192 + wc / 64;
      buffer[used0 + 1] := 128 + wc % 64;
      used := used0 + 2;
    } else {
      buffer[used0] := 224 + wc / 4096;
      buffer[used0 + 1] := 128 + wc / 64 % 64;
      buffer[used0 + 2] := 128 + wc % 64;
      used := used0 + 3;
    }
  }

  /** `xmlrpc_wcs_to_utf8`: the estimate of three bytes a character is never overrun. */
  method WcsToUtf8(wcs: seq<nat>) returns (r: Result<seq<byte>, Fault>)
    ensures r == Encode(wcs)
  {
    hide Encode, EncodeOne;
    var buffer := new byte[|wcs| * MAX_ENCODED_BYTES];
    var used: nat := 0;
    assert wcs[0..] == wcs;
    EncodeNone();
    for i := 0 to |wcs|
      invariant used <= i * MAX_ENCODED_BYTES
      invariant Encode(wcs).Ok? <==> Encode(wcs[i..]).Ok?
      invariant Encode(wcs).Ok? ==> Encode(wcs).value == buffer[..used] + Encode(wcs[i..]).value
      invariant Encode(wcs).Err? ==> Encode(wcs) == Err(CannotEncodeUcs4)
    {
      EncodeStep(wcs[i..]);
      assert wcs[i..][1..] == wcs[i + 1..];
      if wcs[i] > 0xFFFF {
        return Err(CannotEncodeUcs4);
      }
      used := WriteOne(buffer, used, wcs[i]);
    }
    assert wcs[|wcs|..] == [] && buffer[..used] + [] == buffer[..used];
    return Ok(buffer[..used]);
  }

  lemma EncodeNone()
    ensures Encode([]) == Ok([])
    ensures forall wcs :: Encode(wcs).Err? ==> Encode(wcs) == Err(CannotEncodeUcs4)
  {}

  lemma EncodeStep(wcs: seq<nat>)
    requires wcs != []
    ensures EncodeOne(wcs[0]).None? <==> wcs[0] > 0xFFFF
    ensures EncodeOne(wcs[0]).Some? ==> |EncodeOne(wcs[0]).value| <= 3
    ensures Encode(wcs).Ok? <==> EncodeOne(wcs[0]).Some? && Encode(wcs[1..]).Ok?
    ensures Encode(wcs).Ok? ==> Encode(wcs).value == EncodeOne(wcs[0]).value + Encode(wcs[1..]).value
  {}

  // ----- the decoder accepts exactly the encoder's output -----

  predicate Legal(wc: nat) {
    wc <= MAX_LEGAL && !(FIRST_SURROGATE <= wc <= LAST_SURROGATE)
  }

  /** A decoded character is legal and re-encodes to the very bytes it came from. */
  lemma DecodeOneSound(s: seq<byte>)
    requires s != [] && DecodeOne(s).Ok?
    ensures var (wc, n) := DecodeOne(s).value;
            Legal(wc) && EncodeOne(wc) == Some(s[..n])
  {
    var (wc, n) := DecodeOne(s).value;
    if n == 1 {
      assert s[..1] == [s[0]];
    } else if n == 2 {
      assert s[..2] == [s[0], s[1]];
    } else {
      assert s[..3] == [s[0], s[1], s[2]];
      Wide3Parts(s[0], s[1], s[2]);
      assert 0x800 <= wc <= 0xFFFF;
      assert 224 + wc / 4096 == s[0] && 128 + wc / 64 % 64 == s[1] && 128 + wc % 64 == s[2];
      assert EncodeOne(wc).value == s[..3];
    }
  }

  lemma Wide3Parts(b0: nat, b1: nat, b2: nat)
    ensures var wc := Wide3(b0, b1, b2);
            wc / 4096 == b0 % 16 && wc / 64 % 64 == b1 % 64 && wc % 64 == b2 % 64
  {
    assert Wide3(b0, b1, b2) / 64 == b0 % 16 * 64 + b1 % 64;
  }

  lemma DecodeOneComplete(wc: nat, rest: seq<byte>)
    requires Legal(wc)
    ensures EncodeOne(wc).Some?
    ensures DecodeOne(EncodeOne(wc).value + rest) == Ok((wc, |EncodeOne(wc).value|))
  {
    if wc <= 0x7F {
      assert ([wc] + rest)[0] == wc;
    } else if wc <= 0x7FF {
      var s := [192 + wc / 64, 128 + wc % 64] + rest;
      assert s[0] == 192 + wc / 64 && s[1] == 128 + wc % 64;
      assert Wide2(192 + wc / 64, 128 + wc % 64) == wc;
    } else {
      var s := [224 + wc / 4096, 128 + wc / 64 % 64, 128 + wc % 64] + rest;
      assert s[0] == 224 + wc / 4096 && s[1] == 128 + wc / 64 % 64 && s[2] == 128 + wc % 64;
      Wide3Whole(wc);
    }
  }

  lemma Wide3Whole(wc: nat)
    requires wc <= 0xFFFF
    ensures Wide3(224 + wc / 4096, 128 + wc / 64 % 64, 128 + wc % 64) == wc
  {
    assert (224 + wc / 4096) % 16 == wc / 4096;
    assert (128 + wc / 64 % 64) % 64 == wc / 64 % 64;
    assert wc / 64 == wc / 4096 * 64 + wc / 64 % 64;
  }

  lemma {:induction false} DecodeSound(s: seq<byte>)
    requires Decode(s).Ok?
    ensures forall i :: 0 <= i < |Decode(s).value| ==> Legal(Decode(s).value[i])
    ensures Encode(Decode(s).value) == Ok(s)
    decreases |s|
  {
    hide DecodeOne, EncodeOne;
    if s == [] {
    } else {
      DecodeOneSound(s);
      var (wc, n) := DecodeOne(s).value;
      DecodeSound(s[n..]);
      var rest := Decode(s[n..]).value;
      assert ([wc] + rest)[1..] == rest;
      assert s[..n] + s[n..] == s;
    }
  }

  lemma {:induction false} DecodeComplete(wcs: seq<nat>)
    requires forall i :: 0 <= i < |wcs| ==> Legal(wcs[i])
    ensures Encode(wcs).Ok? && Decode(Encode(wcs).value) == Ok(wcs)
  {
    hide DecodeOne, EncodeOne;
    if wcs == [] {
    } else {
      DecodeComplete(wcs[1..]);
      var tail := Encode(wcs[1..]).value;
      DecodeOneComplete(wcs[0], tail);
      var head := EncodeOne(wcs[0]).value;
      assert (head + tail)[|head|..] == tail;
      assert [wcs[0]] + wcs[1..] == wcs;
    }
  }

  /**
    A byte string decodes to a sequence of characters exactly when these are legal and the byte string
    is their encoding; so each accepted byte string has one reading and each legal text one spelling.
  */
  lemma DecodesExactly(s: seq<byte>, wcs: seq<nat>)
    ensures Decode(s) == Ok(wcs)
       <==> ((forall i :: 0 <= i < |wcs| ==> Legal(wcs[i])) && Encode(wcs) == Ok(s))
  {
    if Decode(s) == Ok(wcs) {
      DecodeSound(s);
    }
    if (forall i :: 0 <= i < |wcs| ==> Legal(wcs[i])) && Encode(wcs) == Ok(s) {
      DecodeComplete(wcs);
    }
  }

  // ----- texts that are converted together with the NUL behind them -----

  lemma {:induction false} EncodeEnded(wcs: seq<nat>)
    ensures Encode(wcs + [0]) == match Encode(wcs) case Ok(text) => Ok(text + [0]) case Err(f) => Err(f)
  {
    if wcs == [] {
      assert [] + [0] == [0] && [0][1..] == [];
      assert EncodeOne(0) == Some([0]) && [0] + [] == [0];
    } else {
      EncodeEnded(wcs[1..]);
      assert (wcs + [0])[1..] == wcs[1..] + [0];
      hide EncodeOne;
      if Encode(wcs).Ok? {
        var head, tail := EncodeOne(wcs[0]).value, Encode(wcs[1..]).value;
        assert head + (tail + [0]) == (head + tail) + [0];
      }
    }
  }

  lemma DecodeOneEnded(text: seq<byte>)
    requires text != []
    ensures DecodeOne(text + [0]).Ok? <==> DecodeOne(text).Ok?
    ensures DecodeOne(text).Ok? ==> DecodeOne(text + [0]) == DecodeOne(text)
  {
    assert (text + [0])[0] == text[0] && (text + [0])[|text|] == 0;
  }

  lemma {:induction false} DecodeEnded(text: seq<byte>)
    ensures Decode(text + [0]).Ok? <==> Decode(text).Ok?
    ensures Decode(text).Ok? ==> Decode(text + [0]) == Ok(Decode(text).value + [0])
    decreases |text|
  {
    if text == [] {
      var s := text + [0];
      assert s == [0] && s[1..] == [];
      assert DecodeOne(s) == Ok((0, 1)) && Decode(s[1..]) == Ok([]) && Decode(s) == Ok([0] + []);
      assert Decode(text).value + [0] == [0] + [];
    } else {
      DecodeOneEnded(text);
      hide DecodeOne;
      if DecodeOne(text).Ok? {
        var (wc, n) := DecodeOne(text).value;
        DecodeEnded(text[n..]);
        assert (text + [0])[n..] == text[n..] + [0];
        if Decode(text[n..]).Ok? {
          var rest := Decode(text[n..]).value;
          assert [wc] + (rest + [0]) == ([wc] + rest) + [0];
        }
      }
    }
  }

  lemma EncodeOneInjective(a: nat, b: nat, afterA: seq<byte>, afterB: seq<byte>)
    requires EncodeOne(a).Some? && EncodeOne(b).Some?
    requires EncodeOne(a).value + afterA == EncodeOne(b).value + afterB
    ensures a == b && afterA == afterB
  {
    var s, x, y := EncodeOne(a).value + afterA, EncodeOne(a).value, EncodeOne(b).value;
    assert s[0] == x[0] == y[0];
    assert |x| == |y|;
    assert s[..|x|] == x && s[..|y|] == y && s[|x|..] == afterA && s[|y|..] == afterB;
    if |x| == 3 {
      Wide3Whole(a);
      Wide3Whole(b);
    }
  }

  /** Two texts of wide characters with the same encoding are the same, also with characters that are not legal. */
  lemma {:induction false} EncodeInjective(a: seq<nat>, b: seq<nat>)
    requires Encode(a).Ok? && Encode(a) == Encode(b)
    ensures a == b
  {
    hide EncodeOne;
    if a != [] && b != [] {
      EncodeOneInjective(a[0], b[0], Encode(a[1..]).value, Encode(b[1..]).value);
      EncodeInjective(a[1..], b[1..]);
      assert a == [a[0]] + a[1..] && b == [b[0]] + b[1..];
    }
  }
}
