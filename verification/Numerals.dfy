/** Decimal numerals as C prints and reads them. */
module Numerals {
  import opened Bytes
  import opened Outcomes

  const INT32_MIN := -0x8000_0000
  const INT32_MAX := 0x7FFF_FFFF

  predicate IsDigit(c: nat) {
    48 <= c <= 57
  }

  /** `isspace` in the C locale. */
  predicate IsSpace(c: nat) {
    c == 32 || 9 <= c <= 13
  }

  function Digit(d: nat): byte
    requires d < 10
  {
    48 + d
  }

  /** printf's `%i` for a nonnegative number. */
  function Digits(n: nat): (s: seq<byte>)
    ensures s != []
  {
    if n < 10 then [Digit(n)] else Digits(n / 10) + [Digit(n % 10)]
  }

  function Decimal(i: int): seq<byte> {
    if i < 0 then [45] + Digits(-i) else Digits(i)
  }

  /** How many digits a text starts with. */
  function DigitRun(s: seq<byte>): (n: nat)
    ensures n <= |s|
  {
    if s == [] || !IsDigit(s[0]) then 0 else 1 + DigitRun(s[1..])
  }

  function Number(digits: seq<byte>): int {
    if digits == [] then 0 else Number(digits[..|digits| - 1]) * 10 + (digits[|digits| - 1] as int - 48)
  }

  /**
    `strtol` in base ten on a text without leading white space: an optional sign and as many digits as
    there are.  Without digits the result is zero and nothing is consumed.
  */
  function Strtol(s: seq<byte>): (int, nat) {
    var signed := s != [] && (s[0] == 43 || s[0] == 45);
    var body := if signed then s[1..] else s;
    var n := DigitRun(body);
    if n == 0 then (0, 0)
    else if signed then (if s[0] == 45 then -Number(body[..n]) else Number(body[..n]), n + 1)
    else (Number(body[..n]), n)
  }

  /** A C string ends at the first NUL. */
  function CString(s: seq<byte>): (r: seq<byte>)
    ensures |r| <= |s|
  {
    if s == [] || s[0] == 0 then [] else [s[0]] + CString(s[1..])
  }

  /**
    Note that an empty text reads as zero: nothing is consumed and nothing is left over.  Beyond the
    range of a `long` the library reports a range error; that is beyond the limits in any case.
  */
  function Atoi(s: seq<byte>, min: int, max: int): Result<int, Fault> {
    if s != [] && IsSpace(s[0]) then Err(ParseError)
    else
      var (i, consumed) := Strtol(s);
      if i < min || i > max then Err(ParseError)
      else if consumed != |s| then Err(ParseError)
      else Ok(i)
  }

  predicate AllDigits(s: seq<byte>) {
    forall k :: 0 <= k < |s| ==> IsDigit(s[k])
  }

  lemma {:induction false} DigitsRead(n: nat)
    ensures AllDigits(Digits(n)) && Number(Digits(n)) == n
  {
    if n >= 10 {
      DigitsRead(n / 10);
      assert Digits(n)[..|Digits(n)| - 1] == Digits(n / 10);
    } else {
      assert Digits(n)[..0] == [];
    }
  }

  lemma {:induction false} DigitRunAll(s: seq<byte>)
    requires AllDigits(s)
    ensures DigitRun(s) == |s|
  {
    if s != [] {
      DigitRunAll(s[1..]);
    }
  }

  lemma {:induction false} CStringWhole(s: seq<byte>)
    requires forall k :: 0 <= k < |s| ==> s[k] != 0
    ensures CString(s) == s
  {
    if s != [] {
      CStringWhole(s[1..]);
    }
  }

  lemma {:induction false} DigitRunWhole(s: seq<byte>)
    requires DigitRun(s) == |s|
    ensures AllDigits(s)
  {
    if s != [] {
      DigitRunWhole(s[1..]);
    }
  }

  function Body(s: seq<byte>): seq<byte> {
    if s != [] && (s[0] == 43 || s[0] == 45) then s[1..] else s
  }

  function Signed(s: seq<byte>): int {
    if s != [] && s[0] == 45 then -Number(Body(s)) else Number(Body(s))
  }

  /** The texts that read as numbers: optionally signed digits within the limits, and the empty text. */
  lemma AtoiAccepts(s: seq<byte>, min: int, max: int)
    requires min <= 0 <= max
    ensures Atoi(s, min, max).Ok? <==>
            s == [] || (Body(s) != [] && AllDigits(Body(s)) && min <= Signed(s) <= max)
    ensures Atoi(s, min, max).Ok? ==> Atoi(s, min, max).value == Signed(s)
  {
    var b := Body(s);
    var n := DigitRun(b);
    if n == |b| {
      DigitRunWhole(b);
      assert b[..n] == b;
    } else if AllDigits(b) {
      DigitRunAll(b);
    }
  }

  lemma DigitsShape(n: nat)
    ensures var ds := Digits(n); AllDigits(ds) && Number(ds) == n && DigitRun(ds) == |ds| && IsDigit(ds[0])
    ensures Digits(n)[..|Digits(n)|] == Digits(n)
  {
    DigitsRead(n);
    DigitRunAll(Digits(n));
  }

  /** What is printed is read back, and it consists of a sign and digits only. */
  lemma AtoiReadsDecimal(i: int, min: int, max: int)
    requires min <= i <= max
    ensures CString(Decimal(i)) == Decimal(i) && Atoi(Decimal(i), min, max) == Ok(i)
  {
    hide Digits, Number, DigitRun, CString;
    var n := if i < 0 then -i else i;
    DigitsShape(n);
    CStringWhole(Digits(n));
    if i < 0 {
      assert Decimal(i)[1..] == Digits(n);
      CStringWhole(Decimal(i));
    }
  }
}
