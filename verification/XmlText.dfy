/** Documents as XML text: tags are spelled out and the characters of text that would be markup are escaped. */
module XmlText {
  import opened Bytes
  import opened Outcomes
  import opened Sequences
  import opened XmlTree

  const CRLF: seq<byte> := [13, 10]

  const LT: byte := 60
  const GT: byte := 62
  const AMP: byte := 38

  function Ascii(s: string): (r: seq<byte>)
    ensures |r| == |s|
  {
    seq(|s|, i requires 0 <= i < |s| => (s[i] as int) % 256)
  }

  // ----- escaping -----

  function EscapedChar(c: byte): seq<byte> {
    if c == LT then [AMP, 108, 116, 59]
    else if c == GT then [AMP, 103, 116, 59]
    else if c == AMP then [AMP, 97, 109, 112, 59]
    else [c]
  }

  function Escape(s: seq<byte>): seq<byte> {
    if s == [] then [] else EscapedChar(s[0]) + Escape(s[1..])
  }

  /** How a reader takes the three references back; None for anything else that is markup. */
  function Unescape(s: seq<byte>): Option<seq<byte>>
    decreases |s|
  {
    if s == [] then Some([])
    else if s[0] == LT || s[0] == GT then None
    else if s[0] != AMP then Preceded(s[0], Unescape(s[1..]))
    else if |s| >= 4 && s[1] == 108 && s[2] == 116 && s[3] == 59 then Preceded(LT, Unescape(s[4..]))
    else if |s| >= 4 && s[1] == 103 && s[2] == 116 && s[3] == 59 then Preceded(GT, Unescape(s[4..]))
    else if |s| >= 5 && s[1] == 97 && s[2] == 109 && s[3] == 112 && s[4] == 59 then Preceded(AMP, Unescape(s[5..]))
    else None
  }

  function Preceded(c: byte, rest: Option<seq<byte>>): Option<seq<byte>> {
    match rest
    case None => None
    case Some(s) => Some([c] + s)
  }

  lemma UnescapeOne(c: byte, rest: seq<byte>)
    ensures Unescape(EscapedChar(c) + rest) == Preceded(c, Unescape(rest))
  {
    var e := EscapedChar(c);
    assert (e + rest)[|e|..] == rest;
  }

  /** Escaped text is read back as it was, and it contains no tag. */
  lemma {:induction false} EscapeRoundTrip(s: seq<byte>)
    ensures Unescape(Escape(s)) == Some(s)
    ensures forall k :: 0 <= k < |Escape(s)| ==> Escape(s)[k] != LT && Escape(s)[k] != GT
  {
    if s != [] {
      EscapeRoundTrip(s[1..]);
      UnescapeOne(s[0], Escape(s[1..]));
      assert [s[0]] + s[1..] == s;
    }
  }

  predicate Plain(s: seq<byte>) {
    forall k :: 0 <= k < |s| ==> s[k] != LT && s[k] != GT && s[k] != AMP
  }

  lemma {:induction false} EscapePlain(s: seq<byte>)
    requires Plain(s)
    ensures Escape(s) == s
  {
    if s != [] {
      EscapePlain(s[1..]);
      assert [s[0]] + s[1..] == s;
    }
  }

  method EscapedSize(chars: seq<byte>) returns (size: nat)
    ensures size == |Escape(chars)|
  {
    size := 0;
    for i := 0 to |chars|
      invariant size + |Escape(chars[i..])| == |Escape(chars)|
    {
      assert chars[i..][1..] == chars[i + 1..];
      if chars[i] == LT {
        size := size + 4;
      } else if chars[i] == GT {
        size := size + 4;
      } else if chars[i] == AMP {
        size := size + 5;
      } else {
        size := size + 1;
      }
    }
  }

  method CopyIn(output: array<byte>, p: nat, bytes: seq<byte>) returns (next: nat)
    requires p + |bytes| <= output.Length
    modifies output
    ensures next == p + |bytes| && output[..next] == old(output[..p]) + bytes
  {
    for k := 0 to |bytes|
      invariant output[..p + k] == old(output[..p]) + bytes[..k]
    {
      output[p + k] := bytes[k];
      assert bytes[..k + 1] == bytes[..k] + [bytes[k]];
      assert output[..p + k + 1] == output[..p + k] + [bytes[k]];
    }
    assert bytes[..|bytes|] == bytes;
    next := p + |bytes|;
  }

  /** The buffer is sized in a first pass; the second pass fills it exactly. */
  method EscapeForXml(chars: seq<byte>) returns (output: array<byte>)
    ensures fresh(output) && output[..] == Escape(chars)
  {
    var size := EscapedSize(chars);
    output := new byte[size];
    var p: nat := 0;
    for i := 0 to |chars|
      invariant p + |Escape(chars[i..])| == size
      invariant output[..p] + Escape(chars[i..]) == Escape(chars)
    {
      assert chars[i..][1..] == chars[i + 1..];
      ghost var before := output[..p];
      if chars[i] == LT {
        p := CopyIn(output, p, [AMP, 108, 116, 59]);
      } else if chars[i] == GT {
        p := CopyIn(output, p, [AMP, 103, 116, 59]);
      } else if chars[i] == AMP {
        p := CopyIn(output, p, [AMP, 97, 109, 112, 59]);
      } else {
        p := CopyIn(output, p, [chars[i]]);
      }
      ConcatAssociative(before, EscapedChar(chars[i]), Escape(chars[i + 1..]));
    }
    assert output[..p] == output[..];
  }

  // ----- documents as text -----

  function Open(name: string): seq<byte> {
    Ascii("<" + name + ">")
  }

  function Shut(name: string): seq<byte> {
    Ascii("</" + name + ">")
  }

  function Render(m: Markup): seq<byte> {
    match m
    case Text(text) => Escape(text)
    case Tag(name, content) =>
      if content == [] then Ascii("<" + name + "/>") else Open(name) + RenderAll(content) + Shut(name)
  }

  function RenderAll(ms: seq<Markup>): seq<byte> {
    if ms == [] then [] else Render(ms[0]) + RenderAll(ms[1..])
  }
}
