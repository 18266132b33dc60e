/** Method signatures: lists such as `i:s,A:ii`, their grammar, and the parser that stores them as arrays. */
module Signatures {
  import opened Outcomes
  import opened Sequences
  import opened Values
  import opened HeapState
  import opened ValueHeap
  import opened HeapConverter
  import XmlText

  function TypeName(c: char): Option<string> {
    match c
    case 'i' => Some("int")
    case 'b' => Some("boolean")
    case 'd' => Some("double")
    case 's' => Some("string")
    case '8' => Some("dateTime.iso8601")
    case '6' => Some("base64")
    case 'S' => Some("struct")
    case 'A' => Some("array")
    case 'n' => Some("nil")
    case _ => None
  }

  // ----- the grammar -----

  /** The letter of the result type and those of the parameters. */
  predicate IsSignature(sig: string) {
    sig != "" && forall i :: 0 <= i < |sig| ==> TypeName(sig[i]).Some?
  }

  predicate AreSignatures(sigs: seq<string>) {
    forall i :: 0 <= i < |sigs| ==> IsSignature(sigs[i])
  }

  /** A colon follows the result type. */
  function Show(sig: string): string
    requires sig != ""
  {
    [sig[0]] + [':'] + sig[1..]
  }

  /** Signatures are separated by commas; one may also follow the last. */
  function ShowList(sigs: seq<string>, trailing: bool): string
    requires AreSignatures(sigs)
  {
    if sigs == [] then ""
    else Show(sigs[0]) + (if |sigs| > 1 || trailing then [','] else []) + ShowList(sigs[1..], trailing)
  }

  // ----- what the parser does -----

  /** The letters up to a comma or the end, `n` of them having been read already. */
  function ParseTypes(s: string, n: nat): Result<(string, string), Fault>
    decreases |s|
  {
    if s == "" || s[0] == ',' then Ok(("", s))
    else if TypeName(s[0]).None? then Err(InternalError)
    else if n == 0 && (s[1..] == "" || s[1] != ':') then Err(InternalError)
    else Preceded(s[0], ParseTypes(if n == 0 then s[2..] else s[1..], n + 1))
  }

  function Preceded(c: char, r: Result<(string, string), Fault>): Result<(string, string), Fault> {
    match r
    case Ok((types, rest)) => Ok(([c] + types, rest))
    case Err(f) => Err(f)
  }

  /** One signature and what follows its comma. */
  function ParseSignature(s: string): Result<(string, string), Fault> {
    match ParseTypes(s, 0)
    case Err(f) => Err(f)
    case Ok((types, rest)) =>
      if types == "" then Err(InternalError) else Ok((types, if rest == "" then "" else rest[1..]))
  }

  lemma {:induction false} ParseTypesShrinks(s: string, n: nat)
    ensures ParseTypes(s, n).Ok? ==>
      && |ParseTypes(s, n).value.1| + |ParseTypes(s, n).value.0| <= |s|
      && var rest := ParseTypes(s, n).value.1; rest == "" || rest[0] == ','
    decreases |s|
  {
    if s != "" && s[0] != ',' && TypeName(s[0]).Some? && (n > 0 || (s[1..] != "" && s[1] == ':')) {
      ParseTypesShrinks(if n == 0 then s[2..] else s[1..], n + 1);
    }
  }

  function ParseList(s: string): Result<seq<string>, Fault>
    decreases |s|
  {
    if s == "" then Ok([])
    else
      ParseTypesShrinks(s, 0);
      match ParseSignature(s)
      case Err(f) => Err(f)
      case Ok((sig, rest)) => FirstOf(sig, ParseList(rest))
  }

  function FirstOf(sig: string, r: Result<seq<string>, Fault>): Result<seq<string>, Fault> {
    match r
    case Ok(sigs) => Ok([sig] + sigs)
    case Err(f) => Err(f)
  }

  /** No string, or a question mark, means that nothing is known: an empty list. */
  function Parse(text: Option<string>): Result<seq<string>, Fault> {
    if text.None? || text.value == "?" then Ok([])
    else if text.value == "" then Err(InternalError)
    else ParseList(text.value)
  }

  // ----- the parser accepts the grammar -----

  lemma {:induction false} TypesShown(types: string, n: nat, rest: string)
    requires n > 0 && forall i :: 0 <= i < |types| ==> TypeName(types[i]).Some?
    requires rest == "" || rest[0] == ','
    ensures ParseTypes(types + rest, n) == Ok((types, rest))
    decreases |types|
  {
    if types == "" {
      assert "" + rest == rest;
    } else {
      assert (types + rest)[1..] == types[1..] + rest;
      TypesShown(types[1..], n + 1, rest);
      assert [types[0]] + types[1..] == types;
    }
  }

  lemma SignatureShown(sig: string, rest: string)
    requires IsSignature(sig) && (rest == "" || rest[0] == ',')
    ensures ParseSignature(Show(sig) + rest) == Ok((sig, if rest == "" then "" else rest[1..]))
  {
    var s := Show(sig) + rest;
    assert s[1] == ':' && s[2..] == sig[1..] + rest;
    TypesShown(sig[1..], 1, rest);
    assert [sig[0]] + sig[1..] == sig;
  }

  lemma {:induction false} ListShown(sigs: seq<string>, trailing: bool)
    requires AreSignatures(sigs)
    ensures ParseList(ShowList(sigs, trailing)) == Ok(sigs)
    decreases |sigs|
  {
    if sigs != [] {
      var more := ShowList(sigs[1..], trailing);
      var rest := (if |sigs| > 1 || trailing then [','] else []) + more;
      ConcatAssociative(Show(sigs[0]), if |sigs| > 1 || trailing then [','] else [], more);
      assert |sigs| == 1 ==> more == "";
      assert rest == "" || (rest[0] == ',' && rest[1..] == more);
      SignatureShown(sigs[0], rest);
      ListShown(sigs[1..], trailing);
      assert [sigs[0]] + sigs[1..] == sigs;
    }
  }

  // ----- and nothing else -----

  lemma {:induction false} TypesParsed(s: string, n: nat)
    requires n > 0 && ParseTypes(s, n).Ok?
    ensures var (types, rest) := ParseTypes(s, n).value;
            && s == types + rest && (rest == "" || rest[0] == ',')
            && forall i :: 0 <= i < |types| ==> TypeName(types[i]).Some?
    decreases |s|
  {
    if s != "" && s[0] != ',' {
      TypesParsed(s[1..], n + 1);
      var (types, rest) := ParseTypes(s[1..], n + 1).value;
      assert s == [s[0]] + s[1..];
      ConcatAssociative([s[0]], types, rest);
    }
  }

  lemma SignatureParts(s: string)
    requires ParseSignature(s).Ok?
    ensures s != "" && TypeName(s[0]).Some? && s[1..] != "" && s[1] == ':' && ParseTypes(s[2..], 1).Ok?
    ensures var (types, rest) := ParseTypes(s[2..], 1).value;
            ParseSignature(s).value == ([s[0]] + types, if rest == "" then "" else rest[1..])
  {}

  lemma Assembled(s: string, types: string, rest: string)
    requires s != "" && s[1..] != "" && s[1] == ':' && s[2..] == types + rest && (rest == "" || rest[0] == ',')
    ensures if rest == "" then s == Show([s[0]] + types) else s == Show([s[0]] + types) + [','] + rest[1..]
  {
    var sig := [s[0]] + types;
    assert sig[1..] == types;
    assert s == [s[0]] + [':'] + s[2..];
    if rest != "" {
      assert rest == [','] + rest[1..];
    }
  }

  lemma SignatureParsed(s: string)
    requires ParseSignature(s).Ok?
    ensures var (sig, more) := ParseSignature(s).value;
            IsSignature(sig) && ((more == "" && s == Show(sig)) || s == Show(sig) + [','] + more)
  {
    SignatureParts(s);
    TypesParsed(s[2..], 1);
    var (types, rest) := ParseTypes(s[2..], 1).value;
    hide ParseSignature, ParseTypes;
    Assembled(s, types, rest);
  }

  lemma {:induction false} ListParsed(s: string)
    requires ParseList(s).Ok?
    ensures var sigs := ParseList(s).value;
            AreSignatures(sigs) && (s == ShowList(sigs, false) || s == ShowList(sigs, true))
    decreases |s|
  {
    if s != "" {
      ParseTypesShrinks(s, 0);
      SignatureParsed(s);
      var (sig, more) := ParseSignature(s).value;
      ListParsed(more);
      var sigs := ParseList(more).value;
      ListCons(sig, sigs, s, more);
    }
  }

  lemma ListCons(sig: string, sigs: seq<string>, s: string, more: string)
    requires IsSignature(sig) && AreSignatures(sigs)
    requires more == ShowList(sigs, false) || more == ShowList(sigs, true)
    requires (more == "" && s == Show(sig)) || s == Show(sig) + [','] + more
    ensures AreSignatures([sig] + sigs)
    ensures s == ShowList([sig] + sigs, false) || s == ShowList([sig] + sigs, true)
  {
    assert ([sig] + sigs)[1..] == sigs;
    assert Show(sig) + [] == Show(sig);
    assert sigs != [] ==> ShowList(sigs, false) != "" && ShowList(sigs, true) != "";
    assert Show(sig) + [','] + "" == Show(sig) + [','];
  }

  /**
    The parser accepts exactly no string, a question mark, and nonempty comma-separated lists of
    signatures with or without a comma at the end; and what it returns is the list that was written.
  */
  lemma AcceptsExactly(text: string, sigs: seq<string>)
    ensures Parse(Some(text)) == Ok(sigs) <==>
            (text == "?" && sigs == [])
            || (sigs != [] && AreSignatures(sigs) && (text == ShowList(sigs, false) || text == ShowList(sigs, true)))
  {
    if Parse(Some(text)) == Ok(sigs) && text != "?" {
      ListParsed(text);
    }
    if sigs != [] && AreSignatures(sigs) {
      ListShown(sigs, false);
      ListShown(sigs, true);
      assert |ShowList(sigs, false)| >= 2 && |ShowList(sigs, true)| >= 2;
    }
  }

  // ----- the parser as it runs -----

  predicate AllTypes(types: string) {
    forall i :: 0 <= i < |types| ==> TypeName(types[i]).Some?
  }

  function NameValue(c: char): Value
    requires TypeName(c).Some?
  {
    Atom(String(XmlText.Ascii(TypeName(c).value)))
  }

  function Names(types: string): seq<Value>
    requires AllTypes(types)
  {
    seq(|types|, i requires 0 <= i < |types| => NameValue(types[i]))
  }

  function SignatureLists(sigs: seq<string>): seq<Value>
    requires AreSignatures(sigs)
  {
    seq(|sigs|, i requires 0 <= i < |sigs| => ArrayOf(Names(sigs[i])))
  }

  lemma NamesMore(types: string, c: char)
    requires AllTypes(types) && TypeName(c).Some?
    ensures AllTypes(types + [c]) && Names(types + [c]) == Names(types) + [NameValue(c)]
  {}

  lemma SignatureListsMore(sigs: seq<string>, sig: string)
    requires AreSignatures(sigs) && IsSignature(sig)
    ensures AreSignatures(sigs + [sig])
    ensures SignatureLists(sigs + [sig]) == SignatureLists(sigs) + [ArrayOf(Names(sig))]
  {}

  function AllPreceded(types: string, r: Result<(string, string), Fault>): Result<(string, string), Fault> {
    match r
    case Ok((more, rest)) => Ok((types + more, rest))
    case Err(f) => Err(f)
  }

  lemma PrecededMore(types: string, c: char, r: Result<(string, string), Fault>)
    ensures AllPreceded(types, Preceded(c, r)) == AllPreceded(types + [c], r)
  {
    if r.Ok? {
      assert types + ([c] + r.value.0) == types + [c] + r.value.0;
    }
  }

  lemma PrecededNone(r: Result<(string, string), Fault>)
    ensures AllPreceded("", r) == r && AllPreceded("", r).Ok? == r.Ok?
  {
    if r.Ok? {
      assert "" + r.value.0 == r.value.0;
    }
  }

  /**
    The name of one type is appended to the signature, and the cursor moves on; for the result type also
    past its colon.  When the colon is missing the name has been appended already.
  */
  method ParseOneTypeSpecifier(h: Heap, s: string, pos: nat, x: Addr, ghost start: State, ghost done: string)
    returns (r: Result<nat, Fault>, ghost now: string)
    requires h.Valid() && AllTypes(done) && FillingArray(start, h.Ledger(), x, Names(done))
    requires pos < |s| && s[pos] != ','
    modifies h
    ensures h.Valid() && AllTypes(now) && FillingArray(start, h.Ledger(), x, Names(now))
    ensures r.Ok? ==> pos < r.value <= |s| && now == done + [s[pos]]
    ensures r.Ok? ==>
              AllPreceded(done, ParseTypes(s[pos..], |done|)) == AllPreceded(now, ParseTypes(s[r.value..], |now|))
    ensures r.Err? ==> ParseTypes(s[pos..], |done|) == Err(r.error)
  {
    hide Consistent, FillingArray;
    var name := TypeName(s[pos]);
    now := done;
    if name.None? {
      return Err(InternalError), now;
    }
    ghost var before := h.Ledger();
    FillingIsSettled(start, before, x, Names(done));
    var typeName := NewScalar(h, String(XmlText.Ascii(name.value)));
    AppendAndRelease(h, start, before, x, Names(done), typeName, NameValue(s[pos]));
    NamesMore(done, s[pos]);
    now := done + [s[pos]];
    FillingSize(start, h.Ledger(), x, Names(now));
    var cursor := pos + 1;
    var size := |h.cells[x].content.items|;
    assert s[pos..][1..] == s[pos + 1..];
    if size == 1 {
      if cursor == |s| || s[cursor] != ':' {
        return Err(InternalError), now;
      }
      cursor := cursor + 1;
      assert s[pos..][2..] == s[pos + 2..];
    }
    PrecededMore(done, s[pos], ParseTypes(s[cursor..], |now|));
    r := Ok(cursor);
  }

  lemma FillingIsSettled(start: State, s: State, x: Addr, done: seq<Value>)
    requires FillingArray(start, s, x, done)
    ensures Settled(s)
  {}

  lemma FillingSize(start: State, s: State, x: Addr, done: seq<Value>)
    requires FillingArray(start, s, x, done)
    ensures x in s.cells && s.cells[x].content.Array? && |s.cells[x].content.items| == |done|
  {}

  /** One signature, up to its comma, becomes an array of type names. */
  method ParseOneSignature(h: Heap, s: string, pos: nat) returns (r: Result<Addr, Fault>, next: nat, ghost sig: string)
    requires h.Valid() && pos <= |s|
    modifies h
    ensures h.Valid()
    ensures r.Err? ==> ParseSignature(s[pos..]) == Err(r.error)
                       && Outcome(old(h.Ledger()), h.Ledger(), r, Err(r.error))
    ensures r.Ok? ==> next <= |s| && ParseSignature(s[pos..]) == Ok((sig, s[next..])) && IsSignature(sig)
                      && Produced(old(h.Ledger()), h.Ledger(), r.value, ArrayOf(Names(sig)))
  {
    hide Consistent;
    sig := "";
    next := pos;
    ghost var start := h.Ledger();
    var x := h.Create(Array([]));
    assert Names("") == [];
    ArrayStarted(start, h.Ledger(), x);
    PrecededNone(ParseTypes(s[pos..], 0));
    while next < |s| && s[next] != ','
      invariant h.Valid() && pos <= next <= |s|
      invariant AllTypes(sig) && FillingArray(start, h.Ledger(), x, Names(sig))
      invariant ParseTypes(s[pos..], 0) == AllPreceded(sig, ParseTypes(s[next..], |sig|))
    {
      var after;
      after, sig := ParseOneTypeSpecifier(h, s, next, x, start, sig);
      if after.Err? {
        AbandonArray(h, start, x, Names(sig));
        return Err(after.error), next, sig;
      }
      next := after.value;
    }
    assert sig + "" == sig;
    FillingSize(start, h.Ledger(), x, Names(sig));
    if |h.cells[x].content.items| < 1 {
      AbandonArray(h, start, x, Names(sig));
      return Err(InternalError), next, sig;
    }
    ArrayFilled(start, h.Ledger(), x, Names(sig));
    if next < |s| {
      assert s[next..][1..] == s[next + 1..];
      next := next + 1;
    } else {
      assert s[next..] == "";
    }
    r := Ok(x);
  }

  function ListValue(r: Result<seq<string>, Fault>): Result<Value, Fault>
    requires r.Ok? ==> AreSignatures(r.value)
  {
    match r
    case Ok(sigs) => Ok(ArrayOf(SignatureLists(sigs)))
    case Err(f) => Err(f)
  }

  lemma ParseIsSignatures(text: Option<string>)
    ensures Parse(text).Ok? ==> AreSignatures(Parse(text).value)
  {
    if text.Some? && text.value != "?" && Parse(text).Ok? {
      ListParsed(text.value);
    }
  }

  function AllFirst(sigs: seq<string>, r: Result<seq<string>, Fault>): Result<seq<string>, Fault> {
    match r
    case Ok(more) => Ok(sigs + more)
    case Err(f) => Err(f)
  }

  lemma FirstMore(sigs: seq<string>, sig: string, r: Result<seq<string>, Fault>)
    ensures AllFirst(sigs, FirstOf(sig, r)) == AllFirst(sigs + [sig], r)
  {
    if r.Ok? {
      assert sigs + ([sig] + r.value) == sigs + [sig] + r.value;
    }
  }

  lemma FirstNone(r: Result<seq<string>, Fault>)
    ensures AllFirst([], r) == r
  {
    if r.Ok? {
      assert [] + r.value == r.value;
    }
  }

  /** The list of signatures becomes an array of arrays; a fault leaves nothing behind. */
  method BuildSignatureArray(h: Heap, text: Option<string>) returns (r: Result<Addr, Fault>)
    requires h.Valid()
    modifies h
    ensures h.Valid() && (Parse(text).Ok? ==> AreSignatures(Parse(text).value))
    ensures Outcome(old(h.Ledger()), h.Ledger(), r, ListValue(Parse(text)))
  {
    hide Consistent, ParseSignature;
    ParseIsSignatures(text);
    ghost var start := h.Ledger();
    var x := h.Create(Array([]));
    ArrayStarted(start, h.Ledger(), x);
    assert SignatureLists([]) == [];
    if text.None? || text.value == "?" {
      ArrayFilled(start, h.Ledger(), x, []);
      return Ok(x);
    }
    var s := text.value;
    var pos := 0;
    ghost var done: seq<string> := [];
    FirstNone(ParseList(s));
    assert s[0..] == s;
    while pos < |s|
      invariant h.Valid() && pos <= |s| && AreSignatures(done) && (done == [] <==> pos == 0)
      invariant FillingArray(start, h.Ledger(), x, SignatureLists(done))
      invariant ParseList(s) == AllFirst(done, ParseList(s[pos..]))
    {
      ghost var before := h.Ledger();
      var signature, next, sig := ParseOneSignature(h, s, pos);
      if signature.Err? {
        SameCellsStillFilling(start, before, h.Ledger(), x, SignatureLists(done));
        AbandonArray(h, start, x, SignatureLists(done));
        return Err(signature.error);
      }
      AppendAndRelease(h, start, before, x, SignatureLists(done), signature.value, ArrayOf(Names(sig)));
      SignatureListsMore(done, sig);
      FirstMore(done, sig, ParseList(s[next..]));
      SignatureMovesOn(s, pos, next, sig);
      done := done + [sig];
      pos := next;
    }
    assert done + [] == done;
    FillingSize(start, h.Ledger(), x, SignatureLists(done));
    if |h.cells[x].content.items| < 1 {
      AbandonArray(h, start, x, SignatureLists(done));
      return Err(InternalError);
    }
    ArrayFilled(start, h.Ledger(), x, SignatureLists(done));
    r := Ok(x);
  }

  lemma SignatureMovesOn(s: string, pos: nat, next: nat, sig: string)
    requires pos < |s| && next <= |s| && ParseSignature(s[pos..]) == Ok((sig, s[next..]))
    ensures pos < next
    ensures ParseList(s[pos..]) == FirstOf(sig, ParseList(s[next..]))
  {
    ParseTypesShrinks(s[pos..], 0);
  }

  // ----- letters and names -----

  /** The nine letters and the type names they stand for. */
  lemma TypeNamesAre(c: char)
    ensures TypeName('i') == Some("int") && TypeName('b') == Some("boolean") && TypeName('d') == Some("double")
    ensures TypeName('s') == Some("string") && TypeName('8') == Some("dateTime.iso8601")
    ensures TypeName('6') == Some("base64") && TypeName('S') == Some("struct") && TypeName('A') == Some("array")
    ensures TypeName('n') == Some("nil") && (TypeName(c).Some? <==> c in "ibds86SAn")
  {}

  /** A printed list, from its first signature. */
  lemma ShownIs(sig: string, rest: seq<string>, trailing: bool)
    requires IsSignature(sig) && AreSignatures(rest)
    ensures AreSignatures([sig] + rest)
    ensures ShowList([sig] + rest, trailing) == sig[..1] + ":" + sig[1..] +
              if rest == [] then (if trailing then "," else "") else "," + ShowList(rest, trailing)
  {
    assert ([sig] + rest)[1..] == rest;
    assert sig[..1] == [sig[0]];
  }

  /** No text at all is as good as the question mark, and every other text that is not taken gets the same fault. */
  lemma RefusedAlike(text: Option<string>)
    ensures text.None? ==> Parse(text) == Ok([])
    ensures Parse(text).Err? ==> Parse(text) == Err(InternalError)
  {
    if text.Some? {
      ListFault(text.value);
    }
  }

  lemma {:induction false} ListFault(s: string)
    ensures ParseList(s).Err? ==> ParseList(s) == Err(InternalError)
    decreases |s|
  {
    if s != "" {
      TypesFault(s, 0);
      ParseTypesShrinks(s, 0);
      hide ParseTypes;
      if ParseSignature(s).Ok? {
        ListFault(ParseSignature(s).value.1);
      }
    }
  }

  lemma {:induction false} TypesFault(s: string, n: nat)
    ensures ParseTypes(s, n).Err? ==> ParseTypes(s, n) == Err(InternalError)
    decreases |s|
  {
    if s != "" && s[0] != ',' && TypeName(s[0]).Some? && (n > 0 || (s[1..] != "" && s[1] == ':')) {
      TypesFault(if n == 0 then s[2..] else s[1..], n + 1);
    }
  }

  lemma ListsAre(sigs: seq<string>, i: nat)
    requires AreSignatures(sigs) && i < |sigs|
    ensures |SignatureLists(sigs)| == |sigs| && SignatureLists(sigs)[i] == ArrayOf(Names(sigs[i]))
  {}

  /** The array of a signature holds the names of its types as strings, the result type first. */
  lemma NamesAre(sig: string, i: nat)
    requires AllTypes(sig) && i < |sig|
    ensures |Names(sig)| == |sig| && Names(sig)[i] == Atom(String(XmlText.Ascii(TypeName(sig[i]).value)))
  {}
}
