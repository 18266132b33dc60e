/** From element trees back to values. */
module Converter {
  import opened Bytes
  import opened Outcomes
  import opened Values
  import opened Numerals
  import opened XmlTree
  import XmlText
  import opened Serializer
  import B64 = Base64
  import Utf8 = Utf8Codec

  /** The first child with a given name. */
  function ChildNamed(children: seq<Elem>, name: string): Option<Elem> {
    if children == [] then None
    else if children[0].name == name then Some(children[0])
    else ChildNamed(children[1..], name)
  }

  function MakeString(cdata: seq<byte>): Result<Scalar, Fault> {
    if Utf8.Valid(cdata) then Ok(String(cdata)) else Err(InvalidUtf8)
  }

  /** A typed element without children. */
  function ConvertScalar(name: string, cdata: seq<byte>, floats: Floats): Result<Scalar, Fault> {
    if name == "i4" || name == "int" then
      match Atoi(CString(cdata), INT32_MIN, INT32_MAX)
      case Ok(i) => Ok(Int(i))
      case Err(f) => Err(f)
    else if name == "string" then MakeString(cdata)
    else if name == "boolean" then
      match Atoi(CString(cdata), 0, 1)
      case Ok(i) => Ok(Bool(i != 0))
      case Err(f) => Err(f)
    else if name == "double" then
      match floats.read(CString(cdata))
      case Ok(d) => Ok(Double(d))
      case Err(f) => Err(f)
    else if name == "dateTime.iso8601" then Ok(DateTime(CString(cdata)))
    else if name == "nil" then Ok(Nil)
    else if name == "base64" then
      match B64.Decoded(cdata)
      case Ok(data) => Ok(Base64(data))
      case Err(_) => Err(ParseError)
    else Err(ParseError)
  }

  /** The value that a value element stands for, if it nests at most `maxRecursion` deep. */
  function Convert(e: Elem, maxRecursion: nat, floats: Floats): Result<Value, Fault>
    decreases e
  {
    if maxRecursion < 1 || e.name != "value" then Err(ParseError)
    else if e.children == [] then Plainly(MakeString(e.cdata))
    else if |e.children| != 1 then Err(ParseError)
    else
      var child := e.children[0];
      if child.name == "struct" then
        AsStruct(ConvertMembers(child.children, maxRecursion, [], floats))
      else if |child.children| != (if child.name == "array" then 1 else 0) then Err(ParseError)
      else if child.name == "array" then
        if child.children[0].name != "data" then Err(ParseError)
        else AsArray(ConvertItems(child.children[0].children, maxRecursion, floats))
      else Plainly(ConvertScalar(child.name, child.cdata, floats))
  }

  function AsArray(r: Result<seq<Value>, Fault>): Result<Value, Fault> {
    match r
    case Ok(vs) => Ok(ArrayOf(vs))
    case Err(f) => Err(f)
  }

  function AsStruct(r: Result<seq<Entry>, Fault>): Result<Value, Fault> {
    match r
    case Ok(es) => Ok(StructOf(es))
    case Err(f) => Err(f)
  }

  function Prepended(v: Value, r: Result<seq<Value>, Fault>): Result<seq<Value>, Fault> {
    match r
    case Ok(vs) => Ok([v] + vs)
    case Err(f) => Err(f)
  }

  function Plainly(r: Result<Scalar, Fault>): Result<Value, Fault> {
    match r
    case Ok(s) => Ok(Atom(s))
    case Err(f) => Err(f)
  }

  function ConvertItems(es: seq<Elem>, maxRecursion: nat, floats: Floats): Result<seq<Value>, Fault>
    requires maxRecursion >= 1
    decreases es
  {
    if es == [] then Ok([])
    else
      match Convert(es[0], maxRecursion - 1, floats)
      case Err(f) => Err(f)
      case Ok(v) =>
        Prepended(v, ConvertItems(es[1..], maxRecursion, floats))
  }

  /** The key and the value element of a member. */
  function MemberParts(m: Elem): Result<(seq<byte>, Elem), Fault> {
    if m.name != "member" || |m.children| != 2 then Err(ParseError)
    else
      match ChildNamed(m.children, "name")
      case None => Err(ParseError)
      case Some(name) =>
        if name.children != [] then Err(ParseError)
        else if !Utf8.Valid(name.cdata) then Err(InvalidUtf8)
        else
          match ChildNamed(m.children, "value")
          case None => Err(ParseError)
          case Some(value) => Ok((name.cdata, value))
  }

  lemma {:induction false} ChildNamedIsChild(children: seq<Elem>, name: string)
    ensures ChildNamed(children, name).Some? ==>
      exists i :: 0 <= i < |children| && children[i] == ChildNamed(children, name).value
  {
    if children != [] && children[0].name != name {
      ChildNamedIsChild(children[1..], name);
      if c :| ChildNamed(children[1..], name) == Some(c) {
        var i :| 0 <= i < |children[1..]| && children[1..][i] == c;
        assert children[i + 1] == c;
      }
    }
  }

  lemma MemberValueSmaller(m: Elem)
    ensures MemberParts(m).Ok? ==> MemberParts(m).value.1 < m
  {
    ChildNamedIsChild(m.children, "value");
  }

  function ConvertMembers(ms: seq<Elem>, maxRecursion: nat, entries: seq<Entry>, floats: Floats)
    : Result<seq<Entry>, Fault>
    requires maxRecursion >= 1
    decreases ms
  {
    if ms == [] then Ok(entries)
    else
      MemberValueSmaller(ms[0]);
      match MemberParts(ms[0])
      case Err(f) => Err(f)
      case Ok((key, value)) =>
        match Convert(value, maxRecursion - 1, floats)
        case Err(f) => Err(f)
        case Ok(v) => ConvertMembers(ms[1..], maxRecursion, SetEntry(entries, key, v), floats)
  }

  // ----- the round trip -----

  function Depth(v: Value): nat
    decreases v
  {
    match v
    case Atom(_) => 1
    case ArrayOf(vs) => 1 + ItemsDepth(vs)
    case StructOf(es) => 1 + EntriesDepth(es)
  }

  function Larger(a: nat, b: nat): nat {
    if a < b then b else a
  }

  function ItemsDepth(vs: seq<Value>): nat
    decreases vs
  {
    if vs == [] then 0 else Larger(Depth(vs[0]), ItemsDepth(vs[1..]))
  }

  function EntriesDepth(es: seq<Entry>): nat
    decreases es
  {
    if es == [] then 0
    else
      var e := es[0];
      Larger(Depth(e.value), EntriesDepth(es[1..]))
  }

  /** What a C program can store: 32-bit integers, texts that end at a NUL without one inside, distinct keys. */
  ghost predicate Storable(v: Value, floats: Floats)
    decreases v
  {
    match v
    case Atom(s) => StorableScalar(s, floats)
    case ArrayOf(vs) => forall i :: 0 <= i < |vs| ==> Storable(vs[i], floats)
    case StructOf(es) =>
      && (forall i :: 0 <= i < |es| ==> StorableEntry(es[i], floats))
      && forall i, j :: 0 <= i < j < |es| ==> es[i].key != es[j].key
  }

  ghost predicate StorableEntry(e: Entry, floats: Floats)
    decreases e
  {
    Storable(e.value, floats)
  }

  /** A pointer cannot travel, and a double only if the C library reads back what it printed. */
  ghost predicate StorableScalar(s: Scalar, floats: Floats) {
    match s
    case Int(i) => INT32_MIN <= i <= INT32_MAX
    case Double(d) => floats.read(CString(floats.show(d))) == Ok(d)
    case DateTime(stamp) => forall k :: 0 <= k < |stamp| ==> stamp[k] != 0
    case Pointer(_) => false
    case _ => true
  }

  /** Every string and every key is valid UTF-8. */
  ghost predicate AllUtf8(v: Value)
    decreases v
  {
    match v
    case Atom(s) => s.String? ==> Utf8.Valid(s.text)
    case ArrayOf(vs) => forall i :: 0 <= i < |vs| ==> AllUtf8(vs[i])
    case StructOf(es) => forall i :: 0 <= i < |es| ==> EntryUtf8(es[i])
  }

  ghost predicate EntryUtf8(e: Entry)
    decreases e
  {
    Utf8.Valid(e.key) && AllUtf8(e.value)
  }

  ghost predicate Survives(v: Value, n: nat) {
    Depth(v) <= n && AllUtf8(v)
  }

  function Trees(vs: seq<Value>, floats: Floats): seq<Elem> {
    if vs == [] then [] else [TreeOf(MarkupOf(vs[0], floats))] + Trees(vs[1..], floats)
  }

  function EntryTrees(es: seq<Entry>, floats: Floats): seq<Elem> {
    if es == [] then [] else [TreeOf(EntryMarkup(es[0], floats))] + EntryTrees(es[1..], floats)
  }

  lemma ElementsCons(m: Markup, rest: seq<Markup>)
    ensures ElementsOf([m] + rest) == (if m.Tag? then [TreeOf(m)] else []) + ElementsOf(rest)
    ensures TextOf([m] + rest) == (if m.Text? then m.text else []) + TextOf(rest)
  {
    assert ([m] + rest)[1..] == rest;
  }

  lemma {:induction false} ItemElements(vs: seq<Value>, floats: Floats)
    ensures ElementsOf(ItemsMarkup(vs, floats)) == Trees(vs, floats)
    decreases |vs|
  {
    if vs != [] {
      var m, rest := MarkupOf(vs[0], floats), ItemsMarkup(vs[1..], floats);
      assert [m, Text(XmlText.CRLF)] + rest == [m] + ([Text(XmlText.CRLF)] + rest);
      ElementsCons(m, [Text(XmlText.CRLF)] + rest);
      ElementsCons(Text(XmlText.CRLF), rest);
      ItemElements(vs[1..], floats);
    }
  }

  lemma {:induction false} EntryElements(es: seq<Entry>, floats: Floats)
    ensures ElementsOf(EntriesMarkup(es, floats)) == EntryTrees(es, floats)
    decreases |es|
  {
    if es != [] {
      var m, rest := EntryMarkup(es[0], floats), EntriesMarkup(es[1..], floats);
      assert [m, Text(XmlText.CRLF)] + rest == [m] + ([Text(XmlText.CRLF)] + rest);
      ElementsCons(m, [Text(XmlText.CRLF)] + rest);
      ElementsCons(Text(XmlText.CRLF), rest);
      EntryElements(es[1..], floats);
    }
  }

  /** The tree of an element that holds just one element, or just one text. */
  lemma TreeOfOne(outer: string, m: Markup)
    ensures TreeOf(Tag(outer, [m]))
         == if m.Tag? then Elem(outer, [], [TreeOf(m)]) else Elem(outer, m.text, [])
  {
    assert [m] + [] == [m];
    ElementsCons(m, []);
    assert ElementsOf([]) == [] && TextOf([]) == [];
  }

  lemma ArrayTree(vs: seq<Value>, floats: Floats)
    ensures var e := TreeOf(MarkupOf(ArrayOf(vs), floats));
            && e.name == "value" && |e.children| == 1 && e.children[0].name == "array"
            && |e.children[0].children| == 1 && e.children[0].children[0].name == "data"
            && e.children[0].children[0].children == Trees(vs, floats)
  {
    var items := ItemsMarkup(vs, floats);
    var data := Tag("data", [Text(XmlText.CRLF)] + items);
    TreeOfOne("value", Tag("array", [data]));
    TreeOfOne("array", data);
    ElementsCons(Text(XmlText.CRLF), items);
    ItemElements(vs, floats);
  }

  lemma StructTree(es: seq<Entry>, floats: Floats)
    ensures var e := TreeOf(MarkupOf(StructOf(es), floats));
            && e.name == "value" && |e.children| == 1 && e.children[0].name == "struct"
            && e.children[0].children == EntryTrees(es, floats)
  {
    var entries := EntriesMarkup(es, floats);
    TreeOfOne("value", Tag("struct", [Text(XmlText.CRLF)] + entries));
    ElementsCons(Text(XmlText.CRLF), entries);
    EntryElements(es, floats);
  }

  lemma EntryParts(e: Entry, floats: Floats)
    ensures TreeOf(EntryMarkup(e, floats))
         == Elem("member", XmlText.CRLF, [Elem("name", e.key, []), TreeOf(MarkupOf(e.value, floats))])
    ensures TreeOf(MarkupOf(e.value, floats)).name == "value"
  {
    var name, value := Tag("name", [Text(e.key)]), MarkupOf(e.value, floats);
    assert [name, Text(XmlText.CRLF), value] == [name] + ([Text(XmlText.CRLF)] + ([value] + []));
    ElementsCons(name, [Text(XmlText.CRLF)] + ([value] + []));
    ElementsCons(Text(XmlText.CRLF), [value] + []);
    ElementsCons(value, []);
    TreeOfOne("name", Text(e.key));
    assert [TreeOf(name)] + ([] + ([TreeOf(value)] + [])) == [TreeOf(name), TreeOf(value)];
    assert [] + (XmlText.CRLF + ([] + [])) == XmlText.CRLF;
  }

  lemma EntryTree(e: Entry, floats: Floats)
    ensures MemberParts(TreeOf(EntryMarkup(e, floats)))
         == if Utf8.Valid(e.key) then Ok((e.key, TreeOf(MarkupOf(e.value, floats)))) else Err(InvalidUtf8)
  {
    var name, value := Elem("name", e.key, []), TreeOf(MarkupOf(e.value, floats));
    EntryParts(e, floats);
    hide Utf8.Valid, EntryMarkup, TreeOf;
    assert [name, value][1..] == [value];
    assert ChildNamed([name, value], "value") == ChildNamed([name, value][1..], "value");
  }

  lemma Base64Text(data: seq<byte>)
    ensures var m := Tag("base64", [Text(XmlText.CRLF), Text(B64.Encoded(data, true))]);
            TreeOf(m).name == "base64" && TreeOf(m).children == [] && B64.Decoded(TreeOf(m).cdata) == Ok(data)
  {
    var e := B64.Encoded(data, true);
    hide B64.Kept, B64.Encoded, B64.Decoded;
    assert [Text(XmlText.CRLF), Text(e)] == [Text(XmlText.CRLF)] + ([Text(e)] + []);
    ElementsCons(Text(XmlText.CRLF), [Text(e)] + []);
    ElementsCons(Text(e), []);
    assert e + [] == e;
    B64.KeptConcat(XmlText.CRLF, e);
    B64.KeptEnding();
    assert [] + B64.Kept(e) == B64.Kept(e);
    B64.RoundTrip(data, true, XmlText.CRLF + e);
  }

  lemma NilTree()
    ensures TreeOf(Tag("nil", [])) == Elem("nil", [], [])
  {}

  lemma ScalarBack(s: Scalar, floats: Floats)
    requires StorableScalar(s, floats)
    ensures var e := TreeOf(ScalarMarkup(s, floats));
            && e.children == [] && e.name != "struct" && e.name != "array"
            && ConvertScalar(e.name, e.cdata, floats)
               == if s.String? && !Utf8.Valid(s.text) then Err(InvalidUtf8) else Ok(s)
  {
    hide Atoi, CString, Decimal, Utf8.Valid, B64.Decoded, B64.Encoded, TreeOf;
    match s {
      case Int(i) =>
        AtoiReadsDecimal(i, INT32_MIN, INT32_MAX);
        TreeOfOne("i4", Text(Decimal(i)));
      case Bool(b) =>
        var i := if b then 1 else 0;
        AtoiReadsDecimal(i, 0, 1);
        TreeOfOne("boolean", Text(Decimal(i)));
      case Double(d) => TreeOfOne("double", Text(floats.show(d)));
      case DateTime(stamp) =>
        CStringWhole(stamp);
        TreeOfOne("dateTime.iso8601", Text(stamp));
      case String(text) => TreeOfOne("string", Text(text));
      case Base64(data) => Base64Text(data);
      case Nil => NilTree();
    }
  }

  lemma AtomBack(s: Scalar, floats: Floats, n: nat)
    requires StorableScalar(s, floats)
    ensures var r := Convert(TreeOf(MarkupOf(Atom(s), floats)), n, floats);
            if Survives(Atom(s), n) then r == Ok(Atom(s)) else r.Err?
  {
    ScalarBack(s, floats);
    TreeOfOne("value", ScalarMarkup(s, floats));
    var e := TreeOf(MarkupOf(Atom(s), floats));
    assert e.children == [TreeOf(ScalarMarkup(s, floats))];
  }

  ghost predicate AllSurvive(vs: seq<Value>, n: nat) {
    forall i :: 0 <= i < |vs| ==> Survives(vs[i], n)
  }

  ghost predicate AllEntriesSurvive(es: seq<Entry>, n: nat) {
    forall i :: 0 <= i < |es| ==> Utf8.Valid(es[i].key) && Survives(es[i].value, n)
  }

  lemma {:induction false} ItemsDepthAt(vs: seq<Value>, n: nat)
    ensures ItemsDepth(vs) <= n <==> forall i :: 0 <= i < |vs| ==> Depth(vs[i]) <= n
  {
    if vs != [] {
      ItemsDepthAt(vs[1..], n);
      assert forall i :: 0 <= i < |vs[1..]| ==> vs[1..][i] == vs[i + 1];
      assert forall i :: 1 <= i < |vs| ==> vs[i] == vs[1..][i - 1];
    }
  }

  lemma {:induction false} EntriesDepthAt(es: seq<Entry>, n: nat)
    ensures EntriesDepth(es) <= n <==> forall i :: 0 <= i < |es| ==> Depth(es[i].value) <= n
  {
    if es != [] {
      EntriesDepthAt(es[1..], n);
      assert forall i :: 0 <= i < |es[1..]| ==> es[1..][i] == es[i + 1];
      assert forall i :: 1 <= i < |es| ==> es[i] == es[1..][i - 1];
    }
  }

  lemma AllSurviveSplit(vs: seq<Value>, n: nat)
    requires vs != []
    ensures AllSurvive(vs, n) <==> Survives(vs[0], n) && AllSurvive(vs[1..], n)
  {
    assert forall i :: 0 <= i < |vs[1..]| ==> vs[1..][i] == vs[i + 1];
    assert forall i :: 1 <= i < |vs| ==> vs[i] == vs[1..][i - 1];
  }

  lemma AllEntriesSurviveSplit(es: seq<Entry>, n: nat)
    requires es != []
    ensures AllEntriesSurvive(es, n) <==>
            Utf8.Valid(es[0].key) && Survives(es[0].value, n) && AllEntriesSurvive(es[1..], n)
  {
    assert forall i :: 0 <= i < |es[1..]| ==> es[1..][i] == es[i + 1];
    assert forall i :: 1 <= i < |es| ==> es[i] == es[1..][i - 1];
  }

  lemma ArraySurvives(vs: seq<Value>, n: nat)
    ensures Survives(ArrayOf(vs), n) <==> n >= 1 && AllSurvive(vs, n - 1)
  {
    if n >= 1 {
      ItemsDepthAt(vs, n - 1);
    }
  }

  lemma StructSurvives(es: seq<Entry>, n: nat)
    ensures Survives(StructOf(es), n) <==> n >= 1 && AllEntriesSurvive(es, n - 1)
  {
    if n >= 1 {
      EntriesDepthAt(es, n - 1);
      assert forall i :: 0 <= i < |es| ==> (EntryUtf8(es[i]) <==> Utf8.Valid(es[i].key) && AllUtf8(es[i].value));
    }
  }

  lemma ArrayConverts(vs: seq<Value>, floats: Floats, n: nat)
    requires n >= 1
    ensures Convert(TreeOf(MarkupOf(ArrayOf(vs), floats)), n, floats)
         == AsArray(ConvertItems(Trees(vs, floats), n, floats))
  {
    ArrayTree(vs, floats);
  }

  lemma StructConverts(es: seq<Entry>, floats: Floats, n: nat)
    requires n >= 1
    ensures Convert(TreeOf(MarkupOf(StructOf(es), floats)), n, floats)
         == AsStruct(ConvertMembers(EntryTrees(es, floats), n, [], floats))
  {
    StructTree(es, floats);
  }

  lemma NothingConverts(e: Elem, floats: Floats)
    ensures Convert(e, 0, floats).Err?
  {}

  lemma ItemsConvert(vs: seq<Value>, floats: Floats, n: nat)
    requires n >= 1 && vs != []
    ensures var first := Convert(TreeOf(MarkupOf(vs[0], floats)), n - 1, floats);
            ConvertItems(Trees(vs, floats), n, floats)
            == if first.Err? then Err(first.error)
               else Prepended(first.value, ConvertItems(Trees(vs[1..], floats), n, floats))
  {
    assert Trees(vs, floats)[1..] == Trees(vs[1..], floats);
  }

  lemma EntriesConvert(es: seq<Entry>, floats: Floats, n: nat, before: seq<Entry>)
    requires n >= 1 && es != []
    ensures var first := Convert(TreeOf(MarkupOf(es[0].value, floats)), n - 1, floats);
            ConvertMembers(EntryTrees(es, floats), n, before, floats)
            == if !Utf8.Valid(es[0].key) then Err(InvalidUtf8)
               else if first.Err? then Err(first.error)
               else ConvertMembers(EntryTrees(es[1..], floats), n, SetEntry(before, es[0].key, first.value), floats)
  {
    EntryTree(es[0], floats);
    hide Utf8.Valid, SetEntry, EntryMarkup, MemberParts, Convert;
    assert EntryTrees(es, floats)[1..] == EntryTrees(es[1..], floats);
  }

  lemma {:induction false} ItemsBack(vs: seq<Value>, floats: Floats, n: nat)
    requires n >= 1 && forall i :: 0 <= i < |vs| ==> Storable(vs[i], floats)
    ensures var r := ConvertItems(Trees(vs, floats), n, floats);
            if AllSurvive(vs, n - 1) then r == Ok(vs) else r.Err?
    decreases vs, 0
  {
    if vs != [] {
      ItemsConvert(vs, floats, n);
      AllSurviveSplit(vs, n - 1);
      hide Convert, ConvertItems, Trees, AllSurvive, Survives;
      RoundTripValue(vs[0], floats, n - 1);
      ItemsBack(vs[1..], floats, n);
      assert [vs[0]] + vs[1..] == vs;
    }
  }

  lemma {:induction false} EntriesBack(es: seq<Entry>, floats: Floats, n: nat, before: seq<Entry>)
    requires n >= 1 && KeysDistinct(before + es) && forall i :: 0 <= i < |es| ==> Storable(es[i].value, floats)
    ensures var r := ConvertMembers(EntryTrees(es, floats), n, before, floats);
            if AllEntriesSurvive(es, n - 1) then r == Ok(before + es) else r.Err?
    decreases es, 0
  {
    if es == [] {
      assert before + es == before;
    } else {
      var e := es[0];
      EntriesConvert(es, floats, n, before);
      AllEntriesSurviveSplit(es, n - 1);
      NextKeyNew(before, es);
      SetEntryNew(before, e.key, e.value);
      hide Convert, ConvertMembers, EntryTrees, AllEntriesSurvive, Survives, SetEntry, KeysDistinct, Utf8.Valid;
      RoundTripValue(e.value, floats, n - 1);
      EntriesBack(es[1..], floats, n, before + [e]);
    }
  }

  /** What is written is read back unless it nests too deep or is not UTF-8; then reading fails. */
  lemma {:induction false} RoundTripValue(v: Value, floats: Floats, n: nat)
    requires Storable(v, floats)
    ensures var r := Convert(TreeOf(MarkupOf(v, floats)), n, floats);
            if Survives(v, n) then r == Ok(v) else r.Err?
    decreases v, 1
  {
    if n == 0 {
      NothingConverts(TreeOf(MarkupOf(v, floats)), floats);
      return;
    }
    hide Convert, ConvertItems, ConvertMembers, TreeOf, MarkupOf, Survives, AllSurvive, AllEntriesSurvive;
    match v {
      case Atom(s) => AtomBack(s, floats, n);
      case ArrayOf(vs) =>
        ArrayConverts(vs, floats, n);
        ArraySurvives(vs, n);
        ItemsBack(vs, floats, n);
      case StructOf(es) =>
        forall i | 0 <= i < |es|
          ensures Storable(es[i].value, floats)
        {
          assert StorableEntry(es[i], floats);
        }
        assert [] + es == es;
        StructConverts(es, floats, n);
        StructSurvives(es, n);
        EntriesBack(es, floats, n, []);
    }
  }

  /**
    The whole way there and back: however the parser cuts the text of the serialized value, the handlers
    build a tree, and converting that tree returns the value, with the order of struct members kept,
    exactly when the value nests at most `n` deep and all its text is valid UTF-8.
  */
  lemma RoundTrip(v: Value, floats: Floats, n: nat, es: seq<Event>)
    requires Storable(v, floats)
    requires NoEmptyText(es) && Singles(es) == Singles(Events(MarkupOf(v, floats)))
    ensures Run(EMPTY, es).Some? && Run(EMPTY, es).value.root.Some?
    ensures Convert(Run(EMPTY, es).value.root.value, n, floats) == Ok(v) <==> Depth(v) <= n && AllUtf8(v)
    ensures !(Depth(v) <= n && AllUtf8(v)) ==> Convert(Run(EMPTY, es).value.root.value, n, floats).Err?
  {
    ChunkingDoesNotMatter(MarkupOf(v, floats), es);
    RoundTripValue(v, floats, n);
  }
}
